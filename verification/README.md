# Streaming and speculation in the voice server, verified

A Dafny model of the machinery in `app/server` that keeps state across fragments,
threads and drafts, and of the cJSON lists and strings the engine ships with. Run
`dafny verify dfyconfig.toml` in this directory.

The project has five parts.

1. **The live-voice runner** (`Voice*.dfy`, `VadWindows.dfy`, `HypothesisTokens.dfy`,
   `HypothesisCharacters.dfy`, `StableTracker.dfy`). `VoiceProtocol` is the two-thread protocol of `voice.cpp` as a
   state machine whose steps are lock regions; every schedule is a sequence of steps.
   `VoiceTrace` says what a good event log is, as two automata that know nothing of the
   threads. `VoiceWellFormed`, `VoiceTurns` and `VoiceHearing` prove what holds in every
   run: no run wedges, every turn is resolved once, the VAD hears everything and the gate
   judges by the loudest block. `VoiceVerdicts`, `VoiceLevels` and `VoiceTexts` say of every
   run what audio an utterance opens and ends with, when a turn is held, how the noise floor
   moves, which decode is kept as the precomputed final and where the texts come from;
   `VoiceEnds` how a session ends.
   `VoiceSafety` and `VoiceTheorems` prove order and coverage
   for every run whose discards find the worker at rest, and that no sample is lost in any.
   `VoiceGate` shows the one way to break order and coverage. `VoiceRunner` is the `Impl`
   object itself, method by method, tied to the protocol by the schedule it has followed.
2. **The wire** (`Bytes`, `Stream`, `TransferCoding`, `Chunked*`, `SizeLines`, `LenientDecoder`,
   `EventStream`, `EventFields`, `EndToEnd`). The test for a chunked request against combined field lines
   (section 5.2 of RFC 9110); the bounded de-framer of live request bodies against a
   decoder of the whole body and against the grammar of section 7.1 of RFC 9112; the
   writer of responses; the lenient decoder of the LLM client; the event-stream writer and
   parser (section 9.2.6 of the HTML standard); and the path through all of them.
3. **Speculative replies** (`Speculation`, `SpeculationLife`, `SpeculationEnds`, `ChatSpeculation`, `Replay`,
   `ReplayBuffer`, `WarmQueue`, `ReplyWriter`, `ReplyEnds`, `TerminalTail`, `SpeculationKey`). Ownership of the speculation slot and
   of the first sentence's audio, replay of a reply still being written, the writer that
   tells it to the client and primes the model with it, the newest-wins warm queue and the
   key that finds a speculation again, over all interleavings.
4. **Text machines** (`Segmenter`, `SegmentCuts`, `Scrubber`, `Sanitizer`, `SanitizedSpans`). What is cut into speech
   segments and what is scrubbed out of a reply, with nothing else lost and whatever the
   deltas; and the sanitizing of a finished reply.
5. **cJSON** (`CJsonList`, `JsonLiteral`, `JsonCharacters`, `CJsonString`). Child lists with their shared
   `prev` pointer, and the string printer and parser on real buffers (section 7 of
   RFC 8259).

Where the code keeps fields and updates them, the model is a class with those fields; each
method's `ensures` ties the new fields to a function of the old ones, and the theorems are
about that function. Two threads sharing a mutex are modelled as interleaved steps, one per
lock region (or per stretch of code that touches only its own thread's fields); audio, VAD
verdicts, decoded texts, synthesized chunks, failures and every test of the clock are
arguments of the steps, so the theorems hold for all of them. Levels are exact reals: a
block's level is the root of its mean square, and noise floor, peak, gate and quiet tail are
computed from it as the code does. The objects of the protocols carry a ghost field with the
schedule they have followed. Their other methods are the code of single steps; `Perform`
dispatches to them and extends the schedule by the step taken, so what is proved of all runs
is proved of the objects, and a `Drive` takes an object through any schedule.

Some promises do not hold of the code. Each such case is proved, by a concrete input or
run, and where the condition under which the promise holds can be told before the call, by
an if and only if:

- the noise gate's discard returns without waiting for the decode worker, so a stale decode
  can answer the next utterance (`VoiceGate.StaleFinal`); every final is its utterance's own
  in all schedules exactly if the gate is off (`VoiceGate.FinalsOwnIffNoGate`), and in every
  schedule whose discards find the worker at rest (`VoiceGate.RestedFinalsOwn`);
- a size or trailer line of exactly 8192 bytes is accepted or refused depending on whether a
  receive ends between its CR and its LF (`ChunkedFormat.PullLineExact`,
  `ChunkedFormat.SplitDecidesAtLimit`);
- the lenient decoder ends a size line at any CR: such a line is read as its size, up to
  its end, exactly if it holds no CR (`LenientDecoder.SizeLineReadIff`), and a body with
  another may still be read alike by accident (`LenientDecoder.StrayCrDiverges`);
- a payload that is empty, holds LF or ends in CR does not survive one SSE event
  (`EventStream.RoundTripIffFramable`);
- a synthesis that fails after some chunks went out makes the writer speak the sentence
  again, and nothing else does (`Speculation.FailedRunIsSpokenTwice`, `Speculation.OneVoice`);
- the segmenter's loop returns exactly if `max_segment_chars` is not 0
  (`Segmenter.LoopEndsIff`), and at every limit a forced split can depend on how the text
  was divided (`Segmenter.ForceSplitDependsOnDeltas`);
- a special-token marker can be shown after all: a star run that is let go shows one inside
  it (`Scrubber.ReleasedRunShowsAMarker`), and dropping a span can put one together
  (`Scrubber.DroppingCanMakeAMarker`); `Scrubber.MarkerShownIff` says exactly when;
- an action of more than 120 bytes is kept in a finished reply, but its closing star is then
  taken for a stray one and cut off with what follows it, if that is less than 120 bytes
  (`SanitizedSpans.LongActionLosesTheRest`);
- contents holding the key's separators make two conversations share a key
  (`SpeculationKey.SeparatorsCollide`, and exactly when: `SpeculationKey.KeyEqualIff`);
- the stable transcript can lose words already shown as stable although the committed count
  only grows (`StableTracker.StableKeptIff`), where `app/server/voice_stability.h` says that
  the committed prefix only ever grows;
- `add_item_to_array` leaves no list at all when the item's `next` was not null
  (`CJsonList.Append`);
- `cJSON_Delete` frees an item twice that two links lead to, and every item once exactly
  if there is none (`CJsonList.OnceIffUnshared`, `CJsonList.SharedChildComesTwice`);
- a print buffer of no bytes that has to grow without a reallocating hook is copied by one
  byte more than it has, and no other is (`CJsonString.PrintBuffer.Ensure`);
- the writer queues the re-priming only after it has written `llm_done`, so a reply that
  succeeded is not primed with when that write throws (`ReplyWriter.FailureBeforePriming`);
- `parse_string` accepts more than RFC 8259 allows: `parse_hex4` takes what is not
  hexadecimal for 0 (`JsonLiteral.BadHexIsAccepted`) and control characters may stand
  unescaped (`JsonLiteral.ControlIsAccepted`). It also refuses a surrogate that stands alone
  (`JsonLiteral.LoneSurrogateIsRefused`), which the grammar of the RFC admits. With
  neither of the first two, what it accepts is exactly the RFC's literals whose surrogates
  come in pairs (`JsonLiteral.AcceptedIff`).

## Model

| member | source | states |
|---|---|---|
| VoiceTurns.EveryTurnResolvedOnce | app/server/voice.cpp:268-545 | In every finished schedule of the two threads, whatever was discarded and when, each utterance has exactly one speech_started and after it either one speech_discarded, or one speech_ended and one answer (its final transcript, or the error event of a final decode that threw) |
| VoiceTurns.RunInTurn | app/server/voice.cpp:398-538 | Every run keeps that a final decode is queued or running only for the commit in progress, and that the turns of the log stand where the audio loop does |
| VoiceTheorems.EventsInOrder | app/server/voice.cpp:268-545 | At any moment of a run in which no discard met a queued or running decode, utterance ids never decrease along the log, and no event of an utterance follows its answer or its discarding |
| VoiceTheorems.FinalIsFaithful | app/server/voice.cpp:320-346 | In such a run every final transcript, precomputed or decoded at the end, decodes a prefix of its own utterance's audio, at most 7680 samples short of what the utterance ended with, and that audio was really heard since it opened |
| VoiceTheorems.RunSafe | app/server/voice.cpp:398-538 | Every such run, with any number of discards, keeps the joint invariant of mailbox, candidate, worker and log |
| VoiceTheorems.NoGateNoDiscard | app/server/voice.cpp:493-504 | With min_speech_snr at most 0 no run ever discards, so every run is such a run |
| VoiceGate.RestedFinalsOwn | app/server/voice.cpp:493-504 | In such a run every final transcript was decoded from audio of the utterance it answers, gate or no gate |
| VoiceGate.FinalsOwnIffNoGate | app/server/voice.cpp:493-538 | Over all schedules every utterance is answered with its own words exactly when min_speech_snr is at most 0 |
| VoiceGate.InOrderIffNoGate | app/server/voice.cpp:493-538 | And exactly then are all events of all schedules in order |
| VoiceGate.StaleFinal | app/server/voice.cpp:495-504 | For any setting with min_speech_snr above 0: a run of 320-sample blocks, with VAD verdicts only where a 512-sample window is full, in which a murmured utterance 1 is discarded while its decode runs and a loud enough utterance 2 is answered with it |
| VoiceWellFormed.RunNeverStuck | app/server/voice.cpp:268-300 | Neither thread's wait can deadlock: until the run has stopped some step is enabled |
| VoiceWellFormed.SomeStepEnabled | app/server/voice.cpp:407-427 | In every well-formed state that has not stopped, the worker or the audio loop can move |
| VoiceTheorems.RunLosesNothing | app/server/voice.cpp:429-483 | In every run, with discards or not, the open utterance plus the gap buffer is its preroll and every sample read since, through any number of holds and resumes |
| VoiceVerdicts.OpensWithTheLatestAudio | app/server/voice.cpp:602-609 | In every run each utterance opens with the end of all audio heard until then while no turn was open: speech_pad_ms of it, or all there is. The audio and when a turn is open are taken from the log |
| VoiceVerdicts.TurnsFollowTheVad | app/server/voice.cpp:612-623 | In every run a turn is open exactly if the VAD has reported speech since the last commit, held exactly if its last verdict was silence, and its audio is everything heard since it opened short of what was read in the hold; all read off the schedule |
| VoiceVerdicts.EndsWithoutTheHold | app/server/voice.cpp:485-505 | In every run an utterance ends with everything heard since it opened, preroll first, but the hold |
| VoiceVerdicts.SpeechResumesTheTurn | app/server/voice.cpp:474-483 | In every run speech during the hold takes the turn up again with the hold's audio, and drops what was decoded for its end |
| VoiceVerdicts.RunPreroll | app/server/voice.cpp:602-609 | Every run keeps the preroll the end of the idle audio, open turn or not |
| VoiceLevels.FloorFollowsTheRoom | app/server/voice.cpp:587-597 | In every run, for the blocks heard while no turn was open: blocks of at most level q have taken a higher noise floor at least a tenth of the way to q each and raised a lower one by at most one part in two hundred, and blocks of at least q the other way round |
| VoiceLevels.CandidateByItsTail | app/server/voice.cpp:326-346 | In every run a decode with a text is kept as the precomputed final if it was made for that or each of its last 1600 samples is below 0.004, or each below 1.5 times the floor, in magnitude; and it is not if its text is empty, or if it was not made for that and is shorter, or each of those samples is at least both |
| VoiceLevels.DecodesOnlyIfItMust | app/server/voice.cpp:460-471 | In every run a decode for the end of a turn is asked for at the hold, and once more at the commit, exactly if no valid candidate reaches to the last 7680 samples |
| VoiceLevels.RunPartials | app/server/voice.cpp:648-660 | In every run partials decode at least min_partial_audio_ms of audio |
| VoiceLevels.PartialsNeverQueueBehind | app/server/voice.cpp:398-422 | In every run what is queued is taken by the worker or replaced by the decode for a turn's end, and a partial is queued exactly if nothing is queued or running |
| VoiceTexts.FinalTextWasDecoded | app/server/voice.cpp:280-294 | In every run each final transcript's text is what the decode of its own job returned, at some moment of the schedule |
| VoiceTexts.HypothesisIsTheNewest | app/server/voice.cpp:349-353 | In every run the hypothesis the hold goes by is the text published last since the turn opened |
| VoiceEnds.EndsWithTheStream | app/server/voice.cpp:555-680 | In every run the audio loop is tearing down, or in the last commit before that, exactly if the stream has ended; from then on nothing is read, the worker is told to quit with no turn open, leaves with nothing queued and is gone when the run stops |
| VoiceTexts.UpdatesInOrder | app/server/voice.cpp:354-396 | In every run one decode reports at most one stable_transcript, then at most one partial_transcript, then at most one endpoint_likely, and any that keeps this order can follow |
| VoiceHearing.RunHears | app/server/voice.cpp:557-610 | In every run the windows given to the VAD and its backlog are all audio read, each window at its exact position; the levels used are the blocks' root mean squares; and an open turn's peak is the loudest block read since it opened |
| VoiceHearing.DiscardedIffAllBelow | app/server/voice.cpp:485-505 | In every run that has reached the gate, the turn is discarded exactly if the gate is on and positive and every block read since the turn opened is below it |
| VoiceHearing.DiscardedIffBelowEither | app/server/voice.cpp:493-504 | In every run that has reached the gate, the turn is discarded exactly if the gate is on and every block of it is below min_speech_rms, or every block below min_speech_snr times the noise floor, that level being positive |
| VoiceTheorems.PhaseAudioWasHeard | app/server/voice.cpp:598-610 | The audio the event automaton attributes to an utterance is what the log says was read since it opened |
| VoiceTrace.EachUtteranceResolvedOnce | app/server/voice.cpp:505-538 | Any log whose turns end between two utterances has each utterance started once and then discarded, or ended and answered, once |
| VoiceTrace.UtterancesNeverDecrease | app/server/voice.cpp:433 | In any accepted log the ids of a pair of events are in order |
| VoiceTrace.NothingAfterClosing | app/server/voice.cpp:496-533 | In any accepted log nothing of an utterance follows its answer or its discarding |
| VoiceTrace.FinalDecodesItsUtterance | app/server/voice.cpp:512-530 | In any accepted log a final transcript covers the audio its utterance ended with |
| VoiceSafety.StepKeepsSafe | app/server/voice.cpp:398-538 | Each step of either thread keeps the invariant, from any state that has it; the discard does if it finds nothing queued and the worker idle |
| VoiceRunner.Drive | app/server/voice.cpp:268-680 | For any schedule, the object taken through it method by method follows it exactly as far as the protocol does and is then in the state the protocol reaches; once stopped, each of its utterances was resolved once; and its log is accepted unless a discard met a busy worker |
| VoiceRunner.Runner.Perform | app/server/voice.cpp:268-680 | Whatever step is due, the object takes it and stays where its schedule leads; the VAD has then been given whole windows of all audio read, nothing of an open turn is lost, and its peak is that of the loudest block |
| VoiceRunner.Runner.Holds | app/server/voice.cpp:268-680 | What is proved of every run holds of the object's fields at every moment: what was heard, what the open turn holds and the next one will open with, the noise floor, what may be decoded, the hypothesis and the order of the log |
| VoiceRunner.Runner.FeedVad | app/server/voice.cpp:567-582 | The aggregation loop hands the VAD exactly the whole 512-sample windows of backlog plus block, with their start samples, and keeps the rest |
| VoiceRunner.Runner.TailIsQuiet | app/server/voice.cpp:330-340 | The energy loop decides whether the last 100 ms of a decode are below the larger of 0.004 and 1.5 times the noise floor |
| VoiceRunner.Runner.NextActivity | app/server/voice.cpp:612-623 | One VAD activity begins, resumes or holds the turn, as the step says |
| VoiceRunner.Runner.EnqueueDecode | app/server/voice.cpp:398-422 | The lock region of enqueue_decode: a final waits for an idle worker, a candidate replaces what is queued, a partial never queues behind anything |
| VadWindows.WindowsTileTheStream | app/server/voice.cpp:567-582 | However the audio is cut into blocks, the windows given to the VAD and the backlog tile the stream, each window at its exact start sample |
| HypothesisTokens.TokenizeText | app/server/voice_stability.cpp:31-95 | The index loop, early flushes and all, yields the tokens of the unit-by-unit specification |
| HypothesisTokens.TakeAscii | app/server/voice_stability.cpp:47-63 | The round for an ASCII byte keeps the tokens already found and still to come |
| HypothesisTokens.TakeMultibyte | app/server/voice_stability.cpp:64-91 | So does the round for a longer unit: CJK stands alone, full-width punctuation ends a token, other letters join the word |
| HypothesisTokens.PlacesIncrease | app/server/voice_stability.cpp:38-43 | No token is empty and every raw_end is strictly greater than the one before and within the text |
| HypothesisTokens.PrefixTokens | app/server/voice_stability.cpp:133-138 | The text cut at the end of its c-th token has exactly its first c tokens |
| HypothesisTokens.CaseIsIgnored | app/server/voice_stability.cpp:53-55 | Texts that differ unit by unit in ASCII case only have the same tokens in the same places |
| HypothesisTokens.PunctuationKeepsWords | app/server/voice_stability.cpp:56-59 | ASCII punctuation other than the apostrophe put in at any unit boundary changes no normalized token |
| HypothesisCharacters.TokensByCharacter | app/server/voice_stability.cpp:31-95 | The tokens of any text of whole characters, with their places: letters, digits and the apostrophe make words in lower case, longer letters join them, white space and full-width punctuation end them, each ideograph stands alone, other punctuation counts for nothing but the place; said byte by byte |
| StableTracker.CommittedIff | app/server/voice_stability.cpp:105-128 | After any updates, c tokens are committed exactly if some K consecutive hypotheses agreed on their first c words |
| StableTracker.CommittedBounds | app/server/voice_stability.cpp:105-128 | The committed count is at least the common prefix of every window of K consecutive hypotheses |
| StableTracker.CommittedAttained | app/server/voice_stability.cpp:105-128 | A positive committed count is the common prefix of some such window |
| StableTracker.CommonIsLongest | app/server/voice_stability.cpp:107-124 | The common prefix of a window is the longest on which all its hypotheses agree |
| StableTracker.SameWordsCommit | app/server/voice_stability.cpp:31-36 | Hypotheses with the same words commit the same count |
| StableTracker.StableIsTheCommittedWords | app/server/voice_stability.cpp:133-146 | When the newest hypothesis reaches the commit point, the stable text is its own prefix holding exactly the committed tokens and the tentative text is the rest without leading spaces |
| HypothesisCharacters.TextsAreExpressed | app/server/voice_stability.cpp:130-150 | After any updates, one more text is stable up to the end of its last committed token and tentative behind the spaces that follow, if it has that many tokens and they take min_stable_chars bytes; otherwise both texts stay, or all of it is tentative if nothing was stable |
| StableTracker.StableKeptIff | app/server/voice_stability.cpp:130-142 | After any updates, the stable text keeps the words it had exactly if the newest hypothesis does not reach the commit point or still begins with them |
| StableTracker.StableWithinCommitted | app/server/voice_stability.cpp:130-142 | After any updates the stable text holds at most as many words as were committed |
| StableTracker.StableCanBeRewritten | app/server/voice_stability.cpp:130-142 | "aa", "aa", "bb" with the default count: one token stays committed and the stable text turns from "aa" to "bb" |
| StableTracker.Tracker.constructor | app/server/voice_stability.cpp:17-21 | A count below one is taken as one |
| StableTracker.Tracker.Reset | app/server/voice_stability.cpp:23-29 | Forgets every hypothesis, count and text |
| StableTracker.Tracker.CommonPrefix | app/server/voice_stability.cpp:107-124 | The two loops compute the longest common word prefix of the retained hypotheses |
| StableTracker.Tracker.Retain | app/server/voice_stability.cpp:100-103 | The history is the last K hypotheses |
| StableTracker.Tracker.Express | app/server/voice_stability.cpp:130-150 | Updates stable and tentative text as the specification says, including the case where both are kept |
| StableTracker.Tracker.Update | app/server/voice_stability.cpp:97-151 | Keeps history, committed count and both texts those of everything heard since the reset; reports growth only if the new prefix was also expressed |
| StableTracker.Tracker.StableWords | app/server/voice_stability.cpp:130-142 | At every moment the tracker's stable text holds no more words than were committed |
| Stream.FragmentsDoNotMatter | app/server/llm_client.cpp:72-135 | A machine fed one byte at a time cannot tell how its input was divided into feeds |
| TransferCoding.LinesAreOneList | app/server/http.cpp:583-598 | For any field lines, the combined header value passes exactly if all lines together list the one coding "chunked": splitting "gzip, chunked" over lines hides nothing |
| TransferCoding.CodingsSplit | app/server/http.cpp:192-211 | A list cut at any of its commas lists the codings of its two parts |
| TransferCoding.CombineLines | app/server/http.cpp:588-598 | The appending of repeated lines gives the combined value |
| TransferCoding.IsChunkedOnly | app/server/http.cpp:192-211 | The loop accepts a value exactly if the codings it lists are one, "chunked" in any case |
| ChunkedFormat.SizeOfMeaning | app/server/http.cpp:420-449 | A chunk size is accepted exactly when it is all hexadecimal with a value of at most the cap, for any cap, and is that value |
| SizeLines.SizeIsRead | app/server/http.cpp:407-449 | For any cap: a number in hexadecimal digits of either case, with leading zeros, white space around it and any extension behind it, is read as that number, or refused as too large exactly if it is more than the cap |
| SizeLines.BadSizeIsRefused | app/server/http.cpp:411-449 | Nothing written is an empty size; the first byte that is no digit makes it invalid, unless the digits before it are more than the cap already |
| SizeLines.CaseDoesNotMatter | app/server/http.cpp:426-431 | Size lines that differ in the case of letters only give the same result |
| Bytes.DigitsOfEitherCase | app/server/http.cpp:426-431 | Each of the sixteen digits, in either case, is its place in the alphabet, and nothing else is a digit |
| ChunkedFormat.PullLineExact | app/server/http.cpp:367-389 | A line pulled piece by piece is the line cut from the whole input, except exactly for a line of 8192 bytes when a receive ends between its CR and LF; then it is refused |
| ChunkedFormat.SplitDecidesAtLimit | app/server/http.cpp:367-389 | That happens: any line of 8192 bytes without CR is read when it arrives with its CRLF and refused when the LF arrives by itself |
| ChunkedGrammar.BodyDecodes | app/server/http.cpp:391-496 | Every body of the chunked grammar, extensions and trailers included, decodes to its data and end of file whatever follows it |
| ChunkedGrammar.EofOnlyAfterBody | app/server/http.cpp:391-496 | End of file is reported only for an input that begins with a whole body of the grammar, last chunk and trailers included, and the payload is its data |
| ChunkedGrammar.EofIffBody | app/server/http.cpp:391-496 | Both directions: decoding ends in end of file with a payload exactly if the input begins with a body carrying it |
| ChunkedFailures.CutInSizeLine | app/server/http.cpp:398-406 | A body whose bytes end where a size line should be gives the data of the chunks before and says the peer stalled, or closed before the last chunk |
| ChunkedFailures.CutInChunk | app/server/http.cpp:472-474 | One whose bytes end inside a chunk gives the data of the chunks before and none of that chunk's |
| ChunkedFailures.CutInTrailer | app/server/http.cpp:457-461 | One whose bytes end in the trailers gives all data and says so |
| ChunkedFailures.BadSizeLine | app/server/http.cpp:413-449 | A bad size line ends it with that size line's error, after the data of the chunks before |
| ChunkedFailures.BadChunkEnd | app/server/http.cpp:475-479 | So does a chunk not followed by CR LF |
| ChunkedFailures.OverlongSizeLine | app/server/http.cpp:365-389 | So does a size line of more than 8192 bytes |
| ChunkedFailures.OverlongTrailer | app/server/http.cpp:365-389 | And a trailer line of more |
| ChunkedFailures.TooManyTrailers | app/server/http.cpp:465-468 | And trailers of more than 8192 bytes in all |
| ChunkedStreambuf.DrainBody | app/server/http.cpp:238-512 | However any body is split into prefetched bytes and receives, a reader gets exactly the decoding of the whole, same payload and same end or error; or a prefix of the payload and BodyTooLarge, only for a body over the total cap; or a prefix and OversizedLine, only for a body with a line of exactly 8192 bytes; with a chunk cap of 2^64 - 2 or more the model may also stop at a chunk size whose sum with 2 wraps. End of file is reported only if what was received by then is within the total cap |
| ChunkedStreambuf.Streambuf.constructor | app/server/http.cpp:240-247 | Starts with the prefetched bytes unread |
| ChunkedStreambuf.Streambuf.ReceiveMore | app/server/http.cpp:329-354 | One receive moves one piece from socket to buffer and checks the total cap |
| ChunkedStreambuf.Streambuf.EnsureAvailable | app/server/http.cpp:356-363 | Receives until enough is buffered, losing nothing |
| ChunkedStreambuf.Streambuf.ReadLine | app/server/http.cpp:367-389 | Pulls one line or reports why not |
| ChunkedStreambuf.Streambuf.ParseSize | app/server/http.cpp:422-449 | The two-step overflow-safe loop accepts what the size specification accepts, at any cap |
| ChunkedStreambuf.Streambuf.ParseHeader | app/server/http.cpp:407-421 | Extension dropped, trimmed, empty refused, then the size |
| ChunkedStreambuf.Streambuf.FetchLine | app/server/http.cpp:398-406 | The line read is the line cut from everything unread, or the error the decoder names, or refused if it has exactly 8192 bytes |
| ChunkedStreambuf.Streambuf.FetchTrailerLine | app/server/http.cpp:450-471 | One trailer line takes the trailer specification one line further, or ends as it does |
| ChunkedStreambuf.Streambuf.ReadTrailer | app/server/http.cpp:450-471 | The trailer loop ends as the trailer specification does, bounded at 8192 bytes |
| ChunkedStreambuf.Streambuf.PublishWindow | app/server/http.cpp:501-512 | Publishing at most 64 KiB of the chunk changes nothing of what lies ahead |
| ChunkedStreambuf.Streambuf.NextSize | app/server/http.cpp:398-449 | With the next chunk's size read, the decoding of what was unread is that of the chunk or trailer that follows; or it ends with the error given |
| ChunkedStreambuf.Streambuf.NextChunk | app/server/http.cpp:391-496 | One more chunk keeps what lies ahead, or ends with the outcome the decoder gives |
| ChunkedStreambuf.Streambuf.ServeChunk | app/server/http.cpp:472-496 | A chunk's data is served only once it and its CRLF are in |
| ChunkedStreambuf.Streambuf.LoadChunk | app/server/http.cpp:484-493 | Moving a chunk out and compacting the buffer loses no byte |
| ChunkedStreambuf.Streambuf.Underflow | app/server/http.cpp:250-270 | Serving a byte keeps what lies ahead; the body cap is checked here as well |
| ChunkedStreambuf.Streambuf.Get | app/server/http.cpp:250-270 | Each byte taken is the next byte of what lies ahead |
| ChunkedStreambuf.Streambuf.ReadAll | app/server/http.cpp:250-270 | Reading to the end yields all that lay ahead and its outcome, or a prefix when a cap or a line at the limit cuts it short |
| ChunkedWriter.HexRoundTrip | app/server/http.cpp:688-689 | The hexadecimal size written reads back as the length |
| ChunkedWriter.WritesAreBody | app/server/http.cpp:684-697 | What the writer sends for any writes is a body of the grammar whose payload is the writes in order |
| ChunkedWriter.WriterRoundTrip | app/server/http.cpp:684-697 | The strict decoder reads the writes back and reports end of file after them |
| ChunkedWriter.ChunkedHttpStreamWriter.Write | app/server/http.cpp:684-693 | Sends one chunk, and nothing for empty data |
| ChunkedWriter.ChunkedHttpStreamWriter.Finish | app/server/http.cpp:695-697 | Sends the last chunk |
| LenientDecoder.DecodersAgree | app/server/llm_client.cpp:72-135 | On every body the strict decoder accepts whose size lines hold no CR, the lenient decoder gives the same payload and is done, with extensions, padding, leading zeros and trailers |
| LenientDecoder.SizeLineReadIff | app/server/llm_client.cpp:77-103 | For every size line and output: once the line and its CRLF are in, the decoder has its size, and is at the start of the data or of the trailers, exactly if the line holds no CR |
| LenientDecoder.StrayCrDiverges | app/server/llm_client.cpp:77-83 | For the body of one chunk with a CR in its size line's extension, the strict decoder reads the chunk's byte; the lenient one the same exactly if that byte is itself CR |
| LenientDecoder.DoneIsFinal | app/server/llm_client.cpp:74 | Once done, nothing more is taken |
| LenientDecoder.ChunkedBodyDecoder.FeedBytes | app/server/llm_client.cpp:72-135 | The loop, taking chunk data in blocks, is the byte machine on the fragment |
| LenientDecoder.ChunkedBodyDecoder.ReadDigits | app/server/llm_client.cpp:91-99 | The size loop skips what is not hexadecimal and wraps at 64 bits |
| EventStream.RoundTripIffFramable | app/server/llm_client.cpp:184-220 | A payload comes back as the one event it was sent as exactly if it is not empty, holds no LF and does not end in CR |
| EventStream.EventsRoundTrip | app/server/runtime.cpp:404-410 | Any sequence of framable payloads written as events is dispatched in order |
| EventFields.EventIsDispatched | app/server/llm_client.cpp:184-220 | An event of any lines, data with or without the space, comments and other fields, ended by LF or CR LF, dispatches its values with a line feed between any two, from the first one on that is not empty; or nothing if all are |
| EventFields.OtherLineIsIgnored | app/server/llm_client.cpp:204-216 | A line that carries no data changes nothing, wherever it stands |
| EventStream.HeldBounded | app/server/llm_client.cpp:184-220 | The parser never holds or hands out more bytes than it was fed |
| EventStream.SseDeltaParser.HandleLine | app/server/llm_client.cpp:193-216 | One line dispatches or extends the event as the machine does |
| EventStream.SseDeltaParser.FeedBytes | app/server/llm_client.cpp:184-220 | The buffered line loop is the byte machine on the fragment, and returns exactly the events newly dispatched |
| EndToEnd.PayloadsArrive | app/server/runtime.cpp:404-410 | Framable payloads written as chunked SSE arrive in order under every cut of the wire, and the decoder is done at the last byte and not before |
| EndToEnd.NotDoneEarly | app/server/llm_client.cpp:122-129 | No proper prefix of the wire makes the decoder done |
| EndToEnd.WriteSse | app/server/runtime.cpp:404-406 | One event is one write |
| EndToEnd.SendAll | app/server/runtime.cpp:404-410 | Writing the payloads and finishing puts exactly the wire on the socket |
| EndToEnd.ReceiveFragment | app/server/llm_client.cpp:437-445 | One receive keeps decoder and parser those of all data so far |
| EndToEnd.ReceiveWire | app/server/llm_client.cpp:434-469 | Through the two objects, any cut of the wire gives exactly the payloads' events in order, and done |
| Speculation.EachSpeculationHasOneFate | app/server/runtime.cpp:2849-2870 | Over all runs the registered speculation is neither aborted nor handed out, none is handed to two sends, and every other one is aborted or finished and failed |
| Speculation.SendGetsItsOwn | app/server/runtime.cpp:3035-3069 | A send is given the registered speculation exactly if its key matches and it has not failed, never an aborted one, and the slot is empty afterwards |
| Speculation.OneWorkerStreams | app/server/runtime.cpp:2992-3003 | At most one worker streams at a time |
| SpeculationEnds.EverySpeculationEnds | app/server/runtime.cpp:2900-3031 | In every run every speculation can come to its end, its worker gone and no synthesis left, by steps of its own threads and of the worker that holds the stream: no two wait for each other |
| SpeculationEnds.WriterIsNotLeftWaiting | app/server/runtime.cpp:3331-3358 | A writer that follows the audio of a speculation that has come to its end is served, or speaks the sentence itself, after two looks |
| SpeculationLife.AbortedStaysQuiet | app/server/runtime.cpp:2892-3031 | In every run, whatever the step: once a speculation is aborted its worker does not start to stream and takes one token more at most, and no synthesis of it claims the audio or is started that was not about to |
| SpeculationLife.OthersGoOn | app/server/runtime.cpp:2886-3003 | What is not aborted goes on: its worker streams and takes tokens, and a synthesis with something to say claims the audio |
| SpeculationLife.AbortedIff | app/server/runtime.cpp:2862-2871 | In every run a step aborts a speculation exactly if it displaces the registered one with another draft, or the client its reply is told to has gone |
| SpeculationLife.LifeFollowsTheStream | app/server/runtime.cpp:2965-3024 | In every run the early synthesis has been started exactly if one was asked for and a sentence is complete, the published outcome is that of the stream, and the fallback has been started only for a reply that succeeded |
| SpeculationLife.FallbackIff | app/server/runtime.cpp:3025-3031 | When its worker is through, the fallback is started exactly if the reply succeeded and nothing has aborted it by then |
| Speculation.OneVoice | app/server/runtime.cpp:3304-3371 | At most one speculative synthesis ever runs per speculation; when the writer speaks the first sentence itself none is running; served from the speculation, it delivered every chunk of a finished run; and once some of it was delivered the writer says it again exactly if the run failed |
| Speculation.FailedRunIsSpokenTwice | app/server/runtime.cpp:3343-3371 | There is a run in which the writer synthesizes the sentence again after streaming chunks of a run that then failed |
| Speculation.RunOwned | app/server/runtime.cpp:2849-3069 | Every run keeps the ownership invariant of slot, sends, workers and audio |
| ChatSpeculation.Drive | app/server/runtime.cpp:2849-3069 | For any schedule, the server object taken through it method by method is in the state the protocol reaches, and slot, sends, workers and audio of all its speculations are as every run keeps them |
| ChatSpeculation.ServerState.Holds | app/server/runtime.cpp:2849-3069 | The ownership invariant of every run holds of the server and of each of its speculation objects at every moment |
| ChatSpeculation.ServerState.Start | app/server/runtime.cpp:2854-2870 | A worker is started exactly if the request is not stale and the slot does not hold the same draft; then the slot is the new speculation's and the one it held is aborted |
| ChatSpeculation.ServerState.Prewarm | app/server/runtime.cpp:2675-2685 | A prewarm of another draft aborts and unregisters the speculation, and of the same one does nothing |
| ChatSpeculation.ServerState.TakeMatching | app/server/runtime.cpp:3035-3069 | A send gets what is registered exactly if it was made for its key and has not failed; what it gets is not aborted and no send got it before; the slot is empty afterwards |
| ChatSpeculation.ServerState.Advance | app/server/runtime.cpp:2960-3031 | A step of a speculation's threads keeps the server where its schedule leads; the stream mutex is free again exactly when its worker leaves the stream |
| ChatSpeculation.Chat.ClaimAudio | app/server/runtime.cpp:2900-2906 | The claim is won exactly if nobody had claimed |
| ChatSpeculation.Chat.ReadChunks | app/server/runtime.cpp:3331-3358 | Each look delivers exactly the chunks not yet delivered, and ends when the run has |
| Replay.ReplayIsComplete | app/server/runtime.cpp:3105-3171 | For every interleaving with the filling worker, a replay that is not aborted shows the whole text, voices its sentences and the tail (unless empty or cut off by the length limit) once and in order, and ends with the outcome; what is voiced is then the text, white space apart |
| Replay.TailIsVoicedIff | app/server/runtime.cpp:3146-3151 | The tail of a reply that ended for the reason "length" is voiced exactly if it ends a sentence as spoken; the tail of any other reply always is |
| ReplayBuffer.ReplayTellsWhatWasWritten | app/server/runtime.cpp:2960-3024 | For every interleaving, a replay that has come to its end has shown exactly the texts the model wrote, voiced their segments and their tail, and told the outcome the stream ended with, all taken from the schedule |
| ReplayBuffer.RunFills | app/server/runtime.cpp:2960-3024 | Every run keeps the buffer what the worker has put into it |
| Replay.NothingVoicedUnshown | app/server/runtime.cpp:3145-3150 | At every moment what has been voiced was shown before |
| Replay.RunInv | app/server/runtime.cpp:3105-3171 | Every run keeps worker and reader consistent |
| ReplyWriter.PrimedWithWholeReply | app/server/runtime.cpp:3492-3512 | In every interleaving of worker, reader and writer, at every moment: the re-priming is queued with the whole speculated text or not at all; and once llm_done has been written, and as long as no write has failed, it is queued exactly if the reply succeeded, is not empty and a prefix was given |
| ReplyWriter.FailureBeforePriming | app/server/runtime.cpp:3493-3506 | A run with a speculation's segmenter limits and a prefix in which the whole reply "a" was gathered and succeeded, writing llm_done fails, and nothing is queued |
| ReplyWriter.ReplyTextIsShown | app/server/runtime.cpp:3246-3269 | Until a write fails, reply_text is what the events popped so far show, with tokens drained during synthesis or not |
| ReplyWriter.DrainTakesTheTokens | app/server/runtime.cpp:3251-3269 | In every run draining takes tokens only, and all that stand at the front of the queue |
| ReplyWriter.WriterSeesTheEnd | app/server/runtime.cpp:3285-3296 | The writer never leaves before the whole reply has been popped, and never waits on an empty queue once the reader is through |
| ReplyWriter.RunInv | app/server/runtime.cpp:3105-3512 | Every run keeps the three threads consistent, with llm_finished set before llm_done is written and the re-priming queued after it; the reader only gives up once a write has failed |
| ReplyEnds.EveryReplyEnds | app/server/runtime.cpp:3105-3512 | In every run in which no write has failed, the reply can be told to its end: worker, reader and writer can go on, with no failure and no client gone, until the writer has left |
| ReplyWriter.ChatReply.LookAtBuffer | app/server/runtime.cpp:3118-3144 | One look copies everything new and knows whether it is the end |
| ReplyWriter.ChatReply.TakeTokens | app/server/runtime.cpp:3258-3265 | The draining loop pops exactly the tokens at the front of the queue, in order |
| ReplyWriter.ChatReply.WriteTokens | app/server/runtime.cpp:3266-3268 | The writing loop appends to reply_text exactly what those tokens show |
| ReplyWriter.ChatReply.Perform | app/server/runtime.cpp:3105-3512 | Whatever step is due, the object takes it and stays where its schedule leads; unless a write failed its reply text is what was popped shows, and what was primed with is the whole text |
| ReplyWriter.Drive | app/server/runtime.cpp:3105-3512 | For any schedule, the object taken through it is in the state the protocol reaches, and when its writer has left, the whole text was gathered, all of it was shown and the queue is empty |
| WarmQueue.OnePrefillInFlight | app/server/runtime.cpp:2117-2156 | Over all runs at most one prefill is in flight |
| WarmQueue.DispatchesAreNewest | app/server/runtime.cpp:2144-2153 | Each body sent was the newest one queued at that moment, sent with no generation active, each queued after the one before |
| WarmQueue.NothingForgotten | app/server/runtime.cpp:2128-2131 | When no worker is left the last body queued is the last one sent, unless it was empty |
| WarmQueue.PendingIsNeverStranded | app/server/runtime.cpp:2163-2169 | A pending body with no generation active always has a worker that can move or a notification on its way |
| WarmQueue.LookDecides | app/server/runtime.cpp:2127-2136 | In every run a worker that looks at the queue leaves exactly if the newest body queued is empty or sent, sleeps exactly if it is neither and a generation is under way, and settles otherwise; bodies and generations are taken from the schedule |
| WarmQueue.SettledSendsIff | app/server/runtime.cpp:2143-2153 | Once it has settled it sends that body exactly if it is still unsent and no generation is under way, and otherwise looks again |
| WarmQueue.RunInv | app/server/runtime.cpp:2117-2169 | Every run keeps the queue's invariant |
| WarmQueue.Drive | app/server/runtime.cpp:2117-2169 | For any schedule, the object taken through it is in the state the protocol reaches, and whenever it then has no worker the last non-empty body queued was the last one sent |
| WarmQueue.WarmState.Holds | app/server/runtime.cpp:2117-2169 | The queue's invariant holds of the object at every moment |
| WarmQueue.WarmState.WakeSleepers | app/server/runtime.cpp:2120 | notify_all wakes every sleeper and no one else |
| WarmQueue.WarmState.QueueLlmWarm | app/server/runtime.cpp:2117-2126 | Afterwards exactly one worker lives, the newest thread, awake, and a thread was started exactly if none was running |
| WarmQueue.WarmState.WorkerSettled | app/server/runtime.cpp:2143-2149 | What the worker sends after settling is the newest body queued, with no generation active |
| TerminalTail.StripRemovesTheRun | app/server/runtime.cpp:2417-2433 | What is stripped is a run of listed tails, and what is left ends in none |
| TerminalTail.StripIgnoresTails | app/server/runtime.cpp:2417-2433 | Appending any run of listed tails changes nothing |
| TerminalTail.StripIdempotent | app/server/runtime.cpp:2417-2433 | Stripping twice is stripping once |
| TerminalTail.StripEqualIff | app/server/runtime.cpp:2417-2433 | Two texts strip to the same exactly if they are one text with runs of tails after it |
| TerminalTail.FindTail | app/server/runtime.cpp:2422-2430 | The inner loop finds the first listed tail that fits |
| TerminalTail.StripTail | app/server/runtime.cpp:2417-2433 | The nested loops strip exactly the run |
| SpeculationKey.KeyEqualIff | app/server/runtime.cpp:2440-2454 | For any two conversations, whatever they hold: the keys are equal exactly if, the tails of the newest user messages stripped, they read as the same messages, a new message beginning at every record separator that a role and a unit separator follow |
| SpeculationKey.PlainKeyEqualIff | app/server/runtime.cpp:2440-2454 | So for contents without such a place, equal keys mean exactly the same roles and contents up to the tail of the newest user message |
| SpeculationKey.ExpandReads | app/server/runtime.cpp:2443-2453 | What is read from an encoding has that encoding and no further such place |
| SpeculationKey.KeyIgnoresTails | app/server/runtime.cpp:2435-2439 | Finishing the newest user message with any run of tails never changes the key, whatever the messages hold |
| SpeculationKey.EncodeInjective | app/server/runtime.cpp:2443-2453 | Two lists of messages without such a place that have the same encoding are equal |
| SpeculationKey.PlainIsUnambiguous | app/server/runtime.cpp:2445-2451 | A content free of 0x1e or of 0x1f meets that condition |
| SpeculationKey.SeparatorsCollide | app/server/runtime.cpp:2443-2453 | With one, for any two texts one message and two messages share a key |
| SpeculationKey.FindLastUser | app/server/runtime.cpp:2575-2585 | The scan finds the newest user message |
| SpeculationKey.BuildKey | app/server/runtime.cpp:2440-2454 | The loop builds the encoding of the conversation with its newest user message stripped |
| Segmenter.ReplyLosesNothing | app/server/segmenter.cpp:78-151 | For every limit of at least 1 and every division into deltas, the segments and the flushed tail are the reply in order with only white space lost |
| Segmenter.TakeReadyLosesNothing | app/server/segmenter.cpp:83-145 | One pass loses only white space, emits no empty segment and leaves less than the limit pending |
| SegmentCuts.NextCutIff | app/server/segmenter.cpp:83-136 | The loop cuts exactly there: at the first end of a sentence if there is one; before the first segment at the last end of a clause of 14 bytes or more, or else at the last space at or after byte 14; and else, in a text as long as the limit, at the last space up to it, or at the limit; each of these said of the bytes |
| SegmentCuts.SegmentsAreCut | app/server/segmenter.cpp:137-144 | What stands before the cut, trimmed, is the first segment, and the rest is segmented as by itself; without a cut the text stays pending |
| SegmentCuts.SentenceIsASegment | app/server/segmenter.cpp:18-35 | A sentence that ends in a run of stops which white space, a quote, a parenthesis or a star follows, and before which none ends, is the first segment, whole |
| SegmentCuts.CjkSentenceIsASegment | app/server/segmenter.cpp:39-46 | So is one that ends in any of the five CJK stops |
| SegmentCuts.LineIsASegment | app/server/segmenter.cpp:36-38 | So is a line that is not blank |
| Segmenter.TakeReadySplit | app/server/segmenter.cpp:83-145 | After the first segment and with no forced split, taking from p+q is taking from p and then from what it left with q |
| Segmenter.DeltasDoNotMatter | app/server/segmenter.cpp:78-145 | Then any division into deltas gives the segments of the whole text |
| Segmenter.ForceSplitDependsOnDeltas | app/server/segmenter.cpp:125-133 | At every limit of at least 1 it can matter where a forced split fires: as many letters as the limit and ". ", fed one after the other or together, give different segments |
| Segmenter.LoopEndsIff | app/server/segmenter.cpp:83-145 | On any text the loop returns exactly if max_segment_chars is not 0 |
| Segmenter.NoProgressAtZero | app/server/segmenter.cpp:125-133 | With a limit of 0, once the text is used up any number of further rounds leaves everything as it is |
| Segmenter.SentenceSegmenter.FindCut | app/server/segmenter.cpp:86-133 | The four searches find the cut of the specification |
| Segmenter.SentenceSegmenter.DrainReady | app/server/segmenter.cpp:83-145 | The loop terminates and emits the specified segments |
| Segmenter.SentenceSegmenter.Feed | app/server/segmenter.cpp:78-81 | Segments and pending text are the old pending text with the delta, white space apart, and pending stays below the limit |
| Segmenter.SentenceSegmenter.Flush | app/server/segmenter.cpp:147-151 | Returns the trimmed pending text and empties it |
| Scrubber.FeedReads | app/server/chat_hygiene.cpp:489-574 | The byte machine shows, drops and holds back exactly what a reader of the whole text decides piece by piece |
| Scrubber.ReadFactors | app/server/chat_hygiene.cpp:489-574 | Every text factors into pieces shown, closed actions and asides and the leak dropped for what they are, and one withheld suffix |
| Scrubber.FirstPieceWellRead | app/server/chat_hygiene.cpp:495-570 | Each piece is of its kind: no shown piece is a closed span or begins with a marker |
| Scrubber.DeltasDoNotMatter | app/server/chat_hygiene.cpp:489-574 | The output is the shown pieces in order for every division into deltas, and at most 123 bytes are withheld |
| Scrubber.ClosedSpanIsDropped | app/server/chat_hygiene.cpp:510-549 | A closed action without a newline, or a closed full-width parenthesis, of at most the held length, met in the clean state leaves no trace |
| Scrubber.PlainTextIsShown | app/server/chat_hygiene.cpp:495-509 | A text with none of the opening bytes passes unchanged |
| Scrubber.LeakIsCutOff | app/server/chat_hygiene.cpp:550-554 | A text without a star and without the byte 0xEF is shown up to its first special-token marker and nothing after it |
| Scrubber.MarkerShownIff | app/server/chat_hygiene.cpp:489-574 | For any text: what is shown holds a special-token marker exactly if some shown piece holds one inside, or a shown piece ends in `<` and the next one shown begins with a bar |
| Scrubber.MarkerInsideWhere | app/server/chat_hygiene.cpp:510-549 | A shown piece that holds a marker inside begins with a star or the byte 0xEF: it was held and let go |
| Scrubber.ReleasedRunShowsAMarker | app/server/chat_hygiene.cpp:510-523 | Star, `<`, bar and a newline are shown whole, the marker with them |
| Scrubber.DroppingCanMakeAMarker | app/server/chat_hygiene.cpp:555-569 | `<*a*` and a bar are shown as the marker |
| Scrubber.StreamScrubber.Take | app/server/chat_hygiene.cpp:492-571 | The body of the loop is one step of the machine |
| Scrubber.StreamScrubber.Feed | app/server/chat_hygiene.cpp:489-574 | All that was returned since the last flush is the shown pieces of all that was fed |
| Scrubber.StreamScrubber.Flush | app/server/chat_hygiene.cpp:576-586 | Lets a withheld lone '<' through and nothing else, and starts afresh |
| Sanitizer.SanitizedIsOneParagraph | app/server/chat_hygiene.cpp:337-370 | For any text the sanitized reply holds no special-token marker and no paragraph break: no later pass puts one together |
| Sanitizer.SanitizedIsTidy | app/server/chat_hygiene.cpp:337-370 | It begins and ends with no white space and holds no tab and no double space |
| Sanitizer.PlainReplyIsKept | app/server/chat_hygiene.cpp:337-370 | A tidy reply of one paragraph without markup or quotes is returned unchanged |
| Sanitizer.StripKeepsApart | app/server/chat_hygiene.cpp:49-82 | Taking spans out never puts two non-blank bytes next to each other that were apart |
| SanitizedSpans.ClosedSpanIsTaken | app/server/chat_hygiene.cpp:49-82 | A closed span short enough leaves a space where it stood and a longer one stays; the text before it is kept and the text behind it stripped on |
| SanitizedSpans.SpanIs | app/server/chat_hygiene.cpp:57-64 | The span begins at the first opening mark and ends at the first closing one after it |
| SanitizedSpans.OpenSpanIsTaken | app/server/chat_hygiene.cpp:65-73 | A span that is not closed goes with all that follows if that is short enough |
| SanitizedSpans.ActionIsTakenOut | app/server/chat_hygiene.cpp:337-370 | An action of at most 120 bytes in an otherwise plain reply leaves the rest as it is, but for the spaces |
| SanitizedSpans.LongActionLosesTheRest | app/server/chat_hygiene.cpp:350-355 | A longer one stays, but its closing star is cut off with what follows it if that is less than 120 bytes |
| SanitizedSpans.AsideIsTakenOut | app/server/chat_hygiene.cpp:356 | An aside of at most 80 bytes goes and a longer one stays, with the rest as it is |
| SanitizedSpans.StrayIsCut | app/server/chat_hygiene.cpp:351-355 | The last star goes with what follows it exactly if that is less than 120 bytes |
| SanitizedSpans.CutKeepsTheFront | app/server/chat_hygiene.cpp:341-349 | The cuts keep all that stands before the marker |
| SanitizedSpans.SpansAreQuoted | app/server/chat_hygiene.cpp:116-132 | The spoken spans are what stands between quotes, if two bytes or more |
| SanitizedSpans.DialogueIff | app/server/chat_hygiene.cpp:133-141 | Dialogue, joined with single spaces, replaces the reply exactly if there is some and it makes up two fifths of it, rounded down |
| SanitizedSpans.QuotesAreTakenOff | app/server/chat_hygiene.cpp:360-368 | Quotes around a whole reply are taken off unless nothing stands between them |
| SanitizedSpans.SqueezeKeepsWords | app/server/chat_hygiene.cpp:84-96 | Squeezing spaces joins no two words, parts none and loses none |
| SanitizedSpans.OnlyBlanksAreTrimmed | app/server/chat_hygiene.cpp:97-101 | Trimming takes off blanks at the ends and nothing else |
| Sanitizer.StripSpansText | app/server/chat_hygiene.cpp:49-82 | The loop strips the specified spans and keeps those too long |
| Sanitizer.CollapseSpacesText | app/server/chat_hygiene.cpp:84-102 | The loop collapses and trims as specified |
| Sanitizer.CollapseTidies | app/server/chat_hygiene.cpp:84-102 | The result is trimmed and has single spaces only |
| Sanitizer.CollectSpans | app/server/chat_hygiene.cpp:116-132 | The loop collects a text's quoted spans with their total length |
| Sanitizer.RecoverQuotedDialogue | app/server/chat_hygiene.cpp:113-142 | Keeps the spoken spans if they make up two fifths of the text, and otherwise the text |
| Sanitizer.UnwrapText | app/server/chat_hygiene.cpp:359-368 | Takes off wrapping quotes of each kind in turn |
| Sanitizer.SanitizeAssistantText | app/server/chat_hygiene.cpp:337-370 | The chain of passes is the specified one |
| CJsonList.Append | external/cJSON/cJSON.c:2027-2058 | Appends the item if the list was empty or its `next` was null and otherwise leaves no list; fails, touching nothing, exactly on a null or the parent itself |
| CJsonList.Insert | external/cJSON/cJSON.c:2334-2366 | Inserts before the given index, or appends past the end, and keeps the list well formed; fails, touching nothing, on a negative index or a null |
| CJsonList.Detach | external/cJSON/cJSON.c:2258-2292 | Removes the item at its place, keeps the list well formed and clears the item's links; an item in no list changes nothing |
| CJsonList.DetachAt | external/cJSON/cJSON.c:2294-2302 | Removes the item at an index, or nothing |
| CJsonList.Replace | external/cJSON/cJSON.c:2368-2415 | Puts the replacement in the item's place, keeps the list well formed, and frees the item and exactly what it owned, none of it still in the list, and each once exactly if no two links of what it owned lead to one item |
| CJsonList.Delete | external/cJSON/cJSON.c:253-276 | Frees every item of the chain and what each owns, in order, and not what a reference points to |
| CJsonList.OnceIffUnshared | external/cJSON/cJSON.c:253-276 | What is freed holds each item once exactly if no item is reached by two of its links |
| CJsonList.SharedChildComesTwice | external/cJSON/cJSON.c:253-276 | A child that two items of a chain own is freed with each of them |
| CJsonList.GetItem | external/cJSON/cJSON.c:1922-1939 | The walk returns the node at the index, or null |
| CJsonList.ArraySize | external/cJSON/cJSON.c:1899-1920 | The walk counts the children and casts the count to int: it is the number of children exactly if an int can hold it |
| CJsonList.ListIsUnique | external/cJSON/cJSON.c:1999-2003 | The links determine the sequence of children |
| JsonLiteral.RoundTrip | external/cJSON/cJSON.c:824-951 | Parsing what was printed for any byte string, wherever it stands, gives the string and stops just past the closing quote |
| JsonLiteral.LiteralIsRead | external/cJSON/cJSON.c:824-951 | Every literal of the RFC 8259 grammar, surrogate pairs included, reads as what it means |
| JsonCharacters.SurrogatesAreRead | external/cJSON/cJSON.c:731-758 | For every code point past the basic plane: the literal of its two surrogates, in hexadecimal of either case, parses to the UTF-8 bytes of that code point (section 3 of RFC 3629) |
| JsonCharacters.CodeUnitIsRead | external/cJSON/cJSON.c:719-764 | So does the escape of every code unit that is no surrogate |
| JsonCharacters.EscapeIsRead | external/cJSON/cJSON.c:887-908 | Each of the eight one-letter escapes of RFC 8259 reads as what the RFC says |
| JsonCharacters.OtherEscapesAreRefused | external/cJSON/cJSON.c:919-920 | No other letter is an escape |
| JsonCharacters.FailsAtTheEscape | external/cJSON/cJSON.c:919-948 | A string with a letter after a backslash that is no escape fails with the offset at that backslash, whatever stands before it and behind |
| JsonCharacters.FailsAtTheStart | external/cJSON/cJSON.c:830-862 | What does not begin with a quote, or has no end, fails with the offset just behind its first byte |
| JsonCharacters.EscapesArePrinted | external/cJSON/cJSON.c:1038-1064 | What has a one-letter escape is printed with it, the solidus excepted |
| JsonCharacters.Utf8Encodes | external/cJSON/cJSON.c:766-813 | The bytes written are the shortest UTF-8 encoding of the code point |
| JsonLiteral.AcceptedIff | external/cJSON/cJSON.c:824-951 | What the parser accepts with every \u it meets followed by four hexadecimal digits and no control character unescaped is exactly the literals of RFC 8259 whose surrogates come in pairs |
| JsonLiteral.AcceptedLiteralIff | external/cJSON/cJSON.c:824-951 | With the first condition alone it is exactly those literals in which any byte but quote and backslash may stand for itself |
| JsonLiteral.ControlIsAccepted | external/cJSON/cJSON.c:874-878 | Any control character between two quotes is accepted and stands for itself, which the RFC's grammar forbids |
| JsonLiteral.LoneSurrogateIsRefused | external/cJSON/cJSON.c:720-745 | A literal that is one half of a surrogate pair is refused, whichever half |
| JsonLiteral.BadHexIsAccepted | external/cJSON/cJSON.c:666-699 | Without the condition on \u: a bad escape reads as NUL, and one makes the copying run past the closing quote |
| JsonLiteral.ParseFitsItsAllocation | external/cJSON/cJSON.c:837-868 | On any input the copy and its terminator fit the allocation computed from the sizing loop |
| JsonLiteral.CopyFits | external/cJSON/cJSON.c:870-928 | From any point of the copying loop, what is still written fits |
| JsonLiteral.SkipsAreCounted | external/cJSON/cJSON.c:841-855 | The sizing loop counts exactly the escapes before the closing quote |
| JsonLiteral.PrintIsLiteral | external/cJSON/cJSON.c:954-1073 | What is printed is a literal of the RFC's grammar, no control character unescaped, that means the string |
| JsonLiteral.Utf8KeepsTheCode | external/cJSON/cJSON.c:766-813 | The UTF-8 bytes determine the code point |
| CJsonString.ParseHex4 | external/cJSON/cJSON.c:666-699 | The loop computes the four-digit value, or 0 |
| CJsonString.WriteUtf8 | external/cJSON/cJSON.c:766-815 | Writes exactly the UTF-8 bytes at the output pointer and nothing else |
| CJsonString.ReadCode | external/cJSON/cJSON.c:703-764 | Reads one escape or a surrogate pair as its code point, or fails, as the specification does |
| CJsonString.Utf16LiteralToUtf8 | external/cJSON/cJSON.c:703-821 | Converts one escape or a surrogate pair, or fails, inside the room it needs |
| CJsonString.FindStringEnd | external/cJSON/cJSON.c:839-859 | Finds the closing quote and counts the escapes |
| CJsonString.CopyPiece | external/cJSON/cJSON.c:872-924 | One round of the copying loop |
| CJsonString.CopyPieces | external/cJSON/cJSON.c:870-925 | The loop copies what the specification decodes, piece by piece, and never leaves the output array |
| CJsonString.CopyString | external/cJSON/cJSON.c:870-925 | In an output array longer than what is decoded, exactly that is copied |
| CJsonString.ParseString | external/cJSON/cJSON.c:824-951 | Succeeds exactly when the specification does and memory is there; value, terminator, allocation size and the offset left are exact, in failure too |
| CJsonString.PrintBuffer.constructor | external/cJSON/cJSON.c:478-487 | A print buffer over an array, empty or not, with or without a reallocating hook |
| CJsonString.PrintBuffer.Ensure | external/cJSON/cJSON.c:490-573 | Makes room or fails exactly when it must, keeps what is before the offset, or with a reallocating hook the whole old buffer, doubles up to INT_MAX, and gives the buffer up when allocation fails; the copy stays within the old buffer exactly unless an empty one grows without a reallocating hook |
| CJsonString.CountEscapes | external/cJSON/cJSON.c:981-1005 | The first loop computes the exact printed length |
| CJsonString.WriteByte | external/cJSON/cJSON.c:1029-1067 | One byte is written as itself or as its escape |
| CJsonString.WriteBody | external/cJSON/cJSON.c:1013-1068 | The body between the quotes, copied when nothing needs escaping |
| CJsonString.PrintStringPtr | external/cJSON/cJSON.c:954-1073 | Writes the literal and a terminator from the offset on, as long as computed and nothing beyond, and fails exactly when there is no room; growing reads past the old buffer only as said of Ensure |

## Left out

- Sockets, poll, routing, JSON bodies, files, configuration and the command line: input and output plumbing.
- Model inference, VAD and ASR internals: their results are arguments of the steps. Rounding of levels to `float`.
- Wall-clock timing: the idle and total deadlines of a body become a peer that stops sending (`stalls`), and the 30-second window after a send becomes a free choice (`stale`). The voice timings reported in events are not modelled.
- Exceptions of the audio loop other than a failed decode (app/server/voice.cpp:669-671), and `hooks.aborted`, which ends the stream at a point the model already allows.
- Texts of the voice updates: the protocol logs that a stable, partial or endpoint_likely event was emitted, and the tracker that computes the texts is proved on its own; the endpoint_likely heuristic is a free choice.
- Negative `speech_pad_ms` and `min_partial_audio_ms`, which the code casts to huge sizes.
- VoiceTurns.EveryTurnResolvedOnce: counts an error event of the final decode as the answer, because a decode that throws emits no final transcript.
- ChunkedStreambuf.DrainBody: for a body with a line of exactly 8192 bytes, allows that line to be refused or not; which of the two depends on how the bytes arrive, as ChunkedFormat.PullLineExact says.
- ChunkedStreambuf.DrainBody: does not say what the code does with a chunk size of 2^64 - 2 or 2^64 - 1, which only a chunk cap that large lets pass: its sum with 2 wraps, and the model stops there (`SizeWraps`).
- ChunkedStreambuf.DrainBody: does not say how much of a body over the total cap is delivered before it is refused, nor that every such body is: a receive that crosses the cap comes only when more bytes are needed.
- EndToEnd.PayloadsArrive: payloads whose event text is longer than 2^64 - 1 bytes.
- The rest of the HTTP layer, and `parse_payload`, an uninterpreted function of the payload here.
- Speculation timings, statistics and log lines; the diagnostics printed on a key mismatch.
- Replay.TailIsVoicedIff: whether a text ends a sentence as spoken (`ends_with_sentence_terminal` of the text without markup) is an uninterpreted function there.
- The spoken form of a sentence (`strip_speech_markup`, `speak_name_as_written`): sentences that become empty are part of the free choices.
- Prompt anchors, probes and the other helpers of chat_hygiene.cpp: prompt wording.
- Segmenter.DeltasDoNotMatter: says nothing where the hard split fires, since there it can fail at every limit (Segmenter.ForceSplitDependsOnDeltas), though it need not; the hard split may also cut inside a UTF-8 sequence, which the byte model allows.
- ReplyWriter.PrimedWithWholeReply: gives the text the re-priming is made from; sanitizing it is proved on its own (Sanitizer) and quoting it is not part of this model. What a synthesis sends while a sentence is spoken is one step here, between which tokens are drained any number of times.
- CJsonList.Append: an item already in the list, which the library forbids.
- CJsonList.Delete: the strings of an item, which are freed with it. Where an item is freed twice, the links read after the first time are those from before it. Object keys, numbers, printing of containers, minify and compare of cJSON.
- JsonLiteral.AcceptedIff: does not judge ill-formed UTF-8: the parser works on bytes, and any byte of 0x80 and above stands for itself in the model's grammar, as it does in the code.
- CJsonString.PrintBuffer.Ensure: leaves open what a byte past the old buffer would be.
- CJsonString.WriteUtf8: bit operations are written as arithmetic on the same bits.
