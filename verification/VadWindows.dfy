/** How the audio loop cuts transport blocks into the VAD's windows
    (app/server/voice.cpp). */
module VadWindows {
  type Sample = real
  type Audio = seq<Sample>

  const VAD_WINDOW: nat := 512

  // One call of `process_audio_chunk`.
  datatype Window = Window(start: nat, samples: Audio)

  // Audio not yet given to the VAD, the position it starts at, and every window
  // given so far.
  datatype Vad = Vad(pending: Audio, sample: nat, windows: seq<Window>)

  // Every full window at the front of `pending`, and what is left.
  function WindowsOf(pending: Audio, start: nat): (seq<Window>, Audio)
    decreases |pending|
  {
    if |pending| < VAD_WINDOW then ([], pending)
    else
      var (more, rest) := WindowsOf(pending[VAD_WINDOW..], start + VAD_WINDOW);
      ([Window(start, pending[..VAD_WINDOW])] + more, rest)
  }

  function Feed(v: Vad, block: Audio): Vad {
    var (found, rest) := WindowsOf(v.pending + block, v.sample);
    Vad(rest, v.sample + VAD_WINDOW * |found|, v.windows + found)
  }

  function FeedAll(blocks: seq<Audio>): Vad {
    if blocks == [] then Vad([], 0, []) else Feed(FeedAll(blocks[..|blocks| - 1]), blocks[|blocks| - 1])
  }

  function Stream(blocks: seq<Audio>): Audio {
    if blocks == [] then [] else Stream(blocks[..|blocks| - 1]) + blocks[|blocks| - 1]
  }

  // The windows' samples are those of `stream`, in order and without a gap:
  // window k is samples 512 k up to 512 (k + 1), and says so.
  predicate Tiles(v: Vad, stream: Audio) {
    && v.sample == VAD_WINDOW * |v.windows| <= |stream|
    && v.pending == stream[v.sample..] && |v.pending| < VAD_WINDOW
    && forall k | 0 <= k < |v.windows| ::
         && v.windows[k].start == VAD_WINDOW * k
         && v.windows[k].start + VAD_WINDOW <= |stream|
         && v.windows[k].samples == stream[v.windows[k].start..v.windows[k].start + VAD_WINDOW]
  }

  // WindowsOf on the part of a stream from `at`, a multiple of 512, onwards.
  lemma {:induction false} WindowsOfStream(stream: Audio, at: nat, n: nat)
    requires at == VAD_WINDOW * n <= |stream|
    ensures var (found, rest) := WindowsOf(stream[at..], at);
            && at + VAD_WINDOW * |found| <= |stream|
            && rest == stream[at + VAD_WINDOW * |found|..] && |rest| < VAD_WINDOW
            && forall k | 0 <= k < |found| ::
                 && found[k].start == VAD_WINDOW * (n + k) && found[k].start + VAD_WINDOW <= |stream|
                 && found[k].samples == stream[found[k].start..found[k].start + VAD_WINDOW]
    decreases |stream| - at
  {
    if |stream| - at >= VAD_WINDOW {
      WindowsOfStream(stream, at + VAD_WINDOW, n + 1);
      assert stream[at..][VAD_WINDOW..] == stream[at + VAD_WINDOW..];
      var (more, rest) := WindowsOf(stream[at + VAD_WINDOW..], at + VAD_WINDOW);
      var (found, _) := WindowsOf(stream[at..], at);
      assert found == [Window(at, stream[at..][..VAD_WINDOW])] + more;
      forall k | 0 <= k < |found|
        ensures found[k].start == VAD_WINDOW * (n + k) && found[k].start + VAD_WINDOW <= |stream|
        ensures found[k].samples == stream[found[k].start..found[k].start + VAD_WINDOW]
      {
        if k > 0 { assert found[k] == more[k - 1]; }
      }
    }
  }

  lemma FeedTiles(v: Vad, stream: Audio, block: Audio)
    requires Tiles(v, stream)
    ensures Tiles(Feed(v, block), stream + block)
  {
    var all := stream + block;
    assert all[v.sample..] == v.pending + block;
    WindowsOfStream(all, v.sample, |v.windows|);
    var (found, _) := WindowsOf(v.pending + block, v.sample);
    var w := v.windows + found;
    forall k | 0 <= k < |w|
      ensures w[k].start == VAD_WINDOW * k && w[k].start + VAD_WINDOW <= |all|
      ensures w[k].samples == all[w[k].start..w[k].start + VAD_WINDOW]
    {
      if k < |v.windows| { assert w[k] == v.windows[k]; } else { assert w[k] == found[k - |v.windows|]; }
    }
  }

  // However the audio is cut into blocks, the windows and the leftover tile it.
  lemma {:induction false} WindowsTileTheStream(blocks: seq<Audio>)
    ensures Tiles(FeedAll(blocks), Stream(blocks))
  {
    if blocks != [] {
      WindowsTileTheStream(blocks[..|blocks| - 1]);
      FeedTiles(FeedAll(blocks[..|blocks| - 1]), Stream(blocks[..|blocks| - 1]), blocks[|blocks| - 1]);
    }
  }
}
