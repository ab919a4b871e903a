/** Machines that take a stream one byte at a time. Every push parser of the server
    is one, which is why none of them can tell how its input was divided. */
module Stream {
  import opened Bytes

  function Feed<S>(step: (S, byte) -> S, s: S, data: bytes): S
    decreases |data|
  {
    if data == [] then s else Feed(step, step(s, data[0]), data[1..])
  }

  lemma {:induction false} FeedConcat<S>(step: (S, byte) -> S, s: S, a: bytes, b: bytes)
    ensures Feed(step, s, a + b) == Feed(step, Feed(step, s, a), b)
    decreases |a|
  {
    if a == [] {
      assert a + b == b;
    } else {
      assert (a + b)[1..] == a[1..] + b;
      FeedConcat(step, step(s, a[0]), a[1..], b);
    }
  }

  function FeedAll<S>(step: (S, byte) -> S, s: S, fragments: seq<bytes>): S
    decreases |fragments|
  {
    if fragments == [] then s else FeedAll(step, Feed(step, s, fragments[0]), fragments[1..])
  }

  // How the bytes are divided into feeds makes no difference.
  lemma {:induction false} FragmentsDoNotMatter<S>(step: (S, byte) -> S, s: S, fragments: seq<bytes>)
    ensures FeedAll(step, s, fragments) == Feed(step, s, Flatten(fragments))
    decreases |fragments|
  {
    if fragments != [] {
      FeedConcat(step, s, fragments[0], Flatten(fragments[1..]));
      FragmentsDoNotMatter(step, Feed(step, s, fragments[0]), fragments[1..]);
    }
  }
}
