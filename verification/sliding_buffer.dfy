/** A buffer that holds the tail of a stream from a running base offset on. */
module SlidingBuffer {

  /** The first end values of the buffer are the stream from base on. */
  ghost predicate Holds<T>(values: seq<T>, end: int, base: nat, stream: seq<T>) {
    && 0 <= end <= |values|
    && base + end == |stream|
    && values[..end] == stream[base..]
  }

  lemma HoldsMoved<T>(before: seq<T>, after: seq<T>, end: nat, base: nat, stream: seq<T>, first: nat)
    requires Holds(before, end, base, stream) && first <= end && |after| == |before|
    requires after[..end - first] == before[first..end]
    ensures Holds(after, end - first, base + first, stream)
  {
    assert before[first..end] == before[..end][first..];
  }

  lemma HoldsSlice<T>(values: seq<T>, end: int, base: nat, stream: seq<T>, a: nat, b: nat)
    requires Holds(values, end, base, stream) && a <= b <= end
    ensures base + b <= |stream| && values[a..b] == stream[base + a..base + b]
  {
    assert values[a..b] == values[..end][a..b];
  }

  /** s with the values from position at on replaced by w. */
  function Overwritten<T>(s: seq<T>, at: nat, w: seq<T>): (r: seq<T>)
    requires at + |w| <= |s|
    ensures |r| == |s|
  {
    s[..at] + w + s[at + |w|..]
  }

  lemma HoldsOverwritten<T>(before: seq<T>, after: seq<T>, end: nat, base: nat, stream: seq<T>, at: nat, w: seq<T>)
    requires Holds(before, end, base, stream) && at + |w| <= end
    requires after == Overwritten(before, at, w)
    ensures base + at + |w| <= |stream| && Holds(after, end, base, Overwritten(stream, base + at, w))
  {
    assert after[..end] == Overwritten(before[..end], at, w);
    assert Overwritten(stream, base + at, w)[base..] == Overwritten(stream[base..], at, w);
  }

  lemma HoldsAppended<T>(before: seq<T>, after: seq<T>, end: nat, base: nat, stream: seq<T>, u: seq<T>)
    requires Holds(before, end, base, stream) && end + |u| <= |before|
    requires after == Overwritten(before, end, u)
    ensures Holds(after, end + |u|, base, stream + u)
  {
    assert after[..end + |u|] == before[..end] + u;
  }
}
