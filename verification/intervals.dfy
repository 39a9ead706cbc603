/** The commercial-interval algebra: commercial breaks turned into the ranges of the recording
    to keep, and segment durations laid end to end. Times are integer milliseconds. */
module Intervals {
  import opened Wrappers

  /** A commercial break, from `start` up to (not including) `end`. */
  datatype Span = Span(start: int, end: int)

  /** A part of the recording to keep: from `start` up to `end`, or to the end of the recording
      when `end` is `None`. */
  datatype KeepRange = KeepRange(start: int, end: Option<int>)

  predicate InSpan(c: Span, t: int)
  {
    c.start <= t < c.end
  }

  /** The membership test the subtitle splitter applies to a cue start. */
  predicate InRange(r: KeepRange, t: int)
  {
    r.start <= t && (r.end.None? || t < r.end.value)
  }

  /** Breaks that start at or after time zero, each ending no earlier than it starts, and each
      ending no later than the next one starts. */
  predicate Sorted(cs: seq<Span>)
  {
    && (|cs| > 0 ==> 0 <= cs[0].start)
    && (forall i :: 0 <= i < |cs| ==> cs[i].start <= cs[i].end)
    && (forall i :: 0 <= i < |cs| - 1 ==> cs[i].end <= cs[i + 1].start)
  }

  /** How many keep-ranges the breaks leave: one before each break, and one after the last break
      only when there are at least two breaks. */
  function GapCount(cs: seq<Span>): nat
  {
    if |cs| > 1 then |cs| + 1 else 1
  }

  /** The `j`-th gap: from zero to the first break, from the end of break `j - 1` to the start of
      break `j`, or, last, from the end of the final break on. */
  function GapAt(cs: seq<Span>, j: nat): KeepRange
    requires 0 < |cs| && j < GapCount(cs)
  {
    if j == 0 then KeepRange(0, Some(cs[0].start))
    else if j < |cs| then KeepRange(cs[j - 1].end, Some(cs[j].start))
    else KeepRange(cs[|cs| - 1].end, None)
  }

  /** The gaps between the breaks, in order. */
  function Gaps(cs: seq<Span>): (r: seq<KeepRange>)
    requires |cs| > 0
    ensures |r| == GapCount(cs)
    ensures forall j :: 0 <= j < |r| ==> r[j] == GapAt(cs, j)
  {
    seq(GapCount(cs), j requires 0 <= j < GapCount(cs) => GapAt(cs, j))
  }

  /** `invert_commercial`: the keep-ranges between the breaks, built pair by pair. An empty list
      is an IndexError in the source, so the list must be non-empty. */
  method InvertCommercial(cs: seq<Span>) returns (inverse: seq<KeepRange>)
    requires |cs| > 0
    ensures inverse == Gaps(cs)
  {
    inverse := [KeepRange(0, Some(cs[0].start))];
    var i := 0;
    while i < |cs| - 1
      invariant 0 <= i <= |cs| - 1
      invariant |inverse| == i + 1
      invariant inverse[0] == KeepRange(0, Some(cs[0].start))
      invariant forall j :: 0 <= j < i ==> inverse[j + 1] == KeepRange(cs[j].end, Some(cs[j + 1].start))
    {
      var left := cs[i];
      var right := cs[i + 1];
      inverse := inverse + [KeepRange(left.end, Some(right.start))];
      i := i + 1;
    }
    if |cs| > 1 {
      inverse := inverse + [KeepRange(cs[|cs| - 1].end, None)];
    }
  }

  /** In sorted breaks every break ends no later than any later one starts. */
  lemma {:induction false} SortedChain(cs: seq<Span>, i: nat, k: nat)
    requires Sorted(cs)
    requires i < k < |cs|
    ensures cs[i].end <= cs[k].start
    decreases k - i
  {
    if i + 1 < k {
      SortedChain(cs, i + 1, k);
    }
  }

  /** Walks forward from a break that starts at or before `t` to the last such break. */
  lemma {:induction false} LastBreakBefore(cs: seq<Span>, t: int, i: nat) returns (j: nat)
    requires i < |cs| && cs[i].start <= t
    ensures i <= j < |cs| && cs[j].start <= t
    ensures j + 1 < |cs| ==> t < cs[j + 1].start
    decreases |cs| - i
  {
    if i + 1 < |cs| && cs[i + 1].start <= t {
      j := LastBreakBefore(cs, t, i + 1);
    } else {
      j := i;
    }
  }

  /** A time from zero on that lies in no break lies in the keep-range after the last break
      starting at or before it (or in the first one, before every break). */
  lemma {:induction false} UnbrokenIsKept(cs: seq<Span>, t: int) returns (j: nat)
    requires Sorted(cs) && |cs| >= 2 && t >= 0
    requires forall i :: 0 <= i < |cs| ==> !InSpan(cs[i], t)
    ensures j < |Gaps(cs)| && InRange(Gaps(cs)[j], t)
  {
    var n := |cs|;
    if t < cs[0].start {
      j := 0;
    } else {
      var b := LastBreakBefore(cs, t, 0);
      assert !InSpan(cs[b], t);
      j := b + 1;
      assert Gaps(cs)[j] == GapAt(cs, j);
    }
  }

  /** A time in the `j`-th keep-range of sorted breaks lies in none of the breaks. */
  lemma {:induction false} KeptIsUnbroken(cs: seq<Span>, t: int, j: nat, i: nat)
    requires Sorted(cs) && |cs| >= 2
    requires j < |Gaps(cs)| && InRange(Gaps(cs)[j], t)
    requires i < |cs|
    ensures !InSpan(cs[i], t)
  {
    assert Gaps(cs)[j] == GapAt(cs, j);
    if j == 0 {
      if 0 < i {
        SortedChain(cs, 0, i);
      }
    } else if i < j - 1 {
      SortedChain(cs, i, j - 1);
    } else if j < i {
      SortedChain(cs, j, i);
    }
  }

  /** With two or more sorted breaks, a time from zero on lies in a keep-range exactly when it
      lies in no break. */
  lemma {:induction false} KeepRangesCover(cs: seq<Span>, t: int)
    requires Sorted(cs) && |cs| >= 2 && t >= 0
    ensures (exists j :: 0 <= j < |Gaps(cs)| && InRange(Gaps(cs)[j], t)) <==> (forall i :: 0 <= i < |cs| ==> !InSpan(cs[i], t))
  {
    if forall i :: 0 <= i < |cs| ==> !InSpan(cs[i], t) {
      var j := UnbrokenIsKept(cs, t);
    }
    if exists j :: 0 <= j < |Gaps(cs)| && InRange(Gaps(cs)[j], t) {
      var j :| 0 <= j < |Gaps(cs)| && InRange(Gaps(cs)[j], t);
      forall i | 0 <= i < |cs|
        ensures !InSpan(cs[i], t)
      {
        KeptIsUnbroken(cs, t, j, i);
      }
    }
  }

  /** With a single break, nothing from the end of the break on is kept: the only keep-range is
      the part before the break. */
  lemma {:induction false} SingleBreakDropsTail(c: Span, t: int)
    requires c.start <= c.end <= t
    ensures Gaps([c]) == [KeepRange(0, Some(c.start))]
    ensures forall j :: 0 <= j < |Gaps([c])| ==> !InRange(Gaps([c])[j], t)
  {
    assert Gaps([c]) == [KeepRange(0, Some(c.start))];
  }

  /** The keep-ranges of sorted breaks follow one another: each ends no later than the next starts,
      so no time lies in two of them. */
  lemma {:induction false} KeepRangesOrdered(cs: seq<Span>)
    requires Sorted(cs) && |cs| > 0
    ensures forall j :: 0 <= j < |Gaps(cs)| - 1 ==> Gaps(cs)[j].end.Some? && Gaps(cs)[j].end.value <= Gaps(cs)[j + 1].start
  {
  }

  /** Of sorted breaks, every keep-range but the last ends no later than any later one starts. */
  lemma {:induction false} KeepRangesFollow(cs: seq<Span>, j: nat, k: nat)
    requires Sorted(cs) && |cs| > 0
    requires j < k < |Gaps(cs)|
    ensures Gaps(cs)[j].end.Some? && Gaps(cs)[j].end.value <= Gaps(cs)[k].start
  {
    assert Gaps(cs)[j] == GapAt(cs, j) && Gaps(cs)[k] == GapAt(cs, k);
    if j + 1 < k {
      SortedChain(cs, j, k - 1);
    }
  }

  /** No time lies in two keep-ranges of sorted breaks. */
  lemma {:induction false} KeepRangesDisjoint(cs: seq<Span>, t: int, j: nat, k: nat)
    requires Sorted(cs) && |cs| > 0
    requires j < k < |Gaps(cs)|
    ensures !(InRange(Gaps(cs)[j], t) && InRange(Gaps(cs)[k], t))
  {
    var r := Gaps(cs);
    if InRange(r[j], t) && InRange(r[k], t) {
      if k == j + 1 {
        KeepRangesOrdered(cs);
      } else if j == 0 {
        SortedChain(cs, 0, k - 1);
      } else {
        SortedChain(cs, j, k - 1);
      }
    }
  }

  /** Sum of the first `n` durations. */
  function Prefix(ds: seq<int>, n: nat): int
    requires n <= |ds|
  {
    if n == 0 then 0 else Prefix(ds, n - 1) + ds[n - 1]
  }

  /** `durations_to_invert`: consecutive ranges of the given durations, starting at zero. */
  method DurationsToInvert(ds: seq<int>) returns (ret: seq<KeepRange>)
    ensures |ret| == |ds|
    ensures forall i :: 0 <= i < |ds| ==> ret[i] == KeepRange(Prefix(ds, i), Some(Prefix(ds, i + 1)))
    ensures forall i :: 0 <= i < |ds| ==> ret[i].end == Some(ret[i].start + ds[i])
    ensures |ds| > 0 ==> ret[0].start == 0 && ret[|ds| - 1].end == Some(Prefix(ds, |ds|))
    ensures forall i :: 0 < i < |ds| ==> ret[i - 1].end == Some(ret[i].start)
  {
    ret := [];
    var pos := 0;
    var n := 0;
    while n < |ds|
      invariant 0 <= n <= |ds|
      invariant |ret| == n
      invariant pos == Prefix(ds, n)
      invariant forall i :: 0 <= i < n ==> ret[i] == KeepRange(Prefix(ds, i), Some(Prefix(ds, i + 1)))
    {
      var d := ds[n];
      assert Prefix(ds, n + 1) == pos + d;
      ret := ret + [KeepRange(pos, Some(pos + d))];
      pos := pos + d;
      n := n + 1;
    }
    forall i | 0 <= i < |ds|
      ensures ret[i].end == Some(ret[i].start + ds[i])
    {
      assert Prefix(ds, i + 1) == Prefix(ds, i) + ds[i];
    }
    forall i | 0 < i < |ds|
      ensures ret[i - 1].end == Some(ret[i].start)
    {
      assert ret[i - 1] == KeepRange(Prefix(ds, i - 1), Some(Prefix(ds, i)));
      assert ret[i] == KeepRange(Prefix(ds, i), Some(Prefix(ds, i + 1)));
    }
    if |ds| > 0 {
      assert ret[0] == KeepRange(Prefix(ds, 0), Some(Prefix(ds, 1)));
      assert Prefix(ds, 0) == 0;
    }
  }
}
