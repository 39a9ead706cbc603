/** Re-timing subtitle cues onto the recording with its commercials cut out: each keep-range
    selects the cues that start inside it and moves them back by the time removed before it.
    Times are integer milliseconds. */
module Subtitles {
  import opened Wrappers
  import opened Intervals

  /** A subtitle cue. */
  datatype Cue = Cue(start: int, end: int, text: string)

  /** The parts `to_time` hands to the subtitle library's shift. */
  datatype TimeParts = TimeParts(hours: int, minutes: int, seconds: int, milliseconds: int)

  const HourMs: int := 3_600_000
  const MinuteMs: int := 60_000
  const SecondMs: int := 1_000

  /** The time in milliseconds the subtitle library makes of the parts. */
  function Ordinal(p: TimeParts): int
  {
    p.hours * HourMs + p.minutes * MinuteMs + p.seconds * SecondMs + p.milliseconds
  }

  function Abs(x: int): nat
  {
    if x < 0 then -x else x
  }

  /** `to_time` as written: every part truncated toward zero, but `minutes` counts all the minutes
      of the time instead of those within the hour. */
  function ToTimeAsWritten(ms: int): TimeParts
  {
    if ms < 0 then
      var a := -ms;
      TimeParts(-(a / HourMs), -(a / MinuteMs), -(a / SecondMs % 60), -(a % SecondMs))
    else
      TimeParts(ms / HourMs, ms / MinuteMs, ms / SecondMs % 60, ms % SecondMs)
  }

  /** `to_time` with the minutes taken within the hour. */
  function ToTime(ms: int): TimeParts
  {
    if ms < 0 then
      var a := -ms;
      TimeParts(-(a / HourMs), -(a / MinuteMs % 60), -(a / SecondMs % 60), -(a % SecondMs))
    else
      TimeParts(ms / HourMs, ms / MinuteMs % 60, ms / SecondMs % 60, ms % SecondMs)
  }

  /** The clock reading of a non-negative time: hours, minutes within the hour, seconds within the
      minute and milliseconds within the second add back up to it. */
  lemma {:induction false} ClockParts(a: nat)
    ensures a == (a / HourMs) * HourMs + (a / MinuteMs % 60) * MinuteMs + (a / SecondMs % 60) * SecondMs + a % SecondMs
    ensures a / MinuteMs == 60 * (a / HourMs) + a / MinuteMs % 60
  {
    var q1 := a / 1000;
    var ms := a % 1000;
    var s := q1 % 60;
    var q2 := q1 / 60;
    var mi := q2 % 60;
    var h := q2 / 60;
    assert a == 1000 * q1 + ms;
    assert q1 == 60 * q2 + s;
    assert q2 == 60 * h + mi;
    assert a == 60000 * q2 + (1000 * s + ms) && 0 <= 1000 * s + ms < 60000;
    assert a / 60000 == q2;
    assert a == 3600000 * h + (60000 * mi + 1000 * s + ms) && 0 <= 60000 * mi + 1000 * s + ms < 3600000;
    assert a / 3600000 == h;
  }

  /** The corrected conversion is exact: the library shifts by the very time it was given, and every
      part lies within its unit and carries the sign of the time. */
  lemma {:induction false} ToTimeExact(ms: int)
    ensures Ordinal(ToTime(ms)) == ms
    ensures var p := ToTime(ms);
      && Abs(p.minutes) < 60 && Abs(p.seconds) < 60 && Abs(p.milliseconds) < 1000
      && (ms >= 0 ==> p.hours >= 0 && p.minutes >= 0 && p.seconds >= 0 && p.milliseconds >= 0)
      && (ms <= 0 ==> p.hours <= 0 && p.minutes <= 0 && p.seconds <= 0 && p.milliseconds <= 0)
  {
    var a := Abs(ms);
    ClockParts(a);
    var h, m, s, l := a / HourMs, a / MinuteMs % 60, a / SecondMs % 60, a % SecondMs;
    assert a == h * HourMs + m * MinuteMs + s * SecondMs + l;
    if ms < 0 {
      assert ToTime(ms) == TimeParts(-h, -m, -s, -l);
    } else {
      assert ToTime(ms) == TimeParts(h, m, s, l);
    }
  }

  /** As written, the conversion adds the whole hours of the time a second time. */
  lemma {:induction false} ToTimeAsWrittenOrdinal(ms: int)
    ensures ms >= 0 ==> Ordinal(ToTimeAsWritten(ms)) == ms + (ms / HourMs) * HourMs
    ensures ms < 0 ==> Ordinal(ToTimeAsWritten(ms)) == ms - (-ms / HourMs) * HourMs
    ensures Ordinal(ToTimeAsWritten(ms)) == ms <==> UnderHour(ms)
  {
    var a := Abs(ms);
    ClockParts(a);
    var h, m, s, l := a / HourMs, a / MinuteMs % 60, a / SecondMs % 60, a % SecondMs;
    assert a == h * HourMs + m * MinuteMs + s * SecondMs + l;
    assert a / MinuteMs == 60 * h + m;
    if ms < 0 {
      assert ToTimeAsWritten(ms) == TimeParts(-h, -(60 * h + m), -s, -l);
    } else {
      assert ToTimeAsWritten(ms) == TimeParts(h, 60 * h + m, s, l);
    }
    assert h == 0 <==> a < HourMs;
  }

  /** A time of less than an hour either way, which the conversion as written keeps exact. */
  predicate UnderHour(ms: int)
  {
    -HourMs < ms < HourMs
  }

  /** The time the subtitle library makes of `to_time(ms)`: what a cue start is compared against,
      and what a cue is moved by. */
  function Converted(ms: int): int
  {
    Ordinal(ToTimeAsWritten(ms))
  }

  /** A keep-range as the splitter compares against it: both bounds passed through `to_time`. */
  function ConvertedRange(r: KeepRange): KeepRange
  {
    KeepRange(Converted(r.start), if r.end.Some? then Some(Converted(r.end.value)) else None)
  }

  /** The conversion as written keeps the order of times, and never moves a time across zero. */
  lemma {:induction false} ConvertedMonotone(a: int, b: int)
    requires a <= b
    ensures Converted(a) <= Converted(b)
    ensures a <= 0 ==> Converted(a) <= 0
    ensures 0 <= b ==> 0 <= Converted(b)
  {
    ToTimeAsWrittenOrdinal(a);
    ToTimeAsWrittenOrdinal(b);
    if 0 <= a {
      assert a / HourMs <= b / HourMs;
    } else if b < 0 {
      assert -b / HourMs <= -a / HourMs;
    }
  }

  /** One hour, as written, comes out as one hour and sixty minutes: two hours. */
  lemma {:induction false} ToTimeAsWrittenOneHour()
    ensures ToTimeAsWritten(HourMs) == TimeParts(1, 60, 0, 0)
    ensures Ordinal(ToTimeAsWritten(HourMs)) == 2 * HourMs
  {
  }

  /** The cue is moved by `d`, both its start and its end; its text is kept. */
  function Shifted(c: Cue, d: int): Cue
  {
    Cue(c.start + d, c.end + d, c.text)
  }

  /** The `prev` value the splitter carries past a range: its end, or minus one second when the range
      is open. */
  const NoEndPrev: int := -1000

  function PrevOf(r: KeepRange): int
  {
    if r.end.Some? then r.end.value else NoEndPrev
  }

  /** The shift applied to the cues of range `j` when there are cues: the running sum of the time
      between the previous range's `prev` value and this range's start, subtracted. */
  function ShiftAt(rs: seq<KeepRange>, j: nat): int
    requires j < |rs|
  {
    if j == 0 then -rs[0].start else ShiftAt(rs, j - 1) - rs[j].start + PrevOf(rs[j - 1])
  }

  /** The bounds the cues of each of the first `n` ranges are compared against: the range passed
      through `to_time`. */
  function BoundsUpTo(rs: seq<KeepRange>, n: nat): (bs: seq<KeepRange>)
    requires n <= |rs|
    ensures |bs| == n
  {
    if n == 0 then [] else BoundsUpTo(rs, n - 1) + [ConvertedRange(rs[n - 1])]
  }

  /** The time the cues of each of the first `n` ranges are moved by: the running shift passed
      through `to_time`. */
  function MovesUpTo(rs: seq<KeepRange>, n: nat): (ms: seq<int>)
    requires n <= |rs|
    ensures |ms| == n
  {
    if n == 0 then [] else MovesUpTo(rs, n - 1) + [Converted(ShiftAt(rs, n - 1))]
  }

  lemma {:induction false} BoundsAt(rs: seq<KeepRange>, n: nat, j: nat)
    requires j < n <= |rs|
    ensures BoundsUpTo(rs, n)[j] == ConvertedRange(rs[j])
  {
    if j < n - 1 {
      BoundsAt(rs, n - 1, j);
    }
  }

  lemma {:induction false} MovesAt(rs: seq<KeepRange>, n: nat, j: nat)
    requires j < n <= |rs|
    ensures MovesUpTo(rs, n)[j] == Converted(ShiftAt(rs, j))
  {
    if j < n - 1 {
      MovesAt(rs, n - 1, j);
    }
  }

  /** The first `k` cues that start in `r`, in their order, moved by `d`. */
  function Pick(r: KeepRange, d: int, cues: seq<Cue>, k: nat): seq<Cue>
    requires k <= |cues|
  {
    if k == 0 then []
    else Pick(r, d, cues, k - 1) + (if InRange(r, cues[k - 1].start) then [Shifted(cues[k - 1], d)] else [])
  }

  /** The output for the first `j` ranges, range `q` comparing against `bs[q]` and moving its cues
      by `ms[q]`: each range's picked cues, range after range. */
  function RetimedUpTo(bs: seq<KeepRange>, ms: seq<int>, cues: seq<Cue>, j: nat): seq<Cue>
    requires j <= |bs| == |ms|
  {
    if j == 0 then []
    else RetimedUpTo(bs, ms, cues, j - 1) + Pick(bs[j - 1], ms[j - 1], cues, |cues|)
  }

  /** The re-timed cues for all ranges. */
  function Retimed(rs: seq<KeepRange>, cues: seq<Cue>): seq<Cue>
  {
    RetimedUpTo(BoundsUpTo(rs, |rs|), MovesUpTo(rs, |rs|), cues, |rs|)
  }

  /** The loop of `split_subtitles` over the cues for one range: the cues that start at or after
      `to_time` of the range's start and, when it has an end, before `to_time` of its end, moved by
      the time `time` stands for. `prev` becomes the range's end once a cue has been looked at, and
      stays as it was when there are no cues. */
  method PickCues(c: KeepRange, time: TimeParts, cues: seq<Cue>, prev: int) returns (picked: seq<Cue>, prev': int)
    ensures picked == Pick(ConvertedRange(c), Ordinal(time), cues, |cues|)
    ensures prev' == if |cues| > 0 then PrevOf(c) else prev
  {
    picked := [];
    prev' := prev;
    var k := 0;
    while k < |cues|
      invariant 0 <= k <= |cues|
      invariant picked == Pick(ConvertedRange(c), Ordinal(time), cues, k)
      invariant prev' == if k > 0 then PrevOf(c) else prev
    {
      var cue := cues[k];
      if cue.start >= Ordinal(ToTimeAsWritten(c.start)) && (c.end.None? || cue.start < Ordinal(ToTimeAsWritten(c.end.value))) {
        picked := picked + [Shifted(cue, Ordinal(time))];
      }
      prev' := if c.end.Some? then c.end.value else NoEndPrev;
      k := k + 1;
    }
  }

  /** `split_subtitles` without the file reading and writing: for every range, every cue whose start
      falls in the range's converted bounds is copied and moved by the converted running shift. */
  method SplitSubtitles(rs: seq<KeepRange>, cues: seq<Cue>) returns (parts: seq<Cue>)
    ensures parts == Retimed(rs, cues)
  {
    parts := [];
    var prev := 0;
    var shift := 0;
    var j := 0;
    while j < |rs|
      invariant 0 <= j <= |rs|
      invariant parts == RetimedUpTo(BoundsUpTo(rs, |rs|), MovesUpTo(rs, |rs|), cues, j)
      invariant |cues| > 0 ==> prev == PrevBefore(rs, j) && shift == ShiftBefore(rs, j)
    {
      shift := shift - rs[j].start + prev;
      var time := ToTimeAsWritten(shift);
      var picked;
      RetimedStep(rs, cues, j, shift, time);
      picked, prev := PickCues(rs[j], time, cues, prev);
      parts := parts + picked;
      j := j + 1;
    }
  }

  /** The shift carried into range `j`: none before the first range. */
  function ShiftBefore(rs: seq<KeepRange>, j: nat): int
    requires j <= |rs|
  {
    if j == 0 then 0 else ShiftAt(rs, j - 1)
  }

  /** The `prev` value carried into range `j`: zero before the first range. */
  function PrevBefore(rs: seq<KeepRange>, j: nat): int
    requires j <= |rs|
  {
    if j == 0 then 0 else PrevOf(rs[j - 1])
  }

  /** One more range adds its picked cues; with no cues the shift it is given plays no part. */
  lemma {:induction false} RetimedStep(rs: seq<KeepRange>, cues: seq<Cue>, j: nat, shift: int, time: TimeParts)
    requires j < |rs|
    requires |cues| > 0 ==> shift == ShiftBefore(rs, j) - rs[j].start + PrevBefore(rs, j)
    requires time == ToTimeAsWritten(shift)
    ensures |cues| > 0 ==> shift == ShiftBefore(rs, j + 1) && PrevOf(rs[j]) == PrevBefore(rs, j + 1)
    ensures RetimedUpTo(BoundsUpTo(rs, |rs|), MovesUpTo(rs, |rs|), cues, j + 1)
         == RetimedUpTo(BoundsUpTo(rs, |rs|), MovesUpTo(rs, |rs|), cues, j) + Pick(ConvertedRange(rs[j]), Ordinal(time), cues, |cues|)
  {
    BoundsAt(rs, |rs|, j);
    MovesAt(rs, |rs|, j);
    if |cues| == 0 {
      assert Pick(ConvertedRange(rs[j]), Ordinal(time), cues, 0) == [];
    }
  }

  /** Every picked cue is one of the first `k` cues that starts in the range, moved by `d`. */
  lemma {:induction false} PickSource(r: KeepRange, d: int, cues: seq<Cue>, k: nat, p: nat) returns (i: nat)
    requires k <= |cues| && p < |Pick(r, d, cues, k)|
    ensures i < k && InRange(r, cues[i].start) && Pick(r, d, cues, k)[p] == Shifted(cues[i], d)
  {
    var before := Pick(r, d, cues, k - 1);
    var last := if InRange(r, cues[k - 1].start) then [Shifted(cues[k - 1], d)] else [];
    assert Pick(r, d, cues, k) == before + last;
    if p < |before| {
      i := PickSource(r, d, cues, k - 1, p);
    } else {
      i := k - 1;
    }
  }

  /** Every one of the first `k` cues that starts in the range is picked, moved by `d`. */
  lemma {:induction false} PickKeeps(r: KeepRange, d: int, cues: seq<Cue>, k: nat, i: nat) returns (p: nat)
    requires i < k <= |cues| && InRange(r, cues[i].start)
    ensures p < |Pick(r, d, cues, k)| && Pick(r, d, cues, k)[p] == Shifted(cues[i], d)
  {
    var before := Pick(r, d, cues, k - 1);
    var last := if InRange(r, cues[k - 1].start) then [Shifted(cues[k - 1], d)] else [];
    assert Pick(r, d, cues, k) == before + last;
    if i < k - 1 {
      p := PickKeeps(r, d, cues, k - 1, i);
    } else {
      p := |before|;
    }
  }

  /** Every cue in the output for the first `j` ranges is a cue that starts within one of their
      bounds, moved by that range's move. */
  lemma {:induction false} PartsSource(bs: seq<KeepRange>, ms: seq<int>, cues: seq<Cue>, j: nat, p: nat) returns (q: nat, i: nat)
    requires j <= |bs| == |ms| && p < |RetimedUpTo(bs, ms, cues, j)|
    ensures q < j && i < |cues| && InRange(bs[q], cues[i].start)
    ensures RetimedUpTo(bs, ms, cues, j)[p] == Shifted(cues[i], ms[q])
  {
    var before := RetimedUpTo(bs, ms, cues, j - 1);
    var pick := Pick(bs[j - 1], ms[j - 1], cues, |cues|);
    assert RetimedUpTo(bs, ms, cues, j) == before + pick;
    if p < |before| {
      q, i := PartsSource(bs, ms, cues, j - 1, p);
    } else {
      i := PickSource(bs[j - 1], ms[j - 1], cues, |cues|, p - |before|);
      q := j - 1;
    }
  }

  /** Every cue that starts within the bounds of one of the first `j` ranges is in their output,
      moved by that range's move. */
  lemma {:induction false} PartsKeep(bs: seq<KeepRange>, ms: seq<int>, cues: seq<Cue>, j: nat, q: nat, i: nat) returns (p: nat)
    requires q < j <= |bs| == |ms| && i < |cues| && InRange(bs[q], cues[i].start)
    ensures p < |RetimedUpTo(bs, ms, cues, j)| && RetimedUpTo(bs, ms, cues, j)[p] == Shifted(cues[i], ms[q])
  {
    var before := RetimedUpTo(bs, ms, cues, j - 1);
    var pick := Pick(bs[j - 1], ms[j - 1], cues, |cues|);
    assert RetimedUpTo(bs, ms, cues, j) == before + pick;
    if q == j - 1 {
      var p0 := PickKeeps(bs[j - 1], ms[j - 1], cues, |cues|, i);
      p := |before| + p0;
    } else {
      p := PartsKeep(bs, ms, cues, j - 1, q, i);
    }
  }

  /** Every re-timed cue is a cue that starts within some range's converted bounds, moved by that
      range's converted shift; a cue's end plays no part in the choice. */
  lemma {:induction false} RetimedSource(rs: seq<KeepRange>, cues: seq<Cue>, p: nat) returns (q: nat, i: nat)
    requires p < |Retimed(rs, cues)|
    ensures q < |rs| && i < |cues| && InRange(ConvertedRange(rs[q]), cues[i].start)
    ensures Retimed(rs, cues)[p] == Shifted(cues[i], Converted(ShiftAt(rs, q)))
  {
    q, i := PartsSource(BoundsUpTo(rs, |rs|), MovesUpTo(rs, |rs|), cues, |rs|, p);
    BoundsAt(rs, |rs|, q);
    MovesAt(rs, |rs|, q);
  }

  /** Every cue that starts within a range's converted bounds is re-timed by that range's converted
      shift; with `RetimedSource`, a cue that starts in no converted range is dropped. */
  lemma {:induction false} RetimedKeeps(rs: seq<KeepRange>, cues: seq<Cue>, q: nat, i: nat) returns (p: nat)
    requires q < |rs| && i < |cues| && InRange(ConvertedRange(rs[q]), cues[i].start)
    ensures p < |Retimed(rs, cues)| && Retimed(rs, cues)[p] == Shifted(cues[i], Converted(ShiftAt(rs, q)))
  {
    BoundsAt(rs, |rs|, q);
    MovesAt(rs, |rs|, q);
    p := PartsKeep(BoundsUpTo(rs, |rs|), MovesUpTo(rs, |rs|), cues, |rs|, q, i);
  }

  /** A range whose bounds and shift are all under an hour is compared and shifted exactly: every cue
      that starts in it is re-timed by the range's shift itself. */
  lemma {:induction false} RetimedKeepsUnderHour(rs: seq<KeepRange>, cues: seq<Cue>, q: nat, i: nat)
    requires q < |rs| && i < |cues| && InRange(rs[q], cues[i].start)
    requires UnderHour(rs[q].start) && (rs[q].end.Some? ==> UnderHour(rs[q].end.value))
    requires UnderHour(ShiftAt(rs, q))
    ensures ConvertedRange(rs[q]) == rs[q]
    ensures Shifted(cues[i], ShiftAt(rs, q)) in Retimed(rs, cues)
  {
    ToTimeAsWrittenOrdinal(rs[q].start);
    if rs[q].end.Some? {
      ToTimeAsWrittenOrdinal(rs[q].end.value);
    }
    ToTimeAsWrittenOrdinal(ShiftAt(rs, q));
    var p := RetimedKeeps(rs, cues, q, i);
  }

  /** Past an hour the doubled hours misplace cues: with ranges `[0, 600 s)`, `[700 s, 3700 s)` and
      `[3800 s, ...)`, a cue at 3900 s belongs to the last range, which would put it at 3700 s. But
      `to_time(3700 s)` stands for 7300 s, so the middle range takes the cue and puts it at 3800 s,
      and `to_time(3800 s)` stands for 7400 s, so the last range does not take it. */
  lemma {:induction false} RetimedPastHour()
    ensures var rs := [KeepRange(0, Some(600_000)), KeepRange(700_000, Some(3_700_000)), KeepRange(3_800_000, None)];
      var cue := Cue(3_900_000, 3_902_000, "");
      && InRange(rs[2], cue.start) && ShiftAt(rs, 2) == -200_000
      && Retimed(rs, [cue]) == [Cue(3_800_000, 3_802_000, "")]
  {
    var rs := [KeepRange(0, Some(600_000)), KeepRange(700_000, Some(3_700_000)), KeepRange(3_800_000, None)];
    var cue := Cue(3_900_000, 3_902_000, "");
    assert ShiftAt(rs, 0) == 0;
    assert ShiftAt(rs, 1) == -100_000;
    assert ShiftAt(rs, 2) == -200_000;
    var bs, ms := BoundsUpTo(rs, |rs|), MovesUpTo(rs, |rs|);
    BoundsAt(rs, 3, 0);
    BoundsAt(rs, 3, 1);
    BoundsAt(rs, 3, 2);
    MovesAt(rs, 3, 0);
    MovesAt(rs, 3, 1);
    MovesAt(rs, 3, 2);
    PastHourConversions();
    assert ConvertedRange(rs[0]) == rs[0] && ConvertedRange(rs[1]) == KeepRange(700_000, Some(7_300_000));
    assert ConvertedRange(rs[2]) == KeepRange(7_400_000, None);
    assert ms[0] == 0 && ms[1] == -100_000 && ms[2] == -200_000;
    assert bs[0] == rs[0] && bs[1] == KeepRange(700_000, Some(7_300_000)) && bs[2] == KeepRange(7_400_000, None);
    assert Pick(rs[0], 0, [cue], 1) == [];
    assert Pick(KeepRange(700_000, Some(7_300_000)), -100_000, [cue], 1) == [Cue(3_800_000, 3_802_000, "")];
    assert Pick(KeepRange(7_400_000, None), -200_000, [cue], 1) == [];
    assert RetimedUpTo(bs, ms, [cue], 1) == [];
    assert RetimedUpTo(bs, ms, [cue], 2) == [Cue(3_800_000, 3_802_000, "")];
    assert RetimedUpTo(bs, ms, [cue], 3) == [Cue(3_800_000, 3_802_000, "")];
  }

  /** The conversions the example above goes through. */
  lemma {:induction false} PastHourConversions()
    ensures Converted(0) == 0 && Converted(600_000) == 600_000 && Converted(700_000) == 700_000
    ensures Converted(-100_000) == -100_000 && Converted(-200_000) == -200_000
    ensures Converted(3_700_000) == 7_300_000 && Converted(3_800_000) == 7_400_000
  {
    assert ToTimeAsWritten(600_000) == TimeParts(0, 10, 0, 0);
    assert ToTimeAsWritten(700_000) == TimeParts(0, 11, 40, 0);
    assert ToTimeAsWritten(-100_000) == TimeParts(0, -1, -40, 0);
    assert ToTimeAsWritten(-200_000) == TimeParts(0, -3, -20, 0);
    assert ToTimeAsWritten(3_700_000) == TimeParts(1, 61, 40, 0);
    assert ToTimeAsWritten(3_800_000) == TimeParts(1, 63, 20, 0);
  }

  /** With sorted breaks the converted keep-ranges stay apart, so no cue is taken by two ranges and
      no cue is moved twice. */
  lemma {:induction false} SortedBreaksPickOnce(cs: seq<Span>, t: int, j: nat, k: nat)
    requires Sorted(cs) && |cs| > 0
    requires j < k < |Gaps(cs)|
    ensures !(InRange(ConvertedRange(Gaps(cs)[j]), t) && InRange(ConvertedRange(Gaps(cs)[k]), t))
  {
    KeepRangesFollow(cs, j, k);
    ConvertedMonotone(Gaps(cs)[j].end.value, Gaps(cs)[k].start);
  }

  /** Between sorted breaks every gap starts where a break ends, after the previous gap's end, so
      the running shift never moves a cue forward. */
  lemma {:induction false} SortedBreaksShiftBack(cs: seq<Span>, j: nat)
    requires Sorted(cs) && |cs| > 0
    requires j < |Gaps(cs)|
    ensures ShiftAt(Gaps(cs), j) <= 0
    ensures Converted(ShiftAt(Gaps(cs), j)) <= 0
  {
    var rs := Gaps(cs);
    if j > 0 {
      SortedBreaksShiftBack(cs, j - 1);
      assert rs[j - 1] == GapAt(cs, j - 1) && rs[j] == GapAt(cs, j);
      assert PrevOf(rs[j - 1]) == cs[j - 1].start && rs[j].start == cs[j - 1].end;
    }
    ConvertedMonotone(ShiftAt(rs, j), 0);
  }

  /** With sorted breaks a cue taken by range `j` and moved in place lands before every later
      converted range, so the moved input cue is never taken again by a later range. */
  lemma {:induction false} SortedBreaksMovedStaysOut(cs: seq<Span>, t: int, j: nat, k: nat)
    requires Sorted(cs) && |cs| > 0
    requires j < k < |Gaps(cs)|
    requires InRange(ConvertedRange(Gaps(cs)[j]), t)
    ensures !InRange(ConvertedRange(Gaps(cs)[k]), t + Converted(ShiftAt(Gaps(cs), j)))
  {
    SortedBreaksShiftBack(cs, j);
    KeepRangesFollow(cs, j, k);
    ConvertedMonotone(Gaps(cs)[j].end.value, Gaps(cs)[k].start);
  }

  /** Time kept in the first `j` ranges, all of which have an end. */
  function KeptBefore(rs: seq<KeepRange>, j: nat): int
    requires j <= |rs|
    requires forall q :: 0 <= q < j ==> rs[q].end.Some?
  {
    if j == 0 then 0 else KeptBefore(rs, j - 1) + (rs[j - 1].end.value - rs[j - 1].start)
  }

  /** The running shift is the total time kept in the ranges before `j` minus the start of range `j`;
      when that is under an hour the library moves a cue by exactly that much, so a cue starting `t`
      into range `j` lands `t` after the time kept before it. */
  lemma {:induction false} ShiftIsKeptTime(rs: seq<KeepRange>, j: nat)
    requires j < |rs|
    requires forall q :: 0 <= q < j ==> rs[q].end.Some?
    ensures ShiftAt(rs, j) == KeptBefore(rs, j) - rs[j].start
    ensures UnderHour(KeptBefore(rs, j) - rs[j].start) ==> Converted(ShiftAt(rs, j)) == KeptBefore(rs, j) - rs[j].start
  {
    if j > 0 {
      ShiftIsKeptTime(rs, j - 1);
    }
    ToTimeAsWrittenOrdinal(ShiftAt(rs, j));
  }

  /** Ranges laid end to end from zero (as `durations_to_invert` builds them) move nothing. */
  lemma {:induction false} ContiguousRangesKeepTimes(rs: seq<KeepRange>, j: nat)
    requires j < |rs|
    requires rs[0].start == 0
    requires forall q :: 0 < q < |rs| ==> rs[q - 1].end == Some(rs[q].start)
    ensures ShiftAt(rs, j) == 0 && Converted(ShiftAt(rs, j)) == 0
  {
    if j > 0 {
      ContiguousRangesKeepTimes(rs, j - 1);
    }
  }
}
