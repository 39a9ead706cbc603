/** The few Python string and `os.path` (POSIX) operations the core relies on:
    `str.split`, `str.join`, `str.replace`, `str(int)`, `int(str)`, `os.path.basename`
    and `os.path.join`. */
module Strings {

  /** `sep.join(parts)`. */
  function Join(parts: seq<string>, sep: string): string
  {
    if |parts| == 0 then ""
    else if |parts| == 1 then parts[0]
    else parts[0] + sep + Join(parts[1..], sep)
  }

  /** `s.split(sep)` for a one-character separator: every piece, empty ones included.
      The pieces never contain the separator and joining them back gives `s`. */
  function Split(s: string, sep: char): (parts: seq<string>)
    ensures |parts| >= 1
    ensures forall i :: 0 <= i < |parts| ==> sep !in parts[i]
    ensures Join(parts, [sep]) == s
    decreases |s|
  {
    if |s| == 0 then [""]
    else
      var rest := Split(s[1..], sep);
      if s[0] == sep then
        [""] + rest
      else
        assert Join(rest, [sep]) == rest[0] + (if |rest| == 1 then "" else [sep] + Join(rest[1..], [sep]));
        [[s[0]] + rest[0]] + rest[1..]
  }

  /** The first piece of `s.split(sep)` is the part of `s` before the first separator. */
  lemma {:induction false} SplitHead(s: string, sep: char)
    ensures |Split(s, sep)[0]| <= |s|
    ensures s[..|Split(s, sep)[0]|] == Split(s, sep)[0]
    ensures sep !in Split(s, sep)[0]
    ensures |Split(s, sep)[0]| < |s| ==> s[|Split(s, sep)[0]|] == sep
  {
    var parts := Split(s, sep);
    if |parts| > 1 {
      assert s == parts[0] + [sep] + Join(parts[1..], [sep]);
    }
  }

  /** `s.replace(pattern, replacement)`: every leftmost non-overlapping occurrence. */
  function ReplaceAll(s: string, pattern: string, replacement: string): string
    requires |pattern| > 0
    decreases |s|
  {
    if |s| < |pattern| then s
    else if s[..|pattern|] == pattern then replacement + ReplaceAll(s[|pattern|..], pattern, replacement)
    else [s[0]] + ReplaceAll(s[1..], pattern, replacement)
  }

  predicate IsDigit(c: char)
  {
    '0' <= c <= '9'
  }

  predicate AllDigits(s: string)
  {
    forall i :: 0 <= i < |s| ==> IsDigit(s[i])
  }

  function DigitChar(d: nat): char
    requires d < 10
  {
    "0123456789"[d]
  }

  /** The digit character of `d` is a digit whose value is `d`. */
  lemma {:induction false} DigitCharValue(d: nat)
    requires d < 10
    ensures IsDigit(DigitChar(d)) && DigitChar(d) as int - '0' as int == d
  {
  }

  /** `int(s)` for a string of decimal digits (leading zeros allowed). */
  function ParseDigits(s: string): nat
    requires AllDigits(s)
    decreases |s|
  {
    if |s| == 0 then 0
    else 10 * ParseDigits(s[..|s| - 1]) + (s[|s| - 1] as int - '0' as int)
  }

  /** `str(n)` for a non-negative integer: the shortest decimal numeral. */
  function NatToString(n: nat): string
    decreases n
  {
    if n < 10 then [DigitChar(n)] else NatToString(n / 10) + [DigitChar(n % 10)]
  }

  /** `str(n)` is a non-empty string of digits without a leading zero, which `int()` reads back. */
  lemma {:induction false} NatToStringDigits(n: nat)
    ensures |NatToString(n)| >= 1
    ensures AllDigits(NatToString(n))
    ensures |NatToString(n)| > 1 ==> NatToString(n)[0] != '0'
    ensures ParseDigits(NatToString(n)) == n
    decreases n
  {
    var s := NatToString(n);
    if n < 10 {
      DigitCharValue(n);
      assert s == [DigitChar(n)];
    } else {
      var q, d := n / 10, n % 10;
      assert n == 10 * q + d && q < n;
      NatToStringDigits(q);
      DigitCharValue(d);
      var prefix := NatToString(q);
      assert s == prefix + [DigitChar(d)];
      assert s[..|s| - 1] == prefix;
      assert s[0] == prefix[0];
      assert ParseDigits(s) == 10 * ParseDigits(prefix) + d;
    }
  }

  /** Distinct numbers print differently. */
  lemma {:induction false} NatToStringInjective(i: nat, j: nat)
    requires NatToString(i) == NatToString(j)
    ensures i == j
  {
    NatToStringDigits(i);
    NatToStringDigits(j);
  }

  /** `str(n)` for any integer. */
  function IntToString(n: int): string
  {
    if n < 0 then "-" + NatToString(-n) else NatToString(n)
  }

  /** `os.path.basename(path)` (POSIX): the part after the last '/'. */
  function Basename(path: string): (b: string)
    ensures |b| <= |path|
    ensures path[|path| - |b|..] == b
    ensures '/' !in b
    ensures |b| < |path| ==> path[|path| - |b| - 1] == '/'
    decreases |path|
  {
    if |path| == 0 then ""
    else if path[|path| - 1] == '/' then ""
    else
      var init := path[..|path| - 1];
      var bi := Basename(init);
      var b := bi + [path[|path| - 1]];
      assert |b| <= |path| && init[|init| - |bi|..] == bi;
      assert path[|path| - |b|..] == init[|init| - |bi|..] + [path[|path| - 1]];
      b
  }

  /** `os.path.join(dir, name)` (POSIX) for two components. */
  function PathJoin(dir: string, name: string): string
  {
    if |name| > 0 && name[0] == '/' then name
    else if |dir| == 0 || dir[|dir| - 1] == '/' then dir + name
    else dir + "/" + name
  }

  /** Joining two relative names onto the same directory gives the same path only for the same name. */
  lemma {:induction false} PathJoinInjective(dir: string, a: string, b: string)
    requires |a| > 0 && a[0] != '/'
    requires |b| > 0 && b[0] != '/'
    requires PathJoin(dir, a) == PathJoin(dir, b)
    ensures a == b
  {
    var p := if |dir| == 0 || dir[|dir| - 1] == '/' then dir else dir + "/";
    assert PathJoin(dir, a) == p + a;
    assert PathJoin(dir, b) == p + b;
    assert a == (p + a)[|p|..];
    assert b == (p + b)[|p|..];
  }
}
