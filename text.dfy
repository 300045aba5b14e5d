/**
 * Python string operations the scripts rely on, over `string` (a sequence of
 * `char`): `startswith`, `endswith`, `in`, `lower`, `upper`, `isalnum`, `strip`,
 * `split`, `split(sep, 1)`, `replace(old, "")`, `'{:02d}'` formatting, writing
 * one item per line and iterating over the lines of a text file.
 */
module Text {

  predicate StartsWith(s: string, p: string) {
    |p| <= |s| && s[..|p|] == p
  }

  predicate EndsWith(s: string, p: string) {
    |p| <= |s| && s[|s| - |p|..] == p
  }

  lemma EndsWithAppended(s: string, p: string)
    ensures EndsWith(s + p, p)
  {
    assert (s + p)[|s|..] == p;
  }

  /** Python's `p in s` on strings: `p` occurs somewhere in `s`. */
  predicate Contains(s: string, p: string)
    decreases |s|
  {
    StartsWith(s, p) || (|s| > 0 && Contains(s[1..], p))
  }

  // ---------------------------------------------------------------------------
  // Characters (ASCII case mapping and classification)

  predicate IsUpperAscii(c: char) { 'A' <= c <= 'Z' }

  predicate IsLowerAscii(c: char) { 'a' <= c <= 'z' }

  predicate IsDigit(c: char) { '0' <= c <= '9' }

  /** `str.isalnum` restricted to ASCII letters and digits. */
  predicate IsAlnum(c: char) { IsUpperAscii(c) || IsLowerAscii(c) || IsDigit(c) }

  predicate AllAlnum(s: string) {
    |s| > 0 && forall i :: 0 <= i < |s| ==> IsAlnum(s[i])
  }

  function LowerChar(c: char): (r: char)
    ensures !IsUpperAscii(r)
  {
    if IsUpperAscii(c) then (c as int + 32) as char else c
  }

  function UpperChar(c: char): (r: char)
    ensures !IsLowerAscii(r)
  {
    if IsLowerAscii(c) then (c as int - 32) as char else c
  }

  function ToLower(s: string): (r: string)
    ensures |r| == |s| && forall i :: 0 <= i < |s| ==> r[i] == LowerChar(s[i])
  {
    seq(|s|, i requires 0 <= i < |s| => LowerChar(s[i]))
  }

  function ToUpper(s: string): (r: string)
    ensures |r| == |s| && forall i :: 0 <= i < |s| ==> r[i] == UpperChar(s[i])
  {
    seq(|s|, i requires 0 <= i < |s| => UpperChar(s[i]))
  }

  /**
   * The code points for which Python's `str.isspace` holds, which are the
   * ones `str.strip()` removes.
   */
  predicate IsSpace(c: char) {
    ('\U{9}' <= c <= '\U{D}') || ('\U{1C}' <= c <= '\U{20}') ||
    c == '\U{85}' || c == '\U{A0}' || c == '\U{1680}' ||
    ('\U{2000}' <= c <= '\U{200A}') || c == '\U{2028}' || c == '\U{2029}' ||
    c == '\U{202F}' || c == '\U{205F}' || c == '\U{3000}'
  }

  // ---------------------------------------------------------------------------
  // strip()

  /** Neither end of `s` is whitespace: what `strip()` returns. */
  predicate IsStripped(s: string) {
    s == [] || (!IsSpace(s[0]) && !IsSpace(s[|s| - 1]))
  }

  /** `s.lstrip()`. */
  function StripLeft(s: string): (r: string)
    ensures |r| <= |s|
  {
    if |s| > 0 && IsSpace(s[0]) then StripLeft(s[1..]) else s
  }

  /** `lstrip()` removes exactly the leading whitespace. */
  lemma {:induction false} StripLeftSpec(s: string)
    ensures var r := StripLeft(s);
      && r == s[|s| - |r|..]
      && (r == [] || !IsSpace(r[0]))
      && forall i :: 0 <= i < |s| - |r| ==> IsSpace(s[i])
    decreases |s|
  {
    if |s| > 0 && IsSpace(s[0]) {
      StripLeftSpec(s[1..]);
    }
  }

  /** `s.rstrip()`. */
  function StripRight(s: string): (r: string)
    ensures |r| <= |s|
  {
    if |s| > 0 && IsSpace(s[|s| - 1]) then StripRight(s[..|s| - 1]) else s
  }

  /** `rstrip()` removes exactly the trailing whitespace. */
  lemma {:induction false} StripRightSpec(s: string)
    ensures var r := StripRight(s);
      && r == s[..|r|]
      && (r == [] || !IsSpace(r[|r| - 1]))
      && forall i :: |r| <= i < |s| ==> IsSpace(s[i])
    decreases |s|
  {
    if |s| > 0 && IsSpace(s[|s| - 1]) {
      StripRightSpec(s[..|s| - 1]);
    }
  }

  /** `s.strip()`: `s` without its leading and trailing whitespace. */
  function Strip(s: string): (r: string)
    ensures IsStripped(r) && |r| <= |s|
  {
    StripLeftSpec(s);
    StripRightOfTrimmed(StripLeft(s));
    StripRight(StripLeft(s))
  }

  /** Right-stripping a string that starts with no whitespace leaves neither end whitespace. */
  lemma StripRightOfTrimmed(l: string)
    requires l == [] || !IsSpace(l[0])
    ensures IsStripped(StripRight(l))
  {
    StripRightSpec(l);
    var r := StripRight(l);
    if r != [] {
      assert r[0] == l[0];
    }
  }

  /**
   * `strip()` removes exactly the leading and the trailing whitespace: the
   * result is the slice of `s` after its first `a` characters, and every
   * character outside that slice is whitespace.
   */
  lemma StripSpec(s: string)
    ensures var r := Strip(s); var a := |s| - |StripLeft(s)|;
      && a + |r| <= |s|
      && r == s[a..a + |r|]
      && (forall j :: 0 <= j < a ==> IsSpace(s[j]))
      && (forall j :: a + |r| <= j < |s| ==> IsSpace(s[j]))
  {
    StripLeftSpec(s);
    StripRightSpec(StripLeft(s));
    InnerSlice(s, StripLeft(s), Strip(s));
  }

  /**
   * A prefix `r` of the suffix `l` of `s` is a slice of `s`, and what `s`
   * has outside it is what `l` lacks at its front and `r` lacks at its end.
   */
  lemma InnerSlice(s: string, l: string, r: string)
    requires |l| <= |s| && l == s[|s| - |l|..] && |r| <= |l| && r == l[..|r|]
    requires forall j :: 0 <= j < |s| - |l| ==> IsSpace(s[j])
    requires forall j :: |r| <= j < |l| ==> IsSpace(l[j])
    ensures r == s[|s| - |l|..|s| - |l| + |r|]
    ensures forall j :: |s| - |l| + |r| <= j < |s| ==> IsSpace(s[j])
  {
    var a := |s| - |l|;
    forall j | a + |r| <= j < |s| ensures IsSpace(s[j]) {
      assert s[j] == l[j - a];
    }
  }

  /** `strip()` returns a slice of its argument, so it adds no character. */
  lemma StripKeepsAbsent(s: string, c: char)
    requires c !in s
    ensures c !in Strip(s)
  {
    var l := StripLeft(s);
    StripLeftSpec(s);
    StripRightSpec(l);
    assert Strip(s) == s[|s| - |l|..][..|StripRight(l)|];
  }

  /** Stripping a line read back from a file removes its line terminator. */
  lemma StripTerminated(s: string)
    requires IsStripped(s)
    ensures Strip(s + "\n") == s
  {
    var t := s + "\n";
    if s == [] {
      assert StripLeft(t) == StripLeft(t[1..]);
      assert t[1..] == [];
    } else {
      assert StripLeft(t) == t;
      assert t[..|t| - 1] == s;
      assert StripRight(t) == StripRight(s) == s;
    }
  }

  // ---------------------------------------------------------------------------
  // split(c), split(c, 1) and joining

  /** `sep.join(parts)` for a one-character separator. */
  function Join(parts: seq<string>, c: char): string {
    if |parts| == 0 then ""
    else if |parts| == 1 then parts[0]
    else parts[0] + [c] + Join(parts[1..], c)
  }

  /**
   * `s.split(c)`: the fields of `s` between occurrences of `c`; there is
   * always at least one field, no field contains `c`, and joining the fields
   * with `c` gives `s` back.
   */
  function Split(s: string, c: char): (r: seq<string>)
    ensures |r| >= 1
    ensures forall i :: 0 <= i < |r| ==> c !in r[i]
    ensures Join(r, c) == s
    decreases |s|
  {
    if s == [] then [""]
    else
      var rest := Split(s[1..], c);
      if s[0] == c then
        assert Join([""] + rest, c) == [c] + Join(rest, c) by {
          assert ([""] + rest)[1..] == rest;
        }
        [""] + rest
      else
        var r := [[s[0]] + rest[0]] + rest[1..];
        assert Join(r, c) == [s[0]] + Join(rest, c) by {
          if |rest| > 1 {
            assert r[1..] == rest[1..];
            assert Join(rest, c) == rest[0] + [c] + Join(rest[1..], c);
          }
        }
        r
  }

  lemma {:induction false} SplitWithout(s: string, c: char)
    requires c !in s
    ensures Split(s, c) == [s]
    decreases |s|
  {
    if s != [] {
      SplitWithout(s[1..], c);
    }
  }

  lemma {:induction false} SplitAt(a: string, b: string, c: char)
    requires c !in a
    ensures Split(a + [c] + b, c) == [a] + Split(b, c)
    decreases |a|
  {
    var s := a + [c] + b;
    if a == [] {
      assert s[1..] == b;
    } else {
      assert s[1..] == a[1..] + [c] + b;
      SplitAt(a[1..], b, c);
      var rest := Split(s[1..], c);
      assert rest[0] == a[1..] && rest[1..] == Split(b, c);
      assert [s[0]] + rest[0] == a;
    }
  }

  /** Splitting joined fields that hold no separator gives the fields back. */
  lemma {:induction false} SplitJoin(parts: seq<string>, c: char)
    requires |parts| >= 1 && forall i :: 0 <= i < |parts| ==> c !in parts[i]
    ensures Split(Join(parts, c), c) == parts
    decreases |parts|
  {
    if |parts| == 1 {
      SplitWithout(parts[0], c);
    } else {
      SplitJoin(parts[1..], c);
      SplitAt(parts[0], Join(parts[1..], c), c);
      assert parts == [parts[0]] + parts[1..];
    }
  }

  /** The text before the first `c`, or all of `s`: the first field of `s.split(c)`. */
  function TakeUntil(s: string, c: char): string {
    if s == [] || s[0] == c then [] else [s[0]] + TakeUntil(s[1..], c)
  }

  /** The text after the first `c`, or nothing. */
  function DropThrough(s: string, c: char): string {
    if s == [] then [] else if s[0] == c then s[1..] else DropThrough(s[1..], c)
  }

  lemma {:induction false} TakeUntilWithout(a: string, c: char)
    requires c !in a
    ensures TakeUntil(a, c) == a
    decreases |a|
  {
    if a != [] {
      TakeUntilWithout(a[1..], c);
    }
  }

  /** Around the first `c` of `a + [c] + b`: `a` before it, `b` after. */
  lemma {:induction false} TakeUntilAt(a: string, b: string, c: char)
    requires c !in a
    ensures TakeUntil(a + [c] + b, c) == a
    ensures DropThrough(a + [c] + b, c) == b
    decreases |a|
  {
    var s := a + [c] + b;
    if a == [] {
      assert s[1..] == b;
    } else {
      assert s[1..] == a[1..] + [c] + b;
      TakeUntilAt(a[1..], b, c);
    }
  }

  lemma {:induction false} TakeUntilSplit(s: string, c: char)
    ensures TakeUntil(s, c) == Split(s, c)[0]
    decreases |s|
  {
    if s != [] && s[0] != c {
      TakeUntilSplit(s[1..], c);
    }
  }

  lemma {:induction false} DropThroughSplit(s: string, c: char)
    requires c in s
    ensures Split(s, c)[1..] == Split(DropThrough(s, c), c)
    decreases |s|
  {
    if s[0] != c {
      DropThroughSplit(s[1..], c);
    }
  }

  /** `s.split(c)[1]`, for an `s` that holds `c`, is the text between its first and second `c`. */
  lemma SecondField(s: string, c: char)
    requires c in s
    ensures |Split(s, c)| >= 2 && Split(s, c)[1] == TakeUntil(DropThrough(s, c), c)
  {
    SplitSeparated(s, c);
    DropThroughSplit(s, c);
    TakeUntilSplit(DropThrough(s, c), c);
  }

  /** A string that holds the separator splits into at least two fields. */
  lemma SplitSeparated(s: string, c: char)
    requires c in s
    ensures |Split(s, c)| >= 2
  {
  }

  /** The position of the first `c` in `s`. */
  function IndexOf<T(==)>(s: seq<T>, c: T): (i: nat)
    requires c in s
    ensures i < |s| && s[i] == c && c !in s[..i]
  {
    if s[0] == c then 0
    else
      var j := IndexOf(s[1..], c);
      assert s[..j + 1] == [s[0]] + s[1..][..j];
      1 + j
  }

  lemma IndexOfAt(a: string, b: string, c: char)
    requires c !in a
    ensures c in a + [c] + b && IndexOf(a + [c] + b, c) == |a|
  {
    var s := a + [c] + b;
    assert s[|a|] == c;
  }

  /**
   * `s.split(c, 1)`: the text before the first `c` and the text after it,
   * or the whole string when there is no `c`.
   */
  function SplitOnce(s: string, c: char): (r: SplitPair)
    ensures r.Whole? <==> c !in s
    ensures r.Parts? ==> c !in r.before && s == r.before + [c] + r.after
  {
    if c in s then
      var i := IndexOf(s, c);
      assert s == s[..i] + [c] + s[i + 1..];
      Parts(s[..i], s[i + 1..])
    else Whole
  }

  /** The result of `split(c, 1)`: the whole string, or the two parts around the first `c`. */
  datatype SplitPair = Whole | Parts(before: string, after: string)

  /** Splitting at a `c` that `a` lacks gives `a` and the rest back. */
  lemma SplitOnceAt(a: string, b: string, c: char)
    requires c !in a
    ensures SplitOnce(a + [c] + b, c) == Parts(a, b)
  {
    var s := a + [c] + b;
    IndexOfAt(a, b, c);
    assert s[..|a|] == a && s[|a| + 1..] == b;
  }

  // ---------------------------------------------------------------------------
  // replace(p, "")

  /** `s.replace(p, "")`: every non-overlapping occurrence of `p`, scanning from the left, removed. */
  function RemoveAll(s: string, p: string): (r: string)
    requires |p| > 0
    ensures |r| <= |s|
    decreases |s|
  {
    if |s| < |p| then s
    else if s[..|p|] == p then RemoveAll(s[|p|..], p)
    else [s[0]] + RemoveAll(s[1..], p)
  }

  /**
   * When the first character of `p` occurs nowhere else in `p` (as in
   * ".pdb" and ".dbtype"), appending `p` to a text free of `p` and removing
   * every `p` gives the text back.
   */
  lemma {:induction false} RemoveAllAppended(t: string, p: string)
    requires |p| > 0 && p[0] !in p[1..] && !Contains(t, p)
    ensures RemoveAll(t + p, p) == t
    decreases |t|
  {
    var s := t + p;
    if t == [] {
      assert s == p && s[|p|..] == [];
    } else {
      AppendedNotPrefix(t, p);
      assert s[1..] == t[1..] + p;
      RemoveAllAppended(t[1..], p);
      assert RemoveAll(s, p) == [s[0]] + RemoveAll(s[1..], p);
      assert s[0] == t[0] && t == [t[0]] + t[1..];
    }
  }

  /** `t + p` does not start with `p` when `t` is non-empty, free of `p`, and `p[0]` recurs nowhere in `p`. */
  lemma AppendedNotPrefix(t: string, p: string)
    requires |p| > 0 && p[0] !in p[1..] && !Contains(t, p) && t != []
    ensures (t + p)[..|p|] != p && !Contains(t[1..], p)
  {
    var s := t + p;
    if |t| >= |p| {
      assert s[..|p|] == t[..|p|];
    } else {
      assert s[..|p|][|t|] == p[0];
      assert p[1..][|t| - 1] == p[|t|];
    }
  }

  // ---------------------------------------------------------------------------
  // Decimal numerals

  predicate AllDigits(s: string) {
    forall i :: 0 <= i < |s| ==> IsDigit(s[i])
  }

  /** The number a string of decimal digits denotes. */
  function DecimalValue(s: string): nat
    requires AllDigits(s)
  {
    if s == [] then 0
    else DecimalValue(s[..|s| - 1]) * 10 + (s[|s| - 1] as int - '0' as int)
  }

  function DigitChar(d: nat): (c: char)
    requires d < 10
    ensures IsDigit(c) && c as int - '0' as int == d
  {
    ('0' as int + d) as char
  }

  /** `str(n)` for a natural number: its decimal numeral without leading zeros. */
  function NatToString(n: nat): (r: string)
    ensures 1 <= |r| && AllDigits(r)
    ensures DecimalValue(r) == n
    ensures |r| > 1 ==> r[0] != '0'
  {
    if n < 10 then [DigitChar(n)]
    else
      var r := NatToString(n / 10) + [DigitChar(n % 10)];
      assert r[..|r| - 1] == NatToString(n / 10);
      r
  }

  /** `'{:02d}'.format(n)`: the numeral of `n`, padded with zeros to two digits. */
  function Pad2(n: nat): (r: string)
    ensures 2 <= |r| && AllDigits(r)
    ensures DecimalValue(r) == n
    ensures '_' !in r
  {
    var d := NatToString(n);
    var r := if |d| < 2 then "0" + d else d;
    assert |d| < 2 ==> r[..1] == "0";
    assert forall i :: 0 <= i < |r| ==> r[i] != '_' by {
      forall i | 0 <= i < |r| ensures r[i] != '_' {
        assert IsDigit(r[i]);
      }
    }
    r
  }

  // ---------------------------------------------------------------------------
  // Lines of a text file

  /** The text written by `for x in xs: f.write(x + '\n')`. */
  function WriteLines(xs: seq<string>): string {
    if xs == [] then "" else xs[0] + "\n" + WriteLines(xs[1..])
  }

  /**
   * The lines Python yields when iterating over a text file holding `s`:
   * each ends with its '\n', except possibly the last one.
   */
  function ReadLines(s: string): seq<string>
    decreases |s|
  {
    if s == [] then []
    else if '\n' in s then
      var i := IndexOf(s, '\n');
      [s[..i + 1]] + ReadLines(s[i + 1..])
    else [s]
  }

  /** A line free of `'\n'` followed by its terminator is read first, then the rest. */
  lemma ReadLinesCons(a: string, rest: string)
    requires '\n' !in a
    ensures ReadLines(a + ['\n'] + rest) == [a + ['\n']] + ReadLines(rest)
  {
    var s := a + ['\n'] + rest;
    IndexOfAt(a, rest, '\n');
    assert s[..|a| + 1] == a + ['\n'];
    assert s[|a| + 1..] == rest;
  }

  /** Reading back what `WriteLines` wrote yields each item with its terminator, in order. */
  lemma {:induction false} ReadWrittenLines(xs: seq<string>)
    requires forall i :: 0 <= i < |xs| ==> '\n' !in xs[i]
    ensures |ReadLines(WriteLines(xs))| == |xs|
    ensures forall i :: 0 <= i < |xs| ==> ReadLines(WriteLines(xs))[i] == xs[i] + "\n"
  {
    if xs != [] {
      var rest := WriteLines(xs[1..]);
      assert WriteLines(xs) == xs[0] + ['\n'] + rest;
      ReadLinesCons(xs[0], rest);
      ReadWrittenLines(xs[1..]);
      var r := ReadLines(WriteLines(xs));
      assert r == [xs[0] + "\n"] + ReadLines(rest);
      forall i | 0 <= i < |xs| ensures r[i] == xs[i] + "\n" {
        if i > 0 {
          assert r[i] == ReadLines(rest)[i - 1] && xs[i] == xs[1..][i - 1];
        }
      }
    }
  }
}
