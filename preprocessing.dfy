/**
 * preprocessing_FoldSeek_input.py: the significant, upregulated and
 * downregulated accession lists drawn from the differential-expression
 * sheet, and the text files they are saved to.
 */
module Preprocessing {
  import opened Wrappers
  import opened Text
  import FastaToFoldseek

  const PThreshold: real := 0.05
  const UpThreshold: real := 1.0
  const DownThreshold: real := -1.0

  /** A present cell of a numeric column: a number, or text that `to_numeric` cannot read. */
  datatype Value = Num(x: real) | NonNumeric

  /** A row of the sheet: `Accession`, `P value ` and `Ratio(log2)`, each possibly empty. */
  datatype Record = Record(accession: Option<string>, pValue: Option<Value>, log2: Option<Value>)

  /** The `notna()` mask on the three columns. */
  predicate NotMissing(r: Record) {
    r.accession.Some? && r.pValue.Some? && r.log2.Some?
  }

  /** `pd.to_numeric(..., errors='coerce')`: a number, or missing. */
  function Coerce(v: Value): Option<real> {
    if v.Num? then Some(v.x) else None
  }

  /** `P value < 0.05`; a missing value fails the comparison. */
  predicate IsSignificant(r: Record)
    requires NotMissing(r)
  {
    var p := Coerce(r.pValue.value);
    p.Some? && p.value < PThreshold
  }

  predicate IsUp(r: Record)
    requires NotMissing(r)
  {
    var l := Coerce(r.log2.value);
    IsSignificant(r) && l.Some? && l.value > UpThreshold
  }

  predicate IsDown(r: Record)
    requires NotMissing(r)
  {
    var l := Coerce(r.log2.value);
    IsSignificant(r) && l.Some? && l.value < DownThreshold
  }

  /** Which of the three masks selects a row. */
  datatype Group = Significant | Up | Down

  predicate InGroup(r: Record, g: Group) {
    NotMissing(r) &&
    match g
    case Significant => IsSignificant(r)
    case Up => IsUp(r)
    case Down => IsDown(r)
  }

  /** The `Accession` column of the rows the mask selects, in row order, duplicates kept. */
  function GroupAccessions(rows: seq<Record>, g: Group): seq<string> {
    if rows == [] then []
    else
      var last := rows[|rows| - 1];
      GroupAccessions(rows[..|rows| - 1], g) + (if InGroup(last, g) then [last.accession.value] else [])
  }

  lemma {:induction false} GroupAccessionsMembers(rows: seq<Record>, g: Group, a: string)
    ensures a in GroupAccessions(rows, g) <==> exists i :: 0 <= i < |rows| && InGroup(rows[i], g) && rows[i].accession == Some(a)
    decreases |rows|
  {
    if rows != [] {
      var init := rows[..|rows| - 1];
      GroupAccessionsMembers(init, g, a);
      if exists i :: 0 <= i < |rows| && InGroup(rows[i], g) && rows[i].accession == Some(a) {
        var i :| 0 <= i < |rows| && InGroup(rows[i], g) && rows[i].accession == Some(a);
        if i < |init| {
          assert init[i] == rows[i];
        }
      }
      if a in GroupAccessions(init, g) {
        var i :| 0 <= i < |init| && InGroup(init[i], g) && init[i].accession == Some(a);
        assert rows[i] == init[i];
      }
    }
  }

  // ---------------------------------------------------------------------------
  // unique()

  /** `Series.unique()`: each value once, in order of first appearance. */
  function Unique(s: seq<string>): seq<string> {
    if s == [] then []
    else
      var init, last := s[..|s| - 1], s[|s| - 1];
      Unique(init) + (if last in init then [] else [last])
  }

  /** The position of the first occurrence of `x` in `s`. */
  function FirstIndex(s: seq<string>, x: string): (i: nat)
    requires x in s
    ensures i < |s| && s[i] == x && x !in s[..i]
  {
    if s[0] == x then 0
    else
      var j := FirstIndex(s[1..], x);
      assert s[..j + 1] == [s[0]] + s[1..][..j];
      j + 1
  }

  lemma FirstIndexInPrefix(s: seq<string>, n: nat, x: string)
    requires n <= |s| && x in s[..n]
    ensures FirstIndex(s, x) == FirstIndex(s[..n], x)
  {
    var j := FirstIndex(s[..n], x);
    assert s[..n][..j] == s[..j];
  }

  /** `unique()` keeps exactly the values of `s`. */
  lemma {:induction false} UniqueMembers(s: seq<string>, x: string)
    ensures x in Unique(s) <==> x in s
    decreases |s|
  {
    if s != [] {
      var init := s[..|s| - 1];
      UniqueMembers(init, x);
      assert s == init + [s[|s| - 1]];
    }
  }

  /** `unique()` lists no value twice. */
  lemma {:induction false} UniqueDistinct(s: seq<string>, k: nat, m: nat)
    requires k < m < |Unique(s)|
    ensures Unique(s)[k] != Unique(s)[m]
    decreases |s|
  {
    var init := s[..|s| - 1];
    var before := Unique(init);
    if m < |before| {
      UniqueDistinct(init, k, m);
    } else {
      UniqueMembers(init, before[k]);
    }
  }

  /** `unique()` lists values in the order of their first appearance. */
  lemma {:induction false} UniqueOrder(s: seq<string>, k: nat, m: nat)
    requires k < m < |Unique(s)|
    ensures Unique(s)[k] in s && Unique(s)[m] in s
    ensures FirstIndex(s, Unique(s)[k]) < FirstIndex(s, Unique(s)[m])
    decreases |s|
  {
    var init, last := s[..|s| - 1], s[|s| - 1];
    var before := Unique(init);
    var x, y := Unique(s)[k], Unique(s)[m];
    UniqueMembers(init, x);
    assert s == init + [last];
    assert x in init;
    FirstIndexInPrefix(s, |init|, x);
    if m < |before| {
      UniqueOrder(init, k, m);
      UniqueMembers(init, y);
      FirstIndexInPrefix(s, |init|, y);
    } else {
      assert y == last && last !in init;
      assert FirstIndex(s, y) == |init|;
    }
  }

  // ---------------------------------------------------------------------------
  // The three lists

  /** `df[mask]['Accession'].unique()` for the group's mask. */
  function GroupList(rows: seq<Record>, g: Group): seq<string> {
    Unique(GroupAccessions(rows, g))
  }

  /**
   * An accession is listed for a group exactly when some complete row with
   * that accession passes the group's thresholds.
   */
  lemma GroupListMembers(rows: seq<Record>, g: Group, a: string)
    ensures a in GroupList(rows, g) <==> exists i :: 0 <= i < |rows| && InGroup(rows[i], g) && rows[i].accession == Some(a)
  {
    UniqueMembers(GroupAccessions(rows, g), a);
    GroupAccessionsMembers(rows, g, a);
  }

  /** Every upregulated and every downregulated accession is also significant. */
  lemma DirectedAreSignificant(rows: seq<Record>, a: string)
    requires a in GroupList(rows, Up) || a in GroupList(rows, Down)
    ensures a in GroupList(rows, Significant)
  {
    GroupListMembers(rows, Up, a);
    GroupListMembers(rows, Down, a);
    GroupListMembers(rows, Significant, a);
    var g := if a in GroupList(rows, Up) then Up else Down;
    var i :| 0 <= i < |rows| && InGroup(rows[i], g) && rows[i].accession == Some(a);
    assert InGroup(rows[i], Significant);
  }

  /** No row passes both the up and the down thresholds. */
  lemma UpDownExclusive(r: Record)
    ensures !(InGroup(r, Up) && InGroup(r, Down))
  {
  }

  /** A row whose p value is not numeric is in no group. */
  lemma NonNumericExcluded(r: Record, g: Group)
    requires r.pValue == Some(NonNumeric)
    ensures !InGroup(r, g)
  {
  }

  // ---------------------------------------------------------------------------
  // save_list

  /** The text written by `save_list`: each accession stripped, one per line. */
  function SavedList(accs: seq<string>): string {
    WriteLines(seq(|accs|, i requires 0 <= i < |accs| => Strip(accs[i])))
  }

  /**
   * Reading a saved list back as `load_accessions` does gives the set of the
   * stripped accessions.
   */
  lemma SavedListLoads(accs: seq<string>)
    requires forall i :: 0 <= i < |accs| ==> '\n' !in accs[i]
    ensures FastaToFoldseek.LoadAccessions(true, ReadLines(SavedList(accs)))
         == set i | 0 <= i < |accs| :: Strip(accs[i])
  {
    var stripped := seq(|accs|, i requires 0 <= i < |accs| => Strip(accs[i]));
    forall i | 0 <= i < |accs| ensures IsStripped(stripped[i]) && '\n' !in stripped[i] {
      StripKeepsAbsent(accs[i], '\n');
    }
    FastaToFoldseek.LoadWrittenAccessions(stripped);
    var written, expected := set i | 0 <= i < |stripped| :: stripped[i], set i | 0 <= i < |accs| :: Strip(accs[i]);
    forall x ensures x in written <==> x in expected {
      if x in written {
        var i :| 0 <= i < |stripped| && stripped[i] == x;
        assert Strip(accs[i]) == x;
      }
      if x in expected {
        var i :| 0 <= i < |accs| && Strip(accs[i]) == x;
        assert stripped[i] == x;
      }
    }
  }

  /**
   * The upregulated and downregulated sets loaded from the saved files lie
   * inside the significant set loaded from its file.
   */
  lemma SavedGroupsNested(rows: seq<Record>, g: Group)
    requires g != Significant
    requires forall i :: 0 <= i < |rows| && rows[i].accession.Some? ==> '\n' !in rows[i].accession.value
    ensures FastaToFoldseek.LoadAccessions(true, ReadLines(SavedList(GroupList(rows, g))))
         <= FastaToFoldseek.LoadAccessions(true, ReadLines(SavedList(GroupList(rows, Significant))))
  {
    var small, large := GroupList(rows, g), GroupList(rows, Significant);
    forall a | a in small ensures '\n' !in a && a in large {
      GroupListMembers(rows, g, a);
      DirectedAreSignificant(rows, a);
    }
    forall a | a in large ensures '\n' !in a {
      GroupListMembers(rows, Significant, a);
    }
    SavedListLoads(small);
    SavedListLoads(large);
    forall i | 0 <= i < |small| ensures Strip(small[i]) in (set j | 0 <= j < |large| :: Strip(large[j])) {
      assert small[i] in large;
      var j :| 0 <= j < |large| && large[j] == small[i];
    }
  }
}
