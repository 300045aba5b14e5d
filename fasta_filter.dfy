/**
 * filter.py: a FASTA file split into the records whose header does not
 * mention "uncharacterized" and the rest. Lines are read with their
 * terminators, as iterating over a text file gives them.
 */
module FastaFilter {
  import opened Text

  const Uncharacterized := "uncharacterized"

  /** A header line starts a record. */
  predicate IsHeader(line: string) {
    StartsWith(line, ">")
  }

  /** `'uncharacterized' not in line.lower()`. */
  predicate IsCharacterized(header: string) {
    !Contains(ToLower(header), Uncharacterized)
  }

  /** `''.join(lines)`: the text a list of lines is written as. */
  function Concat(lines: seq<string>): string {
    if lines == [] then [] else Concat(lines[..|lines| - 1]) + lines[|lines| - 1]
  }

  lemma {:induction false} ConcatAppend(a: seq<string>, b: seq<string>)
    ensures Concat(a + b) == Concat(a) + Concat(b)
    decreases |b|
  {
    if b == [] {
      assert a + b == a;
    } else {
      var n := |b| - 1;
      assert (a + b)[..|a + b| - 1] == a + b[..n];
      ConcatAppend(a, b[..n]);
    }
  }

  // ---------------------------------------------------------------------------
  // Where each line goes

  /**
   * Whether the last line of `lines` goes to the characterized file: the
   * latest header so far decides, and before any header the flag is false.
   */
  predicate Flag(lines: seq<string>) {
    if lines == [] then false
    else if IsHeader(lines[|lines| - 1]) then IsCharacterized(lines[|lines| - 1])
    else Flag(lines[..|lines| - 1])
  }

  /** The lines routed to the characterized file, in input order. */
  function CharacterizedLines(lines: seq<string>): seq<string> {
    if lines == [] then []
    else CharacterizedLines(lines[..|lines| - 1]) + (if Flag(lines) then [lines[|lines| - 1]] else [])
  }

  /** The lines routed to the uncharacterized file, in input order. */
  function UncharacterizedLines(lines: seq<string>): seq<string> {
    if lines == [] then []
    else UncharacterizedLines(lines[..|lines| - 1]) + (if Flag(lines) then [] else [lines[|lines| - 1]])
  }

  /**
   * The routing of `lines[..i]`, split into what has been written and the
   * buffer `current`, which goes to the file the flag names.
   */
  predicate Routed(lines: seq<string>, i: nat, written: seq<string>, writtenUnchar: seq<string>,
                   current: seq<string>, isCharacterized: bool)
    requires i <= |lines|
  {
    && isCharacterized == Flag(lines[..i])
    && written + (if isCharacterized then current else []) == CharacterizedLines(lines[..i])
    && writtenUnchar + (if isCharacterized then [] else current) == UncharacterizedLines(lines[..i])
  }

  /** A header line: the buffer is written out and the header starts a new one with its own flag. */
  lemma HeaderStep(lines: seq<string>, i: nat, written: seq<string>, writtenUnchar: seq<string>,
                   current: seq<string>, isCharacterized: bool)
    requires i < |lines| && IsHeader(lines[i])
    requires Routed(lines, i, written, writtenUnchar, current, isCharacterized)
    ensures Routed(lines, i + 1,
      written + (if isCharacterized then current else []),
      writtenUnchar + (if isCharacterized then [] else current),
      [lines[i]], IsCharacterized(lines[i]))
  {
    assert lines[..i + 1][..i] == lines[..i];
  }

  /** Any other line joins the buffer and leaves the flag alone. */
  lemma BodyStep(lines: seq<string>, i: nat, written: seq<string>, writtenUnchar: seq<string>,
                 current: seq<string>, isCharacterized: bool)
    requires i < |lines| && !IsHeader(lines[i])
    requires Routed(lines, i, written, writtenUnchar, current, isCharacterized)
    ensures Routed(lines, i + 1, written, writtenUnchar, current + [lines[i]], isCharacterized)
  {
    assert lines[..i + 1][..i] == lines[..i];
    if isCharacterized {
      assert writtenUnchar + [] == writtenUnchar;
    } else {
      assert written + [] == written;
    }
  }

  // ---------------------------------------------------------------------------
  // The method

  /** `out_file.write(''.join(current_seq))`, on a file holding the text of `written`. */
  method Flush(text: string, written: seq<string>, current: seq<string>) returns (text': string, written': seq<string>)
    requires text == Concat(written)
    ensures written' == written + current && text' == Concat(written')
  {
    ConcatAppend(written, current);
    text' := text + Concat(current);
    written' := written + current;
  }

  /** The texts of the two files and the lines written to each. */
  datatype Outputs = Outputs(charText: string, charLines: seq<string>, uncharText: string, uncharLines: seq<string>)

  /** Each file's text is the concatenation of the lines written to it. */
  predicate Consistent(o: Outputs) {
    o.charText == Concat(o.charLines) && o.uncharText == Concat(o.uncharLines)
  }

  /** `if current_seq:` a non-empty buffer is written to the file the flag names. */
  method FlushBuffer(o: Outputs, isCharacterized: bool, current: seq<string>) returns (o': Outputs)
    requires Consistent(o)
    ensures Consistent(o')
    ensures o'.charLines == o.charLines + (if isCharacterized then current else [])
    ensures o'.uncharLines == o.uncharLines + (if isCharacterized then [] else current)
  {
    o' := o;
    if current != [] {
      if isCharacterized {
        var t, w := Flush(o.charText, o.charLines, current);
        o' := o.(charText := t, charLines := w);
        assert o'.uncharLines == o.uncharLines + [];
      } else {
        var t, w := Flush(o.uncharText, o.uncharLines, current);
        o' := o.(uncharText := t, uncharLines := w);
        assert o'.charLines == o.charLines + [];
      }
    } else {
      assert o.charLines + [] == o.charLines && o.uncharLines + [] == o.uncharLines;
    }
  }

  /**
   * `separate_fasta`: a buffer holds the current record; a header flushes
   * a non-empty buffer to the file its flag names, starts a new buffer and
   * sets the flag from its own text; the last buffer is flushed at the end.
   * The two results are the texts written to the two files.
   */
  method SeparateFasta(lines: seq<string>) returns (characterized: string, uncharacterized: string)
    ensures characterized == Concat(CharacterizedLines(lines))
    ensures uncharacterized == Concat(UncharacterizedLines(lines))
  {
    var o := Outputs([], [], [], []);
    var current: seq<string> := [];
    var isCharacterized := false;
    var i := 0;
    while i < |lines|
      invariant i <= |lines|
      invariant Consistent(o)
      invariant Routed(lines, i, o.charLines, o.uncharLines, current, isCharacterized)
    {
      var line := lines[i];
      if IsHeader(line) {
        HeaderStep(lines, i, o.charLines, o.uncharLines, current, isCharacterized);
        o := FlushBuffer(o, isCharacterized, current);
        current := [line];
        isCharacterized := !Contains(ToLower(line), Uncharacterized);
      } else {
        BodyStep(lines, i, o.charLines, o.uncharLines, current, isCharacterized);
        current := current + [line];
      }
      i := i + 1;
    }
    assert lines[..i] == lines;
    o := FlushBuffer(o, isCharacterized, current);
    characterized, uncharacterized := o.charText, o.uncharText;
  }

  // ---------------------------------------------------------------------------
  // Properties

  /** Every line goes to exactly one of the two files. */
  lemma {:induction false} Partition(lines: seq<string>)
    ensures multiset(CharacterizedLines(lines)) + multiset(UncharacterizedLines(lines)) == multiset(lines)
    ensures |CharacterizedLines(lines)| + |UncharacterizedLines(lines)| == |lines|
    decreases |lines|
  {
    if lines != [] {
      var n := |lines| - 1;
      var init, last := lines[..n], lines[n];
      Partition(init);
      var c0, u0 := CharacterizedLines(init), UncharacterizedLines(init);
      assert lines == init + [last];
      assert multiset(lines) == multiset(init) + multiset{last};
      if Flag(lines) {
        assert CharacterizedLines(lines) == c0 + [last];
        assert UncharacterizedLines(lines) == u0 + [];
        assert multiset(c0 + [last]) == multiset(c0) + multiset{last};
      } else {
        assert CharacterizedLines(lines) == c0 + [];
        assert UncharacterizedLines(lines) == u0 + [last];
        assert multiset(u0 + [last]) == multiset(u0) + multiset{last};
      }
    }
  }

  /** Lines before the first header go to the uncharacterized file. */
  lemma {:induction false} PreambleUncharacterized(lines: seq<string>)
    requires forall i :: 0 <= i < |lines| ==> !IsHeader(lines[i])
    ensures !Flag(lines)
    ensures CharacterizedLines(lines) == [] && UncharacterizedLines(lines) == lines
    decreases |lines|
  {
    if lines != [] {
      var n := |lines| - 1;
      PreambleUncharacterized(lines[..n]);
      assert lines == lines[..n] + [lines[n]];
    }
  }

  /** Lines without a header do not change the flag set by `lines`. */
  lemma {:induction false} BodyKeepsFlag(lines: seq<string>, body: seq<string>)
    requires forall i :: 0 <= i < |body| ==> !IsHeader(body[i])
    ensures Flag(lines + body) == Flag(lines)
    decreases |body|
  {
    if body == [] {
      assert lines + body == lines;
    } else {
      var n := |body| - 1;
      BodyKeepsFlag(lines, body[..n]);
      var s := lines + body;
      assert s[..|s| - 1] == lines + body[..n];
    }
  }

  /**
   * A record (a header and the non-header lines after it) is written
   * whole, after everything before it, to the file its header selects.
   */
  lemma {:induction false} RecordWhole(before: seq<string>, header: string, body: seq<string>)
    requires IsHeader(header)
    requires forall i :: 0 <= i < |body| ==> !IsHeader(body[i])
    ensures CharacterizedLines(before + [header] + body)
         == CharacterizedLines(before) + (if IsCharacterized(header) then [header] + body else [])
    ensures UncharacterizedLines(before + [header] + body)
         == UncharacterizedLines(before) + (if IsCharacterized(header) then [] else [header] + body)
    decreases |body|
  {
    var start := before + [header];
    assert start[..|start| - 1] == before;
    if body == [] {
      assert start + body == start;
    } else {
      var n := |body| - 1;
      RecordWhole(before, header, body[..n]);
      BodyKeepsFlag(start, body);
      var s := start + body;
      assert s[..|s| - 1] == start + body[..n];
      assert [header] + body == [header] + body[..n] + [body[n]];
    }
  }

  /**
   * The flag after `lines` holds exactly when their latest header exists
   * and is characterized.
   */
  lemma {:induction false} FlagFromOwner(lines: seq<string>, h: nat)
    requires h < |lines| && IsHeader(lines[h])
    requires forall j :: h < j < |lines| ==> !IsHeader(lines[j])
    ensures Flag(lines) == IsCharacterized(lines[h])
    decreases |lines|
  {
    var n := |lines| - 1;
    if h < n {
      assert forall j :: h < j < n ==> lines[..n][j] == lines[j];
      FlagFromOwner(lines[..n], h);
    }
  }

  /** A flag that holds was set by a characterized header after which no header came. */
  lemma {:induction false} OwnerOfFlag(lines: seq<string>)
    requires Flag(lines)
    ensures exists h :: (0 <= h < |lines| && IsHeader(lines[h]) && IsCharacterized(lines[h])
      && forall j :: h < j < |lines| ==> !IsHeader(lines[j]))
    decreases |lines|
  {
    var n := |lines| - 1;
    if !IsHeader(lines[n]) {
      OwnerOfFlag(lines[..n]);
      var h :| 0 <= h < n && IsHeader(lines[..n][h]) && IsCharacterized(lines[..n][h])
        && forall j :: h < j < n ==> !IsHeader(lines[..n][j]);
      assert forall j :: h < j < n ==> lines[..n][j] == lines[j];
    }
  }
}
