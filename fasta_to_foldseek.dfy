/**
 * fasta_to_foldseek.py: the local Foldseek search of the ProstT5 query
 * database against every database found in the database directory, and
 * the classification of each result line into the all / upregulated /
 * downregulated / significant hit lists.
 */
module FastaToFoldseek {
  import opened Wrappers
  import opened Text

  const DbTypeSuffix := ".dbtype"

  // ---------------------------------------------------------------------------
  // load_accessions

  /**
   * `load_accessions(path)`: the set of stripped lines of the file, or the
   * empty set when the file does not exist. `present` says whether it exists,
   * `lines` are the lines the file yields.
   */
  function LoadAccessions(present: bool, lines: seq<string>): (r: set<string>)
    ensures forall a :: a in r <==> present && exists i :: 0 <= i < |lines| && Strip(lines[i]) == a
  {
    if present then set i | 0 <= i < |lines| :: Strip(lines[i]) else {}
  }

  /**
   * A list written one accession per line, with accessions that are already
   * stripped and hold no newline, loads back as the set of its accessions.
   */
  lemma LoadWrittenAccessions(accs: seq<string>)
    requires forall i :: 0 <= i < |accs| ==> IsStripped(accs[i]) && '\n' !in accs[i]
    ensures LoadAccessions(true, ReadLines(WriteLines(accs))) == set i | 0 <= i < |accs| :: accs[i]
  {
    var lines := ReadLines(WriteLines(accs));
    ReadWrittenLines(accs);
    forall i | 0 <= i < |accs| ensures Strip(lines[i]) == accs[i] {
      StripTerminated(accs[i]);
    }
    LoadedStripped(lines, accs);
  }

  /** Lines that strip to `accs`, position by position, load as the set of `accs`. */
  lemma LoadedStripped(lines: seq<string>, accs: seq<string>)
    requires |lines| == |accs| && forall i :: 0 <= i < |accs| ==> Strip(lines[i]) == accs[i]
    ensures LoadAccessions(true, lines) == set i | 0 <= i < |accs| :: accs[i]
  {
    var loaded, written := LoadAccessions(true, lines), set i | 0 <= i < |accs| :: accs[i];
    forall a | a in loaded ensures a in written {
      var i :| 0 <= i < |lines| && Strip(lines[i]) == a;
      assert accs[i] == a;
    }
    forall a | a in written ensures a in loaded {
      var i :| 0 <= i < |accs| && accs[i] == a;
      assert Strip(lines[i]) == a;
    }
  }

  // ---------------------------------------------------------------------------
  // Database selection

  /**
   * The database a directory entry names: entries ending in `.dbtype`, other
   * than the query database's own, with every `.dbtype` removed.
   */
  function DatabaseName(file: string, queryDb: string): (r: Option<string>)
    ensures r.Some? <==> EndsWith(file, DbTypeSuffix) && !StartsWith(file, queryDb)
  {
    if EndsWith(file, DbTypeSuffix) && !StartsWith(file, queryDb) then Some(RemoveAll(file, DbTypeSuffix))
    else None
  }

  /** A database's `.dbtype` entry gives back the database's name. */
  lemma DatabaseNameOf(name: string, queryDb: string)
    requires !Contains(name, DbTypeSuffix) && !StartsWith(name + DbTypeSuffix, queryDb)
    ensures DatabaseName(name + DbTypeSuffix, queryDb) == Some(name)
  {
    var file := name + DbTypeSuffix;
    assert file[|file| - |DbTypeSuffix|..] == DbTypeSuffix;
    assert DbTypeSuffix[0] !in DbTypeSuffix[1..];
    RemoveAllAppended(name, DbTypeSuffix);
  }

  /** The query database's own entry is never searched against. */
  lemma OwnDatabaseSkipped(queryDb: string)
    ensures DatabaseName(queryDb + DbTypeSuffix, queryDb) == None
  {
    assert (queryDb + DbTypeSuffix)[..|queryDb|] == queryDb;
  }

  // ---------------------------------------------------------------------------
  // The query id of a result line

  /**
   * `line.split('\t')[0]`, then, when that field holds a `|`, its
   * `split('|')[1]`: the first field, or the middle part of a
   * `db|ACC|name` first field.
   */
  function QueryId(line: string): string {
    var f := TakeUntil(line, '\t');
    if '|' in f then TakeUntil(DropThrough(f, '|'), '|') else f
  }

  /** The query id is the source's expression written with `split`. */
  lemma QueryIdBySplit(line: string)
    ensures var f := Split(line, '\t')[0];
      QueryId(line) == if '|' in f then Split(f, '|')[1] else f
  {
    TakeUntilSplit(line, '\t');
    var f := Split(line, '\t')[0];
    if '|' in f {
      SecondField(f, '|');
    }
  }

  /** A plain first field is the query id itself. */
  lemma QueryIdPlain(id: string, rest: string)
    requires '\t' !in id && '|' !in id
    ensures QueryId(id + "\t" + rest) == id
    ensures QueryId(id) == id
  {
    assert id + "\t" + rest == id + ['\t'] + rest;
    TakeUntilAt(id, rest, '\t');
    TakeUntilWithout(id, '\t');
  }

  /** For a `db|ACC|...` or `db|ACC` first field the query id is `ACC`. */
  lemma QueryIdPiped(db: string, acc: string, more: string, rest: string)
    requires '\t' !in db && '\t' !in acc && '\t' !in more
    requires '|' !in db && '|' !in acc
    requires more == [] || more[0] == '|'
    ensures QueryId(db + "|" + acc + more + "\t" + rest) == acc
  {
    var f := db + "|" + acc + more;
    assert '\t' !in f;
    assert db + "|" + acc + more + "\t" + rest == f + ['\t'] + rest;
    TakeUntilAt(f, rest, '\t');
    assert f == db + ['|'] + (acc + more);
    TakeUntilAt(db, acc + more, '|');
    if more == [] {
      assert acc + more == acc;
      TakeUntilWithout(acc, '|');
    } else {
      assert acc + more == acc + ['|'] + more[1..];
      TakeUntilAt(acc, more[1..], '|');
    }
  }

  // ---------------------------------------------------------------------------
  // The classification loop

  /** The upregulated, downregulated and significant accession sets. */
  datatype Groups = Groups(up: set<string>, down: set<string>, sig: set<string>)

  /** The four lists `all_hits`, `up_hits`, `down_hits` and `sig_hits`. */
  datatype HitLists = HitLists(all: seq<string>, up: seq<string>, down: seq<string>, sig: seq<string>)

  /**
   * The result lines read, in directory order: for each database entry, the
   * lines of its result file when that file exists (`results` maps a
   * database name to the lines of its `.m8` file).
   */
  function SearchedLines(listing: seq<string>, queryDb: string, results: map<string, seq<string>>): seq<string> {
    if listing == [] then []
    else
      var name := DatabaseName(listing[|listing| - 1], queryDb);
      SearchedLines(listing[..|listing| - 1], queryDb, results)
        + (if name.Some? && name.value in results then results[name.value] else [])
  }

  /** Every line, stripped. */
  function AllHits(lines: seq<string>): seq<string> {
    if lines == [] then [] else AllHits(lines[..|lines| - 1]) + [Strip(lines[|lines| - 1])]
  }

  /** The lines whose query id is in `group`, stripped, in order. */
  function Hits(lines: seq<string>, group: set<string>): seq<string> {
    if lines == [] then []
    else
      var last := lines[|lines| - 1];
      Hits(lines[..|lines| - 1], group) + (if QueryId(last) in group then [Strip(last)] else [])
  }

  /** What the loop has collected after reading `lines`. */
  function Classified(lines: seq<string>, g: Groups): HitLists {
    HitLists(AllHits(lines), Hits(lines, g.up), Hits(lines, g.down), Hits(lines, g.sig))
  }

  /** Each list of `h` followed by the matching list of `x`. */
  function Extend(h: HitLists, x: HitLists): HitLists {
    HitLists(h.all + x.all, h.up + x.up, h.down + x.down, h.sig + x.sig)
  }

  lemma ExtendAssociative(a: HitLists, b: HitLists, c: HitLists)
    ensures Extend(Extend(a, b), c) == Extend(a, Extend(b, c))
  {
    assert a.all + b.all + c.all == a.all + (b.all + c.all);
    assert a.up + b.up + c.up == a.up + (b.up + c.up);
    assert a.down + b.down + c.down == a.down + (b.down + c.down);
    assert a.sig + b.sig + c.sig == a.sig + (b.sig + c.sig);
  }

  /** What one line contributes to each list. */
  lemma ClassifiedOne(line: string, g: Groups)
    ensures Classified([line], g) == HitLists([Strip(line)],
      if QueryId(line) in g.up then [Strip(line)] else [],
      if QueryId(line) in g.down then [Strip(line)] else [],
      if QueryId(line) in g.sig then [Strip(line)] else [])
  {
    assert [line][..0] == [];
    assert AllHits([]) == [] && Hits([], g.up) == [] && Hits([], g.down) == [] && Hits([], g.sig) == [];
  }

  lemma {:induction false} AllHitsAppend(a: seq<string>, b: seq<string>)
    ensures AllHits(a + b) == AllHits(a) + AllHits(b)
    decreases |b|
  {
    if b == [] {
      assert a + b == a;
    } else {
      assert (a + b)[..|a + b| - 1] == a + b[..|b| - 1];
      AllHitsAppend(a, b[..|b| - 1]);
    }
  }

  lemma {:induction false} HitsAppend(a: seq<string>, b: seq<string>, group: set<string>)
    ensures Hits(a + b, group) == Hits(a, group) + Hits(b, group)
    decreases |b|
  {
    if b == [] {
      assert a + b == a;
    } else {
      assert (a + b)[..|a + b| - 1] == a + b[..|b| - 1];
      HitsAppend(a, b[..|b| - 1], group);
    }
  }

  /** Reading `a` then `b` collects what `a` gives followed by what `b` gives. */
  lemma ClassifiedAppend(a: seq<string>, b: seq<string>, g: Groups)
    ensures Classified(a + b, g) == Extend(Classified(a, g), Classified(b, g))
  {
    AllHitsAppend(a, b);
    HitsAppend(a, b, g.up);
    HitsAppend(a, b, g.down);
    HitsAppend(a, b, g.sig);
  }

  /** One line: appended to `all_hits`, and to each list whose group holds its query id. */
  method ClassifyLine(line: string, g: Groups, h0: HitLists) returns (h: HitLists)
    ensures h == Extend(h0, Classified([line], g))
  {
    h := h0;
    var hit := Strip(line);
    h := h.(all := h.all + [hit]);
    var queryId := QueryId(line);
    if queryId in g.up {
      h := h.(up := h.up + [hit]);
    }
    if queryId in g.down {
      h := h.(down := h.down + [hit]);
    }
    if queryId in g.sig {
      h := h.(sig := h.sig + [hit]);
    }
    ClassifiedOne(line, g);
  }

  /** The loop over the lines of one result file. */
  method ClassifyFile(lines: seq<string>, g: Groups, h0: HitLists) returns (h: HitLists)
    ensures h == Extend(h0, Classified(lines, g))
  {
    h := h0;
    var i := 0;
    while i < |lines|
      invariant i <= |lines|
      invariant h == Extend(h0, Classified(lines[..i], g))
    {
      assert lines[..i + 1] == lines[..i] + [lines[i]];
      ClassifiedAppend(lines[..i], [lines[i]], g);
      ExtendAssociative(h0, Classified(lines[..i], g), Classified([lines[i]], g));
      h := ClassifyLine(lines[i], g, h);
      i := i + 1;
    }
    assert lines[..i] == lines;
  }

  /**
   * The module-level loop: every database entry of the listing that names a
   * database whose result file exists has its lines classified.
   */
  method ClassifyHits(listing: seq<string>, queryDb: string, results: map<string, seq<string>>, g: Groups)
    returns (h: HitLists)
    ensures h == Classified(SearchedLines(listing, queryDb, results), g)
  {
    h := HitLists([], [], [], []);
    var k := 0;
    while k < |listing|
      invariant k <= |listing|
      invariant h == Classified(SearchedLines(listing[..k], queryDb, results), g)
    {
      assert listing[..k + 1][..k] == listing[..k];
      var name := DatabaseName(listing[k], queryDb);
      var before := SearchedLines(listing[..k], queryDb, results);
      if name.Some? && name.value in results {
        var lines := results[name.value];
        assert SearchedLines(listing[..k + 1], queryDb, results) == before + lines;
        ClassifiedAppend(before, lines, g);
        h := ClassifyFile(lines, g, h);
      } else {
        assert SearchedLines(listing[..k + 1], queryDb, results) == before;
      }
      k := k + 1;
    }
    assert listing[..k] == listing;
  }

  // ---------------------------------------------------------------------------
  // Properties of the hit lists

  /** `a` occurs in `b` in order, possibly with gaps. */
  predicate IsSubsequence(a: seq<string>, b: seq<string>)
    decreases |b|
  {
    if a == [] then true
    else if b == [] then false
    else (a[|a| - 1] == b[|b| - 1] && IsSubsequence(a[..|a| - 1], b[..|b| - 1]))
         || IsSubsequence(a, b[..|b| - 1])
  }

  /** `all_hits` holds one entry per line read. */
  lemma {:induction false} AllHitsLength(lines: seq<string>)
    ensures |AllHits(lines)| == |lines|
    ensures forall i :: 0 <= i < |lines| ==> AllHits(lines)[i] == Strip(lines[i])
    decreases |lines|
  {
    if lines != [] {
      var n := |lines| - 1;
      var init := lines[..n];
      AllHitsLength(init);
      var r := AllHits(lines);
      assert r == AllHits(init) + [Strip(lines[n])];
      forall i | 0 <= i < |lines| ensures r[i] == Strip(lines[i]) {
        if i < n {
          assert r[i] == AllHits(init)[i] && init[i] == lines[i];
        }
      }
    }
  }

  /** Each group's list is a subsequence of `all_hits`. */
  lemma {:induction false} HitsSubsequence(lines: seq<string>, group: set<string>)
    ensures IsSubsequence(Hits(lines, group), AllHits(lines))
    decreases |lines|
  {
    if lines != [] {
      var init := lines[..|lines| - 1];
      HitsSubsequence(init, group);
      var a, b := Hits(lines, group), AllHits(lines);
      assert b[..|b| - 1] == AllHits(init);
      if QueryId(lines[|lines| - 1]) in group {
        assert a[..|a| - 1] == Hits(init, group);
      } else {
        assert a == Hits(init, group);
      }
    }
  }

  /** A line whose query id is in the group is in the group's list. */
  lemma {:induction false} MemberLineListed(lines: seq<string>, group: set<string>, i: nat)
    requires i < |lines| && QueryId(lines[i]) in group
    ensures Strip(lines[i]) in Hits(lines, group)
    decreases |lines|
  {
    var init := lines[..|lines| - 1];
    if i < |init| {
      assert init[i] == lines[i];
      MemberLineListed(init, group, i);
    }
  }

  /** Every entry of a group's list comes from a line whose query id is in the group. */
  lemma {:induction false} ListedLineMember(lines: seq<string>, group: set<string>, x: string)
    requires x in Hits(lines, group)
    ensures exists i :: 0 <= i < |lines| && QueryId(lines[i]) in group && Strip(lines[i]) == x
    decreases |lines|
  {
    var init := lines[..|lines| - 1];
    if x in Hits(init, group) {
      ListedLineMember(init, group, x);
      var i :| 0 <= i < |init| && QueryId(init[i]) in group && Strip(init[i]) == x;
      assert lines[i] == init[i];
    } else {
      assert QueryId(lines[|lines| - 1]) in group && Strip(lines[|lines| - 1]) == x;
    }
  }

  /**
   * Membership is tested per list: for nested groups (the upregulated ids
   * are among the significant ones) the smaller group's list is a
   * subsequence of the larger's, so a line can be in both.
   */
  lemma {:induction false} HitsMonotone(lines: seq<string>, small: set<string>, large: set<string>)
    requires small <= large
    ensures IsSubsequence(Hits(lines, small), Hits(lines, large))
    decreases |lines|
  {
    if lines != [] {
      var init, last := lines[..|lines| - 1], lines[|lines| - 1];
      HitsMonotone(init, small, large);
      var a, b := Hits(lines, small), Hits(lines, large);
      if QueryId(last) in small {
        assert a[..|a| - 1] == Hits(init, small);
        assert b[..|b| - 1] == Hits(init, large);
      } else if QueryId(last) in large {
        assert a == Hits(init, small);
        assert b[..|b| - 1] == Hits(init, large);
      } else {
        assert a == Hits(init, small) && b == Hits(init, large);
      }
    }
  }
}
