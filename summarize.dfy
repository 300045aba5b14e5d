/**
 * summarize.py: the join of the Foldseek result tables with the structures
 * on disk, each matching row labelled with its expression category, sorted
 * by bitscore.
 */
module Summarize {
  import opened Wrappers
  import opened Text
  import opened Sorting

  const PdbSuffix := ".pdb"
  const ResultSuffix := ".m8"

  /** `parts[11]` is the twelfth field: a row needs at least this many. */
  const MinFields := 12

  // ---------------------------------------------------------------------------
  // The category sets

  /** `set(line.split('\t')[0] for line in f if line.strip())`. */
  function CategorySet(lines: seq<string>): (r: set<string>)
    ensures forall q :: q in r <==>
      exists i :: 0 <= i < |lines| && Strip(lines[i]) != [] && Split(lines[i], '\t')[0] == q
  {
    forall i | 0 <= i < |lines| {
      TakeUntilSplit(lines[i], '\t');
    }
    set i | 0 <= i < |lines| && Strip(lines[i]) != [] :: TakeUntil(lines[i], '\t')
  }

  /** The upregulated, downregulated and significant query sets. */
  datatype CategorySets = CategorySets(up: set<string>, down: set<string>, sig: set<string>)

  datatype Category = Upregulated | Downregulated | Significant | Uncategorized

  /** The first of the three sets that holds the query decides its category. */
  function Categorise(query: string, c: CategorySets): (r: Category)
    ensures r == Upregulated <==> query in c.up
    ensures r == Downregulated <==> query !in c.up && query in c.down
    ensures r == Significant <==> query !in c.up && query !in c.down && query in c.sig
    ensures r == Uncategorized <==> query !in c.up && query !in c.down && query !in c.sig
  {
    if query in c.up then Upregulated
    else if query in c.down then Downregulated
    else if query in c.sig then Significant
    else Uncategorized
  }

  // ---------------------------------------------------------------------------
  // The downloaded structures

  /**
   * The target a structure file name stands for: for a `.pdb` name that
   * holds a `_`, the text after the first `_` with every `.pdb` removed.
   */
  function StructureTarget(file: string): (r: Option<string>)
    ensures r.Some? <==> EndsWith(file, PdbSuffix) && '_' in file
  {
    if EndsWith(file, PdbSuffix) then
      match SplitOnce(file, '_')
      case Whole => None
      case Parts(_, after) => Some(RemoveAll(after, PdbSuffix))
    else None
  }

  /** The targets of the structure folder's file names. */
  function DownloadedTargets(listing: seq<string>): set<string> {
    if listing == [] then {}
    else
      var t := StructureTarget(listing[|listing| - 1]);
      DownloadedTargets(listing[..|listing| - 1]) + (if t.Some? then {t.value} else {})
  }

  /** Every structure file name's target is among the downloaded targets. */
  lemma {:induction false} TargetDetected(listing: seq<string>, i: nat)
    requires i < |listing| && StructureTarget(listing[i]).Some?
    ensures StructureTarget(listing[i]).value in DownloadedTargets(listing)
    decreases |listing|
  {
    var init := listing[..|listing| - 1];
    if i < |init| {
      assert init[i] == listing[i];
      TargetDetected(init, i);
    }
  }

  /** Every downloaded target is the target of some structure file name. */
  lemma {:induction false} DetectedTarget(listing: seq<string>, t: string)
    requires t in DownloadedTargets(listing)
    ensures exists i :: 0 <= i < |listing| && StructureTarget(listing[i]) == Some(t)
    decreases |listing|
  {
    var init := listing[..|listing| - 1];
    if t in DownloadedTargets(init) {
      DetectedTarget(init, t);
      var i :| 0 <= i < |init| && StructureTarget(init[i]) == Some(t);
      assert listing[i] == init[i];
    } else {
      assert StructureTarget(listing[|listing| - 1]) == Some(t);
    }
  }

  /** The loop over the structure folder that fills `downloaded_targets`. */
  method DetectDownloaded(listing: seq<string>) returns (targets: set<string>)
    ensures targets == DownloadedTargets(listing)
  {
    targets := {};
    var k := 0;
    while k < |listing|
      invariant k <= |listing|
      invariant targets == DownloadedTargets(listing[..k])
    {
      assert listing[..k + 1][..k] == listing[..k];
      var file := listing[k];
      if EndsWith(file, PdbSuffix) {
        var parts := SplitOnce(file, '_');
        if parts.Parts? {
          targets := targets + {RemoveAll(parts.after, PdbSuffix)};
        }
      }
      k := k + 1;
    }
    assert listing[..k] == listing;
  }

  // ---------------------------------------------------------------------------
  // The hits

  /** A row of the summary. */
  datatype SummaryHit = SummaryHit(query: string, target: string, bitscore: real, category: Category)

  /** A file of the results folder: its name and its lines. */
  datatype ListedFile = ListedFile(name: string, lines: seq<string>)

  /**
   * The hit a result line gives: its stripped tab fields, when there are at
   * least twelve and the target (field 1) was downloaded. `score` is
   * `float`, applied to field 11.
   */
  function LineHit(line: string, c: CategorySets, downloaded: set<string>, score: string -> real): Option<SummaryHit> {
    var parts := Split(Strip(line), '\t');
    if |parts| >= MinFields && parts[1] in downloaded then
      Some(SummaryHit(parts[0], parts[1], score(parts[11]), Categorise(parts[0], c)))
    else None
  }

  /** A stripped line of tab-free fields, read with its terminator. */
  lemma LineHitOfFields(fields: seq<string>, c: CategorySets, downloaded: set<string>, score: string -> real)
    requires |fields| >= 1 && forall i :: 0 <= i < |fields| ==> '\t' !in fields[i]
    requires IsStripped(Join(fields, '\t'))
    ensures LineHit(Join(fields, '\t') + "\n", c, downloaded, score)
         == if |fields| >= MinFields && fields[1] in downloaded
            then Some(SummaryHit(fields[0], fields[1], score(fields[11]), Categorise(fields[0], c)))
            else None
  {
    StripTerminated(Join(fields, '\t'));
    SplitJoin(fields, '\t');
  }

  /** The hits of one table, in line order. */
  function TableHits(lines: seq<string>, c: CategorySets, downloaded: set<string>, score: string -> real): seq<SummaryHit> {
    if lines == [] then []
    else TableHits(lines[..|lines| - 1], c, downloaded, score) + OptionToSeq(LineHit(lines[|lines| - 1], c, downloaded, score))
  }

  /** The hits of the `.m8` files of the folder, in listing order. */
  function CollectedHits(files: seq<ListedFile>, c: CategorySets, downloaded: set<string>, score: string -> real): seq<SummaryHit> {
    if files == [] then []
    else
      var last := files[|files| - 1];
      CollectedHits(files[..|files| - 1], c, downloaded, score)
        + (if EndsWith(last.name, ResultSuffix) then TableHits(last.lines, c, downloaded, score) else [])
  }

  /** Every line that gives a hit contributes it. */
  lemma {:induction false} LineHitCollected(lines: seq<string>, c: CategorySets, downloaded: set<string>, score: string -> real, i: nat)
    requires i < |lines| && LineHit(lines[i], c, downloaded, score).Some?
    ensures LineHit(lines[i], c, downloaded, score).value in TableHits(lines, c, downloaded, score)
    decreases |lines|
  {
    var init := lines[..|lines| - 1];
    if i < |init| {
      assert init[i] == lines[i];
      LineHitCollected(init, c, downloaded, score, i);
    }
  }

  /** Every hit comes from a line of the table: a row with enough fields whose target is on disk. */
  lemma {:induction false} CollectedHitFromLine(lines: seq<string>, c: CategorySets, downloaded: set<string>, score: string -> real, h: SummaryHit)
    requires h in TableHits(lines, c, downloaded, score)
    ensures exists i :: 0 <= i < |lines| && LineHit(lines[i], c, downloaded, score) == Some(h)
    ensures h.target in downloaded && h.category == Categorise(h.query, c)
    decreases |lines|
  {
    var init := lines[..|lines| - 1];
    if h in TableHits(init, c, downloaded, score) {
      CollectedHitFromLine(init, c, downloaded, score, h);
      var i :| 0 <= i < |init| && LineHit(init[i], c, downloaded, score) == Some(h);
      assert lines[i] == init[i];
    } else {
      assert LineHit(lines[|lines| - 1], c, downloaded, score) == Some(h);
    }
  }

  /** The body of the line loop. */
  method ScanLine(line: string, c: CategorySets, downloaded: set<string>, score: string -> real, hits0: seq<SummaryHit>)
    returns (hits: seq<SummaryHit>)
    ensures hits == hits0 + OptionToSeq(LineHit(line, c, downloaded, score))
  {
    hits := hits0;
    var parts := Split(Strip(line), '\t');
    if |parts| >= MinFields {
      var query, target, bitscore := parts[0], parts[1], score(parts[11]);
      if target in downloaded {
        hits := hits + [SummaryHit(query, target, bitscore, Categorise(query, c))];
      }
    }
  }

  /** The loop over the lines of one `.m8` file. */
  method ScanResults(lines: seq<string>, c: CategorySets, downloaded: set<string>, score: string -> real, hits0: seq<SummaryHit>)
    returns (hits: seq<SummaryHit>)
    ensures hits == hits0 + TableHits(lines, c, downloaded, score)
  {
    hits := hits0;
    var i := 0;
    while i < |lines|
      invariant i <= |lines|
      invariant hits == hits0 + TableHits(lines[..i], c, downloaded, score)
    {
      assert lines[..i + 1][..i] == lines[..i];
      hits := ScanLine(lines[i], c, downloaded, score, hits);
      i := i + 1;
    }
    assert lines[..i] == lines;
  }

  /** The loop over the results folder. */
  method CollectHits(files: seq<ListedFile>, c: CategorySets, downloaded: set<string>, score: string -> real)
    returns (hits: seq<SummaryHit>)
    ensures hits == CollectedHits(files, c, downloaded, score)
  {
    hits := [];
    var f := 0;
    while f < |files|
      invariant f <= |files|
      invariant hits == CollectedHits(files[..f], c, downloaded, score)
    {
      assert files[..f + 1][..f] == files[..f];
      if EndsWith(files[f].name, ResultSuffix) {
        hits := ScanResults(files[f].lines, c, downloaded, score, hits);
      }
      f := f + 1;
    }
    assert files[..f] == files;
  }

  // ---------------------------------------------------------------------------
  // The summary

  function HitBitscore(h: SummaryHit): real {
    h.bitscore
  }

  /** Nothing when there are no hits; otherwise the hits by non-increasing bitscore. */
  function SummaryTable(hits: seq<SummaryHit>): (r: Option<seq<SummaryHit>>)
    ensures r.None? <==> hits == []
    ensures r.Some? ==> SortedDesc(r.value, HitBitscore) && multiset(r.value) == multiset(hits)
  {
    if hits == [] then None else Some(SortDesc(hits, HitBitscore))
  }
}
