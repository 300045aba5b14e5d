/**
 * download_top_hits_structures.py: the `top_n` highest-scoring rows of one
 * Foldseek table, each target resolved to an AlphaFold or RCSB download URL
 * and saved under an indexed file name.
 */
module TopHits {
  import opened Wrappers
  import opened Text
  import opened Sorting
  import Summarize

  /** `top_n = 10`. */
  const TopN: nat := 10

  const AlphaFoldFiles := "https://alphafold.ebi.ac.uk/files/AF-"
  const AlphaFoldModelSuffix := "-F1-model_v4.pdb"
  const RcsbDownload := "https://files.rcsb.org/download/"
  const PdbSuffix := ".pdb"

  /** Field 11, the bitscore, is read from every row. */
  const BitscoreField := 11

  /** The script stops with an `IndexError` on a row with fewer than twelve fields. */
  datatype Failure = RowTooShort(row: nat)

  /** A row: `line.strip().split('\t')`. */
  function ParseRow(line: string): seq<string> {
    Split(Strip(line), '\t')
  }

  /** The first row too short to have a bitscore, if there is one. */
  function FirstShortRow(rows: seq<seq<string>>): (r: Option<nat>)
    ensures r.None? <==> forall i :: 0 <= i < |rows| ==> |rows[i]| > BitscoreField
    ensures r.Some? ==> r.value < |rows| && |rows[r.value]| <= BitscoreField
    decreases |rows|
  {
    if rows == [] then None
    else if |rows[0]| <= BitscoreField then Some(0)
    else
      var rest := FirstShortRow(rows[1..]);
      if rest.Some? then Some(rest.value + 1)
      else
        assert forall i :: 1 <= i < |rows| ==> rows[i] == rows[1..][i - 1];
        None
  }

  /** The sort key of a parsed row: `float(x[11])`. */
  function RowScore(score: string -> real): seq<string> -> real {
    (row: seq<string>) => if |row| > BitscoreField then score(row[BitscoreField]) else 0.0
  }

  /** Every line, parsed. */
  function ParsedRows(lines: seq<string>): (rows: seq<seq<string>>)
    ensures |rows| == |lines| && forall i :: 0 <= i < |lines| ==> rows[i] == ParseRow(lines[i])
  {
    seq(|lines|, i requires 0 <= i < |lines| => ParseRow(lines[i]))
  }

  /**
   * `sorted(lines, key=lambda x: float(x[11]), reverse=True)[:top_n]`.
   * `score` is `float`.
   */
  function SelectTopHits(lines: seq<string>, topN: nat, score: string -> real): (r: Result<seq<seq<string>>, Failure>)
    ensures r.Err? <==> exists i :: 0 <= i < |lines| && |ParseRow(lines[i])| <= BitscoreField
    ensures r.Ok? ==> |r.value| == if topN < |lines| then topN else |lines|
  {
    var rows := ParsedRows(lines);
    var short := FirstShortRow(rows);
    if short.Some? then
      assert |ParseRow(lines[short.value])| <= BitscoreField;
      Err(RowTooShort(short.value))
    else
      var sorted := SortDesc(rows, RowScore(score));
      Ok(sorted[..if topN < |sorted| then topN else |sorted|])
  }

  /**
   * The selected rows are a prefix of the rows sorted by non-increasing
   * bitscore; the sort is stable, so rows with equal scores keep their
   * input order, and it is a permutation of the rows.
   */
  lemma SelectedPrefixOfSorted(lines: seq<string>, topN: nat, score: string -> real)
    requires forall i :: 0 <= i < |lines| ==> |ParseRow(lines[i])| > BitscoreField
    ensures SelectTopHits(lines, topN, score).Ok?
    ensures var rows := ParsedRows(lines);
      var sorted := SortDesc(rows, RowScore(score));
      && SelectTopHits(lines, topN, score).value == sorted[..|SelectTopHits(lines, topN, score).value|]
      && SortedDesc(sorted, RowScore(score))
      && multiset(sorted) == multiset(rows)
      && forall k :: WithKey(sorted, RowScore(score), k) == WithKey(rows, RowScore(score), k)
  {
    var rows := ParsedRows(lines);
    forall k {
      SortDescStable(rows, RowScore(score), k);
    }
  }

  // ---------------------------------------------------------------------------
  // Target resolution

  /** Where a target is downloaded from. */
  datatype Source = AlphaFold(uniprot: string) | Rcsb(pdbId: string) | Unknown

  /** Python's `str.isalnum`, on ASCII. */
  predicate IsAlnumString(s: string) {
    s != [] && forall i :: 0 <= i < |s| ==> IsAlnum(s[i])
  }

  /**
   * An id whose upper-case form starts with `AF-` is an AlphaFold model,
   * named by its second `-` field; otherwise a four-character alphanumeric
   * id is a PDB entry; anything else is unknown.
   */
  function Classify(target: string): (r: Source)
    ensures r.AlphaFold? <==> StartsWith(ToUpper(target), "AF-")
    ensures r.Rcsb? <==> !StartsWith(ToUpper(target), "AF-") && |target| == 4 && IsAlnumString(target)
  {
    if StartsWith(ToUpper(target), "AF-") then AlphaFold(TakeUntil(DropThrough(target, '-'), '-'))
    else if |target| == 4 && IsAlnumString(target) then Rcsb(ToUpper(target))
    else Unknown
  }

  /** The AlphaFold id is `target_id.split("-")[1]`, which exists since the third character is `-`. */
  lemma AlphaFoldIdBySplit(target: string)
    requires StartsWith(ToUpper(target), "AF-")
    ensures |Split(target, '-')| >= 2 && Classify(target).uniprot == Split(target, '-')[1]
  {
    assert target[2] == '-' by {
      assert ToUpper(target)[2] == UpperChar(target[2]);
    }
    SecondField(target, '-');
  }

  /** The download URL of a target, or `None` to skip it. */
  function TargetUrl(target: string): (r: Option<string>)
    ensures r.None? <==> Classify(target).Unknown?
  {
    match Classify(target)
    case AlphaFold(uniprot) => Some(AlphaFoldFiles + uniprot + AlphaFoldModelSuffix)
    case Rcsb(id) => Some(RcsbDownload + id + PdbSuffix)
    case Unknown => None
  }

  /** A model id `AF-<accession>-F1-model_v4` is fetched from the AlphaFold files of that accession. */
  lemma {:induction false} AlphaFoldUrl(acc: string)
    requires '-' !in acc
    ensures TargetUrl("AF-" + acc + "-F1-model_v4") == Some(AlphaFoldFiles + acc + AlphaFoldModelSuffix)
  {
    var rest := acc + ['-'] + "F1-model_v4";
    var af := "AF" + ['-'] + rest;
    assert af == "AF-" + acc + "-F1-model_v4";
    var u := ToUpper(af);
    assert u[0] == 'A' && u[1] == 'F' && u[2] == '-';
    assert u[..3] == "AF-";
    TakeUntilAt("AF", rest, '-');
    TakeUntilAt(acc, "F1-model_v4", '-');
  }

  /** A four-character alphanumeric id is fetched from the RCSB under its upper-case form. */
  lemma RcsbUrl(t: string)
    requires |t| == 4 && IsAlnumString(t)
    ensures TargetUrl(t) == Some(RcsbDownload + ToUpper(t) + PdbSuffix)
  {
    assert !StartsWith(ToUpper(t), "AF-") by {
      assert IsAlnum(t[2]);
      assert ToUpper(t)[..3][2] == UpperChar(t[2]);
    }
  }

  lemma UnknownUrlExample()
    ensures TargetUrl("PF00001") == None
  {
    assert ToUpper("PF00001")[0] == 'P';
  }

  // ---------------------------------------------------------------------------
  // File names

  /** `f"{i+1:02d}_{target_id}.pdb"`. */
  function StructureFileName(i: nat, target: string): string {
    Pad2(i + 1) + "_" + target + PdbSuffix
  }

  /**
   * Round trip with the summary: reading the file name back gives the
   * target, whenever the target holds no `.pdb`.
   */
  lemma FileNameRoundTrip(i: nat, target: string)
    requires !Contains(target, PdbSuffix)
    ensures Summarize.StructureTarget(StructureFileName(i, target)) == Some(target)
  {
    NameRoundTrip(Pad2(i + 1), target);
  }

  /** The same for any prefix free of `_`. */
  lemma NameRoundTrip(prefix: string, target: string)
    requires '_' !in prefix && !Contains(target, PdbSuffix)
    ensures Summarize.StructureTarget(prefix + "_" + target + PdbSuffix) == Some(target)
  {
    var rest := target + PdbSuffix;
    var name := prefix + ['_'] + rest;
    assert prefix + "_" + target + PdbSuffix == name;
    assert PdbSuffix[0] !in PdbSuffix[1..];
    SplitSuffixed(prefix, target, PdbSuffix, '_');
  }

  /** The generic form: a name `prefix c target p` splits at `c` and loses `p`. */
  lemma SplitSuffixed(prefix: string, target: string, p: string, c: char)
    requires c !in prefix && |p| > 0 && p[0] !in p[1..] && !Contains(target, p)
    ensures EndsWith(prefix + [c] + (target + p), p)
    ensures SplitOnce(prefix + [c] + (target + p), c) == Parts(prefix, target + p)
    ensures RemoveAll(target + p, p) == target
  {
    assert prefix + [c] + (target + p) == (prefix + [c] + target) + p;
    EndsWithAppended(prefix + [c] + target, p);
    SplitOnceAt(prefix, target + p, c);
    RemoveAllAppended(target, p);
  }

  // ---------------------------------------------------------------------------
  // The download loop

  /** One saved structure: the file name and the URL it came from. */
  datatype Saved = Saved(file: string, url: string)

  /** One `enumerate` step: the request made, if any, and the file saved, if any. */
  function DownloadStep(i: nat, row: seq<string>, status: int): (r: (Option<string>, Option<Saved>))
    requires |row| >= 2
  {
    var url := TargetUrl(row[1]);
    if url.None? then (None, None)
    else (url, if status == 200 then Some(Saved(StructureFileName(i, row[1]), url.value)) else None)
  }

  /** The URLs requested, in row order. */
  function Requests(rows: seq<seq<string>>, statuses: seq<int>): seq<string>
    requires |statuses| == |rows| && forall i :: 0 <= i < |rows| ==> |rows[i]| >= 2
  {
    if rows == [] then []
    else
      var n := |rows| - 1;
      Requests(rows[..n], statuses[..n]) + OptionToSeq(DownloadStep(n, rows[n], statuses[n]).0)
  }

  /** The structures saved, in row order. */
  function SavedFiles(rows: seq<seq<string>>, statuses: seq<int>): seq<Saved>
    requires |statuses| == |rows| && forall i :: 0 <= i < |rows| ==> |rows[i]| >= 2
  {
    if rows == [] then []
    else
      var n := |rows| - 1;
      SavedFiles(rows[..n], statuses[..n]) + OptionToSeq(DownloadStep(n, rows[n], statuses[n]).1)
  }

  /** One pass of the loop body over row `i`; an unknown target is skipped with `continue`. */
  method DownloadRow(i: nat, row: seq<string>, status: int, requests0: seq<string>, saved0: seq<Saved>)
    returns (requests: seq<string>, saved: seq<Saved>)
    requires |row| >= 2
    ensures requests == requests0 + OptionToSeq(DownloadStep(i, row, status).0)
    ensures saved == saved0 + OptionToSeq(DownloadStep(i, row, status).1)
  {
    requests, saved := requests0, saved0;
    var target := row[1];
    var url := TargetUrl(target);
    if url.None? {
      assert requests == requests0 + [] && saved == saved0 + [];
      return;
    }
    requests := requests + [url.value];
    if status == 200 {
      saved := saved + [Saved(StructureFileName(i, target), url.value)];
    } else {
      assert saved == saved0 + [];
    }
  }

  /** The requests and saved files of one more row. */
  lemma DownloadPrefixStep(rows: seq<seq<string>>, statuses: seq<int>, i: nat)
    requires |statuses| == |rows| && forall j :: 0 <= j < |rows| ==> |rows[j]| >= 2
    requires i < |rows|
    ensures Requests(rows[..i + 1], statuses[..i + 1])
         == Requests(rows[..i], statuses[..i]) + OptionToSeq(DownloadStep(i, rows[i], statuses[i]).0)
    ensures SavedFiles(rows[..i + 1], statuses[..i + 1])
         == SavedFiles(rows[..i], statuses[..i]) + OptionToSeq(DownloadStep(i, rows[i], statuses[i]).1)
  {
    assert rows[..i + 1][..i] == rows[..i] && statuses[..i + 1][..i] == statuses[..i];
    assert rows[..i + 1][i] == rows[i] && statuses[..i + 1][i] == statuses[i];
  }

  /**
   * The loop over the selected rows; `statuses[i]` is the status of row
   * `i`'s request when one is made. Unknown targets are skipped, and the
   * index still advances.
   */
  method DownloadTopHits(rows: seq<seq<string>>, statuses: seq<int>)
    returns (requests: seq<string>, saved: seq<Saved>)
    requires |statuses| == |rows| && forall i :: 0 <= i < |rows| ==> |rows[i]| >= 2
    ensures requests == Requests(rows, statuses)
    ensures saved == SavedFiles(rows, statuses)
  {
    requests, saved := [], [];
    var i := 0;
    while i < |rows|
      invariant i <= |rows|
      invariant requests == Requests(rows[..i], statuses[..i])
      invariant saved == SavedFiles(rows[..i], statuses[..i])
    {
      DownloadPrefixStep(rows, statuses, i);
      requests, saved := DownloadRow(i, rows[i], statuses[i], requests, saved);
      i := i + 1;
    }
    assert rows[..i] == rows && statuses[..i] == statuses;
  }

  /** `s` is the structure saved for row `i`: named after its index and target, from its URL. */
  predicate SavedForRow(s: Saved, rows: seq<seq<string>>, statuses: seq<int>, i: nat)
    requires i < |rows| && i < |statuses| && |rows[i]| >= 2
  {
    statuses[i] == 200 && TargetUrl(rows[i][1]).Some?
      && s == Saved(StructureFileName(i, rows[i][1]), TargetUrl(rows[i][1]).value)
  }

  /** Whether a structure was saved for row `i` does not depend on the rows after it. */
  lemma SavedForRowPrefix(s: Saved, rows: seq<seq<string>>, statuses: seq<int>, n: nat, i: nat)
    requires n <= |rows| && n <= |statuses| && i < n && |rows[i]| >= 2
    requires SavedForRow(s, rows[..n], statuses[..n], i)
    ensures SavedForRow(s, rows, statuses, i)
  {
    assert rows[..n][i] == rows[i] && statuses[..n][i] == statuses[i];
  }

  /**
   * Each saved structure is named after a row's own index and target and
   * came from that target's URL: skipped rows leave gaps in the numbering.
   */
  lemma {:induction false} SavedNamedByIndex(rows: seq<seq<string>>, statuses: seq<int>, k: nat)
    requires |statuses| == |rows| && forall i :: 0 <= i < |rows| ==> |rows[i]| >= 2
    requires k < |SavedFiles(rows, statuses)|
    ensures exists i :: 0 <= i < |rows| && SavedForRow(SavedFiles(rows, statuses)[k], rows, statuses, i)
    decreases |rows|
  {
    var n := |rows| - 1;
    var before := SavedFiles(rows[..n], statuses[..n]);
    var last := OptionToSeq(DownloadStep(n, rows[n], statuses[n]).1);
    var s := SavedFiles(rows, statuses)[k];
    assert SavedFiles(rows, statuses) == before + last;
    if k < |before| {
      assert s == before[k];
      SavedNamedByIndex(rows[..n], statuses[..n], k);
      var i :| 0 <= i < n && SavedForRow(before[k], rows[..n], statuses[..n], i);
      SavedForRowPrefix(s, rows, statuses, n, i);
    } else {
      assert s == last[0];
      assert SavedForRow(s, rows, statuses, n);
    }
  }

  /**
   * The converse: a row whose target has a URL and whose request was
   * answered with status 200 has its structure saved.
   */
  lemma {:induction false} RowSaved(rows: seq<seq<string>>, statuses: seq<int>, i: nat)
    requires |statuses| == |rows| && forall j :: 0 <= j < |rows| ==> |rows[j]| >= 2
    requires i < |rows| && statuses[i] == 200 && TargetUrl(rows[i][1]).Some?
    ensures Saved(StructureFileName(i, rows[i][1]), TargetUrl(rows[i][1]).value) in SavedFiles(rows, statuses)
    decreases |rows|
  {
    var n := |rows| - 1;
    var before := SavedFiles(rows[..n], statuses[..n]);
    assert SavedFiles(rows, statuses) == before + OptionToSeq(DownloadStep(n, rows[n], statuses[n]).1);
    if i < n {
      assert rows[..n][i] == rows[i] && statuses[..n][i] == statuses[i];
      RowSaved(rows[..n], statuses[..n], i);
    }
  }

  /** A row whose target is of unknown format makes no request and saves nothing. */
  lemma UnknownSkipped(i: nat, row: seq<string>, status: int)
    requires |row| >= 2 && Classify(row[1]).Unknown?
    ensures DownloadStep(i, row, status) == (None, None)
  {
  }

  /**
   * The saved structures are the ones the summary finds: every saved file
   * name reads back as its row's target.
   */
  lemma SavedFilesDetected(rows: seq<seq<string>>, statuses: seq<int>, k: nat)
    requires |statuses| == |rows| && forall i :: 0 <= i < |rows| ==> |rows[i]| >= 2 && !Contains(rows[i][1], PdbSuffix)
    requires k < |SavedFiles(rows, statuses)|
    ensures exists i :: (0 <= i < |rows|
      && Summarize.StructureTarget(SavedFiles(rows, statuses)[k].file) == Some(rows[i][1]))
  {
    SavedNamedByIndex(rows, statuses, k);
    var i :| 0 <= i < |rows| && SavedForRow(SavedFiles(rows, statuses)[k], rows, statuses, i);
    FileNameRoundTrip(i, rows[i][1]);
  }
}
