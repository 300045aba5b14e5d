/**
 * The Foldseek web search (scripts/01_Working_FoldSeek_Search.py): resolve
 * the query to a local structure file, submit one search job against every
 * Foldseek database, poll its ticket a bounded number of times, download the
 * result archive to a `.tar.gz` path, and keep the "uncharacterized protein"
 * lines of its `.m8` tables together with their AlphaFold accessions; the
 * first accession is the seed of the next pipeline stage.
 *
 * The HTTP replies, the files present on disk, the typed alignment mode and
 * the contents of the extracted archive are parameters.
 */
module FoldseekSearch {
  import opened Wrappers
  import opened Text

  /** The databases every search runs against. */
  const Databases: seq<string> :=
    ["afdb50", "afdb-swissprot", "afdb-proteome", "mgnify_esm30", "pdb100", "gmgcl_id"]

  const DefaultMode: string := "3diaa"

  /** The number of status queries before the archive is fetched regardless. */
  const MaxPolls: nat := 10

  const ArchiveSuffix: string := ".tar.gz"

  const UncharacterizedProtein: string := "uncharacterized protein"

  /** The conditions under which the script stops with `sys.exit` or an uncaught exception. */
  datatype Fatal =
    | NoStructureForAccession(accession: string)
    | MappingRequestFailed(accession: string)
    | StructureDownloadFailed(pdbId: string)
    | InputNotFound(path: string)
    | SubmissionFailed
    | RemoteJobFailed
    | ArchiveUnreadable

  /**
   * The reply of the best-structures mapping service: its HTTP status and,
   * for each accession in the JSON body, the `pdb_id` of each entry in order.
   */
  datatype MappingReply = MappingReply(status: int, structures: map<string, seq<string>>)

  // ---------------------------------------------------------------------------
  // Input resolution (download_pdb and the start of foldseek_apiquery)

  /** The PDB id to fetch: ids longer than four characters are looked up first. */
  function StructureId(id: string, mapping: MappingReply): (r: Result<string, Fatal>)
    ensures |id| <= 4 ==> r == Ok(id)
  {
    if |id| > 4 then
      if mapping.status == 200 then
        if id in mapping.structures && |mapping.structures[id]| > 0 then
          Ok(mapping.structures[id][0])
        else Err(NoStructureForAccession(id))
      else Err(MappingRequestFailed(id))
    else Ok(id)
  }

  /** `download_pdb`: the name of the structure file written from the RCSB reply. */
  function DownloadPdb(id: string, mapping: MappingReply, fetchStatus: int): (r: Result<string, Fatal>)
    ensures r.Ok? ==> EndsWith(r.value, ".pdb")
  {
    var pdbId :- StructureId(id, mapping);
    if fetchStatus == 200 then Ok(pdbId + ".pdb") else Err(StructureDownloadFailed(pdbId))
  }

  /**
   * The structure file whose text is submitted: a name ending in ".pdb" is a
   * local file, anything else is downloaded into a file that then exists.
   */
  function ResolveInput(input: string, onDisk: set<string>, mapping: MappingReply, fetchStatus: int)
    : (r: Result<string, Fatal>)
    ensures r.Ok? ==> EndsWith(r.value, ".pdb")
    ensures EndsWith(input, ".pdb") ==> (r.Ok? <==> input in onDisk) && (r.Ok? ==> r.value == input)
  {
    if EndsWith(input, ".pdb") then
      if input in onDisk then Ok(input) else Err(InputNotFound(input))
    else
      DownloadPdb(input, mapping, fetchStatus)
  }

  /** An id of at most four characters is fetched directly: the mapping reply plays no part. */
  lemma ShortIdSkipsMapping(id: string, onDisk: set<string>, m1: MappingReply, m2: MappingReply, fetchStatus: int)
    requires !EndsWith(id, ".pdb") && |id| <= 4
    ensures ResolveInput(id, onDisk, m1, fetchStatus) == ResolveInput(id, onDisk, m2, fetchStatus)
    ensures ResolveInput(id, onDisk, m1, fetchStatus)
         == if fetchStatus == 200 then Ok(id + ".pdb") else Err(StructureDownloadFailed(id))
  {
  }

  /**
   * A longer id succeeds only through a successful lookup with at least one
   * entry, and then the first entry's PDB id names the file; a missing or
   * empty entry list is fatal.
   */
  lemma LongIdUsesFirstEntry(id: string, onDisk: set<string>, mapping: MappingReply, fetchStatus: int)
    requires !EndsWith(id, ".pdb") && |id| > 4
    ensures var r := ResolveInput(id, onDisk, mapping, fetchStatus);
      && (r.Ok? <==> mapping.status == 200 && id in mapping.structures
                     && |mapping.structures[id]| > 0 && fetchStatus == 200)
      && (r.Ok? ==> r.value == mapping.structures[id][0] + ".pdb")
      && (mapping.status == 200 && (id !in mapping.structures || mapping.structures[id] == [])
          ==> r == Err(NoStructureForAccession(id)))
  {
  }

  /** "1ABC" is fetched as is; "Q9Y6K9" goes through the mapping first. */
  lemma ResolutionExamples(onDisk: set<string>, fetchStatus: int)
    requires fetchStatus == 200
    ensures ResolveInput("1ABC", onDisk, MappingReply(404, map[]), fetchStatus) == Ok("1ABC.pdb")
    ensures ResolveInput("Q9Y6K9", onDisk, MappingReply(200, map["Q9Y6K9" := ["2xyz", "3abc"]]), fetchStatus)
         == Ok("2xyz.pdb")
    ensures ResolveInput("Q9Y6K9", onDisk, MappingReply(200, map["Q9Y6K9" := []]), fetchStatus)
         == Err(NoStructureForAccession("Q9Y6K9"))
  {
    assert !EndsWith("1ABC", ".pdb") by { assert "1ABC"[0..] != ".pdb"; }
    assert "1ABC" + ".pdb" == "1ABC.pdb";
    assert "2xyz" + ".pdb" == "2xyz.pdb";
    assert !EndsWith("Q9Y6K9", ".pdb") by { assert "Q9Y6K9"[2..] != ".pdb"; }
  }

  // ---------------------------------------------------------------------------
  // Output path and alignment mode

  /** The archive path: `output` with ".tar.gz" appended unless it already ends so. */
  function NormalizeOutput(output: string): (r: string)
    ensures EndsWith(r, ArchiveSuffix)
    ensures EndsWith(output, ArchiveSuffix) ==> r == output
    ensures StartsWith(r, output)
  {
    if EndsWith(output, ArchiveSuffix) then output
    else
      var r := output + ArchiveSuffix;
      assert r[..|output|] == output;
      assert r[|r| - |ArchiveSuffix|..] == ArchiveSuffix;
      r
  }

  lemma NormalizeOutputIdempotent(output: string)
    ensures NormalizeOutput(NormalizeOutput(output)) == NormalizeOutput(output)
  {
  }

  /** `input(...) or "3diaa"`: an empty answer selects the default mode. */
  function ChooseMode(entered: string): (mode: string)
    ensures mode != ""
    ensures entered != "" ==> mode == entered
  {
    if entered == "" then DefaultMode else entered
  }

  // ---------------------------------------------------------------------------
  // Polling the ticket

  datatype PollResult = Completed | Failed | Exhausted

  /** How polling ended, how many status queries were made and how many sleeps followed them. */
  datatype PollOutcome = PollOutcome(result: PollResult, queries: nat, sleeps: nat)

  predicate IsTerminal(status: string) {
    status == "COMPLETE" || status == "ERROR"
  }

  /**
   * Polling from query `k` on, the first `k` statuses having been
   * non-terminal: the first terminal status among the first `MaxPolls` ends
   * it, and otherwise all `MaxPolls` queries are made, each followed by a sleep.
   */
  function PollFrom(statuses: seq<string>, k: nat): (o: PollOutcome)
    requires k <= MaxPolls <= |statuses|
    ensures k <= o.queries <= MaxPolls
    ensures forall j :: k <= j < o.queries - 1 ==> !IsTerminal(statuses[j])
    ensures o.result == Exhausted ==>
      o.queries == MaxPolls && o.sleeps == MaxPolls && (forall j :: k <= j < MaxPolls ==> !IsTerminal(statuses[j]))
    ensures o.result != Exhausted ==> k < o.queries && o.sleeps == o.queries - 1
    ensures o.result == Completed ==> statuses[o.queries - 1] == "COMPLETE"
    ensures o.result == Failed ==> statuses[o.queries - 1] == "ERROR"
    decreases MaxPolls - k
  {
    if k == MaxPolls then PollOutcome(Exhausted, k, k)
    else if statuses[k] == "COMPLETE" then PollOutcome(Completed, k + 1, k)
    else if statuses[k] == "ERROR" then PollOutcome(Failed, k + 1, k)
    else PollFrom(statuses, k + 1)
  }

  /** The outcome of polling a ticket whose successive status replies are `statuses`. */
  function PollSpec(statuses: seq<string>): PollOutcome
    requires MaxPolls <= |statuses|
  {
    PollFrom(statuses, 0)
  }

  /** The poll loop: one query per iteration, leaving it at COMPLETE or ERROR, sleeping otherwise. */
  method Poll(statuses: seq<string>) returns (o: PollOutcome)
    requires MaxPolls <= |statuses|
    ensures o == PollSpec(statuses)
  {
    var queries, sleeps := 0, 0;
    var result := Exhausted;
    var k := 0;
    while k < MaxPolls
      invariant k <= MaxPolls
      invariant queries == k && sleeps == k
      invariant PollFrom(statuses, k) == PollSpec(statuses)
    {
      var status := statuses[k];
      queries := queries + 1;
      if status == "COMPLETE" {
        result := Completed;
        break;
      } else if status == "ERROR" {
        result := Failed;
        break;
      }
      sleeps := sleeps + 1;
      k := k + 1;
    }
    o := PollOutcome(result, queries, sleeps);
  }

  // ---------------------------------------------------------------------------
  // Accession extraction: the regular expression AF-([A-Z0-9]+)-

  predicate IsAccessionChar(c: char) {
    'A' <= c <= 'Z' || '0' <= c <= '9'
  }

  /** The pattern AF-([A-Z0-9]+)- matches `s` at position `i` with `acc` as its group. */
  predicate MatchesAt(s: string, i: nat, acc: string) {
    && |acc| >= 1
    && i + 3 + |acc| < |s|
    && s[i..i + 3] == "AF-"
    && s[i + 3..i + 3 + |acc|] == acc
    && (forall k :: 0 <= k < |acc| ==> IsAccessionChar(acc[k]))
    && s[i + 3 + |acc|] == '-'
  }

  /** At a given position the pattern has at most one group. */
  lemma MatchUnique(s: string, i: nat, a: string, b: string)
    requires MatchesAt(s, i, a) && MatchesAt(s, i, b)
    ensures a == b
  {
    if |a| != |b| {
      assert false;
    }
  }

  /** The length of the longest run of accession characters starting at `j`. */
  function RunLength(s: string, j: nat): (n: nat)
    requires j <= |s|
    ensures j + n <= |s|
    ensures forall k :: j <= k < j + n ==> IsAccessionChar(s[k])
    ensures j + n == |s| || !IsAccessionChar(s[j + n])
    decreases |s| - j
  {
    if j < |s| && IsAccessionChar(s[j]) then 1 + RunLength(s, j + 1) else 0
  }

  /** The group of the match at position `i`, if the pattern matches there. */
  function MatchAtIndex(s: string, i: nat): (r: Option<string>)
    requires i <= |s|
    ensures r.Some? ==> MatchesAt(s, i, r.value)
    ensures r.None? ==> forall acc :: !MatchesAt(s, i, acc)
  {
    if i + 3 <= |s| && s[i..i + 3] == "AF-" then
      var n := RunLength(s, i + 3);
      if n >= 1 && i + 3 + n < |s| && s[i + 3 + n] == '-' then
        Some(s[i + 3..i + 3 + n])
      else
        assert forall acc :: !MatchesAt(s, i, acc);
        None
    else None
  }

  /** `re.search` from position `i` on: the group of the leftmost match. */
  function SearchFrom(s: string, i: nat): (r: Option<string>)
    requires i <= |s|
    ensures r.Some? ==> exists j :: i <= j <= |s| && MatchesAt(s, j, r.value)
                                   && forall j', acc :: i <= j' < j ==> !MatchesAt(s, j', acc)
    ensures r.None? ==> forall j, acc :: i <= j ==> !MatchesAt(s, j, acc)
    decreases |s| - i
  {
    var m := MatchAtIndex(s, i);
    if m.Some? then m
    else if i == |s| then None
    else
      var r := SearchFrom(s, i + 1);
      assert forall acc :: !MatchesAt(s, i, acc);
      r
  }

  /** `re.search(r"AF-([A-Z0-9]+)-", line)`: the group of its leftmost match, if any. */
  function FindAccession(line: string): (r: Option<string>)
    ensures r.None? <==> forall j, acc :: !MatchesAt(line, j, acc)
  {
    SearchFrom(line, 0)
  }

  /** The accession is the group of the leftmost match (the regex's own semantics). */
  lemma FindAccessionLeftmost(line: string, i: nat, acc: string)
    requires MatchesAt(line, i, acc)
    requires forall j, a :: 0 <= j < i ==> !MatchesAt(line, j, a)
    ensures FindAccession(line) == Some(acc)
  {
    var r := FindAccession(line);
    assert r.Some?;
    var j :| 0 <= j <= |line| && MatchesAt(line, j, r.value)
             && forall j', a :: 0 <= j' < j ==> !MatchesAt(line, j', a);
    assert j == i;
    MatchUnique(line, i, acc, r.value);
  }

  /**
   * An AlphaFold target name `AF-<accession>-...` yields its accession, as
   * `AF-A0A0E9XQA6-F1-model_v4` yields `A0A0E9XQA6`.
   */
  lemma AlphaFoldAccession(acc: string, rest: string)
    requires |acc| >= 1 && forall k :: 0 <= k < |acc| ==> IsAccessionChar(acc[k])
    ensures FindAccession("AF-" + acc + "-" + rest) == Some(acc)
  {
    var s := "AF-" + acc + "-" + rest;
    assert s[..3] == "AF-" && s[3..3 + |acc|] == acc && s[3 + |acc|] == '-';
    assert MatchesAt(s, 0, acc);
    FindAccessionLeftmost(s, 0, acc);
  }

  // ---------------------------------------------------------------------------
  // Filtering the extracted archive (extract_uncharacterized_entries)

  /** One file of the extracted archive, in `os.walk` order: its base name and its lines. */
  datatype ArchiveFile = ArchiveFile(name: string, lines: seq<string>)

  predicate IsResultTable(f: ArchiveFile) {
    EndsWith(f.name, ".m8")
  }

  /** `"uncharacterized protein" in line.lower()`. */
  predicate MentionsUncharacterized(line: string) {
    Contains(ToLower(line), UncharacterizedProtein)
  }

  /** The lines of the `.m8` files, in archive order. */
  function ScannedLines(files: seq<ArchiveFile>): seq<string> {
    if files == [] then []
    else
      var last := files[|files| - 1];
      ScannedLines(files[..|files| - 1]) + (if IsResultTable(last) then last.lines else [])
  }

  /** The kept lines, stripped, in encounter order. */
  function FilteredHits(lines: seq<string>): seq<string> {
    if lines == [] then []
    else
      var last := lines[|lines| - 1];
      FilteredHits(lines[..|lines| - 1]) + (if MentionsUncharacterized(last) then [Strip(last)] else [])
  }

  /** The accession of each kept line that has one, in encounter order, duplicates kept. */
  function Accessions(lines: seq<string>): seq<string> {
    if lines == [] then []
    else
      var last := lines[|lines| - 1];
      Accessions(lines[..|lines| - 1])
        + (if MentionsUncharacterized(last) then OptionToSeq(FindAccession(last)) else [])
  }

  /** The walk accumulates: the hits and accessions of two runs of lines concatenate. */
  lemma FilteredHitsAppend(a: seq<string>, b: seq<string>)
    ensures FilteredHits(a + b) == FilteredHits(a) + FilteredHits(b)
    ensures Accessions(a + b) == Accessions(a) + Accessions(b)
  {
    KeptAppend(a, b);
    FoundAppend(a, b);
  }

  lemma {:induction false} KeptAppend(a: seq<string>, b: seq<string>)
    ensures FilteredHits(a + b) == FilteredHits(a) + FilteredHits(b)
    decreases |b|
  {
    if b == [] {
      assert a + b == a;
    } else {
      var b' := b[..|b| - 1];
      assert (a + b)[..|a + b| - 1] == a + b';
      KeptAppend(a, b');
    }
  }

  lemma {:induction false} FoundAppend(a: seq<string>, b: seq<string>)
    ensures Accessions(a + b) == Accessions(a) + Accessions(b)
    decreases |b|
  {
    if b == [] {
      assert a + b == a;
    } else {
      var b' := b[..|b| - 1];
      assert (a + b)[..|a + b| - 1] == a + b';
      FoundAppend(a, b');
    }
  }

  /** Every kept line that mentions "uncharacterized protein" is kept, stripped. */
  lemma {:induction false} MentioningLineKept(lines: seq<string>, i: nat)
    requires i < |lines| && MentionsUncharacterized(lines[i])
    ensures Strip(lines[i]) in FilteredHits(lines)
    decreases |lines|
  {
    var init := lines[..|lines| - 1];
    if i < |init| {
      assert init[i] == lines[i];
      MentioningLineKept(init, i);
    }
  }

  /** Every kept line is a stripped line that mentions "uncharacterized protein". */
  lemma {:induction false} KeptLineMentions(lines: seq<string>, x: string)
    requires x in FilteredHits(lines)
    ensures exists i :: 0 <= i < |lines| && MentionsUncharacterized(lines[i]) && Strip(lines[i]) == x
    decreases |lines|
  {
    var init := lines[..|lines| - 1];
    if x in FilteredHits(init) {
      KeptLineMentions(init, x);
      var i :| 0 <= i < |init| && MentionsUncharacterized(init[i]) && Strip(init[i]) == x;
      assert lines[i] == init[i];
    } else {
      assert MentionsUncharacterized(lines[|lines| - 1]) && Strip(lines[|lines| - 1]) == x;
    }
  }

  /** At most one accession per kept line, so never more accessions than kept lines. */
  lemma {:induction false} AccessionsBounded(lines: seq<string>)
    ensures |Accessions(lines)| <= |FilteredHits(lines)|
    decreases |lines|
  {
    if lines != [] {
      AccessionsBounded(lines[..|lines| - 1]);
    }
  }

  /** Every accession is the regex group of a kept line. */
  lemma {:induction false} AccessionsFromKeptLines(lines: seq<string>, a: string)
    requires a in Accessions(lines)
    ensures exists i :: 0 <= i < |lines| && MentionsUncharacterized(lines[i]) && FindAccession(lines[i]) == Some(a)
    decreases |lines|
  {
    var init, last := lines[..|lines| - 1], lines[|lines| - 1];
    if a in Accessions(init) {
      AccessionsFromKeptLines(init, a);
      var i :| 0 <= i < |init| && MentionsUncharacterized(init[i]) && FindAccession(init[i]) == Some(a);
      assert lines[i] == init[i];
    } else {
      assert MentionsUncharacterized(last) && FindAccession(last) == Some(a);
    }
  }

  /** One more line scanned: what it adds to the kept lines and to the accessions. */
  lemma ScanStep(lines: seq<string>, i: nat)
    requires i < |lines|
    ensures FilteredHits(lines[..i + 1])
         == FilteredHits(lines[..i]) + (if MentionsUncharacterized(lines[i]) then [Strip(lines[i])] else [])
    ensures Accessions(lines[..i + 1])
         == Accessions(lines[..i]) + (if MentionsUncharacterized(lines[i]) then OptionToSeq(FindAccession(lines[i])) else [])
  {
    assert lines[..i + 1][..i] == lines[..i];
  }

  /** The body of the line loop: a mentioning line is kept, and its accession too when it has one. */
  method ScanLine(line: string, filtered0: seq<string>, accessions0: seq<string>)
    returns (filtered: seq<string>, accessions: seq<string>)
    ensures filtered == filtered0 + (if MentionsUncharacterized(line) then [Strip(line)] else [])
    ensures accessions == accessions0
                          + (if MentionsUncharacterized(line) then OptionToSeq(FindAccession(line)) else [])
  {
    filtered, accessions := filtered0, accessions0;
    if MentionsUncharacterized(line) {
      filtered := filtered + [Strip(line)];
      var m := FindAccession(line);
      if m.Some? {
        accessions := accessions + [m.value];
      }
    }
  }

  /** The loop over the lines of one `.m8` table, appending to the two lists. */
  method ScanTable(lines: seq<string>, filtered0: seq<string>, accessions0: seq<string>)
    returns (filtered: seq<string>, accessions: seq<string>)
    ensures filtered == filtered0 + FilteredHits(lines)
    ensures accessions == accessions0 + Accessions(lines)
  {
    filtered, accessions := filtered0, accessions0;
    var i := 0;
    while i < |lines|
      invariant i <= |lines|
      invariant filtered == filtered0 + FilteredHits(lines[..i])
      invariant accessions == accessions0 + Accessions(lines[..i])
    {
      ScanStep(lines, i);
      filtered, accessions := ScanLine(lines[i], filtered, accessions);
      i := i + 1;
    }
    assert lines[..i] == lines;
  }

  /** The loops over the archive's files and their lines. */
  method ExtractUncharacterized(files: seq<ArchiveFile>) returns (filtered: seq<string>, accessions: seq<string>)
    ensures filtered == FilteredHits(ScannedLines(files))
    ensures accessions == Accessions(ScannedLines(files))
  {
    filtered, accessions := [], [];
    var f := 0;
    while f < |files|
      invariant f <= |files|
      invariant filtered == FilteredHits(ScannedLines(files[..f]))
      invariant accessions == Accessions(ScannedLines(files[..f]))
    {
      var file := files[f];
      assert files[..f + 1][..f] == files[..f];
      if IsResultTable(file) {
        assert ScannedLines(files[..f + 1]) == ScannedLines(files[..f]) + file.lines;
        FilteredHitsAppend(ScannedLines(files[..f]), file.lines);
        filtered, accessions := ScanTable(file.lines, filtered, accessions);
      } else {
        assert ScannedLines(files[..f + 1]) == ScannedLines(files[..f]);
      }
      f := f + 1;
    }
    assert files[..f] == files;
  }

  /** The seed accession: the first one, when there is any. */
  function Seed(accessions: seq<string>): (r: Option<string>)
    ensures r.Some? <==> accessions != []
    ensures r.Some? ==> r.value == accessions[0]
  {
    if accessions != [] then Some(accessions[0]) else None
  }

  // ---------------------------------------------------------------------------
  // The whole run (foldseek_apiquery)

  /** What the search POST sends: the structure file read, the databases and the mode. */
  datatype Payload = Payload(queryFile: string, databases: seq<string>, mode: string)

  /** A completed run: the submitted job, the archive path, the polling and the extracted results. */
  datatype RunSummary = RunSummary(
    payload: Payload,
    ticket: string,
    archivePath: string,
    polling: PollOutcome,
    hitsText: string,
    seed: Option<string>)

  /**
   * `foldseek_apiquery(input, output)`. `ticket` is the `id` of the
   * submission reply, if it has one; `archive` the files of the downloaded
   * archive, or `None` when it cannot be opened as a gzip-compressed tar.
   */
  method Run(
    input: string, output: string, enteredMode: string, onDisk: set<string>,
    mapping: MappingReply, fetchStatus: int, ticket: Option<string>,
    statuses: seq<string>, archive: Option<seq<ArchiveFile>>)
    returns (r: Result<RunSummary, Fatal>)
    requires MaxPolls <= |statuses|
    ensures var resolved := ResolveInput(input, onDisk, mapping, fetchStatus);
      && (resolved.Err? ==> r == Err(resolved.error))
      && (resolved.Ok? && ticket.None? ==> r == Err(SubmissionFailed))
      && (resolved.Ok? && ticket.Some? && PollSpec(statuses).result == Failed ==> r == Err(RemoteJobFailed))
      && (resolved.Ok? && ticket.Some? && PollSpec(statuses).result != Failed && archive.None?
          ==> r == Err(ArchiveUnreadable))
      && (r.Ok? <==> resolved.Ok? && ticket.Some? && PollSpec(statuses).result != Failed && archive.Some?)
      && (r.Ok? ==>
            && r.value.payload == Payload(resolved.value, Databases, ChooseMode(enteredMode))
            && r.value.ticket == ticket.value
            && r.value.archivePath == NormalizeOutput(output)
            && r.value.polling == PollSpec(statuses)
            && r.value.hitsText == WriteLines(FilteredHits(ScannedLines(archive.value)))
            && r.value.seed == Seed(Accessions(ScannedLines(archive.value))))
  {
    var resolved := ResolveInput(input, onDisk, mapping, fetchStatus);
    if resolved.Err? {
      return Err(resolved.error);
    }
    var archivePath := NormalizeOutput(output);
    var payload := Payload(resolved.value, Databases, ChooseMode(enteredMode));
    if ticket.None? {
      return Err(SubmissionFailed);
    }
    var polling := Poll(statuses);
    if polling.result == Failed {
      return Err(RemoteJobFailed);
    }
    if archive.None? {
      return Err(ArchiveUnreadable);
    }
    var filtered, accessions := ExtractUncharacterized(archive.value);
    r := Ok(RunSummary(payload, ticket.value, archivePath, polling, WriteLines(filtered), Seed(accessions)));
  }

  /** Ten statuses that are never terminal still lead to the download: there is no timeout error. */
  lemma ExhaustedPollingProceeds(statuses: seq<string>)
    requires MaxPolls <= |statuses|
    requires forall j :: 0 <= j < MaxPolls ==> !IsTerminal(statuses[j])
    ensures PollSpec(statuses) == PollOutcome(Exhausted, MaxPolls, MaxPolls)
  {
  }
}
