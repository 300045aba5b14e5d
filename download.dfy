/**
 * download.py: the best AlphaFold hit per query from three Foldseek result
 * tables (confident hits only, highest bitscore first, one row per query,
 * AlphaFold targets only), and the download loop that records which models
 * are on disk.
 */
module Download {
  import opened Wrappers
  import opened Text
  import opened Sorting

  const ResultFolder := "prostt5_uncharacterized_results"

  /** The base names of the three result tables, in loading order. */
  const ResultNames := ["results_afdb50.m8", "results_afdb_proteome.m8", "results_afdb_swissprot.m8"]

  /** The paths of the three result tables. */
  const ResultTables := [ResultFolder + "/" + ResultNames[0], ResultFolder + "/" + ResultNames[1],
                         ResultFolder + "/" + ResultNames[2]]

  const OutputFolder := "top_hit_structures"
  const AlphaFoldFiles := "https://alphafold.ebi.ac.uk/files/"
  const AlphaFoldPrefix := "AF-"

  /** `evalue_cutoff = 1e-2`. */
  const EvalueCutoff: real := 0.01

  // ---------------------------------------------------------------------------
  // Loading

  /** The columns of an `.m8` row the script uses: 0 (query), 1 (target), 10 (evalue), 11 (bitscore). */
  datatype Row = Row(query: string, target: string, evalue: real, bitscore: real)

  /** A result table: its path and its parsed rows. */
  datatype ResultTable = ResultTable(path: string, rows: seq<Row>)

  /** A row of `all_hits`: a table row tagged with the base name of its table. */
  datatype Hit = Hit(query: string, target: string, evalue: real, bitscore: real, sourceDb: string)

  /** `os.path.basename`: the text after the last `/`. */
  function Basename(path: string): (r: string)
    ensures '/' !in r
    ensures |r| <= |path| && r == path[|path| - |r|..]
    ensures |r| < |path| ==> path[|path| - |r| - 1] == '/'
    decreases |path|
  {
    if path == [] || path[|path| - 1] == '/' then []
    else
      var init, last := path[..|path| - 1], path[|path| - 1];
      var r := Basename(init);
      var n := |init| - |r|;
      assert path[n..] == path[n..|init|] + [last];
      assert path[n..|init|] == init[n..];
      assert n > 0 ==> path[n - 1] == init[n - 1];
      r + [last]
  }

  /** The base name of `dir/name` is `name`. */
  lemma {:induction false} BasenameOf(dir: string, name: string)
    requires '/' !in name
    ensures Basename(dir + "/" + name) == name
    decreases |name|
  {
    var p := dir + "/" + name;
    if name == [] {
      assert p[|p| - 1] == '/';
    } else {
      var init := name[..|name| - 1];
      BasenameOf(dir, init);
      assert p[..|p| - 1] == dir + "/" + init;
      assert name == init + [name[|name| - 1]];
    }
  }

  /** Rows of each result table are tagged with the table's file name, e.g. `results_afdb50.m8`. */
  lemma ResultTablesTagged()
    ensures forall t :: 0 <= t < |ResultTables| ==> Basename(ResultTables[t]) == ResultNames[t]
  {
    forall t | 0 <= t < |ResultTables| ensures Basename(ResultTables[t]) == ResultNames[t] {
      assert '/' !in ResultNames[t] by {
        assert t == 0 || t == 1 || t == 2;
      }
      BasenameOf(ResultFolder, ResultNames[t]);
    }
  }

  function HitOf(row: Row, sourceDb: string): Hit {
    Hit(row.query, row.target, row.evalue, row.bitscore, sourceDb)
  }

  function RowOf(h: Hit): Row {
    Row(h.query, h.target, h.evalue, h.bitscore)
  }

  /** `df["source_db"] = os.path.basename(file)`. */
  function Tagged(rows: seq<Row>, sourceDb: string): (r: seq<Hit>)
    ensures |r| == |rows|
    ensures forall i :: 0 <= i < |rows| ==> RowOf(r[i]) == rows[i] && r[i].sourceDb == sourceDb
  {
    seq(|rows|, i requires 0 <= i < |rows| => HitOf(rows[i], sourceDb))
  }

  /** `pd.concat` of the tagged tables, in loading order. */
  function LoadHits(tables: seq<ResultTable>): seq<Hit> {
    if tables == [] then []
    else
      var last := tables[|tables| - 1];
      LoadHits(tables[..|tables| - 1]) + Tagged(last.rows, Basename(last.path))
  }

  /** The loading loop: each table, tagged, is concatenated onto the hits so far. */
  method LoadAll(tables: seq<ResultTable>) returns (all: seq<Hit>)
    ensures all == LoadHits(tables)
  {
    all := [];
    var i := 0;
    while i < |tables|
      invariant i <= |tables|
      invariant all == LoadHits(tables[..i])
    {
      all := LoadTable(all, tables, i);
      i := i + 1;
    }
    assert tables[..i] == tables;
  }

  /** One pass of the loading loop: table `i`, tagged, concatenated onto the hits of the tables before it. */
  method LoadTable(all0: seq<Hit>, tables: seq<ResultTable>, i: nat) returns (all: seq<Hit>)
    requires i < |tables| && all0 == LoadHits(tables[..i])
    ensures all == all0 + Tagged(tables[i].rows, Basename(tables[i].path))
    ensures all == LoadHits(tables[..i + 1])
  {
    var df := Tagged(tables[i].rows, Basename(tables[i].path));
    all := all0 + df;
    LoadHitsStep(tables, i);
  }

  /** Loading one more table appends its tagged rows. */
  lemma LoadHitsStep(tables: seq<ResultTable>, i: nat)
    requires i < |tables|
    ensures LoadHits(tables[..i + 1]) == LoadHits(tables[..i]) + Tagged(tables[i].rows, Basename(tables[i].path))
  {
    assert tables[..i + 1][..i] == tables[..i];
    assert tables[..i + 1][i] == tables[i];
  }

  /** A hit of the table loaded last comes from that table. */
  lemma LastTableHit(tables: seq<ResultTable>, k: nat)
    requires tables != [] && |LoadHits(tables[..|tables| - 1])| <= k < |LoadHits(tables)|
    ensures RowOf(LoadHits(tables)[k]) in tables[|tables| - 1].rows
    ensures LoadHits(tables)[k].sourceDb == Basename(tables[|tables| - 1].path)
  {
    var last := tables[|tables| - 1];
    var before := LoadHits(tables[..|tables| - 1]);
    var tagged := Tagged(last.rows, Basename(last.path));
    var j := k - |before|;
    assert LoadHits(tables)[k] == tagged[j];
    assert RowOf(tagged[j]) == last.rows[j];
  }

  /** `h` is a row of `table`, tagged with the table's base name. */
  predicate FromTable(h: Hit, table: ResultTable) {
    RowOf(h) in table.rows && h.sourceDb == Basename(table.path)
  }

  /** Every loaded hit is a row of some table, tagged with that table's base name. */
  lemma {:induction false} LoadedHitSource(tables: seq<ResultTable>, k: nat)
    requires k < |LoadHits(tables)|
    ensures exists t :: 0 <= t < |tables| && FromTable(LoadHits(tables)[k], tables[t])
    decreases |tables|
  {
    var init := tables[..|tables| - 1];
    var before := LoadHits(init);
    var h := LoadHits(tables)[k];
    if k < |before| {
      assert h == before[k];
      LoadedHitSource(init, k);
      var t :| 0 <= t < |init| && FromTable(before[k], init[t]);
      assert tables[t] == init[t];
      assert FromTable(h, tables[t]);
    } else {
      LastTableHit(tables, k);
      assert FromTable(h, tables[|tables| - 1]);
    }
  }

  // ---------------------------------------------------------------------------
  // The filter chain

  /** `all_hits[all_hits["evalue"] < evalue_cutoff]`, in order. */
  function ConfidentHits(hits: seq<Hit>): seq<Hit> {
    if hits == [] then []
    else
      var last := hits[|hits| - 1];
      ConfidentHits(hits[..|hits| - 1]) + (if last.evalue < EvalueCutoff then [last] else [])
  }

  /** A hit is kept by the e-value filter exactly when it is a loaded hit with evalue below the cutoff. */
  lemma {:induction false} ConfidentHitsMembers(hits: seq<Hit>, h: Hit)
    ensures h in ConfidentHits(hits) <==> h in hits && h.evalue < EvalueCutoff
    decreases |hits|
  {
    if hits != [] {
      var init := hits[..|hits| - 1];
      ConfidentHitsMembers(init, h);
      assert hits == init + [hits[|hits| - 1]];
    }
  }

  function Bitscore(h: Hit): real {
    h.bitscore
  }

  /** Whether some row of `s` is for query `q`. */
  predicate HasQuery(s: seq<Hit>, q: string) {
    s != [] && (s[|s| - 1].query == q || HasQuery(s[..|s| - 1], q))
  }

  lemma {:induction false} HasQueryAt(s: seq<Hit>, q: string)
    ensures HasQuery(s, q) <==> exists i :: 0 <= i < |s| && s[i].query == q
    decreases |s|
  {
    if s != [] {
      var init := s[..|s| - 1];
      HasQueryAt(init, q);
      if HasQuery(init, q) {
        var i :| 0 <= i < |init| && init[i].query == q;
        assert s[i] == init[i];
      }
      if exists i :: 0 <= i < |s| && s[i].query == q {
        var i :| 0 <= i < |s| && s[i].query == q;
        if i < |init| {
          assert init[i] == s[i];
        }
      }
    }
  }

  /** `drop_duplicates(subset="query", keep="first")`. */
  function KeepFirstPerQuery(s: seq<Hit>): seq<Hit> {
    if s == [] then []
    else
      var init, last := s[..|s| - 1], s[|s| - 1];
      KeepFirstPerQuery(init) + (if HasQuery(init, last.query) then [] else [last])
  }

  /** Row `i` is the first row of `s` for its query. */
  ghost predicate FirstOfQuery(s: seq<Hit>, i: nat)
    requires i < |s|
  {
    forall j :: 0 <= j < i ==> s[j].query != s[i].query
  }

  /** Every kept row is the first row of `s` for its query. */
  lemma {:induction false} KeptRowIsFirst(s: seq<Hit>, k: nat)
    requires k < |KeepFirstPerQuery(s)|
    ensures exists i :: 0 <= i < |s| && s[i] == KeepFirstPerQuery(s)[k] && FirstOfQuery(s, i)
    decreases |s|
  {
    var init, last := s[..|s| - 1], s[|s| - 1];
    var before := KeepFirstPerQuery(init);
    if k < |before| {
      KeptRowIsFirst(init, k);
      var i :| 0 <= i < |init| && init[i] == before[k] && FirstOfQuery(init, i);
      assert s[i] == init[i];
      assert forall j :: 0 <= j < i ==> s[j] == init[j];
    } else {
      HasQueryAt(init, last.query);
      assert FirstOfQuery(s, |s| - 1) by {
        forall j | 0 <= j < |s| - 1 ensures s[j].query != last.query {
          assert s[j] == init[j];
        }
      }
    }
  }

  /** A query has a kept row exactly when it has a row. */
  lemma {:induction false} EveryQueryKept(s: seq<Hit>, q: string)
    ensures HasQuery(KeepFirstPerQuery(s), q) <==> HasQuery(s, q)
    decreases |s|
  {
    if s != [] {
      var init, last := s[..|s| - 1], s[|s| - 1];
      var before := KeepFirstPerQuery(init);
      EveryQueryKept(init, q);
      EveryQueryKept(init, last.query);
      if HasQuery(init, last.query) {
        assert KeepFirstPerQuery(s) == before;
        if q == last.query {
          assert HasQuery(s, q);
        }
      } else {
        var r := before + [last];
        assert r[..|r| - 1] == before;
      }
    }
  }

  /** After deduplication there is at most one row per query. */
  lemma {:induction false} DistinctQueries(s: seq<Hit>, k: nat, m: nat)
    requires k < m < |KeepFirstPerQuery(s)|
    ensures KeepFirstPerQuery(s)[k].query != KeepFirstPerQuery(s)[m].query
    decreases |s|
  {
    var init, last := s[..|s| - 1], s[|s| - 1];
    var before := KeepFirstPerQuery(init);
    if m < |before| {
      DistinctQueries(init, k, m);
    } else {
      EveryQueryKept(init, last.query);
      HasQueryAt(before, last.query);
    }
  }

  /** `str.startswith("AF-")` on the target. */
  predicate IsAlphaFold(h: Hit) {
    StartsWith(h.target, AlphaFoldPrefix)
  }

  /** `top_hits[top_hits["target"].str.startswith("AF-")]`, in order. */
  function AlphaFoldOnly(s: seq<Hit>): seq<Hit> {
    if s == [] then []
    else
      var last := s[|s| - 1];
      AlphaFoldOnly(s[..|s| - 1]) + (if IsAlphaFold(last) then [last] else [])
  }

  lemma {:induction false} AlphaFoldOnlyMembers(s: seq<Hit>, h: Hit)
    ensures h in AlphaFoldOnly(s) <==> h in s && IsAlphaFold(h)
    decreases |s|
  {
    if s != [] {
      var init := s[..|s| - 1];
      AlphaFoldOnlyMembers(init, h);
      assert s == init + [s[|s| - 1]];
    }
  }

  /** The rows that are downloaded, for a given bitscore ordering of the confident hits. */
  function Chosen(sorted: seq<Hit>): seq<Hit> {
    AlphaFoldOnly(KeepFirstPerQuery(sorted))
  }

  /** A descending bitscore ordering of the confident hits, as `sort_values` may produce. */
  ghost predicate IsBitscoreOrdering(sorted: seq<Hit>, hits: seq<Hit>) {
    SortedDesc(sorted, Bitscore) && multiset(sorted) == multiset(ConfidentHits(hits))
  }

  /**
   * For every bitscore ordering: each chosen row is a confident AlphaFold
   * hit, and no confident hit of its query has a higher bitscore.
   */
  lemma ChosenIsBest(hits: seq<Hit>, sorted: seq<Hit>, h: Hit)
    requires IsBitscoreOrdering(sorted, hits)
    requires h in Chosen(sorted)
    ensures IsAlphaFold(h) && h.evalue < EvalueCutoff && h in hits
    ensures forall x :: x in ConfidentHits(hits) && x.query == h.query ==> x.bitscore <= h.bitscore
  {
    var r := KeepFirstPerQuery(sorted);
    AlphaFoldOnlyMembers(r, h);
    var k :| 0 <= k < |r| && r[k] == h;
    KeptRowIsFirst(sorted, k);
    var i :| 0 <= i < |sorted| && sorted[i] == h && FirstOfQuery(sorted, i);
    assert h in multiset(ConfidentHits(hits));
    ConfidentHitsMembers(hits, h);
    forall x | x in ConfidentHits(hits) && x.query == h.query ensures x.bitscore <= h.bitscore {
      assert x in multiset(sorted);
      var j :| 0 <= j < |sorted| && sorted[j] == x;
      assert i <= j;
      if i < j {
        assert Bitscore(sorted[i]) >= Bitscore(sorted[j]);
      }
    }
  }

  /** At most one chosen row per query, for every bitscore ordering. */
  lemma ChosenDistinct(sorted: seq<Hit>, k: nat, m: nat)
    requires k < m < |Chosen(sorted)|
    ensures Chosen(sorted)[k].query != Chosen(sorted)[m].query
  {
    AlphaFoldSubsequence(KeepFirstPerQuery(sorted), k, m);
    var k', m' :| 0 <= k' < m' < |KeepFirstPerQuery(sorted)|
      && Chosen(sorted)[k] == KeepFirstPerQuery(sorted)[k'] && Chosen(sorted)[m] == KeepFirstPerQuery(sorted)[m'];
    DistinctQueries(sorted, k', m');
  }
  /** The first row of a query is chosen when it is an AlphaFold target. */
  lemma ChosenComplete(sorted: seq<Hit>, i: nat)
    requires i < |sorted| && FirstOfQuery(sorted, i) && IsAlphaFold(sorted[i])
    ensures sorted[i] in Chosen(sorted)
  {
    var q := sorted[i].query;
    var r := KeepFirstPerQuery(sorted);
    HasQueryAt(sorted, q);
    EveryQueryKept(sorted, q);
    HasQueryAt(r, q);
    var k :| 0 <= k < |r| && r[k].query == q;
    KeptRowIsFirst(sorted, k);
    var i' :| 0 <= i' < |sorted| && sorted[i'] == r[k] && FirstOfQuery(sorted, i');
    if i' < i {
      assert false;
    } else if i < i' {
      assert false;
    }
    AlphaFoldOnlyMembers(r, sorted[i]);
  }

  /** Every other hit of `s` for the query of `x` has a lower bitscore. */
  predicate StrictlyBest(x: Hit, s: seq<Hit>) {
    forall y :: y in s && y.query == x.query && y != x ==> y.bitscore < x.bitscore
  }

  /**
   * For every bitscore ordering: a confident AlphaFold hit whose bitscore
   * beats every other confident hit of its query is chosen.
   */
  lemma StrictBestChosen(hits: seq<Hit>, sorted: seq<Hit>, x: Hit)
    requires IsBitscoreOrdering(sorted, hits)
    requires x in ConfidentHits(hits) && IsAlphaFold(x)
    requires StrictlyBest(x, ConfidentHits(hits))
    ensures x in Chosen(sorted)
  {
    assert x in multiset(sorted);
    var i := IndexOf(sorted, x);
    forall j | 0 <= j < i ensures sorted[j].query != x.query {
      assert sorted[j] in multiset(ConfidentHits(hits));
      assert sorted[j] == sorted[..i][j];
      assert Bitscore(sorted[j]) >= Bitscore(sorted[i]);
    }
    ChosenComplete(sorted, i);
  }

  /**
   * The chain with this model's sort: one row per query, each a confident
   * AlphaFold hit loaded from the tables with the best bitscore of its query;
   * an AlphaFold hit that strictly beats the other confident hits of its
   * query always has its row.
   */
  function BestHits(tables: seq<ResultTable>): (r: seq<Hit>)
    ensures forall k, m :: 0 <= k < m < |r| ==> r[k].query != r[m].query
    ensures forall h :: h in r ==> IsAlphaFold(h) && h.evalue < EvalueCutoff && h in LoadHits(tables)
    ensures forall h, x :: h in r && x in ConfidentHits(LoadHits(tables)) && x.query == h.query ==> x.bitscore <= h.bitscore
    ensures forall x :: (x in ConfidentHits(LoadHits(tables)) && IsAlphaFold(x)
                         && StrictlyBest(x, ConfidentHits(LoadHits(tables)))) ==> x in r
  {
    var hits := LoadHits(tables);
    var sorted := SortDesc(ConfidentHits(hits), Bitscore);
    assert IsBitscoreOrdering(sorted, hits);
    forall k, m | 0 <= k < m < |Chosen(sorted)| ensures Chosen(sorted)[k].query != Chosen(sorted)[m].query {
      ChosenDistinct(sorted, k, m);
    }
    forall h | h in Chosen(sorted)
      ensures IsAlphaFold(h) && h.evalue < EvalueCutoff && h in hits
      ensures forall x :: x in ConfidentHits(hits) && x.query == h.query ==> x.bitscore <= h.bitscore
    {
      ChosenIsBest(hits, sorted, h);
    }
    forall x | x in ConfidentHits(hits) && IsAlphaFold(x) && StrictlyBest(x, ConfidentHits(hits))
      ensures x in Chosen(sorted)
    {
      StrictBestChosen(hits, sorted, x);
    }
    Chosen(sorted)
  }


  /** The AlphaFold filter keeps rows in order: positions of its result come from increasing positions. */
  lemma {:induction false} AlphaFoldSubsequence(s: seq<Hit>, k: nat, m: nat)
    requires k < m < |AlphaFoldOnly(s)|
    ensures exists k', m' :: 0 <= k' < m' < |s| && AlphaFoldOnly(s)[k] == s[k'] && AlphaFoldOnly(s)[m] == s[m']
    decreases |s|
  {
    var init := s[..|s| - 1];
    var before := AlphaFoldOnly(init);
    if m < |before| {
      AlphaFoldSubsequence(init, k, m);
      var k', m' :| 0 <= k' < m' < |init| && before[k] == init[k'] && before[m] == init[m'];
      assert s[k'] == init[k'] && s[m'] == init[m'];
    } else {
      AlphaFoldOnlyMembers(init, before[k]);
      var k' :| 0 <= k' < |init| && init[k'] == before[k];
      assert s[k'] == init[k'];
      assert AlphaFoldOnly(s)[m] == s[|s| - 1];
    }
  }

  /**
   * The AlphaFold filter runs after deduplication: a query whose best row
   * (its first in the ordering) is not an AlphaFold target is dropped, even
   * when it has other AlphaFold hits.
   */
  lemma NonAlphaFoldBestDropped(sorted: seq<Hit>, i: nat)
    requires i < |sorted| && FirstOfQuery(sorted, i) && !IsAlphaFold(sorted[i])
    ensures !HasQuery(Chosen(sorted), sorted[i].query)
  {
    var r := KeepFirstPerQuery(sorted);
    HasQueryAt(Chosen(sorted), sorted[i].query);
    if HasQuery(Chosen(sorted), sorted[i].query) {
      var c :| 0 <= c < |Chosen(sorted)| && Chosen(sorted)[c].query == sorted[i].query;
      var h := Chosen(sorted)[c];
      AlphaFoldOnlyMembers(r, h);
      var k :| 0 <= k < |r| && r[k] == h;
      KeptRowIsFirst(sorted, k);
    }
  }

  // ---------------------------------------------------------------------------
  // Downloading (download_alphafold_model)

  /** What `requests.get` did: a reply with a status code, or an exception. */
  datatype Response = Status(code: int) | Raised

  /** A line of the download summary. */
  datatype DownloadRecord = DownloadRecord(query: string, model: string, evalue: real, bitscore: real, sourceDb: string)

  function RecordOf(h: Hit): DownloadRecord {
    DownloadRecord(h.query, h.target, h.evalue, h.bitscore, h.sourceDb)
  }

  function OutputPath(model: string): string {
    OutputFolder + "/" + model + ".pdb"
  }

  function ModelUrl(model: string): string {
    AlphaFoldFiles + model + ".pdb"
  }

  /** The records and the files on disk. */
  datatype DownloadState = DownloadState(records: seq<DownloadRecord>, files: set<string>)

  /** One call of `download_alphafold_model`. */
  function DownloadStep(st: DownloadState, h: Hit, response: Response): (r: DownloadState)
    ensures st.files <= r.files
  {
    var path := OutputPath(h.target);
    if path in st.files then DownloadState(st.records + [RecordOf(h)], st.files)
    else if response == Status(200) then DownloadState(st.records + [RecordOf(h)], st.files + {path})
    else st
  }

  /** The download loop over the chosen rows; `responses[i]` is the reply for row `i`'s request, if it is made. */
  function DownloadsFrom(st: DownloadState, hits: seq<Hit>, responses: seq<Response>): DownloadState
    requires |responses| == |hits|
  {
    if hits == [] then st
    else DownloadStep(DownloadsFrom(st, hits[..|hits| - 1], responses[..|hits| - 1]), hits[|hits| - 1], responses[|hits| - 1])
  }

  /**
   * Row `i` succeeded: its file was on disk when its turn came, or its
   * request was answered with status 200.
   */
  predicate RowSucceeded(st: DownloadState, hits: seq<Hit>, responses: seq<Response>, i: nat)
    requires |responses| == |hits| && i < |hits|
  {
    responses[i] == Status(200) || OutputPath(hits[i].target) in DownloadsFrom(st, hits[..i], responses[..i]).files
  }

  /** Whether row `i` succeeded does not depend on the rows after it. */
  lemma RowSucceededPrefix(st: DownloadState, hits: seq<Hit>, responses: seq<Response>, n: nat, i: nat)
    requires |responses| == |hits| && i < n <= |hits|
    requires RowSucceeded(st, hits[..n], responses[..n], i)
    ensures RowSucceeded(st, hits, responses, i)
  {
    assert hits[..n][..i] == hits[..i] && responses[..n][..i] == responses[..i];
    assert hits[..n][i] == hits[i] && responses[..n][i] == responses[i];
  }

  /** `rec` is the record of a row of `hits` that succeeded. */
  predicate RecordOfSucceeded(rec: DownloadRecord, st: DownloadState, hits: seq<Hit>, responses: seq<Response>)
    requires |responses| == |hits|
  {
    exists i :: 0 <= i < |hits| && RowSucceeded(st, hits, responses, i) && rec == RecordOf(hits[i])
  }

  /**
   * The records after the loop extend the earlier ones, and each new record
   * is the record of a row that succeeded: a row whose file was absent and
   * whose request failed adds nothing.
   */
  lemma {:induction false} DownloadsRecordRows(st: DownloadState, hits: seq<Hit>, responses: seq<Response>)
    requires |responses| == |hits|
    ensures var r := DownloadsFrom(st, hits, responses);
      && st.records <= r.records
      && |r.records| <= |st.records| + |hits|
      && st.files <= r.files
      && forall k :: |st.records| <= k < |r.records| ==> RecordOfSucceeded(r.records[k], st, hits, responses)
    decreases |hits|
  {
    if hits != [] {
      var n := |hits| - 1;
      var mid := DownloadsFrom(st, hits[..n], responses[..n]);
      DownloadsRecordRows(st, hits[..n], responses[..n]);
      var r := DownloadsFrom(st, hits, responses);
      assert r == DownloadStep(mid, hits[n], responses[n]);
      assert mid.records <= r.records;
      forall k | |st.records| <= k < |r.records| ensures RecordOfSucceeded(r.records[k], st, hits, responses) {
        if k < |mid.records| {
          assert RecordOfSucceeded(mid.records[k], st, hits[..n], responses[..n]);
          var i :| 0 <= i < n && RowSucceeded(st, hits[..n], responses[..n], i) && mid.records[k] == RecordOf(hits[..n][i]);
          assert hits[..n][i] == hits[i];
          RowSucceededPrefix(st, hits, responses, n, i);
          assert r.records[k] == mid.records[k];
        } else {
          assert r.records[k] == RecordOf(hits[n]);
          assert RowSucceeded(st, hits, responses, n);
        }
      }
    }
  }

  /** The converse: a row that succeeded is recorded. */
  lemma {:induction false} RowRecorded(st: DownloadState, hits: seq<Hit>, responses: seq<Response>, i: nat)
    requires |responses| == |hits| && i < |hits|
    requires RowSucceeded(st, hits, responses, i)
    ensures RecordOf(hits[i]) in DownloadsFrom(st, hits, responses).records
    decreases |hits|
  {
    var n := |hits| - 1;
    var mid := DownloadsFrom(st, hits[..n], responses[..n]);
    var r := DownloadsFrom(st, hits, responses);
    assert r == DownloadStep(mid, hits[n], responses[n]);
    if i < n {
      assert hits[..n][..i] == hits[..i] && responses[..n][..i] == responses[..i];
      assert hits[..n][i] == hits[i] && responses[..n][i] == responses[i];
      RowRecorded(st, hits[..n], responses[..n], i);
      assert mid.records <= r.records;
    } else {
      assert r.records == mid.records + [RecordOf(hits[n])];
    }
  }

  /** In particular, a row whose file was on disk from the start, or that was fetched, is recorded. */
  lemma FetchedOrPresentRecorded(st: DownloadState, hits: seq<Hit>, responses: seq<Response>, i: nat)
    requires |responses| == |hits| && i < |hits|
    requires responses[i] == Status(200) || OutputPath(hits[i].target) in st.files
    ensures RecordOf(hits[i]) in DownloadsFrom(st, hits, responses).records
  {
    DownloadsRecordRows(st, hits[..i], responses[..i]);
    RowRecorded(st, hits, responses, i);
  }

  /** When every request is answered with status 200, every row is recorded, in order. */
  lemma {:induction false} AllFetched(st: DownloadState, hits: seq<Hit>, responses: seq<Response>)
    requires |responses| == |hits|
    requires forall i :: 0 <= i < |responses| ==> responses[i] == Status(200)
    ensures DownloadsFrom(st, hits, responses).records
         == st.records + seq(|hits|, i requires 0 <= i < |hits| => RecordOf(hits[i]))
    decreases |hits|
  {
    if hits != [] {
      var n := |hits| - 1;
      AllFetched(st, hits[..n], responses[..n]);
    }
  }

  /** With nothing on disk and every request failing, nothing is recorded and nothing written. */
  lemma {:induction false} NothingFetched(st: DownloadState, hits: seq<Hit>, responses: seq<Response>)
    requires |responses| == |hits|
    requires forall i :: 0 <= i < |hits| ==> OutputPath(hits[i].target) !in st.files && responses[i] != Status(200)
    ensures DownloadsFrom(st, hits, responses) == st
    decreases |hits|
  {
    if hits != [] {
      var n := |hits| - 1;
      NothingFetched(st, hits[..n], responses[..n]);
    }
  }

  /** `downloaded_records` and the output folder, as `download_alphafold_model` updates them. */
  class Downloader {
    var records: seq<DownloadRecord>
    var files: set<string>

    /** The folder holds `existing` and nothing is recorded yet. */
    constructor (existing: set<string>)
      ensures records == [] && files == existing
    {
      records := [];
      files := existing;
    }

    function State(): DownloadState
      reads this
    {
      DownloadState(records, files)
    }

    /**
     * `download_alphafold_model` for one row. `url` is the URL requested, or
     * `None` when the file was already there and no request was made.
     */
    method DownloadModel(h: Hit, response: Response) returns (url: Option<string>)
      modifies this
      ensures State() == DownloadStep(old(State()), h, response)
      ensures url == if OutputPath(h.target) in old(files) then None else Some(ModelUrl(h.target))
    {
      var path := OutputPath(h.target);
      if path in files {
        records := records + [RecordOf(h)];
        return None;
      }
      url := Some(ModelUrl(h.target));
      if response == Status(200) {
        files := files + {path};
        records := records + [RecordOf(h)];
      }
    }

    /** The loop over the chosen rows. */
    method DownloadAll(hits: seq<Hit>, responses: seq<Response>)
      requires |responses| == |hits|
      modifies this
      ensures State() == DownloadsFrom(old(State()), hits, responses)
    {
      var i := 0;
      while i < |hits|
        invariant i <= |hits|
        invariant State() == DownloadsFrom(old(State()), hits[..i], responses[..i])
      {
        assert hits[..i + 1][..i] == hits[..i] && responses[..i + 1][..i] == responses[..i];
        var _ := DownloadModel(hits[i], responses[i]);
        i := i + 1;
      }
      assert hits[..i] == hits && responses[..i] == responses;
    }
  }
}
