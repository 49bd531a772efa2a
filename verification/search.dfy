/** Keyword search over the index: rows whose normalised label or bathroom
    type contains the normalised keyword, deduplicated as triples, resolved to
    catalog paths, with paths that no longer exist dropped. */
module Search {
  import opened Text
  import opened Paths
  import opened Seqs
  import opened Index
  import opened Storage

  /** The match test of the search loop, for an already normalised keyword. */
  predicate RowMatches(needle: string, row: Row) {
    IsSubstring(needle, Normalize(row.className)) || IsSubstring(needle, Normalize(row.hierarchy))
  }

  /** The catalog path a row stands for. */
  function RowPath(row: Row): string {
    CatalogPath(row.hierarchy, row.className, row.imgId)
  }

  /** A row whose path has one directory level per field. */
  predicate PlainRow(row: Row) {
    IsComponent(row.hierarchy) && IsComponent(row.className) && IsBareId(row.imgId)
  }

  /** The distinct matching triples (`matching_ids`). */
  function MatchingRows(rows: Table, keyword: string): set<Row> {
    set row | row in rows && RowMatches(Normalize(keyword), row)
  }

  /** The triples of `rows` whose copy exists. */
  function Existing<Img>(triples: set<Row>, disk: Disk<Img>): set<Row> {
    set row | row in triples && RowPath(row) in disk
  }

  /** The distinct matching triples whose copy exists: one result each. */
  function LiveRows<Img>(rows: Table, disk: Disk<Img>, keyword: string): set<Row> {
    Existing(MatchingRows(rows, keyword), disk)
  }

  /** The set of paths a search returns: an existing file for each matching row. */
  function SearchHits<Img>(rows: Table, disk: Disk<Img>, keyword: string): (hits: set<string>)
    ensures forall p :: p in hits <==>
              p in disk && exists row :: row in rows && RowMatches(Normalize(keyword), row) && RowPath(row) == p
  {
    set row | row in MatchingRows(rows, keyword) && RowPath(row) in disk :: RowPath(row)
  }

  /** The loop state of the search after visiting `matching - remaining`:
      `paths` holds the path of each visited triple whose copy exists, the
      triple itself recorded in `sources` at the same position. */
  ghost predicate Collected<Img>(matching: set<Row>, remaining: set<Row>, disk: Disk<Img>, plain: bool,
                                 paths: seq<string>, sources: seq<Row>) {
    && remaining <= matching
    && |sources| == |paths|
    && (forall k :: 0 <= k < |paths| ==> paths[k] == RowPath(sources[k]))
    && NoDuplicates(sources)
    && Elements(sources) == Existing(matching - remaining, disk)
    && (plain ==> (forall row :: row in matching ==> PlainRow(row)) && NoDuplicates(paths))
  }

  /** `search_images`: the paths come out in the unspecified iteration order
      of the set of matching triples, one per matching triple whose copy
      exists, and each at most once when the rows are plain. */
  method SearchImages<Img>(rows: Table, disk: Disk<Img>, keyword: string) returns (paths: seq<string>)
    ensures forall p :: p in paths <==> p in SearchHits(rows, disk, keyword)
    ensures |paths| == |LiveRows(rows, disk, keyword)| <= |MatchingRows(rows, keyword)|
    ensures (forall row :: row in rows ==> PlainRow(row)) ==> NoDuplicates(paths)
  {
    var matching := MatchingRows(rows, keyword);
    ghost var plain := forall row :: row in rows ==> PlainRow(row);
    paths := [];
    var remaining := matching;
    ghost var sources: seq<Row> := [];
    while remaining != {}
      invariant Collected(matching, remaining, disk, plain, paths, sources)
      decreases remaining
    {
      var row :| row in remaining;
      paths, sources := Visit(matching, remaining, disk, plain, paths, sources, row);
      remaining := remaining - {row};
    }
    assert matching - remaining == matching;
    HitsOfMatching(rows, disk, keyword, paths, sources);
    DistinctCard(sources);
    SubsetCard(LiveRows(rows, disk, keyword), matching);
  }

  /** One turn of the search loop: the path of the visited triple is added
      when its copy exists. */
  method Visit<Img>(matching: set<Row>, remaining: set<Row>, disk: Disk<Img>, ghost plain: bool,
                    paths: seq<string>, ghost sources: seq<Row>, row: Row)
    returns (paths': seq<string>, ghost sources': seq<Row>)
    requires Collected(matching, remaining, disk, plain, paths, sources)
    requires row in remaining
    ensures Collected(matching, remaining - {row}, disk, plain, paths', sources')
    ensures RowPath(row) in disk ==> paths' == paths + [RowPath(row)]
    ensures RowPath(row) !in disk ==> paths' == paths
  {
    VisitStep(matching, remaining, row, disk, sources);
    paths', sources' := paths, sources;
    if RowPath(row) in disk {
      if plain {
        FreshPath(matching, row, paths, sources);
      }
      paths', sources' := paths + [RowPath(row)], sources + [row];
    }
  }

  /** Visiting one more triple: it was not collected before, and the
      collected set grows by it exactly when its copy exists. */
  lemma VisitStep<Img>(matching: set<Row>, remaining: set<Row>, row: Row, disk: Disk<Img>, sources: seq<Row>)
    requires row in remaining && remaining <= matching
    requires Elements(sources) == Existing(matching - remaining, disk)
    ensures row !in sources
    ensures Elements(sources) <= matching
    ensures RowPath(row) in disk ==>
              Elements(sources + [row]) == Existing(matching - (remaining - {row}), disk)
    ensures RowPath(row) !in disk ==>
              Elements(sources) == Existing(matching - (remaining - {row}), disk)
  {
    assert row !in Elements(sources);
    assert Elements(sources + [row]) == Elements(sources) + {row};
  }

  /** The path of a row not yet visited is not among the paths collected so
      far, when all rows are plain. */
  lemma FreshPath(triples: set<Row>, row: Row, paths: seq<string>, sources: seq<Row>)
    requires forall r :: r in triples ==> PlainRow(r)
    requires row in triples && row !in sources
    requires Elements(sources) <= triples
    requires |sources| == |paths|
    requires forall k :: 0 <= k < |paths| ==> paths[k] == RowPath(sources[k])
    requires NoDuplicates(paths)
    ensures RowPath(row) !in paths
    ensures NoDuplicates(paths + [RowPath(row)])
  {
    forall k | 0 <= k < |paths| ensures paths[k] != RowPath(row) {
      var other := sources[k];
      assert other in Elements(sources) && PlainRow(other) && PlainRow(row);
      if RowPath(other) == RowPath(row) {
        CatalogPathInjective(other.hierarchy, other.className, other.imgId,
                             row.hierarchy, row.className, row.imgId);
      }
    }
  }

  /** Paths collected from exactly the matching triples whose copy exists
      are exactly the search hits. */
  lemma HitsOfMatching<Img>(rows: Table, disk: Disk<Img>, keyword: string, paths: seq<string>, sources: seq<Row>)
    requires |sources| == |paths|
    requires forall k :: 0 <= k < |paths| ==> paths[k] == RowPath(sources[k])
    requires Elements(sources) == LiveRows(rows, disk, keyword)
    ensures forall p :: p in paths <==> p in SearchHits(rows, disk, keyword)
  {
    forall p | p in paths ensures p in SearchHits(rows, disk, keyword) {
      var k :| 0 <= k < |paths| && paths[k] == p;
      assert sources[k] in Elements(sources);
    }
    forall p | p in SearchHits(rows, disk, keyword) ensures p in paths {
      var row :| row in MatchingRows(rows, keyword) && RowPath(row) in disk && RowPath(row) == p;
      assert row in Elements(sources);
      var k :| 0 <= k < |sources| && sources[k] == row;
      assert paths[k] == p;
    }
  }

  /** Search ignores the case of ASCII letters in the keyword. */
  lemma SearchIgnoresCase<Img>(rows: Table, disk: Disk<Img>, keyword: string)
    ensures SearchHits(rows, disk, UpperAscii(keyword)) == SearchHits(rows, disk, keyword)
  {
    NormalizeIgnoresCase(keyword);
  }

  /** The empty keyword matches every row: every existing copy is found. */
  lemma EmptyKeywordFindsAll<Img>(rows: Table, disk: Disk<Img>)
    ensures forall row :: row in rows && RowPath(row) in disk ==> RowPath(row) in SearchHits(rows, disk, "")
  {
    forall row | row in rows && RowPath(row) in disk
      ensures RowPath(row) in SearchHits(rows, disk, "")
    {
      SubstringBasics([], Normalize(row.className));
      assert RowMatches(Normalize(""), row);
    }
  }

  /** A keyword with no ASCII character normalises to the empty string, so it
      behaves like the empty keyword and finds every existing copy. */
  lemma NonAsciiKeywordFindsAll<Img>(rows: Table, disk: Disk<Img>, keyword: string)
    requires forall i :: 0 <= i < |keyword| ==> !IsAscii(keyword[i])
    ensures SearchHits(rows, disk, keyword) == SearchHits(rows, disk, "")
  {
  }

  /** A row is found by its own label and by its own bathroom type, in any
      letter case, as long as its copy exists. */
  lemma RowFoundByOwnLabels<Img>(rows: Table, disk: Disk<Img>, row: Row)
    requires row in rows && RowPath(row) in disk
    ensures RowPath(row) in SearchHits(rows, disk, row.className)
    ensures RowPath(row) in SearchHits(rows, disk, row.hierarchy)
    ensures RowPath(row) in SearchHits(rows, disk, UpperAscii(row.className))
  {
    SubstringBasics(Normalize(row.className), Normalize(row.className));
    SubstringBasics(Normalize(row.hierarchy), Normalize(row.hierarchy));
    assert RowMatches(Normalize(row.className), row);
    assert RowMatches(Normalize(row.hierarchy), row);
    SearchIgnoresCase(rows, disk, row.className);
  }
}
