/** The intended commit: `save_image_to_structure` followed by `save_to_db`
    for one confirmed submission, and what it promises to search. */
module Catalog {
  import opened Text
  import opened Paths
  import opened Index
  import opened Storage
  import opened Search

  /** The durable state: the index table and the disk. */
  datatype Catalog<Img> = Catalog(rows: Table, disk: Disk<Img>)

  /** Commit a confirmed submission: replace its copies, then its rows. */
  function Commit<Img>(cat: Catalog<Img>, id: string, hierarchy: string, labels: seq<string>, image: Img): (c: Catalog<Img>)
    ensures RowsFor(c.rows, id) == Records(id, labels, hierarchy)
    ensures forall other :: other != id ==> RowsFor(c.rows, other) == RowsFor(cat.rows, other)
    ensures forall l :: l in labels ==>
              CatalogPath(hierarchy, l, id) in c.disk && c.disk[CatalogPath(hierarchy, l, id)] == image
  {
    Catalog(SaveToDb(cat.rows, id, labels, hierarchy),
            SaveImageToStructure(cat.disk, id, hierarchy, labels, image))
  }

  /** Round trip: after a commit, searching for any committed label, or for
      the bathroom type, finds the copy at `<root>/<type>/<label>/<id>.jpg`. */
  lemma CommitThenSearch<Img>(cat: Catalog<Img>, id: string, hierarchy: string, labels: seq<string>,
                              image: Img, obj: string)
    requires obj in labels
    ensures var c := Commit(cat, id, hierarchy, labels, image);
            CatalogPath(hierarchy, obj, id) in SearchHits(c.rows, c.disk, obj)
    ensures var c := Commit(cat, id, hierarchy, labels, image);
            CatalogPath(hierarchy, obj, id) in SearchHits(c.rows, c.disk, hierarchy)
  {
    var c := Commit(cat, id, hierarchy, labels, image);
    var k :| 0 <= k < |labels| && labels[k] == obj;
    var row := Row(id, obj, hierarchy);
    assert Records(id, labels, hierarchy)[k] == row;
    assert row in RowsFor(c.rows, id);
    RowFoundByOwnLabels(c.rows, c.disk, row);
  }

  /** After a commit of plain labels the index and the tree agree for the
      submission: the paths of its rows are exactly the files of the id
      under the save root. */
  lemma CommitKeepsIndexAndTreeInStep<Img>(cat: Catalog<Img>, id: string, hierarchy: string,
                                           labels: seq<string>, image: Img)
    requires PlainCommit(id, hierarchy, labels)
    ensures var c := Commit(cat, id, hierarchy, labels, image);
            (set row | row in RowsFor(c.rows, id) :: RowPath(row))
            == (set f | f in c.disk && Superseded(f, id))
  {
    var c := Commit(cat, id, hierarchy, labels, image);
    SaveReplacesCopies(cat.disk, id, hierarchy, labels, image);
    var recs := Records(id, labels, hierarchy);
    var fromRows := set row | row in recs :: RowPath(row);
    assert fromRows == Targets(id, hierarchy, labels) by {
      forall p | p in fromRows ensures p in Targets(id, hierarchy, labels) {
        var row :| row in recs && RowPath(row) == p;
        var k :| 0 <= k < |recs| && recs[k] == row;
        assert labels[k] in labels;
      }
      forall p | p in Targets(id, hierarchy, labels) ensures p in fromRows {
        var l :| l in labels && p == CatalogPath(hierarchy, l, id);
        var k :| 0 <= k < |labels| && labels[k] == l;
        assert recs[k] in recs && RowPath(recs[k]) == p;
      }
    }
  }

  /** A recommit replaces the earlier commit in both the index and the tree:
      committing `a` under `ta` and then `b` under `tb` equals committing `b`
      alone, so no row or copy of `a` lingers. */
  lemma RecommitReplaces<Img>(cat: Catalog<Img>, id: string, ta: string, a: seq<string>, imageA: Img,
                              tb: string, b: seq<string>, imageB: Img)
    requires PlainCommit(id, ta, a)
    ensures Commit(Commit(cat, id, ta, a, imageA), id, tb, b, imageB) == Commit(cat, id, tb, b, imageB)
  {
    SaveToDbRecommit(cat.rows, id, a, ta, b, tb);
    SaveRecommit(cat.disk, id, ta, a, imageA, tb, b, imageB);
  }

  /** Committing the same confirmation twice changes nothing the second
      time, whatever text the labels hold. */
  lemma CommitIdempotent<Img>(cat: Catalog<Img>, id: string, hierarchy: string, labels: seq<string>, image: Img)
    ensures Commit(Commit(cat, id, hierarchy, labels, image), id, hierarchy, labels, image)
         == Commit(cat, id, hierarchy, labels, image)
  {
    SaveToDbIdempotent(cat.rows, id, labels, hierarchy);
    SaveIdempotent(cat.disk, id, hierarchy, labels, image);
  }
}
