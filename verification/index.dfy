/** The relational index: the `detections(img_id, class_name, hierarchy)`
    table and its replace-set write, `save_to_db`. */
module Index {

  /** One detection record: a confirmed object label of a submission under
      its bathroom type. */
  datatype Row = Row(imgId: string, className: string, hierarchy: string)

  /** The table, in insertion order. */
  type Table = seq<Row>

  /** The rows of one submission, in table order. */
  function RowsFor(rows: Table, id: string): (r: Table)
    ensures forall row :: row in r <==> row in rows && row.imgId == id
  {
    if rows == [] then []
    else (if rows[0].imgId == id then [rows[0]] else []) + RowsFor(rows[1..], id)
  }

  /** `DELETE FROM detections WHERE img_id = ?`: every other row stays, in order. */
  function DeleteRows(rows: Table, id: string): (r: Table)
    ensures |r| <= |rows|
  {
    if rows == [] then []
    else (if rows[0].imgId != id then [rows[0]] else []) + DeleteRows(rows[1..], id)
  }

  /** The rows the insert loop adds: one per label, in label order. */
  function Records(id: string, labels: seq<string>, hierarchy: string): (r: Table)
    ensures |r| == |labels|
    ensures forall k :: 0 <= k < |r| ==> r[k] == Row(id, labels[k], hierarchy)
  {
    if labels == [] then [] else [Row(id, labels[0], hierarchy)] + Records(id, labels[1..], hierarchy)
  }

  /** `save_to_db`: delete every row of the submission, then insert one row
      per label. Afterwards the submission's rows are exactly one per label,
      in label order and with the label's multiplicity, and every other
      submission's rows are as before. */
  function SaveToDb(rows: Table, id: string, labels: seq<string>, hierarchy: string): (r: Table)
    ensures RowsFor(r, id) == Records(id, labels, hierarchy)
    ensures forall other :: other != id ==> RowsFor(r, other) == RowsFor(rows, other)
  {
    var kept := DeleteRows(rows, id);
    var added := Records(id, labels, hierarchy);
    RowsForAppend(kept, added);
    RowsForDeleted(rows, id);
    RowsForRecords(id, labels, hierarchy);
    kept + added
  }

  /** Selecting one submission distributes over concatenation. */
  lemma {:induction false} RowsForAppend(a: Table, b: Table)
    ensures forall id :: RowsFor(a + b, id) == RowsFor(a, id) + RowsFor(b, id)
  {
    if a != [] {
      RowsForAppend(a[1..], b);
      assert (a + b)[1..] == a[1..] + b;
    } else {
      assert a + b == b;
    }
  }

  /** Deleting a submission distributes over concatenation. */
  lemma {:induction false} DeleteRowsAppend(a: Table, b: Table, id: string)
    ensures DeleteRows(a + b, id) == DeleteRows(a, id) + DeleteRows(b, id)
  {
    if a != [] {
      DeleteRowsAppend(a[1..], b, id);
      var head := if a[0].imgId != id then [a[0]] else [];
      assert (a + b)[0] == a[0];
      assert (a + b)[1..] == a[1..] + b;
      assert DeleteRows(a + b, id) == head + DeleteRows(a[1..] + b, id);
      assert DeleteRows(a, id) == head + DeleteRows(a[1..], id);
    } else {
      assert a + b == b;
    }
  }

  /** The delete keeps exactly the rows of the other submissions. */
  lemma {:induction false} DeleteRowsKeepsOthers(rows: Table, id: string)
    ensures forall row :: row in DeleteRows(rows, id) <==> row in rows && row.imgId != id
  {
    if rows != [] {
      DeleteRowsKeepsOthers(rows[1..], id);
      assert rows == [rows[0]] + rows[1..];
    }
  }

  /** After the delete, the submission has no rows and the others keep theirs. */
  lemma {:induction false} RowsForDeleted(rows: Table, id: string)
    ensures RowsFor(DeleteRows(rows, id), id) == []
    ensures forall other :: other != id ==> RowsFor(DeleteRows(rows, id), other) == RowsFor(rows, other)
  {
    if rows != [] {
      RowsForDeleted(rows[1..], id);
      var head := if rows[0].imgId != id then [rows[0]] else [];
      RowsForAppend(head, DeleteRows(rows[1..], id));
    }
  }

  /** The inserted rows all belong to the submission. */
  lemma {:induction false} RowsForRecords(id: string, labels: seq<string>, hierarchy: string)
    ensures RowsFor(Records(id, labels, hierarchy), id) == Records(id, labels, hierarchy)
    ensures forall other :: other != id ==> RowsFor(Records(id, labels, hierarchy), other) == []
    ensures DeleteRows(Records(id, labels, hierarchy), id) == []
  {
    if labels != [] {
      RowsForRecords(id, labels[1..], hierarchy);
      var r := Records(id, labels, hierarchy);
      assert r[1..] == Records(id, labels[1..], hierarchy);
    }
  }

  /** Deleting twice is deleting once. */
  lemma {:induction false} DeleteRowsIdempotent(rows: Table, id: string)
    ensures DeleteRows(DeleteRows(rows, id), id) == DeleteRows(rows, id)
  {
    if rows != [] {
      DeleteRowsIdempotent(rows[1..], id);
      var head := if rows[0].imgId != id then [rows[0]] else [];
      DeleteRowsAppend(head, DeleteRows(rows[1..], id), id);
    }
  }

  /** A recommit replaces the earlier commit entirely: committing labels `a`
      and then labels `b` for the same submission leaves the same table as
      committing `b` alone, so no row of `a` survives unless `b` carries it. */
  lemma SaveToDbRecommit(rows: Table, id: string, a: seq<string>, ta: string, b: seq<string>, tb: string)
    ensures SaveToDb(SaveToDb(rows, id, a, ta), id, b, tb) == SaveToDb(rows, id, b, tb)
    ensures forall row :: row in SaveToDb(SaveToDb(rows, id, a, ta), id, b, tb) && row.imgId == id
              ==> row.className in b && row.hierarchy == tb
  {
    var first := SaveToDb(rows, id, a, ta);
    assert DeleteRows(first, id) == DeleteRows(rows, id) by {
      DeleteRowsAppend(DeleteRows(rows, id), Records(id, a, ta), id);
      DeleteRowsIdempotent(rows, id);
      RowsForRecords(id, a, ta);
    }
    var r := SaveToDb(rows, id, b, tb);
    forall row | row in r && row.imgId == id
      ensures row.className in b && row.hierarchy == tb
    {
      assert row in RowsFor(r, id);
    }
  }

  /** Committing the same labels twice gives the table of one commit. */
  lemma SaveToDbIdempotent(rows: Table, id: string, labels: seq<string>, hierarchy: string)
    ensures SaveToDb(SaveToDb(rows, id, labels, hierarchy), id, labels, hierarchy)
         == SaveToDb(rows, id, labels, hierarchy)
  {
    SaveToDbRecommit(rows, id, labels, hierarchy, labels, hierarchy);
  }
}
