/** The confirmation screen's logic, taken out of the UI: deduplication of
    the detected labels, the confirmation map and its edits, the "all
    confirmed" test, and what happens once everything is confirmed. */
module Frontend {
  import opened Seqs
  import opened Paths
  import opened Index
  import opened Storage
  import opened Pipeline
  import opened Search
  import opened Catalog

  /** `list(dict.fromkeys(xs))`: each element once, in order of first occurrence. */
  function Dedup(xs: seq<string>): (r: seq<string>)
    ensures NoDuplicates(r)
    ensures forall x :: x in r <==> x in xs
    ensures |r| <= |xs|
  {
    if xs == [] then []
    else
      var front := xs[..|xs| - 1];
      var last := xs[|xs| - 1];
      assert xs == front + [last];
      var init := Dedup(front);
      if last in init then init else init + [last]
  }

  /** The position of the first occurrence of `x`. */
  function FirstIndex(xs: seq<string>, x: string): (k: nat)
    requires x in xs
    ensures k < |xs| && xs[k] == x
    ensures forall j :: 0 <= j < k ==> xs[j] != x
  {
    if xs[0] == x then 0 else 1 + FirstIndex(xs[1..], x)
  }

  /** Appending elements does not move a first occurrence. */
  lemma FirstIndexOfPrefix(xs: seq<string>, ys: seq<string>, x: string)
    requires x in xs
    ensures FirstIndex(xs + ys, x) == FirstIndex(xs, x)
  {
    var k := FirstIndex(xs, x);
    var m := FirstIndex(xs + ys, x);
    assert (xs + ys)[k] == x;
    assert forall j :: 0 <= j < |xs| ==> (xs + ys)[j] == xs[j];
  }

  /** Dedup lists the distinct elements in the order of their first
      occurrence in the input. */
  lemma {:induction false} DedupKeepsFirstOccurrenceOrder(xs: seq<string>)
    ensures forall i, j :: 0 <= i < j < |Dedup(xs)| ==>
              FirstIndex(xs, Dedup(xs)[i]) < FirstIndex(xs, Dedup(xs)[j])
  {
    if xs != [] {
      var front := xs[..|xs| - 1];
      var last := xs[|xs| - 1];
      assert xs == front + [last];
      DedupKeepsFirstOccurrenceOrder(front);
      var init := Dedup(front);
      var r := Dedup(xs);
      forall y | y in front ensures FirstIndex(xs, y) == FirstIndex(front, y) {
        FirstIndexOfPrefix(front, [last], y);
      }
      if last !in init {
        assert r == init + [last];
        assert last !in front;
        assert FirstIndex(xs, last) == |front|;
        forall i, j | 0 <= i < j < |r|
          ensures FirstIndex(xs, r[i]) < FirstIndex(xs, r[j])
        {
          assert r[i] == init[i] && r[i] in front;
          if j < |init| {
            assert r[j] == init[j] && r[j] in front;
          }
        }
      } else {
        assert r == init;
        forall i, j | 0 <= i < j < |r|
          ensures FirstIndex(xs, r[i]) < FirstIndex(xs, r[j])
        {
          assert r[i] in front && r[j] in front;
        }
      }
    }
  }

  /** A list without duplicates is its own deduplication. */
  lemma {:induction false} DedupOfDistinct(xs: seq<string>)
    requires NoDuplicates(xs)
    ensures Dedup(xs) == xs
  {
    if xs != [] {
      var front := xs[..|xs| - 1];
      var last := xs[|xs| - 1];
      DedupOfDistinct(front);
      assert last !in front;
      assert xs == front + [last];
    }
  }

  /** Deduplicating again changes nothing. */
  lemma {:induction false} DedupIdempotent(xs: seq<string>)
    ensures Dedup(Dedup(xs)) == Dedup(xs)
  {
    DedupOfDistinct(Dedup(xs));
  }

  /** Dedup consumes its input from the left, like insertion into a dict. */
  lemma DedupSnoc(xs: seq<string>, x: string)
    ensures Dedup(xs + [x]) == if x in Dedup(xs) then Dedup(xs) else Dedup(xs) + [x]
  {
    assert (xs + [x])[..|xs|] == xs;
  }

  /** Dedup of a doubled label. */
  lemma DedupDouble(a: string)
    ensures Dedup([a, a]) == [a]
  {
    DedupSnoc([], a);
    assert [] + [a] == [a];
    DedupSnoc([a], a);
    assert [a] + [a] == [a, a];
  }

  /** Dedup of a doubled label followed by a new one. */
  lemma DedupDoubleThenNew(a: string, b: string)
    requires a != b
    ensures Dedup([a, a, b]) == [a, b]
  {
    DedupDouble(a);
    DedupSnoc([a, a], b);
    assert [a, a] + [b] == [a, a, b];
    assert [a] + [b] == [a, b];
  }

  /** Repeats of a label collapse to its first occurrence: two sinks, a
      mirror and another sink give one sink and one mirror. */
  lemma DedupExample(a: string, b: string)
    requires a != b
    ensures Dedup([a, a, b, a]) == [a, b]
  {
    DedupDoubleThenNew(a, b);
    DedupSnoc([a, a, b], a);
    assert [a, a, b] + [a] == [a, a, b, a];
  }

  /** The per-upload confirmation state: the bathroom-type flag and one flag
      per object label. */
  datatype Confirmation = Confirmation(bathroomType: bool, objects: map<string, bool>)

  /** The session: the staged result being edited and its confirmation state. */
  datatype Session = Session(result: Staged, confirmed: Confirmation)

  /** `objects.get(obj, False)` */
  function IsConfirmed(objects: map<string, bool>, obj: string): bool {
    if obj in objects then objects[obj] else false
  }

  /** A fresh inference: the detected labels are deduplicated, the type is
      unconfirmed and every label maps to false, with no other key. */
  function StartSession(staged: Staged): (s: Session)
    ensures s.result == staged.(detectedObjects := s.result.detectedObjects)
    ensures s.result.detectedObjects == Dedup(staged.detectedObjects)
    ensures NoDuplicates(s.result.detectedObjects)
    ensures Elements(s.result.detectedObjects) == Elements(staged.detectedObjects)
    ensures !s.confirmed.bathroomType
    ensures s.confirmed.objects.Keys == Elements(staged.detectedObjects)
    ensures forall o :: o in s.confirmed.objects ==> !s.confirmed.objects[o]
  {
    var unique := Dedup(staged.detectedObjects);
    Session(staged.(detectedObjects := unique), Confirmation(false, map o | o in unique :: false))
  }

  /** The "Confirm Type" button: sets the type flag and nothing else. */
  function ConfirmType(s: Session): (t: Session)
    ensures t.confirmed.bathroomType
    ensures t.confirmed.objects == s.confirmed.objects && t.result == s.result
  {
    s.(confirmed := s.confirmed.(bathroomType := true))
  }

  /** The type selector, shown only while the type is unconfirmed; it offers
      the classifier's bathroom types. */
  function ChangeType(s: Session, choice: string): (t: Session)
    requires choice in ClassNames
    ensures s.confirmed.bathroomType ==> t == s
    ensures !s.confirmed.bathroomType ==> t.result.bathroomType == choice
    ensures t.confirmed == s.confirmed
    ensures t.result == s.result.(bathroomType := t.result.bathroomType)
  {
    if s.confirmed.bathroomType then s else s.(result := s.result.(bathroomType := choice))
  }

  /** The "Confirm <obj>" button of row `i`: sets that label's flag to true;
      every other entry is unchanged. */
  function ConfirmObject(s: Session, i: nat): (t: Session)
    requires i < |s.result.detectedObjects|
    ensures var obj := s.result.detectedObjects[i];
            obj in t.confirmed.objects && t.confirmed.objects[obj]
    ensures forall k :: k != s.result.detectedObjects[i] ==>
              (k in t.confirmed.objects <==> k in s.confirmed.objects)
              && (k in s.confirmed.objects ==> t.confirmed.objects[k] == s.confirmed.objects[k])
    ensures t.result == s.result && t.confirmed.bathroomType == s.confirmed.bathroomType
  {
    var obj := s.result.detectedObjects[i];
    if IsConfirmed(s.confirmed.objects, obj) then s
    else s.(confirmed := s.confirmed.(objects := s.confirmed.objects[obj := true]))
  }

  /** The text box of row `i`, as written: for an unconfirmed label and a
      different new text, drop the old label's flag, set the new label's flag
      to false, and replace the label at `i`. The old flag is dropped even
      when another row still carries the old label. */
  function RenameObject(s: Session, i: nat, newObj: string): (t: Session)
    requires i < |s.result.detectedObjects|
    ensures var obj := s.result.detectedObjects[i];
            IsConfirmed(s.confirmed.objects, obj) || newObj == obj ==> t == s
    ensures var obj := s.result.detectedObjects[i];
            !IsConfirmed(s.confirmed.objects, obj) && newObj != obj ==>
              && obj !in t.confirmed.objects
              && newObj in t.confirmed.objects && !t.confirmed.objects[newObj]
              && (forall k :: k != obj && k != newObj ==>
                    (k in t.confirmed.objects <==> k in s.confirmed.objects)
                    && (k in s.confirmed.objects ==> t.confirmed.objects[k] == s.confirmed.objects[k]))
              && |t.result.detectedObjects| == |s.result.detectedObjects|
              && t.result.detectedObjects[i] == newObj
              && (forall j :: 0 <= j < |s.result.detectedObjects| && j != i ==>
                    t.result.detectedObjects[j] == s.result.detectedObjects[j])
              && t.confirmed.bathroomType == s.confirmed.bathroomType
              && t.result == s.result.(detectedObjects := t.result.detectedObjects)
  {
    var obj := s.result.detectedObjects[i];
    if IsConfirmed(s.confirmed.objects, obj) || newObj == obj then s
    else
      s.(result := s.result.(detectedObjects := s.result.detectedObjects[i := newObj]),
         confirmed := s.confirmed.(objects := (s.confirmed.objects - {obj})[newObj := false]))
  }

  /** The text box of row `i`, corrected: the old label's flag is dropped only
      when no other row carries that label any more. */
  function RenameObjectTracked(s: Session, i: nat, newObj: string): (t: Session)
    requires i < |s.result.detectedObjects|
    ensures var obj := s.result.detectedObjects[i];
            IsConfirmed(s.confirmed.objects, obj) || newObj == obj ==> t == s
    ensures var obj := s.result.detectedObjects[i];
            !IsConfirmed(s.confirmed.objects, obj) && newObj != obj ==>
              && newObj in t.confirmed.objects && !t.confirmed.objects[newObj]
              && t.result.detectedObjects == s.result.detectedObjects[i := newObj]
              && (obj !in t.result.detectedObjects ==> obj !in t.confirmed.objects)
              && (obj in t.result.detectedObjects ==>
                    (obj in t.confirmed.objects <==> obj in s.confirmed.objects))
              && (obj in t.confirmed.objects ==> t.confirmed.objects[obj] == s.confirmed.objects[obj])
              && (forall k :: k != obj && k != newObj ==>
                    (k in t.confirmed.objects <==> k in s.confirmed.objects)
                    && (k in s.confirmed.objects ==> t.confirmed.objects[k] == s.confirmed.objects[k]))
              && t.confirmed.bathroomType == s.confirmed.bathroomType
              && t.result == s.result.(detectedObjects := t.result.detectedObjects)
  {
    var obj := s.result.detectedObjects[i];
    if IsConfirmed(s.confirmed.objects, obj) || newObj == obj then s
    else
      var renamed := s.result.detectedObjects[i := newObj];
      var kept := if obj in renamed then s.confirmed.objects else s.confirmed.objects - {obj};
      s.(result := s.result.(detectedObjects := renamed),
         confirmed := s.confirmed.(objects := kept[newObj := false]))
  }

  /** `confirmed['bathroom_type'] and all(confirmed['objects'].values())` */
  predicate AllConfirmed(c: Confirmation) {
    c.bathroomType && false !in c.objects.Values
  }

  /** "All confirmed" holds exactly when the type is confirmed and every
      flag in the map is true; with an empty map only the type counts. */
  lemma AllConfirmedMeaning(c: Confirmation)
    ensures AllConfirmed(c) <==> c.bathroomType && forall o :: o in c.objects ==> c.objects[o]
    ensures c.objects == map[] ==> (AllConfirmed(c) <==> c.bathroomType)
  {
    if false in c.objects.Values {
      var o :| o in c.objects && c.objects[o] == false;
    }
  }

  /** The map's keys are exactly the labels on screen. */
  predicate Tracked(s: Session) {
    s.confirmed.objects.Keys == Elements(s.result.detectedObjects)
  }

  /** While the keys track the labels, "all confirmed" means that the type
      and every label on screen are confirmed. */
  lemma TrackedAllConfirmed(s: Session)
    requires Tracked(s)
    ensures AllConfirmed(s.confirmed) <==>
              s.confirmed.bathroomType
              && forall i :: 0 <= i < |s.result.detectedObjects| ==>
                   IsConfirmed(s.confirmed.objects, s.result.detectedObjects[i])
  {
    AllConfirmedMeaning(s.confirmed);
    var objs := s.result.detectedObjects;
    if s.confirmed.bathroomType && forall i :: 0 <= i < |objs| ==> IsConfirmed(s.confirmed.objects, objs[i]) {
      forall o | o in s.confirmed.objects ensures s.confirmed.objects[o] {
        assert o in Elements(objs);
        var i :| 0 <= i < |objs| && objs[i] == o;
        assert IsConfirmed(s.confirmed.objects, objs[i]);
      }
    }
  }

  /** One user action on the confirmation screen. */
  datatype Action =
    | ConfirmTypeAction
    | ChangeTypeAction(choice: string)
    | ConfirmObjectAction(index: nat)
    | RenameObjectAction(index: nat, newObj: string)

  /** An action is possible when its row exists and its choice is offered. */
  predicate Enabled(s: Session, a: Action) {
    match a
    case ConfirmTypeAction => true
    case ChangeTypeAction(choice) => choice in ClassNames
    case ConfirmObjectAction(i) => i < |s.result.detectedObjects|
    case RenameObjectAction(i, _) => i < |s.result.detectedObjects|
  }

  /** The effect of an action, with the corrected rename. */
  function Apply(s: Session, a: Action): Session
    requires Enabled(s, a)
  {
    match a
    case ConfirmTypeAction => ConfirmType(s)
    case ChangeTypeAction(choice) => ChangeType(s, choice)
    case ConfirmObjectAction(i) => ConfirmObject(s, i)
    case RenameObjectAction(i, newObj) => RenameObjectTracked(s, i, newObj)
  }

  /** A fresh session tracks its labels, and every action keeps it so. */
  lemma ActionsKeepTracked(staged: Staged, s: Session, a: Action)
    requires Tracked(s) && Enabled(s, a)
    ensures Tracked(StartSession(staged))
    ensures Tracked(Apply(s, a))
  {
    if a.RenameObjectAction? {
      var i, newObj := a.index, a.newObj;
      var objs := s.result.detectedObjects;
      var obj := objs[i];
      var t := Apply(s, a);
      if !IsConfirmed(s.confirmed.objects, obj) && newObj != obj {
        var renamed := objs[i := newObj];
        assert t.result.detectedObjects == renamed;
        forall x ensures x in t.confirmed.objects <==> x in Elements(renamed) {
          if x != obj && x != newObj {
            if x in objs {
              var j :| 0 <= j < |objs| && objs[j] == x;
              assert renamed[j] == x;
            }
            if x in renamed {
              var j :| 0 <= j < |renamed| && renamed[j] == x;
              assert objs[j] == x;
            }
          } else if x == newObj {
            assert renamed[i] == newObj;
          }
        }
      }
    } else if a.ConfirmObjectAction? {
      assert s.result.detectedObjects[a.index] in Elements(s.result.detectedObjects);
    }
  }

  /** First step of the collision: renaming the second of two unconfirmed
      labels onto the first leaves one key for two rows. */
  lemma RenameOntoOther(s: Session, a: string, b: string)
    requires a != b
    requires s.result.detectedObjects == [a, b]
    requires s.confirmed.objects == map[a := false, b := false]
    ensures RenameObject(s, 1, a).result.detectedObjects == [a, a]
    ensures RenameObject(s, 1, a).confirmed.objects == map[a := false]
  {
    assert [a, b][1 := a] == [a, a];
    assert (map[a := false, b := false] - {b})[a := false] == map[a := false];
  }

  /** Second step: renaming one of the two rows away drops the only key, so
      the row that keeps the old label has no flag any more. */
  lemma RenameAwayFromShared(s: Session, a: string, c: string)
    requires a != c
    requires s.result.detectedObjects == [a, a]
    requires s.confirmed.objects == map[a := false]
    ensures RenameObject(s, 0, c).result.detectedObjects == [c, a]
    ensures RenameObject(s, 0, c).confirmed.objects == map[c := false]
  {
    assert [a, a][0 := c] == [c, a];
    assert (map[a := false] - {a})[c := false] == map[c := false];
  }

  /** A fresh session over two distinct labels shows both, unconfirmed. */
  lemma StartOfDistinctPair(staged: Staged, a: string, b: string)
    requires a != b && staged.detectedObjects == [a, b]
    ensures StartSession(staged).result.detectedObjects == [a, b]
    ensures StartSession(staged).confirmed == Confirmation(false, map[a := false, b := false])
  {
    DedupSnoc([a], b);
    DedupSnoc([], a);
    assert [] + [a] == [a] && [a] + [b] == [a, b];
  }

  /** Last step: confirming the one remaining key and the type makes the
      screen report "all confirmed". */
  lemma ConfirmRemaining(s: Session, a: string, c: string)
    requires a != c
    requires s.result.detectedObjects == [c, a]
    requires s.confirmed.objects == map[c := false]
    ensures var t := ConfirmType(ConfirmObject(s, 0));
            t.result.detectedObjects == [c, a] && t.confirmed.objects == map[c := true]
            && AllConfirmed(t.confirmed)
  {
    var t := ConfirmType(ConfirmObject(s, 0));
    assert t.confirmed.objects == map[c := true];
    assert t.confirmed.objects.Values == {true};
  }

  /** As written, a rename onto a label another row carries, followed by a
      rename of that row, loses the flag of a label still on screen: for two
      detected labels `a` and `b` (say "sink" and "mirror") and a new text
      `c` ("tub"), the screen then reports everything confirmed while `a`
      never was. */
  lemma RenameCollisionHidesObject(staged: Staged, a: string, b: string, c: string)
    requires a != b && a != c && b != c
    requires staged.detectedObjects == [a, b]
    ensures var s0 := StartSession(staged);
            && s0.result.detectedObjects == [a, b]
            && var s1 := RenameObject(s0, 1, a);
               var s2 := RenameObject(s1, 0, c);
               var s4 := ConfirmType(ConfirmObject(s2, 0));
               && s4.result.detectedObjects == [c, a]
               && AllConfirmed(s4.confirmed)
               && !IsConfirmed(s4.confirmed.objects, a)
               && !Tracked(s4)
  {
    var s0 := StartSession(staged);
    StartOfDistinctPair(staged, a, b);
    RenameOntoOther(s0, a, b);
    var s1 := RenameObject(s0, 1, a);
    RenameAwayFromShared(s1, a, c);
    var s2 := RenameObject(s1, 0, c);
    ConfirmRemaining(s2, a, c);
    var s4 := ConfirmType(ConfirmObject(s2, 0));
    assert s4.result.detectedObjects[1] == a;
  }

  /** What the confirmation screen reports. */
  datatype Notice = AllDone | PleaseConfirm

  /** The end of the confirmation screen as written: it reports completion
      ("image has been added") but writes nothing to the catalog. */
  function FinishAsWritten<Img>(s: Session, cat: Catalog<Img>): (r: (Notice, Catalog<Img>))
    ensures r.0 == AllDone <==> AllConfirmed(s.confirmed)
    ensures r.1 == cat
  {
    (if AllConfirmed(s.confirmed) then AllDone else PleaseConfirm, cat)
  }

  /** A fully confirmed upload is reported as added, yet a search for its
      confirmed label on a fresh catalog finds nothing. */
  lemma FinishAsWrittenLosesUpload<Img>()
    ensures var s := ConfirmObject(ConfirmType(StartSession(Staged("x", "Modern", ["sink"], "x.jpg"))), 0);
            var empty: Catalog<Img> := Catalog([], map[]);
            var r := FinishAsWritten(s, empty);
            r.0 == AllDone && SearchHits(r.1.rows, r.1.disk, "sink") == {}
  {
    var s := ConfirmObject(ConfirmType(StartSession(Staged("x", "Modern", ["sink"], "x.jpg"))), 0);
    assert Dedup(["sink"]) == ["sink"];
    assert s.confirmed.objects == map["sink" := true];
    assert s.confirmed.objects.Values == {true};
  }

  /** The end of the confirmation screen, corrected: once everything is
      confirmed the upload is committed under the confirmed type and labels. */
  function Finish<Img>(s: Session, cat: Catalog<Img>, image: Img): (r: (Notice, Catalog<Img>))
    ensures r.0 == AllDone <==> AllConfirmed(s.confirmed)
    ensures r.0 == PleaseConfirm ==> r.1 == cat
    ensures r.0 == AllDone ==>
              RowsFor(r.1.rows, s.result.imgId)
              == Records(s.result.imgId, s.result.detectedObjects, s.result.bathroomType)
  {
    if AllConfirmed(s.confirmed) then
      (AllDone, Commit(cat, s.result.imgId, s.result.bathroomType, s.result.detectedObjects, image))
    else (PleaseConfirm, cat)
  }

  /** Once reported done, every confirmed label finds the upload's copy. */
  lemma FinishedUploadIsSearchable<Img>(s: Session, cat: Catalog<Img>, image: Img, i: nat)
    requires i < |s.result.detectedObjects|
    requires Finish(s, cat, image).0 == AllDone
    ensures var r := Finish(s, cat, image);
            var obj := s.result.detectedObjects[i];
            CatalogPath(s.result.bathroomType, obj, s.result.imgId) in SearchHits(r.1.rows, r.1.disk, obj)
  {
    CommitThenSearch(cat, s.result.imgId, s.result.bathroomType, s.result.detectedObjects, image,
                     s.result.detectedObjects[i]);
  }

  /** The screen is redrawn after every interaction, so the commit runs again
      on each redraw; the repeats change nothing. */
  lemma FinishIsRepeatable<Img>(s: Session, cat: Catalog<Img>, image: Img)
    ensures Finish(s, Finish(s, cat, image).1, image) == Finish(s, cat, image)
  {
    if AllConfirmed(s.confirmed) {
      CommitIdempotent(cat, s.result.imgId, s.result.bathroomType, s.result.detectedObjects, image);
    }
  }
}
