/** The image tree under the save root and its replace-set write,
    `save_image_to_structure`. The disk maps each file path to the image
    stored there. */
module Storage {
  import opened Text
  import opened Paths

  type Disk<Img> = map<string, Img>

  /** A file the recommit scan for `id` deletes: under the save root, with a
      file name that starts with the id. The test is a prefix test, so it also
      matches ids that merely extend `id`. */
  predicate Superseded(f: string, id: string) {
    UnderRoot(f) && StartsWith(Basename(f), id)
  }

  /** The copies a commit writes: one per label under the bathroom type. */
  function Targets(id: string, hierarchy: string, labels: seq<string>): set<string> {
    set c | c in labels :: CatalogPath(hierarchy, c, id)
  }

  /** Every label joins as one directory level and the id as one file name. */
  predicate PlainCommit(id: string, hierarchy: string, labels: seq<string>) {
    IsBareId(id) && IsComponent(hierarchy) && forall c :: c in labels ==> IsComponent(c)
  }

  /** `save_image_to_structure`: delete every superseded file, then write
      the image to the catalog path of every label. */
  function SaveImageToStructure<Img>(disk: Disk<Img>, id: string, hierarchy: string,
                                     labels: seq<string>, image: Img): (d: Disk<Img>)
    ensures forall c :: c in labels ==>
              CatalogPath(hierarchy, c, id) in d && d[CatalogPath(hierarchy, c, id)] == image
    ensures forall f :: f in d && f !in Targets(id, hierarchy, labels) ==>
              f in disk && d[f] == disk[f] && !Superseded(f, id)
    ensures forall f :: f in disk && !Superseded(f, id) && f !in Targets(id, hierarchy, labels) ==>
              f in d
  {
    Kept(disk, id) + map f | f in Targets(id, hierarchy, labels) :: image
  }

  /** The files that survive the recommit scan for `id`. */
  function Kept<Img>(disk: Disk<Img>, id: string): Disk<Img> {
    map f | f in disk && !Superseded(f, id) :: disk[f]
  }

  /** With plain components the copies are themselves superseded by the next
      commit of the same id. */
  lemma TargetsAreSuperseded(id: string, hierarchy: string, labels: seq<string>)
    requires PlainCommit(id, hierarchy, labels)
    ensures forall f :: f in Targets(id, hierarchy, labels) ==> Superseded(f, id)
  {
    forall f | f in Targets(id, hierarchy, labels)
      ensures Superseded(f, id)
    {
      var c :| c in labels && f == CatalogPath(hierarchy, c, id);
      CatalogPathPlacement(hierarchy, c, id);
    }
  }

  /** After the write, the files the next scan for `id` would find are
      exactly one copy per label, whatever earlier copies of `id` there were,
      and every other file is untouched. */
  lemma SaveReplacesCopies<Img>(disk: Disk<Img>, id: string, hierarchy: string,
                                labels: seq<string>, image: Img)
    requires PlainCommit(id, hierarchy, labels)
    ensures var d := SaveImageToStructure(disk, id, hierarchy, labels, image);
            (set f | f in d && Superseded(f, id)) == Targets(id, hierarchy, labels)
    ensures var d := SaveImageToStructure(disk, id, hierarchy, labels, image);
            forall f :: !Superseded(f, id) ==> (f in d <==> f in disk) && (f in d ==> d[f] == disk[f])
  {
    TargetsAreSuperseded(id, hierarchy, labels);
  }

  /** A recommit replaces the earlier copies entirely: writing labels `a`
      under `ta` and then labels `b` under `tb` leaves the same disk as
      writing `b` alone. */
  lemma SaveRecommit<Img>(disk: Disk<Img>, id: string, ta: string, a: seq<string>, imageA: Img,
                          tb: string, b: seq<string>, imageB: Img)
    requires PlainCommit(id, ta, a)
    ensures SaveImageToStructure(SaveImageToStructure(disk, id, ta, a, imageA), id, tb, b, imageB)
         == SaveImageToStructure(disk, id, tb, b, imageB)
  {
    var first := SaveImageToStructure(disk, id, ta, a, imageA);
    KeptAfterSave(disk, id, ta, a, imageA);
    assert Kept(first, id) == Kept(disk, id);
  }

  /** The survivors of a scan are the same before and after a write of
      plain copies for the same id. */
  lemma KeptAfterSave<Img>(disk: Disk<Img>, id: string, hierarchy: string, labels: seq<string>, image: Img)
    requires PlainCommit(id, hierarchy, labels)
    ensures Kept(SaveImageToStructure(disk, id, hierarchy, labels, image), id) == Kept(disk, id)
  {
    TargetsAreSuperseded(id, hierarchy, labels);
    var first := SaveImageToStructure(disk, id, hierarchy, labels, image);
    var k1 := Kept(first, id);
    var k0 := Kept(disk, id);
    forall f ensures (f in k1 <==> f in k0) && (f in k0 ==> k1[f] == k0[f]) {
      if f in Targets(id, hierarchy, labels) {
        assert Superseded(f, id);
      }
    }
    assert k1 == k0;
  }

  /** Writing the same copies twice leaves the disk of one write, whatever
      the labels and the type. */
  lemma SaveIdempotent<Img>(disk: Disk<Img>, id: string, hierarchy: string, labels: seq<string>, image: Img)
    ensures var d1 := SaveImageToStructure(disk, id, hierarchy, labels, image);
            SaveImageToStructure(d1, id, hierarchy, labels, image) == d1
  {
    var d1 := SaveImageToStructure(disk, id, hierarchy, labels, image);
    var d2 := SaveImageToStructure(d1, id, hierarchy, labels, image);
    forall f ensures (f in d2 <==> f in d1) && (f in d1 ==> d2[f] == d1[f]) {
      if f in Targets(id, hierarchy, labels) {
        var c :| c in labels && f == CatalogPath(hierarchy, c, id);
      }
    }
    assert d2 == d1;
  }

  /** The scan deletes by prefix, not by exact name: a copy belonging to a
      different submission whose id extends `id` is deleted too. */
  lemma SaveDeletesByPrefix<Img>(disk: Disk<Img>, id: string, hierarchy: string, labels: seq<string>,
                                 image: Img, otherId: string, h: string, c: string)
    requires IsBareId(otherId) && IsComponent(h) && IsComponent(c)
    requires StartsWith(otherId, id)
    requires CatalogPath(h, c, otherId) !in Targets(id, hierarchy, labels)
    ensures CatalogPath(h, c, otherId) !in SaveImageToStructure(disk, id, hierarchy, labels, image)
  {
    CatalogPathPlacement(h, c, otherId);
    var name := Basename(CatalogPath(h, c, otherId));
    assert name[..|id|] == otherId[..|id|];
  }
}
