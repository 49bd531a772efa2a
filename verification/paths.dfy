/** Catalog paths: how the image root, a hierarchy, an object label and a
    submission id are joined into a file path, and how a path is taken apart
    again by the recommit scan. */
module Paths {
  import opened Text

  const Sep: char := '/'

  /** The directory that holds every catalog copy (inference.py:10). */
  const SaveRoot: string := "output_images"

  /** One step of POSIX `os.path.join`: a component starting with the
      separator replaces the path so far; otherwise a separator is inserted
      unless the path is empty or already ends with one. */
  function Join(path: string, component: string): string {
    if |component| > 0 && component[0] == Sep then component
    else if path == [] || path[|path| - 1] == Sep then path + component
    else path + [Sep] + component
  }

  /** What a join produces: an absolute component alone; otherwise the path,
      at most one inserted separator, and the component. */
  lemma JoinMeaning(path: string, component: string)
    ensures |component| > 0 && component[0] == Sep ==> Join(path, component) == component
    ensures !(|component| > 0 && component[0] == Sep) ==>
              var r := Join(path, component);
              && StartsWith(r, path)
              && |component| <= |r| && r[|r| - |component|..] == component
              && |path| + |component| <= |r| <= |path| + |component| + 1
              && (|r| == |path| + |component| + 1 ==> r[|path|] == Sep)
              && (|r| == |path| + |component| + 1 <==> path != [] && path[|path| - 1] != Sep)
  {
    var r := Join(path, component);
    if !(|component| > 0 && component[0] == Sep) {
      assert r[..|path|] == path;
      assert r[|r| - |component|..] == component;
    }
  }

  /** `os.path.join(SAVE_ROOT, hierarchy, class_name, f"{img_id}.jpg")`. */
  function CatalogPath(hierarchy: string, className: string, imgId: string): string {
    Join(Join(Join(SaveRoot, hierarchy), className), imgId + ".jpg")
  }

  /** The file name of a path: everything after its last separator. */
  function Basename(p: string): (r: string)
    ensures Sep !in r
    ensures |r| <= |p| && r == p[|p| - |r|..]
    ensures |r| == |p| || p[|p| - |r| - 1] == Sep
  {
    if p == [] || p[|p| - 1] == Sep then []
    else Basename(p[..|p| - 1]) + [p[|p| - 1]]
  }

  /** The files that `os.walk(SAVE_ROOT)` visits. */
  predicate UnderRoot(p: string) {
    StartsWith(p, SaveRoot + [Sep])
  }

  /** A label that joins as exactly one directory level. */
  predicate IsComponent(x: string) {
    |x| > 0 && Sep !in x && x != "." && x != ".."
  }

  /** A submission id that stays inside its directory when used as a file name. */
  predicate IsBareId(id: string) {
    Sep !in id
  }

  /** With plain components, the catalog path is the four parts separated by
      single separators. */
  lemma CatalogPathLayout(hierarchy: string, className: string, imgId: string)
    requires IsComponent(hierarchy) && IsComponent(className) && IsBareId(imgId)
    ensures CatalogPath(hierarchy, className, imgId)
         == (SaveRoot + [Sep] + hierarchy + [Sep] + className) + [Sep] + (imgId + ".jpg")
  {
    var name := imgId + ".jpg";
    assert name[0] != Sep by {
      if |imgId| > 0 { assert name[0] == imgId[0]; } else { assert name[0] == '.'; }
    }
    var d1 := Join(SaveRoot, hierarchy);
    assert d1 == SaveRoot + [Sep] + hierarchy by {
      assert hierarchy[0] != Sep;
    }
    assert d1[|d1| - 1] == hierarchy[|hierarchy| - 1];
    var d2 := Join(d1, className);
    assert d2 == d1 + [Sep] + className by {
      assert className[0] != Sep;
    }
    assert d2[|d2| - 1] == className[|className| - 1];
  }

  /** The file name of `dir/name` is `name`. */
  lemma {:induction false} BasenameAfterSep(dir: string, name: string)
    requires Sep !in name
    ensures Basename(dir + [Sep] + name) == name
  {
    var p := dir + [Sep] + name;
    if name == [] {
      assert p[|p| - 1] == Sep;
    } else {
      var front := name[..|name| - 1];
      assert p[..|p| - 1] == dir + [Sep] + front;
      BasenameAfterSep(dir, front);
      assert name == front + [name[|name| - 1]];
    }
  }

  /** A catalog copy lies under the image root and its file name starts with
      its submission id. */
  lemma CatalogPathPlacement(hierarchy: string, className: string, imgId: string)
    requires IsComponent(hierarchy) && IsComponent(className) && IsBareId(imgId)
    ensures UnderRoot(CatalogPath(hierarchy, className, imgId))
    ensures Basename(CatalogPath(hierarchy, className, imgId)) == imgId + ".jpg"
    ensures StartsWith(Basename(CatalogPath(hierarchy, className, imgId)), imgId)
  {
    CatalogPathLayout(hierarchy, className, imgId);
    var dir := SaveRoot + [Sep] + hierarchy + [Sep] + className;
    var name := imgId + ".jpg";
    var root := SaveRoot + [Sep];
    assert dir[..|root|] == root;
    assert (dir + [Sep] + name)[..|root|] == dir[..|root|];
    FileNameIsBare(imgId);
    BasenameAfterSep(dir, name);
    assert name[..|imgId|] == imgId;
  }

  /** The file name of a bare id contains no separator. */
  lemma FileNameIsBare(id: string)
    requires IsBareId(id)
    ensures Sep !in id + ".jpg"
  {
    var name := id + ".jpg";
    forall i | 0 <= i < |name| ensures name[i] != Sep {
      if i < |id| { assert name[i] == id[i]; } else { assert name[i] in ".jpg"; }
    }
  }

  /** A path without a separator is not inside the save root. */
  lemma NoSepNotUnderRoot(p: string)
    requires Sep !in p
    ensures !UnderRoot(p)
  {
    assert (SaveRoot + [Sep])[|SaveRoot|] == Sep;
  }

  /** Splitting at the first separator is unique. */
  lemma SplitAtSep(a: string, r: string, b: string, s: string)
    requires Sep !in a && Sep !in b
    requires a + [Sep] + r == b + [Sep] + s
    ensures a == b && r == s
  {
    var x := a + [Sep] + r;
    assert forall i :: 0 <= i < |a| ==> x[i] == a[i];
    assert forall i :: 0 <= i < |b| ==> x[i] == b[i];
    assert x[|a|] == Sep && x[|b|] == Sep;
    assert |a| == |b|;
    assert a == x[..|a|] == b;
    assert r == x[|a| + 1..] == s;
  }

  /** Two catalog file names are equal only for equal ids. */
  lemma FileNameInjective(i1: string, i2: string)
    requires i1 + ".jpg" == i2 + ".jpg"
    ensures i1 == i2
  {
    assert |i1| == |i2|;
    assert i1 == (i1 + ".jpg")[..|i1|];
  }

  /** Distinct (hierarchy, label, id) triples with plain components have
      distinct catalog paths. */
  lemma CatalogPathInjective(h1: string, c1: string, i1: string, h2: string, c2: string, i2: string)
    requires IsComponent(h1) && IsComponent(c1) && IsBareId(i1)
    requires IsComponent(h2) && IsComponent(c2) && IsBareId(i2)
    requires CatalogPath(h1, c1, i1) == CatalogPath(h2, c2, i2)
    ensures h1 == h2 && c1 == c2 && i1 == i2
  {
    var root := SaveRoot + [Sep];
    var p := CatalogPath(h1, c1, i1);
    var r1 := h1 + [Sep] + (c1 + [Sep] + (i1 + ".jpg"));
    var r2 := h2 + [Sep] + (c2 + [Sep] + (i2 + ".jpg"));
    CatalogPathNested(h1, c1, i1);
    CatalogPathNested(h2, c2, i2);
    assert r1 == p[|root|..] == r2;
    SplitAtSep(h1, c1 + [Sep] + (i1 + ".jpg"), h2, c2 + [Sep] + (i2 + ".jpg"));
    SplitAtSep(c1, i1 + ".jpg", c2, i2 + ".jpg");
    FileNameInjective(i1, i2);
  }

  /** The catalog path as the root prefix followed by the rest. */
  lemma CatalogPathNested(h: string, c: string, i: string)
    requires IsComponent(h) && IsComponent(c) && IsBareId(i)
    ensures CatalogPath(h, c, i) == (SaveRoot + [Sep]) + (h + [Sep] + (c + [Sep] + (i + ".jpg")))
  {
    CatalogPathLayout(h, c, i);
  }
}
