/** Snapshots kept as plain directory copies, and their restoration (src/backup.rs:809-898, 951-977). */
module CopySnapshots {
  import opened Text
  import opened LogLines
  import opened Trees
  import opened ContentsFirst
  import opened Removal
  import opened GitSnapshots

  const U64_MAX: nat := 0xffff_ffff_ffff_ffff

  /** The entries a copy transfers: links and other kinds are passed over. */
  function Copied(t: Tree): Tree
  {
    map p | p in Visible(t) && !t[p].Link? :: t[p]
  }

  predicate SameKind(a: Node, b: Node)
  {
    (a.Dir? && b.Dir?) || (a.File? && b.File?)
  }

  /** Nothing of another kind sits where the copy goes. */
  predicate Fits(src: Tree, dst: Tree)
  {
    forall p | p in Copied(src) && p in dst :: SameKind(src[p], dst[p])
  }

  /** The result of a copy that fits: files replaced, directories created with default modes. */
  function CopyOver(src: Tree, dst: Tree): Tree
  {
    map p | p in dst.Keys + Copied(src).Keys ::
      if p in Copied(src) && (src[p].File? || p !in dst)
      then if src[p].File? then src[p] else Dir(NEW_DIRECTORY)
      else dst[p]
  }

  /** Entry by entry: a copied file replaces what was there, a copied directory is only made where there was none, and
      everything else stays. */
  lemma WhatCopyLeaves(src: Tree, dst: Tree, p: Path)
    ensures var after := CopyOver(src, dst); var copied := p in src && !Skipped(p);
      && (p in after <==> p in dst || (copied && !src[p].Link?))
      && (copied && src[p].File? ==> after[p] == src[p])
      && (copied && src[p].Dir? && p !in dst ==> after[p] == Dir(0x1ed))
      && (p in dst && !(copied && src[p].File?) ==> after[p] == dst[p])
  {
  }

  /** The loop over the entries, some of them done. */
  ghost predicate Copying(src: Tree, dst: Tree, tree: Tree, done: set<Path>)
  {
    && (forall p | p in Copied(src) && p in dst && !SameKind(src[p], dst[p]) :: p in tree && !SameKind(src[p], tree[p]))
    && (Fits(src, dst) ==>
          && dst.Keys <= tree.Keys && tree.Keys <= dst.Keys + Copied(src).Keys && done <= tree.Keys
          && (forall p | p in tree && p in Copied(src) && src[p].Dir? :: tree[p] == CopyOver(src, dst)[p])
          && (forall p | p in tree && p in Copied(src) && src[p].File? && p in done :: tree[p] == src[p])
          && (forall p | p in tree && !(p in Copied(src) && (src[p].Dir? || p in done)) :: p in dst && tree[p] == dst[p]))
  }

  /** "create_dir_all": every missing directory down to `dir`. */
  function CreateDirs(t: Tree, dir: Path): Tree
  {
    map p | p in t.Keys + (set n | 0 < n <= |dir| :: dir[..n]) :: if p in t then t[p] else Dir(NEW_DIRECTORY)
  }

  lemma CreateDirsIsWellFormed(t: Tree, dir: Path)
    requires WellFormed(t) && forall n | 0 < n <= |dir| :: dir[..n] in t ==> t[dir[..n]].Dir?
    ensures WellFormed(CreateDirs(t, dir))
    ensures forall n | 0 < n <= |dir| :: dir[..n] in CreateDirs(t, dir) && CreateDirs(t, dir)[dir[..n]].Dir?
  {
    var after := CreateDirs(t, dir);
    forall p, n | p in after && 0 < n < |p| ensures p[..n] in after && after[p[..n]].Dir? {
      if p !in t {
        var m :| 0 < m <= |dir| && dir[..m] == p;
        assert dir[..m][..n] == dir[..n];
      }
    }
  }

  lemma ParentsAreCopied(src: Tree, p: Path, n: nat)
    requires WellFormed(src) && p in Copied(src) && 0 < n < |p|
    ensures p[..n] in Copied(src) && src[p[..n]].Dir?
  {
    if Skipped(p[..n]) { SkippedBelow(p, n); }
  }

  /** Creating directories of the source keeps the loop's state. */
  lemma DirsStep(src: Tree, dst: Tree, tree: Tree, done: set<Path>, dir: Path)
    requires WellFormed(src) && Copying(src, dst, tree, done)
    requires dir == [] || (dir in Copied(src) && src[dir].Dir?)
    ensures Copying(src, dst, CreateDirs(tree, dir), done)
    ensures dir in CreateDirs(tree, dir) || dir == []
  {
    assert dir[..|dir|] == dir;
    forall n | 0 < n <= |dir| ensures dir[..n] in Copied(src) && src[dir[..n]].Dir? {
      if n < |dir| { ParentsAreCopied(src, dir, n); }
    }
    var after := CreateDirs(tree, dir);
    assert forall p | p in after && p !in tree :: p in Copied(src) && src[p].Dir? && after[p] == Dir(NEW_DIRECTORY);
    assert forall p | p in tree :: p in after && after[p] == tree[p];
  }

  predicate Obstructed(tree: Tree, dir: Path)
  {
    exists n | 0 < n <= |dir| :: dir[..n] in tree && !tree[dir[..n]].Dir?
  }

  lemma ObstructedDoesNotFit(src: Tree, dst: Tree, tree: Tree, done: set<Path>, dir: Path)
    requires WellFormed(src) && Copying(src, dst, tree, done) && Obstructed(tree, dir)
    requires dir == [] || (dir in Copied(src) && src[dir].Dir?)
    ensures !Fits(src, dst)
  {
    var n :| 0 < n <= |dir| && dir[..n] in tree && !tree[dir[..n]].Dir?;
    assert n == |dir| ==> dir[..n] == dir;
    if n < |dir| { ParentsAreCopied(src, dir, n); }
  }

  /** Makes sure a directory of the source exists. In the way of something else this fails or, through a link,
      goes elsewhere; `ready` tells that the directory is there. */
  method MakeDirs(src: Tree, ghost dst: Tree, tree: Tree, ghost done: set<Path>, dir: Path) returns (after: Option<Tree>, ready: bool)
    requires WellFormed(src) && WellFormed(tree) && Copying(src, dst, tree, done)
    requires dir == [] || (dir in Copied(src) && src[dir].Dir?)
    ensures !ready || after.None? ==> !Fits(src, dst)
    ensures after.Some? ==> WellFormed(after.value) && Copying(src, dst, after.value, done)
    ensures after.Some? && ready ==> forall n | 0 < n <= |dir| :: dir[..n] in after.value && after.value[dir[..n]].Dir?
  {
    if Obstructed(tree, dir) {
      ObstructedDoesNotFit(src, dst, tree, done, dir);
      var elsewhere: bool := *;
      return if elsewhere then Some(tree) else None, false;
    }
    CreateDirsIsWellFormed(tree, dir);
    DirsStep(src, dst, tree, done, dir);
    return Some(CreateDirs(tree, dir)), true;
  }

  /** One entry of the copy. */
  method CopyEntry(src: Tree, ghost dst: Tree, tree: Tree, ghost done: set<Path>, p: Path) returns (after: Option<Tree>)
    requires WellFormed(src) && WellFormed(tree) && Copying(src, dst, tree, done) && p in Copied(src)
    ensures after.None? ==> !Fits(src, dst)
    ensures after.Some? ==> WellFormed(after.value) && Copying(src, dst, after.value, done + {p})
  {
    var ready;
    if src[p].Dir? {
      after, ready := MakeDirs(src, dst, tree, done, p);
      assert p[..|p|] == p;
      return;
    }
    var dir := Parent(p);
    if dir != [] { ParentsAreCopied(src, p, |dir|); }
    after, ready := MakeDirs(src, dst, tree, done, dir);
    if after.None? || !ready {
      return;
    }
    if p in after.value && !after.value[p].File? {
      assert !Fits(src, dst);
      var elsewhere: bool := *;
      if after.value[p].Dir? || !elsewhere {
        after := None;
      }
      return;
    }
    forall n | 0 < n < |p| ensures p[..n] in after.value && after.value[p[..n]].Dir? {
      assert p[..n] == dir[..n];
    }
    FileCopied(src, dst, after.value, done, p);
    after := Some(after.value[p := src[p]]);
  }

  lemma FileCopied(src: Tree, dst: Tree, tree: Tree, done: set<Path>, p: Path)
    requires p != [] && WellFormed(tree) && Copying(src, dst, tree, done) && p in Copied(src) && src[p].File?
    requires p in tree ==> tree[p].File?
    requires forall n | 0 < n < |p| :: p[..n] in tree && tree[p[..n]].Dir?
    ensures WellFormed(tree[p := src[p]]) && Copying(src, dst, tree[p := src[p]], done + {p})
  {
  }

  ghost function SizeOf(t: Tree, files: set<Path>): nat
    requires files <= t.Keys
  {
    if files == {} then 0
    else
      var p :| p in files;
      (if t[p].File? then |t[p].data| else 0) + SizeOf(t, files - {p})
  }

  lemma {:induction false} SizeWithout(t: Tree, files: set<Path>, p: Path)
    requires files <= t.Keys && p in files
    ensures SizeOf(t, files) == (if t[p].File? then |t[p].data| else 0) + SizeOf(t, files - {p})
  {
    var q :| q in files && SizeOf(t, files) == (if t[q].File? then |t[q].data| else 0) + SizeOf(t, files - {q});
    if q != p {
      SizeWithout(t, files - {q}, p);
      SizeWithout(t, files - {p}, q);
      assert files - {q} - {p} == files - {p} - {q};
    }
  }

  /** The bytes a backup of a tree has to handle. */
  ghost function ProjectBytes(t: Tree): nat
  {
    SizeOf(t, Visible(t).Keys)
  }

  /** The size shown for a live project. */
  method ProjectDirSize(t: Tree) returns (bytes: nat)
    requires WellFormed(t)
    ensures bytes == ProjectBytes(t)
  {
    var todo := Walk(t);
    bytes := 0;
    while todo != {}
      invariant todo <= Visible(t).Keys && bytes + SizeOf(t, todo) == ProjectBytes(t)
      decreases |todo|
    {
      var p :| p in todo;
      SizeWithout(t, todo, p);
      bytes := bytes + if t[p].File? then |t[p].data| else 0;
      todo := todo - {p};
    }
  }

  /** The byte count of a copy, which saturates. */
  method CountBytes(src: Tree, entries: set<Path>) returns (total: nat)
    requires entries == Visible(src).Keys
    ensures total == if ProjectBytes(src) < U64_MAX then ProjectBytes(src) else U64_MAX
  {
    total := 0;
    var todo := entries;
    ghost var counted := 0;
    while todo != {}
      invariant todo <= entries && counted + SizeOf(src, todo) == ProjectBytes(src)
      invariant total == if counted < U64_MAX then counted else U64_MAX
      decreases |todo|
    {
      var p :| p in todo;
      SizeWithout(src, todo, p);
      if src[p].File? {
        counted := counted + |src[p].data|;
        total := if total + |src[p].data| < U64_MAX then total + |src[p].data| else U64_MAX;
      }
      todo := todo - {p};
    }
  }

  /** The copy loop; the entries come in no particular order. */
  method CopyEntries(src: Tree, dst: Tree, entries: set<Path>) returns (result: Option<Tree>)
    requires WellFormed(src) && WellFormed(dst) && forall p | p in entries :: p in Copied(src)
    ensures result.None? ==> !Fits(src, dst)
    ensures result.Some? ==> WellFormed(result.value) && Copying(src, dst, result.value, entries)
  {
    var todo := entries;
    ghost var done := {};
    CopyingStarts(src, dst, done);
    result := Some(dst);
    while todo != {} && result.Some?
      invariant todo <= entries && done == entries - todo
      invariant result.None? ==> !Fits(src, dst)
      invariant result.Some? ==> WellFormed(result.value) && Copying(src, dst, result.value, done)
      decreases |todo|
    {
      var p :| p in todo;
      result := CopyEntry(src, dst, result.value, done, p);
      todo, done := todo - {p}, done + {p};
    }
  }

  lemma CopyingStarts(src: Tree, dst: Tree, done: set<Path>)
    requires done == {}
    ensures Copying(src, dst, dst, done)
  {
  }

  /** Copying a tree over another: first the byte count, then the entries. */
  method CopyTree(src: Tree, dst: Tree) returns (result: Option<Tree>, total: nat)
    requires WellFormed(src) && WellFormed(dst)
    ensures total == if ProjectBytes(src) < U64_MAX then ProjectBytes(src) else U64_MAX
    ensures Fits(src, dst) ==> result == Some(CopyOver(src, dst))
    ensures result.Some? ==> WellFormed(result.value)
    ensures !Fits(src, dst) && result.Some? ==> exists p | p in Copied(src) && p in result.value :: !SameKind(src[p], result.value[p])
  {
    var entries := Walk(src);
    total := CountBytes(src, entries);
    var copied := set p | p in entries && !src[p].Link?;
    assert copied == Copied(src).Keys;
    result := CopyEntries(src, dst, copied);
    if result.Some? {
      CopyingDone(src, dst, result.value);
    }
  }

  lemma CopyingDone(src: Tree, dst: Tree, tree: Tree)
    requires Copying(src, dst, tree, Copied(src).Keys)
    ensures Fits(src, dst) ==> tree == CopyOver(src, dst)
    ensures !Fits(src, dst) ==> exists p | p in Copied(src) && p in tree :: !SameKind(src[p], tree[p])
  {
    if Fits(src, dst) {
      assert tree.Keys == CopyOver(src, dst).Keys;
    } else {
      var p :| p in Copied(src) && p in dst && !SameKind(src[p], dst[p]);
      assert p in tree;
    }
  }

  /** Directory modes are not part of a copy. */
  function Shape(t: Tree): Tree
  {
    map p | p in t :: if t[p].Dir? then Dir(0) else t[p]
  }

  /** Trees of the same shape have the same entries, files with the same data and modes, and the same links. */
  lemma SameShapeMeans(a: Tree, b: Tree)
    ensures Shape(a) == Shape(b) <==> a.Keys == b.Keys && forall p | p in a :: a[p] == b[p] || (a[p].Dir? && b[p].Dir?)
  {
    if Shape(a) == Shape(b) {
      assert Shape(a).Keys == a.Keys && Shape(b).Keys == b.Keys;
      forall p | p in a ensures a[p] == b[p] || (a[p].Dir? && b[p].Dir?) {
        assert Shape(a)[p] == Shape(b)[p];
      }
    }
  }

  ghost predicate RestoredCopy(snapshot: Tree, live: Tree, listing: Listing, result: Option<Tree>)
  {
    && Lists(CopyOver(snapshot, live), listing)
    && result == Some(WithoutExtras(CopyOver(snapshot, live), Visible(snapshot).Keys, listing))
    && (NoneSkipped(live) ==> AllExtrasFound(snapshot, live, listing))
  }

  ghost predicate AllExtrasFound(snapshot: Tree, live: Tree, listing: Listing)
  {
    AllFound(CopyOver(snapshot, live), Visible(snapshot).Keys, listing)
  }

  predicate HasShape(result: Option<Tree>, want: Tree)
  {
    result.Some? && Shape(Visible(result.value)) == Shape(want)
  }

  /** Restoring a copy: it shows exactly the copied tree, if and only if it fits and no entry that has to go is listed
      behind a skipped directory. */
  method RestoreCopy(snapshot: Tree, live: Tree) returns (result: Option<Tree>, listing: Listing)
    requires WellFormed(snapshot) && WellFormed(live)
    requires forall p | p in Visible(snapshot) :: !snapshot[p].Link?
    ensures HasShape(result, Visible(snapshot)) <==> Fits(snapshot, live) && AllExtrasFound(snapshot, live, listing)
    ensures Fits(snapshot, live) ==> RestoredCopy(snapshot, live, listing, result)
  {
    var copied, _ := CopyTree(snapshot, live);
    if copied.None? {
      return None, map[];
    }
    var kept := Walk(snapshot);
    var left;
    left, listing := RemoveExtras(copied.value, kept);
    result := Some(left);
    if Fits(snapshot, live) {
      FittingCopy(snapshot, live, listing, left);
    } else {
      var p :| p in Copied(snapshot) && p in copied.value && !SameKind(snapshot[p], copied.value[p]);
      assert p in left ==> left[p] == copied.value[p];
      assert Shape(Visible(snapshot))[p] != Shape(copied.value)[p];
    }
  }

  lemma FittingCopy(snapshot: Tree, live: Tree, listing: Listing, left: Tree)
    requires WellFormed(snapshot) && WellFormed(CopyOver(snapshot, live)) && Fits(snapshot, live)
    requires forall p | p in Visible(snapshot) :: !snapshot[p].Link?
    requires Lists(CopyOver(snapshot, live), listing)
    requires left == WithoutExtras(CopyOver(snapshot, live), Visible(snapshot).Keys, listing)
    ensures Shape(Visible(left)) == Shape(Visible(snapshot)) <==> AllExtrasFound(snapshot, live, listing)
    ensures RestoredCopy(snapshot, live, listing, Some(left))
  {
    var full, kept := CopyOver(snapshot, live), Visible(snapshot).Keys;
    VisibleIsClosed(snapshot);
    ClosedKeepsExactly(full, kept, listing);
    KeptCopy(snapshot, live);
    assert forall p | p in left :: p in full && left[p] == full[p];
    SameShape(full, kept, left, Visible(snapshot));
    if NoneSkipped(live) {
      NoneMissed(snapshot, live, listing);
    }
  }

  lemma SameShape(full: Tree, kept: set<Path>, left: Tree, want: Tree)
    requires want.Keys == kept && Shape(AsKept(full, kept)) == Shape(want)
    requires forall p | p in left :: p in full && left[p] == full[p]
    ensures Shape(Visible(left)) == Shape(want) <==> Visible(left) == AsKept(full, kept)
  {
    var shown := Visible(left);
    assert Shape(shown).Keys == shown.Keys && Shape(AsKept(full, kept)).Keys == AsKept(full, kept).Keys && Shape(want).Keys == kept;
    if shown.Keys == kept {
      assert shown == AsKept(full, kept);
    }
  }

  lemma NoneMissed(snapshot: Tree, live: Tree, listing: Listing)
    requires WellFormed(CopyOver(snapshot, live)) && Lists(CopyOver(snapshot, live), listing) && NoneSkipped(live)
    ensures AllExtrasFound(snapshot, live, listing)
  {
    var full := CopyOver(snapshot, live);
    forall p | p in full ensures !Ends(full, p) {
      assert Ends(full, p) ==> Ends(live, p);
    }
    NothingIsLate(full, Visible(snapshot).Keys, listing);
  }

  lemma KeptCopy(snapshot: Tree, live: Tree)
    requires Fits(snapshot, live) && forall p | p in Visible(snapshot) :: !snapshot[p].Link?
    ensures Shape(AsKept(CopyOver(snapshot, live), Visible(snapshot).Keys)) == Shape(Visible(snapshot))
  {
    var shape, want := Shape(AsKept(CopyOver(snapshot, live), Visible(snapshot).Keys)), Shape(Visible(snapshot));
    assert shape.Keys == want.Keys;
    forall p | p in Visible(snapshot) ensures shape[p] == want[p] {
      assert p in Copied(snapshot);
    }
  }

  /** A copy into an empty directory has the files and directories of the source, and no links. */
  lemma CopyIntoEmpty(src: Tree)
    ensures var copy := CopyOver(src, map[]);
      && Shape(Visible(copy)) == Shape(Copied(src))
      && (forall p | p in Visible(copy) :: !copy[p].Link?)
      && Copied(copy).Keys == Copied(src).Keys && (forall p | p in Copied(copy) :: SameKind(copy[p], src[p]))
  {
  }

  lemma SameFits(a: Tree, b: Tree, live: Tree)
    requires Copied(a).Keys == Copied(b).Keys && forall p | p in Copied(a) :: SameKind(a[p], b[p])
    ensures Fits(a, live) <==> Fits(b, live)
  {
  }

  lemma LinksAreNotCopied(src: Tree)
    ensures Shape(Copied(src)) == Shape(Visible(src)) <==> forall p | p in Visible(src) :: !src[p].Link?
  {
    if p :| p in Visible(src) && src[p].Link? {
      assert p !in Shape(Copied(src)) && p in Shape(Visible(src));
    } else {
      assert Copied(src) == Visible(src);
    }
  }

  /** Copy a project away and back: the files and directories of the source come back exactly if they fit and every
      extra is found, and that is all of the source exactly if it has no links. */
  method SnapshotAndRestore(src: Tree, live: Tree) returns (snapshot: Tree, result: Option<Tree>, listing: Listing)
    requires WellFormed(src) && WellFormed(live)
    ensures HasShape(result, Copied(src)) <==> Fits(src, live) && AllExtrasFound(snapshot, live, listing)
    ensures Fits(src, live) ==> RestoredCopy(snapshot, live, listing, result)
    ensures Shape(Copied(src)) == Shape(Visible(src)) <==> forall p | p in Visible(src) :: !src[p].Link?
  {
    var copy, _ := CopyTree(src, map[]);
    CopyIntoEmpty(src);
    snapshot := copy.value;
    SameFits(snapshot, src, live);
    LinksAreNotCopied(src);
    result, listing := RestoreCopy(snapshot, live);
  }
}
