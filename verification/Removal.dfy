/** The removal of what a restore does not keep (src/backup.rs:874-910). */
module Removal {
  import opened Text
  import opened LogLines
  import opened Trees
  import opened ContentsFirst

  /** Everything below `top`, and `top` itself, is gone. */
  function RemoveAll(t: Tree, top: Path): Tree
  {
    map p | p in t && !(top <= p) :: t[p]
  }

  function WithoutTops(t: Tree, tops: set<Path>): Tree
  {
    map p | p in t && (forall n | 0 < n <= |p| :: p[..n] !in tops) :: t[p]
  }

  /** Deleting what the walk reports and is not kept takes everything below it along. */
  ghost function WithoutExtras(t: Tree, kept: set<Path>, listing: Listing): Tree
  {
    WithoutTops(t, Seen(t, listing) - kept)
  }

  /** Reading a directory: the entries come in any order. */
  method ReadDirectory(t: Tree, dir: Path) returns (names: seq<string>)
    ensures ListsDirectory(t, dir, names)
  {
    var entries := set p | p in t && p != [] && Parent(p) == dir :: Last(p);
    var todo := entries;
    names := [];
    while todo != {}
      invariant todo <= entries && forall name :: name in names <==> name in entries - todo
      invariant forall i, j | 0 <= i < j < |names| :: names[i] != names[j]
      decreases |todo|
    {
      var name :| name in todo;
      assert name !in names;
      names := names + [name];
      todo := todo - {name};
    }
    forall name | name in names ensures dir + [name] in t {
      var p :| p in t && p != [] && Parent(p) == dir && Last(p) == name;
      assert p == dir + [name];
    }
  }

  ghost predicate ListsSome(t: Tree, listing: Listing)
  {
    forall dir | dir in listing :: ListsDirectory(t, dir, listing[dir])
  }

  method ReadDirectories(t: Tree, dirs: set<Path>) returns (listing: Listing)
    ensures listing.Keys == dirs && ListsSome(t, listing)
  {
    var todo := dirs;
    listing := map[];
    while todo != {}
      invariant todo <= dirs && listing.Keys == dirs - todo && ListsSome(t, listing)
      decreases |todo|
    {
      var dir :| dir in todo;
      var names := ReadDirectory(t, dir);
      ListOneMore(t, listing, dir, names);
      listing := listing[dir := names];
      todo := todo - {dir};
    }
  }

  lemma ListOneMore(t: Tree, listing: Listing, dir: Path, names: seq<string>)
    requires ListsSome(t, listing) && ListsDirectory(t, dir, names)
    ensures ListsSome(t, listing[dir := names])
  {
  }

  lemma ListsAll(t: Tree, listing: Listing)
    requires ListsSome(t, listing) && listing.Keys == {[]} + Directories(t, t.Keys)
    ensures Lists(t, listing)
  {
  }

  /** The filtered walk over the live directory, contents first. */
  method FindExtras(live: Tree, order: Listing, kept: set<Path>) returns (extras: set<Path>)
    requires WellFormed(live) && Lists(live, order)
    ensures extras == Seen(live, order) - kept
  {
    WalkIsSeen(live, order);
    var walker := new WalkDir(live, order);
    extras := {};
    while true
      invariant fresh(walker) && walker.Valid()
      invariant extras + (walker.ToReport() - kept) == Seen(live, order) - kept
      decreases walker.Steps()
    {
      var entry := walker.NextAllowed();
      if entry.None? {
        break;
      }
      var path := entry.value;
      if path != [] && path !in kept {
        extras := extras + {path};
      }
    }
  }

  lemma WalkIsSeen(live: Tree, order: Listing)
    requires WellFormed(live) && Lists(live, order)
    ensures Named(live, [], order[[]]) && Visit(live, order, [], order[[]]) == Seen(live, order)
  {
    assert IsDirectory(live, []) && ListsDirectory(live, [], order[[]]);
    VisitIsSeen(live, order);
  }

  /** First the list of extras, then the deletions; an entry already gone with its parent is no matter. */
  method RemoveExtras(live: Tree, kept: set<Path>) returns (left: Tree, listing: Listing)
    requires WellFormed(live)
    ensures Lists(live, listing) && left == WithoutExtras(live, kept, listing)
  {
    var order := ReadDirectories(live, {[]} + Directories(live, live.Keys));
    ListsAll(live, order);
    listing := order;
    var extras := FindExtras(live, order, kept);
    left := DeleteAll(live, extras);
  }

  method DeleteAll(live: Tree, extras: set<Path>) returns (left: Tree)
    requires [] !in extras
    ensures left == WithoutTops(live, extras)
  {
    var todo := extras;
    left := live;
    assert WithoutTops(live, {}) == live;
    while todo != {}
      invariant todo <= extras && left == WithoutTops(live, extras - todo)
      decreases |todo|
    {
      var path :| path in todo;
      RemoveOneMore(live, extras - todo, path);
      left := RemoveAll(left, path);
      assert extras - (todo - {path}) == extras - todo + {path};
      todo := todo - {path};
    }
    assert extras - todo == extras;
  }

  lemma RemoveOneMore(t: Tree, tops: set<Path>, path: Path)
    requires path != []
    ensures RemoveAll(WithoutTops(t, tops), path) == WithoutTops(t, tops + {path})
  {
    forall p | p in t ensures p in RemoveAll(WithoutTops(t, tops), path) <==> p in WithoutTops(t, tops + {path}) {
      assert path <= p ==> p[..|path|] == path;
      assert forall n | 0 < n <= |p| :: p[..n] == path ==> path <= p;
    }
  }

  /** A directory is kept, or listed too late to be found. */
  ghost predicate Spared(t: Tree, kept: set<Path>, listing: Listing, p: Path)
  {
    p in kept || !Reached(t, listing, p)
  }

  /** A visible entry survives exactly if it and all directories above it are spared. */
  lemma KeptWithParents(t: Tree, kept: set<Path>, listing: Listing, p: Path)
    requires WellFormed(t) && p in t && !Skipped(p)
    ensures p in WithoutExtras(t, kept, listing) <==> forall n | 0 < n <= |p| :: Spared(t, kept, listing, p[..n])
  {
    forall n | 0 < n <= |p| ensures p[..n] in Seen(t, listing) - kept <==> !Spared(t, kept, listing, p[..n]) {
      if Skipped(p[..n]) { SkippedBelow(p, n); }
      assert n == |p| ==> p[..n] == p;
    }
  }

  /** A skipped entry survives exactly if the visible directories above it are spared. */
  lemma SkippedSurvives(t: Tree, kept: set<Path>, listing: Listing, p: Path)
    requires WellFormed(t) && p in t && Skipped(p)
    ensures p in WithoutExtras(t, kept, listing) <==> forall n | 0 < n <= |Anchor(p)| :: Spared(t, kept, listing, p[..n])
  {
    AnchorPrefixes(p);
    forall n | 0 < n <= |p|
      ensures p[..n] in Seen(t, listing) - kept <==> n <= |Anchor(p)| && !Spared(t, kept, listing, p[..n])
    {
      assert n == |p| ==> p[..n] == p;
    }
  }

  /** The walk finds every extra, or a directory above it that is one too. */
  ghost predicate AllFound(t: Tree, kept: set<Path>, listing: Listing)
  {
    forall p | p in t && !Skipped(p) && p !in kept :: Found(t, kept, listing, p)
  }

  ghost predicate Found(t: Tree, kept: set<Path>, listing: Listing, p: Path)
  {
    exists n | 0 < n <= |p| :: !Spared(t, kept, listing, p[..n])
  }

  function AsKept(full: Tree, kept: set<Path>): Tree
  {
    map p | p in Visible(full) && p in kept :: full[p]
  }

  lemma ClosedKeeps(t: Tree, kept: set<Path>, listing: Listing, p: Path)
    requires WellFormed(t) && ParentClosed(kept) && p in t && !Skipped(p)
    ensures p in WithoutExtras(t, kept, listing) <==> p in kept || !Found(t, kept, listing, p)
  {
    KeptWithParents(t, kept, listing, p);
    assert p[..|p|] == p;
  }

  /** With a parent-closed list nothing kept is lost, and nothing else stays visible if and only if every extra is
      found. */
  lemma ClosedKeepsExactly(t: Tree, kept: set<Path>, listing: Listing)
    requires WellFormed(t) && ParentClosed(kept)
    ensures forall p | p in Visible(t) && p in kept :: p in WithoutExtras(t, kept, listing)
    ensures Visible(WithoutExtras(t, kept, listing)) == AsKept(t, kept) <==> AllFound(t, kept, listing)
  {
    forall p | p in t && !Skipped(p)
      ensures p in WithoutExtras(t, kept, listing) <==> p in kept || !Found(t, kept, listing, p)
    {
      ClosedKeeps(t, kept, listing, p);
    }
    ShowsKept(t, kept, WithoutExtras(t, kept, listing));
  }

  lemma ShowsKept(t: Tree, kept: set<Path>, left: Tree)
    requires (forall p | p in left :: p in t && left[p] == t[p]) && forall p | p in AsKept(t, kept) :: p in left
    ensures Visible(left) == AsKept(t, kept) <==> forall p | p in t && !Skipped(p) && p !in kept :: p !in left
  {
    if p :| p in t && !Skipped(p) && p !in kept && p in left {
      assert p in Visible(left) && p !in AsKept(t, kept);
    }
  }

  /** If no directory is listed, everything is lost but listed entries at the top level and what is found too late. */
  lemma NoDirectoriesKept(t: Tree, kept: set<Path>, listing: Listing, p: Path)
    requires WellFormed(t) && (forall q | q in kept && q in t :: !t[q].Dir?) && p in t && !Skipped(p)
    ensures p in WithoutExtras(t, kept, listing) <==> !Reached(t, listing, p[..1]) || (|p| == 1 && p in kept)
  {
    KeptWithParents(t, kept, listing, p);
    assert p[..|p|] == p;
    if |p| > 1 {
      assert p[..1] !in kept;
    }
    if !Reached(t, listing, p[..1]) {
      forall n | 0 < n <= |p| ensures !Reached(t, listing, p[..n]) {
        assert p[..n][..1] == p[..1];
        assert p[..1][..1] == p[..1];
      }
    }
  }

  ghost predicate NoneSkipped(t: Tree)
  {
    forall p | p in t :: !Ends(t, p)
  }

  /** Where there is no skipped directory the walk comes to everything. */
  lemma NothingIsLate(t: Tree, kept: set<Path>, listing: Listing)
    requires WellFormed(t) && Lists(t, listing) && NoneSkipped(t)
    ensures AllFound(t, kept, listing)
  {
    forall p | p in t && !Skipped(p) && p !in kept ensures Found(t, kept, listing, p) {
      assert p[..|p|] == p;
      forall n | 0 < n <= |p| ensures Comes(t, listing, p[..n]) {
        assert n == |p| || n < |p|;
        EntryComes(t, listing, p[..n]);
      }
      assert !Spared(t, kept, listing, p[..|p|]);
    }
  }

  lemma EntryComes(t: Tree, listing: Listing, p: Path)
    requires WellFormed(t) && Lists(t, listing) && NoneSkipped(t) && p in t
    ensures Comes(t, listing, p)
  {
    var dir := Parent(p);
    assert IsDirectory(t, dir) && ListsDirectory(t, dir, listing[dir]);
    var i :| 0 <= i < |listing[dir]| && listing[dir][i] == Last(p);
    assert Open(t, dir, listing[dir], i);
  }

  /** Whatever is listed behind a skipped directory is never come to. */
  lemma BehindIsLate(t: Tree, listing: Listing, dir: Path, k: nat, i: nat)
    requires Lists(t, listing) && IsDirectory(t, dir) && k < i < |listing[dir]| && Ends(t, dir + [listing[dir][k]])
    ensures !Reached(t, listing, dir + [listing[dir][i]])
  {
    var names, p := listing[dir], dir + [listing[dir][i]];
    assert ListsDirectory(t, dir, names);
    assert p[..|p|] == p && Parent(p) == dir && Last(p) == names[i];
    assert !Open(t, dir, names, i);
    assert !Comes(t, listing, p);
  }

  /** It takes no more than a ".git" that is listed before a file. */
  lemma LateFileStays(live: Tree, listing: Listing, names: seq<string>, git: Mode, z: Node)
    requires live == map[[".git"] := Dir(git), ["z"] := z] && z.File?
    requires names == [".git", "z"] && listing == map[[] := names, [".git"] := []]
    ensures WellFormed(live) && Lists(live, listing) && Visible(live).Keys == {["z"]}
    ensures ["z"] in WithoutExtras(live, {}, listing)
  {
    assert SkippedName([".git"][0]) && !SkippedName(["z"][0]);
    LateNames(live, listing, names);
    BehindIsLate(live, listing, [], 0, 1);
    assert [] + [names[0]] == [".git"] && [] + [names[1]] == ["z"];
    KeptWithParents(live, {}, listing, ["z"]);
  }

  lemma LateNames(live: Tree, listing: Listing, names: seq<string>)
    requires live.Keys == {[".git"], ["z"]} && live[[".git"]].Dir? && live[["z"]].File?
    requires names == [".git", "z"] && listing == map[[] := names, [".git"] := []]
    ensures Lists(live, listing)
  {
    assert names[0] == ".git" && names[1] == "z";
    assert Parent([".git"]) == [] && Parent(["z"]) == [] && Last([".git"]) == names[0] && Last(["z"]) == names[1];
    assert forall name: string :: [] + [name] == [name];
    assert Named(live, [], names);
    assert ListsDirectory(live, [], names) && ListsDirectory(live, [".git"], []);
  }
}
