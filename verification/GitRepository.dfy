/** The repository shared by all versions of a project, and the live directory operations on it
    (src/backup.rs:142-288, 347-467). */
module GitRepository {
  import opened Text
  import opened LogLines
  import opened Trees
  import opened ContentsFirst
  import opened Removal
  import opened IndexNames
  import opened GitSnapshots

  const BATCH: nat := 4000

  /** Refused: Git could not read an index line and nothing was committed. Unlisted: the process stopped after the
      commit was recorded but before its attribute file was written. */
  datatype Outcome = Refused | Unlisted(id: nat) | Taken(id: nat)

  class Repository {
    const git: Git
    var index: Index
    var commits: seq<Index>
    var attrs: map<nat, seq<Attr>>
    ghost var trees: seq<Tree>

    /** Index and commits are in order, and every attribute file describes the tree its commit was taken from. */
    ghost predicate Valid()
      reads this
    {
      && |trees| == |commits| && Fits(index, git)
      && (forall i | 0 <= i < |trees| :: WellFormed(trees[i]) && Fits(commits[i], git))
      && (forall i | i in attrs :: i < |trees| && Describes(attrs[i], trees[i]))
    }

    /** The commit is exactly the tree it was taken from. */
    ghost predicate Exact(id: nat)
      requires id < |commits| == |trees|
      reads this
    {
      commits[id] == Entries(trees[id])
    }

    /** With plain names in the index and in the tree, none of them protected, a snapshot has no exception. */
    ghost predicate PlainSnapshot(index: Index, src: Tree)
    {
      && Literal(git.matches) && AllPlain(index) && AllPlain(Entries(src))
      && forall p | p in Entries(src) :: !git.isProtected(Name(p))
    }

    constructor (git: Git)
      ensures Valid() && trees == [] && index == map[] && this.git == git
    {
      this.git := git;
      index, commits, attrs, trees := map[], [], map[], [];
    }

    /** The scan of the source directory. */
    static method ListAttrs(src: Tree) returns (attrs: seq<Attr>)
      requires WellFormed(src)
      ensures Describes(attrs, src)
    {
      var todo := Walk(src);
      attrs := [];
      while todo != {}
        invariant todo <= Visible(src).Keys
        invariant forall a :: a in attrs <==> a.path in Visible(src).Keys - todo && a == AttrOf(a.path, src[a.path])
        decreases |todo|
      {
        var p :| p in todo;
        attrs := attrs + [AttrOf(p, src[p])];
        todo := todo - {p};
      }
    }

    /** Hashing: the index lines of the regular files, then those of the symbolic links. */
    static method IndexLines(src: Tree, attrs: seq<Attr>) returns (lines: seq<IndexLine>)
      requires Describes(attrs, src)
      ensures LinesOf(lines, Entries(src)) && LinePaths(lines) == Entries(src).Keys
    {
      var files, links: seq<IndexLine> := [], [];
      for i := 0 to |attrs|
        invariant LinesOf(files, Entries(src)) && LinesOf(links, Entries(src))
        invariant forall a | a in attrs[..i] && a.kind != DirKind :: a.path in LinePaths(files) + LinePaths(links)
      {
        var a := attrs[i];
        assert a in attrs;
        match a.kind {
          case DirKind =>
          case FileKind => files := Append(src, files, a.path);
          case LinkKind => links := Append(src, links, a.path);
        }
      }
      lines := files + links;
      LinePathsConcat(files, links);
      forall p | p in Entries(src) ensures p in LinePaths(lines) {
        assert AttrOf(p, src[p]) in attrs[..|attrs|];
      }
    }

    static method Append(src: Tree, lines: seq<IndexLine>, p: Path) returns (more: seq<IndexLine>)
      requires p in Entries(src) && LinesOf(lines, Entries(src))
      ensures LinesOf(more, Entries(src)) && LinePaths(more) == LinePaths(lines) + {p}
    {
      more := lines + [(p, EntryOf(src[p]))];
      LinePathsConcat(lines, [(p, EntryOf(src[p]))]);
      assert [(p, EntryOf(src[p]))][0].0 in LinePaths([(p, EntryOf(src[p]))]);
    }

    /** One call of the index update: a line that cannot be read stops it, and then nothing of it counts. */
    method UpdateIndex(lines: seq<IndexLine>) returns (ok: bool)
      modifies this`index
      ensures ok <==> !Garbled(lines)
      ensures index == if ok then AddLines(old(index), lines, git.isProtected) else old(index)
    {
      ok := forall i | 0 <= i < |lines| :: !Garbles(Name(lines[i].0));
      if ok {
        index := AddLines(index, lines, git.isProtected);
      }
    }

    /** The index is updated batch by batch; the first failure ends it. */
    method UpdateInBatches(lines: seq<IndexLine>, ghost commit: Index) returns (ok: bool)
      requires PrefixFree(commit) && LinesOf(lines, commit) && LinePaths(lines) == commit.Keys
      requires Fits(index, git) && forall p | p in commit :: !Skipped(p) && Real(p)
      modifies this`index
      ensures ok <==> forall p | p in commit :: !Garbles(Name(p))
      ensures ok ==> index == Overlay(old(index), commit, Stored(commit.Keys, git.isProtected))
      ensures Fits(index, git)
    {
      ghost var before := index;
      var written := 0;
      OverlayNothing(index, commit, Stored(LinePaths(lines[..0]), git.isProtected));
      while written < |lines|
        invariant written <= |lines| && LinePaths(lines[..written]) <= commit.Keys
        invariant index == Overlay(before, commit, Stored(LinePaths(lines[..written]), git.isProtected))
        invariant !Garbled(lines[..written])
      {
        var next := if written + BATCH < |lines| then written + BATCH else |lines|;
        BatchOutcome(before, lines, commit, git.isProtected, written, next);
        OverlayFits(before, commit, LinePaths(lines[..written]), git);
        ok := UpdateIndex(lines[written..next]);
        if !ok {
          GarbledPath(lines, commit, written, next);
          return;
        }
        written := next;
      }
      assert lines[..written] == lines;
      OverlayFits(before, commit, commit.Keys, git);
      ReadableLines(lines, commit);
      ok := true;
    }

    /** What is listed and not to be kept is removed. */
    method PruneIndex(keep: set<string>)
      modifies this`index
      ensures index == Pruned(old(index), keep, git.matches)
    {
      RemovePathspecs(Extras(Names(index.Keys), keep));
    }

    /** One pathspec after the other, in any order. */
    method RemovePathspecs(extras: set<string>)
      modifies this`index
      ensures index == Without(old(index), extras, git.matches)
    {
      var todo := extras;
      ghost var gone := {};
      NothingRemoved(index, gone, git.matches);
      while todo != {}
        invariant gone + todo == extras
        invariant index == Without(old(index), gone, git.matches)
        decreases |todo|
      {
        var pathspec :| pathspec in todo;
        OneMoreRemoved(old(index), gone, pathspec, git.matches);
        index := map p | p in index && !git.matches(pathspec, Name(p)) :: index[p];
        todo, gone := todo - {pathspec}, gone + {pathspec};
      }
      assert gone == extras;
    }

    /** A snapshot. Whatever earlier snapshots and restores left in the index, it commits exactly the tree if and only
        if the names allow it; it is refused only if an index line cannot be read. */
    method Snapshot(src: Tree) returns (outcome: Outcome)
      requires Valid() && WellFormed(src) && forall p | p in src :: Real(p)
      modifies this
      ensures Valid() && old(commits) <= commits && old(trees) <= trees
      ensures outcome.Refused? <==> exists p | p in Entries(src) :: Garbles(Name(p))
      ensures outcome.Refused? ==> commits == old(commits) && attrs == old(attrs)
      ensures !outcome.Refused? ==> trees == old(trees) + [src] && outcome.id == |old(trees)| && index == commits[outcome.id]
      ensures !outcome.Refused? ==> (Exact(outcome.id) <==> NamesAllow(old(index), Entries(src), git))
      ensures PlainSnapshot(old(index), src) ==> !outcome.Refused? && Exact(outcome.id)
      ensures outcome.Taken? ==> attrs.Keys == old(attrs).Keys + {outcome.id}
      ensures outcome.Unlisted? ==> attrs == old(attrs)
    {
      if PlainSnapshot(index, src) {
        PlainNamesAllow(index, Entries(src), git);
      }
      var list := ListAttrs(src);
      var lines := IndexLines(src, list);
      EntriesArePrefixFree(src);
      CommittedIsTree(index, Entries(src), git);
      var ok := FillIndex(lines, Entries(src));
      if !ok {
        return Refused;
      }
      outcome := CommitIndex(src, list);
    }

    /** The index becomes what is to be committed. */
    method FillIndex(lines: seq<IndexLine>, ghost commit: Index) returns (ok: bool)
      requires PrefixFree(commit) && LinesOf(lines, commit) && LinePaths(lines) == commit.Keys
      requires Fits(index, git) && forall p | p in commit :: !Skipped(p) && Real(p)
      modifies this`index
      ensures ok <==> forall p | p in commit :: !Garbles(Name(p))
      ensures ok ==> index == Committed(old(index), commit, git)
      ensures Fits(index, git)
    {
      ok := UpdateInBatches(lines, commit);
      if ok {
        PrunedFits(index, Names(commit.Keys), git);
        PruneIndex(Names(LinePaths(lines)));
      }
    }

    /** The commit and then its attribute file. */
    method CommitIndex(ghost src: Tree, list: seq<Attr>) returns (outcome: Outcome)
      requires Valid() && WellFormed(src) && Describes(list, src)
      modifies this`commits, this`trees, this`attrs
      ensures Valid() && commits == old(commits) + [index] && trees == old(trees) + [src]
      ensures !outcome.Refused? && outcome.id == |old(commits)|
      ensures outcome.Taken? ==> attrs.Keys == old(attrs).Keys + {outcome.id}
      ensures outcome.Unlisted? ==> attrs == old(attrs)
    {
      var id := |commits|;
      commits := commits + [index];
      trees := trees + [src];
      if * {
        return Unlisted(id);
      }
      attrs := attrs[id := list];
      return Taken(id);
    }

    /** "checkout -f" of a commit: the index and the work tree follow it, local changes are lost, and files come out
        converted as attributes ask. */
    method Checkout(live: Tree, id: nat) returns (out: Tree)
      requires Valid() && WellFormed(live) && id < |commits|
      modifies this`index
      ensures CheckedOut(live, old(index), Converted(git, live, commits[id]), out) && index == commits[id]
    {
      var shown := Converted(git, live, commits[id]);
      assert Fits(commits[id], git);
      assert shown.Keys == commits[id].Keys;
      out := CheckoutTree(live, index, shown);
      CheckoutTreeIsCheckout(live, index, shown);
      index := commits[id];
    }

    /** One directory of the attribute list. */
    static method MakeDir(ghost now: Tree, tree: Tree, ghost t: Tree, ghost done: set<Path>, a: Attr) returns (made: Option<Tree>)
      requires WellFormed(tree) && WellFormed(t) && (Complete(now, t) ==> Partly(now, tree, t, done))
      requires a.path in Dirs(t) && a.mode == t[a.path].mode
      ensures made.None? && Complete(now, t) ==> Blocked(now, t)
      ensures made.Some? ==> WellFormed(made.value) && (Complete(now, t) ==> Partly(now, made.value, t, done + {a.path}))
    {
      if exists n | 0 < n <= |a.path| :: a.path[..n] in tree && !tree[a.path[..n]].Dir? {
        ghost var n :| 0 < n <= |a.path| && a.path[..n] in tree && !tree[a.path[..n]].Dir?;
        if Complete(now, t) {
          BlockedAt(now, tree, t, done, a.path, n);
        }
        var follows: bool := *;
        return if follows then Some(tree) else None;
      }
      assert a.path[..|a.path|] == a.path;
      var after := CreateDir(tree, a.path, a.mode | EXEC_BITS);
      CreateDirIsWellFormed(tree, a.path, a.mode | EXEC_BITS);
      if Complete(now, t) {
        CreateDirCreates(tree, t, a.path);
        DirStep(now, tree, t, done, a.path, after);
      }
      made := Some(after);
    }

    /** One record of the attribute list. */
    static method ApplyAttr(ghost now: Tree, tree: Tree, ghost t: Tree, ghost done: set<Path>, a: Attr) returns (after: Option<Tree>)
      requires WellFormed(tree) && WellFormed(t) && (Complete(now, t) ==> Partly(now, tree, t, done))
      requires a.path in Visible(t) && a == AttrOf(a.path, t[a.path])
      ensures after.None? && Complete(now, t) ==> Blocked(now, t)
      ensures after.Some? ==> WellFormed(after.value) && (Complete(now, t) ==> Partly(now, after.value, t, done + {a.path}))
    {
      if a.kind.DirKind? {
        after := MakeDir(now, tree, t, done, a);
        return;
      }
      if Complete(now, t) {
        FileStep(now, tree, t, done, a.path);
      }
      if a.kind.FileKind? && a.path in tree && tree[a.path].File? {
        return Some(tree[a.path := File(tree[a.path].data, a.mode)]);
      }
      return Some(tree);
    }

    /** The attribute loop of a restore: directories are created, modes set. A file or link in the place of a
        directory stops it, unless the link happens to lead to a directory. */
    static method ApplyAttrs(now: Tree, attrs: seq<Attr>, ghost t: Tree) returns (done: Option<Tree>)
      requires WellFormed(now) && WellFormed(t) && Describes(attrs, t)
      ensures Complete(now, t) && !Blocked(now, t) ==> done == Some(Applied(now, t))
      ensures Complete(now, t) && Blocked(now, t) && done.Some? ==> exists p | p in Dirs(t) :: p in done.value && !done.value[p].Dir?
      ensures done.Some? ==> WellFormed(done.value)
    {
      var tree := now;
      for i := 0 to |attrs|
        invariant WellFormed(tree) && (Complete(now, t) ==> Partly(now, tree, t, Paths(attrs[..i])))
      {
        assert attrs[i] in attrs;
        PathsSnoc(attrs, i);
        var after := ApplyAttr(now, tree, t, Paths(attrs[..i]), attrs[i]);
        if after.None? {
          return None;
        }
        tree := after.value;
      }
      assert attrs[..|attrs|] == attrs;
      ListedPaths(attrs, t);
      if Complete(now, t) {
        PartlyDone(now, tree, t);
      }
      done := Some(tree);
    }

    /** Restoring a version into a live directory. `full` is what lies there when the extras are looked for. */
    method Restore(id: nat, live: Tree) returns (result: Option<Tree>, full: Tree, listing: Listing)
      requires Valid() && WellFormed(live) && id < |commits|
      modifies this`index
      ensures Valid() && index == commits[id]
      // With an exact commit and its attribute file, the live directory shows exactly the snapshot, if and only if
      // nothing Git does not know sits where the snapshot has an empty directory, no file is converted on the way, and
      // no entry that has to go is listed behind a skipped directory.
      ensures id in attrs && Exact(id) ==>
        (ResultShows(result, WithExecDirs(Visible(trees[id]))) <==>
          && !Occupied(live, old(index), trees[id]) && Unconverted(git, live, commits[id])
          && AllFound(full, Visible(trees[id]).Keys, listing))
      ensures id in attrs && Exact(id) && !Occupied(live, old(index), trees[id]) ==>
        Replaced(live, old(index), trees[id], full, listing, result)
      // Without it every directory counts as an extra, and only top-level files and links are left, and what is found
      // too late.
      ensures id !in attrs ==> result.Some? && CheckedOut(live, old(index), Converted(git, live, commits[id]), full)
      ensures id !in attrs ==> Lists(full, listing) && OnlyTop(full, commits[id].Keys, listing, result.value)
      ensures id !in attrs && NoneSkipped(live) ==> Visible(result.value).Keys == set p | p in commits[id] && |p| == 1
    {
      var out := Checkout(live, id);
      full := out;
      ghost var t := trees[id];
      if id !in attrs {
        // The attribute list counts as empty: only the files named by the commit are kept.
        var rest;
        rest, listing := RemoveExtras(out, commits[id].Keys);
        OnlyTopStays(out, commits[id].Keys, listing);
        if NoneSkipped(live) {
          NoneSkippedStays(live, old(index), Converted(git, live, commits[id]), out);
          AllTopFound(out, commits[id].Keys, listing, rest);
        }
        return Some(rest), full, listing;
      }
      ghost var shown := Converted(git, live, commits[id]);
      if Exact(id) {
        ConvertedShows(git, live, commits[id]);
        OccupiedIsBlocked(live, old(index), t, shown, out);
      }
      result, full, listing := FinishRestore(out, attrs[id], commits[id], t, live, old(index), shown);
    }

    /** Attributes, then extras. */
    static method FinishRestore(out: Tree, list: seq<Attr>, commit: Index, ghost t: Tree, ghost live: Tree, ghost index: Index,
                                ghost shown: Index)
      returns (result: Option<Tree>, full: Tree, listing: Listing)
      requires WellFormed(live) && WellFormed(t) && Describes(list, t)
      requires Shows(shown, commit) && CheckedOut(live, index, shown, out) && forall p | p in index :: !Skipped(p)
      ensures commit == Entries(t) ==>
        (ResultShows(result, WithExecDirs(Visible(t))) <==>
          !Blocked(out, t) && shown == commit && AllFound(full, Visible(t).Keys, listing))
      ensures commit == Entries(t) && !Blocked(out, t) ==> Replaced(live, index, t, full, listing, result)
    {
      full, listing := out, map[];
      var done := ApplyAttrs(out, list, t);
      if done.None? {
        return None, full, listing;
      }
      full := done.value;
      var kept := Paths(list) + commit.Keys;
      var left;
      left, listing := RemoveExtras(done.value, kept);
      if commit == Entries(t) {
        KeptPaths(list, t);
        ExactRestore(out, done.value, t, live, index, shown, left, listing);
      }
      result := Some(left);
    }
  }

  /** What a restore shows. */
  predicate ResultShows(result: Option<Tree>, want: Tree)
  {
    result.Some? && Visible(result.value) == want
  }

  /** The snapshot is laid over the live tree and what is not part of it removed. */
  ghost predicate Replaced(live: Tree, index: Index, t: Tree, full: Tree, listing: Listing, result: Option<Tree>)
  {
    && result.Some? && WellFormed(full) && Laid(live, index, t, full) && Lists(full, listing)
    && result.value == WithoutExtras(full, Visible(t).Keys, listing)
    && (NoneSkipped(live) ==> AllFound(full, Visible(t).Keys, listing))
    && (forall p | p in live && Skipped(p) :: SkippedFate(live, t, full, listing, result.value, p))
  }

  /** A skipped entry survives below a directory of the snapshot, and only there if every extra is found. */
  ghost predicate SkippedFate(live: Tree, t: Tree, full: Tree, listing: Listing, left: Tree, p: Path)
    requires p in live
  {
    && (HangsFromDirectory(p, t) ==> p in left && left[p] == live[p])
    && (AllFound(full, Visible(t).Keys, listing) && p in left ==> HangsFromDirectory(p, t))
  }

  ghost predicate OnlyTop(full: Tree, kept: set<Path>, listing: Listing, left: Tree)
  {
    && WellFormed(full) && (forall p | p in left :: p in full && left[p] == full[p])
    && forall p | p in Visible(full) :: p in left <==> !Reached(full, listing, p[..1]) || (|p| == 1 && p in kept)
  }

  lemma OnlyTopStays(full: Tree, kept: set<Path>, listing: Listing)
    requires WellFormed(full) && forall q | q in kept && q in full :: !full[q].Dir?
    ensures OnlyTop(full, kept, listing, WithoutExtras(full, kept, listing))
  {
    forall p | p in Visible(full)
      ensures p in WithoutExtras(full, kept, listing) <==> !Reached(full, listing, p[..1]) || (|p| == 1 && p in kept)
    {
      NoDirectoriesKept(full, kept, listing, p);
    }
  }

  lemma NoneSkippedStays(live: Tree, index: Index, shown: Index, out: Tree)
    requires NoneSkipped(live) && CheckedOut(live, index, shown, out) && forall p | p in shown :: !Skipped(p)
    ensures NoneSkipped(out)
  {
    forall p | p in out ensures !Ends(out, p) {
      forall q | q in shown && p < q ensures !Skipped(p) {
        assert forall i | 0 <= i < |p| :: p[i] == q[i];
      }
      assert Ends(out, p) ==> Ends(live, p);
    }
  }

  lemma AllTopFound(out: Tree, kept: set<Path>, listing: Listing, left: Tree)
    requires NoneSkipped(out) && Lists(out, listing) && OnlyTop(out, kept, listing, left)
    requires forall p | p in kept :: p in out && !Skipped(p)
    ensures Visible(left).Keys == set p | p in kept && |p| == 1
  {
    forall p | p in Visible(out) ensures p in left <==> |p| == 1 && p in kept {
      TopReached(out, listing, p);
    }
  }

  lemma TopReached(out: Tree, listing: Listing, p: Path)
    requires WellFormed(out) && NoneSkipped(out) && Lists(out, listing) && p in out
    ensures Reached(out, listing, p[..1])
  {
    var top := p[..1];
    assert p[..|p|] == p && (|p| > 1 ==> top in out);
    EntryComes(out, listing, top);
    assert top[..1] == top;
  }

  lemma ConvertedShows(git: Git, live: Tree, commit: Index)
    ensures Shows(Converted(git, live, commit), commit)
    ensures Converted(git, live, commit) == commit <==> Unconverted(git, live, commit)
  {
    UnconvertedIsSame(git, live, commit);
  }

  lemma KeptPaths(attrs: seq<Attr>, t: Tree)
    requires Describes(attrs, t)
    ensures Paths(attrs) + Entries(t).Keys == Visible(t).Keys
  {
    ListedPaths(attrs, t);
  }

  lemma ExactRestore(out: Tree, done: Tree, t: Tree, live: Tree, index: Index, shown: Index, left: Tree, listing: Listing)
    requires WellFormed(live) && WellFormed(t) && forall p | p in index :: !Skipped(p)
    requires Shows(shown, Entries(t)) && CheckedOut(live, index, shown, out)
    requires Lists(done, listing) && left == WithoutExtras(done, Visible(t).Keys, listing)
    requires if Blocked(out, t) then exists p | p in Dirs(t) :: p in done && !done[p].Dir? else done == Applied(out, t)
    ensures Visible(left) == WithExecDirs(Visible(t))
       <==> !Blocked(out, t) && shown == Entries(t) && AllFound(done, Visible(t).Keys, listing)
    ensures !Blocked(out, t) ==> Replaced(live, index, t, done, listing, Some(left))
  {
    if Blocked(out, t) {
      WrongNodeShows(done, t, left, listing);
    } else {
      RestoredIsSnapshot(out, t, live, index, shown, listing);
      AppliedIsLaid(out, t, live, index, shown);
      if NoneSkipped(live) {
        NothingMissed(live, index, t, done, Visible(t).Keys, listing);
      }
      forall p | p in live && Skipped(p) ensures SkippedFate(live, t, done, listing, left, p) {
        SkippedSurvivesRestore(live, index, t, shown, out, p, listing);
      }
    }
  }

  /** All files and links of the snapshot are in place. */
  ghost predicate Complete(now: Tree, t: Tree)
  {
    forall p | p in Entries(t) :: p in now && !now[p].Dir?
  }

  function Paths(attrs: seq<Attr>): set<Path>
  {
    set a | a in attrs :: a.path
  }

  lemma PathsSnoc(attrs: seq<Attr>, i: nat)
    requires i < |attrs|
    ensures Paths(attrs[..i + 1]) == Paths(attrs[..i]) + {attrs[i].path}
  {
    assert attrs[..i + 1] == attrs[..i] + [attrs[i]];
  }

  lemma ListedPaths(attrs: seq<Attr>, t: Tree)
    requires Describes(attrs, t)
    ensures Paths(attrs) == Visible(t).Keys
  {
    forall p | p in Visible(t) ensures p in Paths(attrs) {
      assert AttrOf(p, t[p]) in attrs;
    }
  }

  lemma WrongNodeShows(now: Tree, t: Tree, left: Tree, listing: Listing)
    requires exists p | p in Dirs(t) :: p in now && !now[p].Dir?
    requires left == WithoutExtras(now, Visible(t).Keys, listing)
    ensures Visible(left) != WithExecDirs(Visible(t))
  {
    var p :| p in Dirs(t) && p in now && !now[p].Dir?;
    assert WithExecDirs(Visible(t))[p].Dir?;
    if p in left {
      assert Visible(left)[p] != WithExecDirs(Visible(t))[p];
    }
  }

  lemma LinePathsConcat(a: seq<IndexLine>, b: seq<IndexLine>)
    ensures LinePaths(a + b) == LinePaths(a) + LinePaths(b)
  {
    forall p | p in LinePaths(a) + LinePaths(b) ensures p in LinePaths(a + b) {
      if p in LinePaths(a) {
        var i :| 0 <= i < |a| && a[i].0 == p;
        assert (a + b)[i].0 == p;
      } else {
        var i :| 0 <= i < |b| && b[i].0 == p;
        assert (a + b)[|a| + i].0 == p;
      }
    }
  }

  ghost predicate Garbled(lines: seq<IndexLine>)
  {
    exists i | 0 <= i < |lines| :: Garbles(Name(lines[i].0))
  }

  lemma GarbledPath(lines: seq<IndexLine>, commit: Index, from: nat, to: nat)
    requires LinesOf(lines, commit) && from <= to <= |lines| && Garbled(lines[from..to])
    ensures exists p | p in commit :: Garbles(Name(p))
  {
    var i :| 0 <= i < to - from && Garbles(Name(lines[from..to][i].0));
    assert lines[from + i].0 in commit;
  }

  lemma ReadableLines(lines: seq<IndexLine>, commit: Index)
    requires LinePaths(lines) == commit.Keys && !Garbled(lines)
    ensures forall p | p in commit :: !Garbles(Name(p))
  {
    forall p | p in commit ensures !Garbles(Name(p)) {
      assert p in LinePaths(lines);
    }
  }

  lemma BatchOutcome(before: Index, lines: seq<IndexLine>, commit: Index, isProtected: string -> bool, written: nat, next: nat)
    requires PrefixFree(commit) && LinesOf(lines, commit) && written <= next <= |lines|
    requires LinePaths(lines[..written]) <= commit.Keys
    ensures LinePaths(lines[..next]) <= commit.Keys
    ensures var now := Overlay(before, commit, Stored(LinePaths(lines[..written]), isProtected));
      AddLines(now, lines[written..next], isProtected) == Overlay(before, commit, Stored(LinePaths(lines[..next]), isProtected))
    ensures Garbled(lines[..next]) <==> Garbled(lines[..written]) || Garbled(lines[written..next])
  {
    var done, batch := lines[..written], lines[written..next];
    var now := Overlay(before, commit, Stored(LinePaths(done), isProtected));
    LinePathsConcat(done, batch);
    assert lines[..next] == done + batch;
    AddLinesReplaces(now, batch, commit, isProtected);
    assert Stored(LinePaths(done + batch), isProtected) == Stored(LinePaths(done), isProtected) + Stored(LinePaths(batch), isProtected);
    OverlayTwice(before, commit, Stored(LinePaths(done), isProtected), Stored(LinePaths(batch), isProtected));
    GarbledConcat(done, batch);
  }

  lemma GarbledConcat(a: seq<IndexLine>, b: seq<IndexLine>)
    ensures Garbled(a + b) <==> Garbled(a) || Garbled(b)
  {
    if Garbled(a) {
      var i :| 0 <= i < |a| && Garbles(Name(a[i].0));
      assert (a + b)[i] == a[i];
    }
    if Garbled(b) {
      var i :| 0 <= i < |b| && Garbles(Name(b[i].0));
      assert (a + b)[|a| + i] == b[i];
    }
  }

  lemma NothingRemoved(index: Index, extras: set<string>, matches: Matcher)
    requires extras == {}
    ensures Without(index, extras, matches) == index
  {
  }

  lemma OneMoreRemoved(index: Index, extras: set<string>, pathspec: string, matches: Matcher)
    ensures var before := Without(index, extras, matches);
      (map p | p in before && !matches(pathspec, Name(p)) :: before[p]) == Without(index, extras + {pathspec}, matches)
  {
    forall p | p in index
      ensures Goes(matches, extras + {pathspec}, Name(p)) <==> Goes(matches, extras, Name(p)) || matches(pathspec, Name(p))
    {
      assert pathspec in extras + {pathspec};
      if Goes(matches, extras, Name(p)) {
        var e :| e in extras && matches(e, Name(p));
        assert e in extras + {pathspec};
      }
    }
  }

  lemma PrunedFits(index: Index, keep: set<string>, git: Git)
    requires Fits(index, git)
    ensures Fits(Pruned(index, keep, git.matches), git)
  {
  }
}
