/** Snapshots of a project tree in one shared Git repository and their restoration
    (src/backup.rs:142-288, 347-467). Git itself is a content store plus one index; object names
    are taken to be injective, so an index entry holds the content it names. */
module GitSnapshots {
  import opened Text
  import opened LogLines
  import opened Trees
  import opened ContentsFirst
  import opened Removal
  import opened IndexNames

  datatype Entry =
    | Blob(executable: bool, data: seq<Byte>)
    | LinkBlob(target: string)

  type Index = map<Path, Entry>

  datatype Kind = DirKind | FileKind | LinkKind

  /** One record of the attribute file kept beside each commit. */
  datatype Attr = Attr(path: Path, kind: Kind, mode: Mode)

  function EntryOf(node: Node): Entry
    requires !node.Dir?
  {
    match node
    case File(data, mode) => Blob(mode & EXEC_BITS != 0, data)
    case Link(target) => LinkBlob(target)
  }

  /** Two nodes make the same entry exactly if they are files with the same data, both executable by somebody or neither,
      or links to the same place. */
  lemma SameEntry(a: Node, b: Node)
    requires !a.Dir? && !b.Dir?
    ensures EntryOf(a) == EntryOf(b) <==>
      || (a.File? && b.File? && a.data == b.data && (a.mode & 0x49 == 0 <==> b.mode & 0x49 == 0))
      || (a.Link? && b.Link? && a.target == b.target)
  {
  }

  /** Reference: what a commit of a tree should contain. */
  function Entries(t: Tree): Index
  {
    map p | p in t && !Skipped(p) && !t[p].Dir? :: EntryOf(t[p])
  }

  function AttrOf(p: Path, node: Node): Attr
  {
    match node
    case Dir(mode) => Attr(p, DirKind, mode)
    case File(_, mode) => Attr(p, FileKind, mode)
    case Link(_) => Attr(p, LinkKind, 0)
  }

  /** The attribute file of a tree lists exactly its visible entries. */
  ghost predicate Describes(attrs: seq<Attr>, t: Tree)
  {
    forall a :: a in attrs <==> a.path in Visible(t) && a == AttrOf(a.path, t[a.path])
  }

  /** Two paths cannot both be index entries if one is a directory above the other. */
  predicate Conflict(p: Path, q: Path)
  {
    p < q || q < p
  }

  ghost predicate PrefixFree(index: Index)
  {
    forall p, q | p in index && q in index :: !Conflict(p, q)
  }

  type IndexLine = (Path, Entry)

  /** Storing an entry drops those whose paths conflict with its own. */
  function AddLine(index: Index, line: IndexLine): Index
  {
    (map p | p in index && !Conflict(p, line.0) :: index[p])[line.0 := line.1]
  }

  /** "update-index --add --index-info": the lines are stored one after the other, except those with a name that Git
      protects, which are passed over. */
  function AddLines(index: Index, lines: seq<IndexLine>, isProtected: string -> bool): Index
  {
    if lines == [] then index
    else
      var before := AddLines(index, Init(lines), isProtected);
      if isProtected(Name(Last(lines).0)) then before else AddLine(before, Last(lines))
  }

  function LinePaths(lines: seq<IndexLine>): set<Path>
  {
    set i | 0 <= i < |lines| :: lines[i].0
  }

  /** The lines agree with the reference commit of a tree. */
  ghost predicate LinesOf(lines: seq<IndexLine>, commit: Index)
  {
    forall i | 0 <= i < |lines| :: lines[i].0 in commit && commit[lines[i].0] == lines[i].1
  }

  lemma EntriesArePrefixFree(t: Tree)
    requires WellFormed(t)
    ensures PrefixFree(Entries(t))
  {
    forall p, q | q in Entries(t) && p < q ensures p !in Entries(t) {
      assert p == q[..|p|];
    }
  }

  /** `index` with the entries of `commit` at some paths, and nothing that conflicts with them. */
  function Overlay(index: Index, commit: Index, at: set<Path>): Index
    requires at <= commit.Keys
  {
    map p | p in index.Keys + at && (p in at || forall q | q in at :: !Conflict(p, q)) :: if p in at then commit[p] else index[p]
  }

  /** The paths of a commit that Git does not pass over. */
  function Stored(paths: set<Path>, isProtected: string -> bool): set<Path>
  {
    set p | p in paths && !isProtected(Name(p))
  }

  /** The lines of a tree replace whatever is left in the index in their way. */
  lemma {:induction false} AddLinesReplaces(index: Index, lines: seq<IndexLine>, commit: Index, isProtected: string -> bool)
    requires PrefixFree(commit) && LinesOf(lines, commit)
    ensures Stored(LinePaths(lines), isProtected) <= commit.Keys
    ensures AddLines(index, lines, isProtected) == Overlay(index, commit, Stored(LinePaths(lines), isProtected))
  {
    if lines == [] {
      OverlayNothing(index, commit, Stored(LinePaths(lines), isProtected));
    } else {
      var before, line := Init(lines), Last(lines);
      AddLinesReplaces(index, before, commit, isProtected);
      LinePathsSnoc(before, line);
      assert lines == before + [line];
      var at := Stored(LinePaths(before), isProtected);
      if isProtected(Name(line.0)) {
        assert Stored(LinePaths(lines), isProtected) == at;
      } else {
        assert Stored(LinePaths(lines), isProtected) == at + {line.0};
        OverlayOneMore(index, commit, at, line.0);
      }
    }
  }

  lemma LinePathsSnoc(lines: seq<IndexLine>, line: IndexLine)
    ensures LinePaths(lines + [line]) == LinePaths(lines) + {line.0}
  {
    var more := lines + [line];
    assert more[|lines|] == line;
    forall i | 0 <= i < |lines| ensures lines[i].0 in LinePaths(more) {
      assert more[i] == lines[i];
    }
  }

  lemma OverlayNothing(index: Index, commit: Index, at: set<Path>)
    requires at == {}
    ensures Overlay(index, commit, at) == index
  {
  }

  lemma OverlayOneMore(index: Index, commit: Index, at: set<Path>, p: Path)
    requires PrefixFree(commit) && at <= commit.Keys && p in commit
    ensures AddLine(Overlay(index, commit, at), (p, commit[p])) == Overlay(index, commit, at + {p})
  {
    var more := AddLine(Overlay(index, commit, at), (p, commit[p]));
    forall q ensures q in more <==> q in Overlay(index, commit, at + {p}) {
      assert q in at ==> !Conflict(q, p);
    }
  }

  lemma OverlayTwice(index: Index, commit: Index, a: set<Path>, b: set<Path>)
    requires PrefixFree(commit) && a <= commit.Keys && b <= commit.Keys
    ensures Overlay(Overlay(index, commit, a), commit, b) == Overlay(index, commit, a + b)
  {
  }

  lemma OverlayIsPrefixFree(index: Index, commit: Index, at: set<Path>)
    requires PrefixFree(index) && PrefixFree(commit) && at <= commit.Keys
    ensures PrefixFree(Overlay(index, commit, at))
  {
  }

  /** What an earlier snapshot left in the index and the new one does not replace. */
  function Stale(index: Index, commit: Index, at: set<Path>): set<Path>
  {
    set p | p in index && p !in at && forall q | q in at :: !Conflict(p, q)
  }

  /** What Git does that depends on names, and what a checkout over a work tree makes of a file's data: the attribute
      files of the commit and of the work tree, and the configuration, may ask for conversions. */
  datatype Git = Git(matches: Matcher, isProtected: string -> bool, convert: (Tree, Index, Path, seq<Byte>) -> seq<Byte>)

  /** An index as snapshots make it. */
  ghost predicate Fits(index: Index, git: Git)
  {
    PrefixFree(index) && forall p | p in index :: !Skipped(p) && Real(p) && !git.isProtected(Name(p))
  }

  lemma OverlayFits(index: Index, commit: Index, at: set<Path>, git: Git)
    requires Fits(index, git) && PrefixFree(commit) && at <= commit.Keys
    requires forall p | p in commit :: !Skipped(p) && Real(p)
    ensures Fits(Overlay(index, commit, Stored(at, git.isProtected)), git)
  {
    OverlayIsPrefixFree(index, commit, Stored(at, git.isProtected));
  }

  /** The index after pruning. */
  function Pruned(index: Index, keep: set<string>, matches: Matcher): Index
  {
    Without(index, Extras(Names(index.Keys), keep), matches)
  }

  function Without(index: Index, extras: set<string>, matches: Matcher): Index
  {
    map p | p in index && !Goes(matches, extras, Name(p)) :: index[p]
  }

  /** What a snapshot commits. */
  function Committed(index: Index, commit: Index, git: Git): Index
  {
    Pruned(Overlay(index, commit, Stored(commit.Keys, git.isProtected)), Names(commit.Keys), git.matches)
  }

  /** What has to be true of the names for a snapshot to be right: Git passes none over, and pruning takes what is
      stale and nothing else. */
  predicate NamesAllow(index: Index, commit: Index, git: Git)
  {
    && (forall p | p in commit :: !git.isProtected(Name(p)))
    && Prunes(git.matches, Names(Stale(index, commit, commit.Keys)), Names(commit.Keys))
  }

  lemma OverlayNames(index: Index, commit: Index)
    ensures Overlay(index, commit, commit.Keys).Keys == Stale(index, commit, commit.Keys) + commit.Keys
    ensures Names(Overlay(index, commit, commit.Keys).Keys) == Names(Stale(index, commit, commit.Keys)) + Names(commit.Keys)
  {
    assert Overlay(index, commit, commit.Keys).Keys == Stale(index, commit, commit.Keys) + commit.Keys;
  }

  lemma AllGo(matches: Matcher, extras: set<string>, paths: set<Path>)
    ensures (forall n | n in Names(paths) :: Goes(matches, extras, n)) <==> forall p | p in paths :: Goes(matches, extras, Name(p))
  {
    forall p | p in paths ensures Name(p) in Names(paths) {
    }
  }

  lemma NoneGoes(matches: Matcher, extras: set<string>, paths: set<Path>)
    ensures (forall n | n in Names(paths) :: !Goes(matches, extras, n)) <==> forall p | p in paths :: !Goes(matches, extras, Name(p))
  {
    forall p | p in paths ensures Name(p) in Names(paths) {
    }
  }

  /** Removing comes to the commit exactly if all that is stale goes and nothing else. */
  lemma WithoutIsExact(all: Index, stale: set<Path>, commit: Index, extras: set<string>, matches: Matcher)
    requires all.Keys == stale + commit.Keys && stale !! commit.Keys && forall p | p in commit :: all[p] == commit[p]
    ensures Without(all, extras, matches) == commit
       <==> (forall p | p in stale :: Goes(matches, extras, Name(p))) && forall p | p in commit :: !Goes(matches, extras, Name(p))
  {
    var left := Without(all, extras, matches);
    if left == commit {
      forall p | p in stale ensures Goes(matches, extras, Name(p)) {
        assert p in all && p !in left;
      }
      forall p | p in commit ensures !Goes(matches, extras, Name(p)) {
        assert p in left;
      }
    }
  }

  lemma PruningIsExact(index: Index, commit: Index, matches: Matcher)
    ensures Pruned(Overlay(index, commit, commit.Keys), Names(commit.Keys), matches) == commit
       <==> Prunes(matches, Names(Stale(index, commit, commit.Keys)), Names(commit.Keys))
  {
    var all := Overlay(index, commit, commit.Keys);
    var stale := Stale(index, commit, commit.Keys);
    OverlayNames(index, commit);
    var extras := Extras(Names(stale) + Names(commit.Keys), Names(commit.Keys));
    WithoutIsExact(all, stale, commit, extras, matches);
    AllGo(matches, extras, stale);
    NoneGoes(matches, extras, commit.Keys);
  }

  /** Whatever the index held before, a snapshot commits exactly the tree if and only if the names allow it. */
  lemma CommittedIsTree(index: Index, commit: Index, git: Git)
    requires Fits(index, git)
    ensures Committed(index, commit, git) == commit <==> NamesAllow(index, commit, git)
  {
    var at := Stored(commit.Keys, git.isProtected);
    if p :| p in commit && git.isProtected(Name(p)) {
      assert p !in index && p !in Committed(index, commit, git);
    } else {
      assert at == commit.Keys;
      PruningIsExact(index, commit, git.matches);
    }
  }

  ghost predicate AllPlain(index: Index)
  {
    forall p | p in index :: Plain(Name(p))
  }

  /** Plain names allow it: nothing is refused, passed over, left behind or taken along. */
  lemma PlainNamesAllow(index: Index, commit: Index, git: Git)
    requires Fits(index, git) && Literal(git.matches) && AllPlain(index) && AllPlain(commit)
    requires forall p | p in commit :: Real(p) && !git.isProtected(Name(p))
    ensures NamesAllow(index, commit, git) && forall p | p in commit :: !Garbles(Name(p))
  {
    var stale, keep := Names(Stale(index, commit, commit.Keys)), Names(commit.Keys);
    forall n | n in stale && n in keep ensures false {
      var p :| p in Stale(index, commit, commit.Keys) && Name(p) == n;
      var q :| q in commit && Name(q) == n;
      NameIsInjective(p, q);
    }
    PlainNamesPrune(git.matches, stale, keep);
    forall p | p in commit ensures !Garbles(Name(p)) {
      PlainIsReadable(Name(p));
    }
  }

  /** Restored directories always get their execute bits. */
  function WithExecDirs(t: Tree): Tree
  {
    map p | p in t :: if t[p].Dir? then Dir(t[p].mode | EXEC_BITS) else t[p]
  }

  /** Files and links are as they were, directories too but for their execute bits, which are all set. */
  lemma OnlyExecBitsAdded(t: Tree, p: Path)
    ensures WithExecDirs(t).Keys == t.Keys
    ensures p in t && !t[p].Dir? ==> WithExecDirs(t)[p] == t[p]
    ensures p in t && t[p].Dir? ==>
      var restored := WithExecDirs(t)[p];
      restored.Dir? && restored.mode & 0x49 == 0x49 && restored.mode & 0xffb6 == t[p].mode & 0xffb6
  {
  }

  function ConvertedEntry(git: Git, live: Tree, commit: Index, p: Path): Entry
    requires p in commit
  {
    match commit[p]
    case Blob(executable, data) => Blob(executable, git.convert(live, commit, p, data))
    case LinkBlob(target) => LinkBlob(target)
  }

  /** The files of a commit as a checkout writes them; links are never converted. */
  function Converted(git: Git, live: Tree, commit: Index): Index
  {
    map p | p in commit :: ConvertedEntry(git, live, commit, p)
  }

  predicate Unconverted(git: Git, live: Tree, commit: Index)
  {
    forall p | p in commit && commit[p].Blob? :: git.convert(live, commit, p, commit[p].data) == commit[p].data
  }

  const ATTRIBUTE_FILE := ".gitattributes"

  predicate HasAttributes(paths: set<Path>)
  {
    exists p | p in paths :: p != [] && Last(p) == ATTRIBUTE_FILE
  }

  /** A configuration that converts nothing of its own. */
  ghost predicate AttributesOnly(git: Git)
  {
    forall live: Tree, commit: Index, p, data | !HasAttributes(live.Keys + commit.Keys) :: git.convert(live, commit, p, data) == data
  }

  lemma UnconvertedIsSame(git: Git, live: Tree, commit: Index)
    ensures Converted(git, live, commit) == commit <==> Unconverted(git, live, commit)
    ensures AttributesOnly(git) && !HasAttributes(live.Keys + commit.Keys) ==> Unconverted(git, live, commit)
  {
    if p :| p in commit && commit[p].Blob? && git.convert(live, commit, p, commit[p].data) != commit[p].data {
      assert Converted(git, live, commit)[p] != commit[p];
    }
  }

  const RETURN: Byte := 13

  /** "eol=crlf". */
  function WithCrLf(data: seq<Byte>): seq<Byte>
  {
    if data == [] then [] else (if data[0] == NEWLINE then [RETURN, NEWLINE] else [data[0]]) + WithCrLf(data[1..])
  }

  /** It takes no more than an attribute file in the commit: what was stored with line ends comes back with others. */
  lemma LineEndsAreConverted(git: Git, live: Tree, commit: Index, name: Path, rules: Entry, data: seq<Byte>)
    requires git.convert == ((live: Tree, commit: Index, p: Path, data: seq<Byte>) =>
               if p == name && HasAttributes(commit.Keys) then WithCrLf(data) else data)
    requires commit == map[[ATTRIBUTE_FILE] := rules, name := Blob(false, data)] && name != [ATTRIBUTE_FILE]
    ensures AttributesOnly(git) && Converted(git, live, commit)[name] == Blob(false, WithCrLf(data))
    ensures Unconverted(git, live, commit) <==> NEWLINE !in data
  {
    assert Last([ATTRIBUTE_FILE]) == ATTRIBUTE_FILE && [ATTRIBUTE_FILE] in commit.Keys;
    assert HasAttributes(commit.Keys) && name in commit;
    assert forall live: Tree, other: Index | HasAttributes(other.Keys) :: HasAttributes(live.Keys + other.Keys);
    CrLfChanges(data);
  }

  lemma {:induction false} CrLfChanges(data: seq<Byte>)
    ensures |WithCrLf(data)| >= |data| && (WithCrLf(data) == data <==> NEWLINE !in data)
  {
    if data != [] {
      CrLfChanges(data[1..]);
      assert data == [data[0]] + data[1..];
      if data[0] == NEWLINE {
        assert WithCrLf(data)[0] == RETURN;
      }
    }
  }

  /** What "checkout -f" leaves of a work tree: the commit's files, the directories above them, and whatever
      was neither tracked nor in the way. Directories it emptied may or may not be gone. */
  ghost predicate CheckedOut(live: Tree, index: Index, target: Index, out: Tree)
  {
    && WellFormed(out)
    && (forall p | p in target :: p in out && !out[p].Dir? && EntryOf(out[p]) == target[p])
    && (forall p | p in out && p !in target ::
          || (out[p].Dir? && exists q | q in target :: p < q)
          || (p in live && out[p] == live[p] && (p in index ==> live[p].Dir?)))
    && (forall p | p in live && Untouched(live, index, target, p) :: p in out && out[p] == live[p])
  }

  ghost predicate Untouched(live: Tree, index: Index, target: Index, p: Path)
    requires p in live
  {
    && (Skipped(p) || !live[p].Dir?) && (p in index ==> live[p].Dir?)
    && forall q | q in target :: !(q <= p) && !(p < q)
  }

  /** An empty directory of the snapshot whose place is taken by something Git does not know. */
  ghost predicate Occupied(live: Tree, index: Index, t: Tree)
  {
    exists p | p in Visible(t) && t[p].Dir? ::
      (forall q | q in Entries(t) :: !(p < q)) && p in live && !live[p].Dir? && p !in index
  }

  ghost predicate Blocked(now: Tree, t: Tree)
  {
    exists p | p in Visible(t) && t[p].Dir? :: p in now && !now[p].Dir?
  }

  lemma NoEntryAbove(t: Tree, p: Path)
    requires WellFormed(t) && p in t && t[p].Dir?
    ensures forall q | q in Entries(t) :: !(q <= p)
  {
    forall q | q in t && q <= p ensures t[q].Dir? {
      assert q == p[..|q|] && q != [];
      assert |q| == |p| ==> q == p;
    }
  }

  lemma OccupiedIsBlocked(live: Tree, index: Index, t: Tree, shown: Index, out: Tree)
    requires WellFormed(live) && WellFormed(t) && shown.Keys == Entries(t).Keys && CheckedOut(live, index, shown, out)
    ensures Blocked(out, t) <==> Occupied(live, index, t)
  {
    forall p | p in Visible(t) && t[p].Dir?
      ensures p in out && !out[p].Dir?
         <==> (forall q | q in Entries(t) :: !(p < q)) && p in live && !live[p].Dir? && p !in index
    {
      OccupiedThere(live, index, t, shown, out, p);
    }
  }

  lemma OccupiedThere(live: Tree, index: Index, t: Tree, shown: Index, out: Tree, p: Path)
    requires WellFormed(t) && shown.Keys == Entries(t).Keys && CheckedOut(live, index, shown, out)
    requires p in Visible(t) && t[p].Dir?
    ensures p in out && !out[p].Dir?
       <==> (forall q | q in Entries(t) :: !(p < q)) && p in live && !live[p].Dir? && p !in index
  {
    NoEntryAbove(t, p);
    forall q | q in Entries(t) && p < q ensures p in out && out[p].Dir? {
      assert p == q[..|p|];
    }
  }

  function AppliedNode(now: Node, t: Tree, p: Path): Node
  {
    if p in t && !Skipped(p) && t[p].File? && now.File? then File(now.data, t[p].mode) else now
  }

  /** The attributes applied to a checked-out tree: directories created, modes set. */
  function Applied(now: Tree, t: Tree): Tree
  {
    map p | p in now.Keys + Dirs(t) ::
      if p in Dirs(t) then Dir(t[p].mode | EXEC_BITS) else AppliedNode(now[p], t, p)
  }

  lemma AppliedIsWellFormed(now: Tree, t: Tree)
    requires WellFormed(now) && WellFormed(t) && !Blocked(now, t)
    requires forall p | p in Entries(t) :: p in now && !now[p].Dir?
    ensures WellFormed(Applied(now, t))
  {
    var after := Applied(now, t);
    forall p, n | p in after && 0 < n < |p| ensures p[..n] in after && after[p[..n]].Dir? {
      if p in now {
        assert now[p[..n]].Dir?;
      } else if Skipped(p[..n]) {
        SkippedBelow(p, n);
      }
    }
  }

  /** Entries may differ from those of the commit in the data of files. */
  ghost predicate Shows(shown: Index, commit: Index)
  {
    && shown.Keys == commit.Keys
    && forall p | p in commit ::
         shown[p] == commit[p] || (shown[p].Blob? && commit[p].Blob? && shown[p].executable == commit[p].executable)
  }

  /** A complete restore shows the snapshot and nothing else, if and only if nothing was converted and the walk finds
      all that has to go. */
  lemma RestoredIsSnapshot(now: Tree, t: Tree, live: Tree, index: Index, shown: Index, listing: Listing)
    requires WellFormed(now) && WellFormed(t) && WellFormed(live) && !Blocked(now, t)
    requires Shows(shown, Entries(t)) && CheckedOut(live, index, shown, now)
    ensures WellFormed(Applied(now, t))
    ensures Visible(WithoutExtras(Applied(now, t), Visible(t).Keys, listing)) == WithExecDirs(Visible(t))
       <==> shown == Entries(t) && AllFound(Applied(now, t), Visible(t).Keys, listing)
  {
    AppliedIsWellFormed(now, t);
    VisibleIsClosed(t);
    ClosedKeepsExactly(Applied(now, t), Visible(t).Keys, listing);
    KeptIsAsShown(now, t, live, index, shown);
    ShowsWanted(Applied(now, t), WithoutExtras(Applied(now, t), Visible(t).Keys, listing), WithExecDirs(Visible(t)));
  }

  lemma ShowsWanted(full: Tree, left: Tree, want: Tree)
    requires forall p | p in left :: p in full && left[p] == full[p]
    ensures Visible(left) == want <==> Visible(left) == AsKept(full, want.Keys) == want
  {
  }

  lemma KeptIsAsShown(now: Tree, t: Tree, live: Tree, index: Index, shown: Index)
    requires Shows(shown, Entries(t)) && CheckedOut(live, index, shown, now)
    ensures Visible(t).Keys <= Applied(now, t).Keys
    ensures AsKept(Applied(now, t), Visible(t).Keys) == WithExecDirs(Visible(t)) <==> shown == Entries(t)
  {
    var full := Applied(now, t);
    forall p | p in Visible(t) ensures p in full && (full[p] == WithExecDirs(Visible(t))[p] <==> IsAsShown(t, shown, p)) {
      EntryIsRestored(now, t, p, live, index, shown);
    }
    AllAsShown(t, shown);
    SameKept(full, WithExecDirs(Visible(t)));
  }

  lemma SameKept(full: Tree, want: Tree)
    requires want.Keys <= full.Keys && forall p | p in want :: !Skipped(p)
    ensures AsKept(full, want.Keys) == want <==> forall p | p in want :: full[p] == want[p]
  {
    var got := AsKept(full, want.Keys);
    assert got.Keys == want.Keys;
    assert forall p | p in want :: got[p] == full[p];
  }

  lemma AllAsShown(t: Tree, shown: Index)
    requires shown.Keys == Entries(t).Keys
    ensures (forall p | p in Visible(t) :: IsAsShown(t, shown, p)) <==> shown == Entries(t)
  {
    if forall p | p in Visible(t) :: IsAsShown(t, shown, p) {
      forall p | p in Entries(t) ensures shown[p] == Entries(t)[p] {
        assert p in Visible(t) && IsAsShown(t, shown, p);
      }
    }
  }

  predicate IsAsShown(t: Tree, shown: Index, p: Path)
    requires p in t
  {
    p in shown ==> !t[p].Dir? && shown[p] == EntryOf(t[p])
  }

  lemma EntryIsRestored(now: Tree, t: Tree, p: Path, live: Tree, index: Index, shown: Index)
    requires Shows(shown, Entries(t)) && CheckedOut(live, index, shown, now) && p in Visible(t)
    ensures p in Applied(now, t) && (Applied(now, t)[p] == WithExecDirs(Visible(t))[p] <==> IsAsShown(t, shown, p))
  {
    if !t[p].Dir? {
      assert p in Entries(t) && EntryOf(now[p]) == shown[p];
    }
  }

  /** What the walk that looks for extras finds: whatever is not of the snapshot was there before and unknown to Git, and
      what is neither of the snapshot nor in its way is still there. */
  ghost predicate Laid(live: Tree, index: Index, t: Tree, full: Tree)
  {
    && (forall p | p in full && p !in Visible(t) :: p in live && full[p] == live[p] && (p in index ==> live[p].Dir?))
    && (forall p | p in live && p !in Visible(t) && Untouched(live, index, Entries(t), p) :: p in full && full[p] == live[p])
  }

  lemma AppliedIsLaid(now: Tree, t: Tree, live: Tree, index: Index, shown: Index)
    requires WellFormed(t) && shown.Keys == Entries(t).Keys && CheckedOut(live, index, shown, now)
    ensures Laid(live, index, t, Applied(now, t))
  {
    forall p, q | q in Entries(t) && p < q && p != [] ensures p in Visible(t) {
      assert p == q[..|p|];
      if Skipped(p) { SkippedBelow(q, |p|); }
    }
  }

  /** With no skipped directory in the live tree nothing is missed. */
  lemma NothingMissed(live: Tree, index: Index, t: Tree, full: Tree, kept: set<Path>, listing: Listing)
    requires Laid(live, index, t, full) && WellFormed(full) && Lists(full, listing) && NoneSkipped(live)
    ensures AllFound(full, kept, listing)
  {
    forall p | p in full ensures !Ends(full, p) {
      assert Ends(full, p) ==> Ends(live, p);
    }
    NothingIsLate(full, kept, listing);
  }

  lemma VisibleIsClosed(t: Tree)
    requires WellFormed(t)
    ensures ParentClosed(Visible(t).Keys)
  {
    forall p, n | p in Visible(t) && 0 < n < |p| ensures p[..n] in Visible(t) {
      if Skipped(p[..n]) { SkippedBelow(p, n); }
    }
  }

  predicate HangsFromDirectory(p: Path, t: Tree)
  {
    Anchor(p) == [] || (Anchor(p) in t && t[Anchor(p)].Dir?)
  }

  /** A skipped entry of the live tree survives a complete restore if the visible directory it hangs from is a directory
      of the snapshot too, and only then if the walk finds all that has to go. */
  lemma SkippedSurvivesRestore(live: Tree, index: Index, t: Tree, shown: Index, now: Tree, p: Path, listing: Listing)
    requires WellFormed(now) && WellFormed(t) && WellFormed(live) && !Blocked(now, t)
    requires shown.Keys == Entries(t).Keys && CheckedOut(live, index, shown, now)
    requires p in live && Skipped(p) && forall q | q in index :: !Skipped(q)
    ensures var full, kept := Applied(now, t), Visible(t).Keys;
            var left := WithoutExtras(full, kept, listing);
            && (HangsFromDirectory(p, t) ==> p in left && left[p] == live[p])
            && (AllFound(full, kept, listing) && p in left ==> HangsFromDirectory(p, t))
  {
    AppliedIsWellFormed(now, t);
    AnchorPrefixes(p);
    if HangsFromDirectory(p, t) {
      AnchoredIsUntouched(live, index, t, p);
      assert Untouched(live, index, shown, p);
      AnchoredIsKept(t, p);
      SkippedSurvives(Applied(now, t), Visible(t).Keys, listing, p);
    } else if p in now && AllFound(Applied(now, t), Visible(t).Keys, listing) {
      UnanchoredIsGone(t, now, p);
      UnanchoredIsFound(t, now, p, listing);
      SkippedSurvives(Applied(now, t), Visible(t).Keys, listing, p);
    }
  }

  lemma UnanchoredIsFound(t: Tree, now: Tree, p: Path, listing: Listing)
    requires WellFormed(now) && p in now && Skipped(p) && p[..|Anchor(p)|] !in Visible(t) && Anchor(p) != []
    requires AllFound(Applied(now, t), Visible(t).Keys, listing)
    ensures exists n | 0 < n <= |Anchor(p)| :: !Spared(Applied(now, t), Visible(t).Keys, listing, p[..n])
  {
    var a := Anchor(p);
    AnchorPrefixes(p);
    assert p[..|p|] == p;
    assert |a| < |p|;
    assert a in now;
    assert Found(Applied(now, t), Visible(t).Keys, listing, a);
    var n :| 0 < n <= |a| && !Spared(Applied(now, t), Visible(t).Keys, listing, a[..n]);
    assert p[..n] == a[..n];
  }

  lemma AnchoredIsKept(t: Tree, p: Path)
    requires WellFormed(t) && (Anchor(p) == [] || Anchor(p) in t)
    ensures forall n | 0 < n <= |Anchor(p)| :: p[..n] in Visible(t)
  {
    AnchorPrefixes(p);
    assert Anchor(p)[..|Anchor(p)|] == Anchor(p);
  }

  lemma UnanchoredIsGone(t: Tree, now: Tree, p: Path)
    requires WellFormed(now) && p in now && Skipped(p)
    requires forall q | q in Entries(t) :: q in now && !now[q].Dir?
    requires !HangsFromDirectory(p, t)
    ensures p[..|Anchor(p)|] !in Visible(t)
  {
    AnchorPrefixes(p);
    assert |Anchor(p)| < |p| by {
      assert p[..|p|] == p;
    }
    assert now[p[..|Anchor(p)|]].Dir?;
  }

  lemma AnchoredIsUntouched(live: Tree, index: Index, t: Tree, p: Path)
    requires WellFormed(t) && p in live && Skipped(p) && p !in index
    requires HangsFromDirectory(p, t)
    ensures Untouched(live, index, Entries(t), p)
  {
    var a := Anchor(p);
    forall q | q in Entries(t) ensures !(q <= p) && !(p < q) {
      if q <= p {
        assert q == p[..|q|] && q != [] && !Skipped(q);
        assert |q| <= |a| && q <= a;
        NoEntryAbove(t, a);
      }
    }
  }

  const NEW_DIRECTORY: Mode := 0x1ed
  const NEW_PROGRAM: Mode := 0x1ed
  const NEW_FILE: Mode := 0x1a4

  function NodeOf(entry: Entry): (node: Node)
    ensures !node.Dir? && EntryOf(node) == entry
  {
    match entry
    case Blob(executable, data) => File(data, if executable then NEW_PROGRAM else NEW_FILE)
    case LinkBlob(target) => Link(target)
  }

  function Above(target: Index): set<Path>
  {
    set q, n | q in target && 0 < n < |q| :: q[..n]
  }

  predicate Stays(live: Tree, index: Index, target: Index, p: Path)
  {
    && p in live && (p in index ==> live[p].Dir?)
    && forall q | q in target :: !(q <= p) && (p < q ==> live[p].Dir?)
  }

  /** A checkout that leaves emptied directories in place. */
  function CheckoutTree(live: Tree, index: Index, target: Index): Tree
  {
    map p | p in live.Keys + target.Keys + Above(target) && (p in target || p in Above(target) || Stays(live, index, target, p)) ::
      if p in target then NodeOf(target[p])
      else if p in live && live[p].Dir? then live[p]
      else if p in Above(target) then Dir(NEW_DIRECTORY)
      else live[p]
  }

  lemma TargetsAreNotAbove(target: Index, p: Path)
    requires PrefixFree(target) && p in Above(target)
    ensures p !in target && exists q | q in target :: p < q
  {
    var q, n :| q in target && 0 < n < |q| && q[..n] == p;
    assert p < q;
  }

  lemma CheckoutTreeIsCheckout(live: Tree, index: Index, target: Index)
    requires WellFormed(live) && PrefixFree(target) && [] !in target
    ensures CheckedOut(live, index, target, CheckoutTree(live, index, target))
  {
    var out := CheckoutTree(live, index, target);
    forall p | p in Above(target) ensures p !in target && exists q | q in target :: p < q {
      TargetsAreNotAbove(target, p);
    }
    forall p, n | p in out && 0 < n < |p| ensures p[..n] in out && out[p[..n]].Dir? {
      CheckoutParents(live, index, target, p, n);
    }
    assert [] !in Above(target);
    forall p | p in live && Untouched(live, index, target, p) ensures p in out && out[p] == live[p] {
      assert Stays(live, index, target, p);
    }
  }

  lemma CheckoutParents(live: Tree, index: Index, target: Index, p: Path, n: nat)
    requires WellFormed(live) && PrefixFree(target) && p in CheckoutTree(live, index, target) && 0 < n < |p|
    ensures p[..n] in CheckoutTree(live, index, target) && CheckoutTree(live, index, target)[p[..n]].Dir?
  {
    if p in target {
      assert p[..n] in Above(target);
    } else if p in Above(target) {
      var q, m :| q in target && 0 < m < |q| && q[..m] == p;
      assert q[..n] == p[..n] && q[..n] in Above(target);
    } else {
      assert live[p[..n]].Dir?;
      forall q | q in target ensures !(q <= p[..n]) {
        assert q <= p[..n] ==> q <= p;
      }
      assert Stays(live, index, target, p[..n]);
    }
    if p[..n] in Above(target) {
      TargetsAreNotAbove(target, p[..n]);
    }
  }

  /** "create_dir_all" followed by setting the mode. */
  function CreateDir(t: Tree, dir: Path, mode: Mode): Tree
  {
    map p | p in t.Keys + (set n | 0 < n <= |dir| :: dir[..n]) ::
      if p == dir then Dir(mode) else if p in t then t[p] else Dir(NEW_DIRECTORY)
  }

  lemma CreateDirIsWellFormed(t: Tree, dir: Path, mode: Mode)
    requires WellFormed(t) && dir != []
    requires forall n | 0 < n <= |dir| :: dir[..n] in t ==> t[dir[..n]].Dir?
    ensures WellFormed(CreateDir(t, dir, mode))
  {
    var after := CreateDir(t, dir, mode);
    assert dir[..|dir|] == dir;
    forall p, n | p in after && 0 < n < |p| ensures p[..n] in after && after[p[..n]].Dir? {
      if p !in t {
        var m :| 0 < m <= |dir| && dir[..m] == p;
        assert dir[..m][..n] == dir[..n];
      }
    }
  }

  function Dirs(t: Tree): set<Path>
  {
    set d | d in Visible(t) && t[d].Dir?
  }

  /** The attribute loop after some of the entries. */
  ghost predicate Partly(now: Tree, tree: Tree, t: Tree, done: set<Path>)
  {
    && (forall p | p in Dirs(t) && p in now && !now[p].Dir? :: p in tree && !tree[p].Dir?)
    && (!Blocked(now, t) ==>
          && now.Keys <= tree.Keys && tree.Keys <= now.Keys + Dirs(t)
          && (forall p | p in tree && p in Dirs(t) :: tree[p].Dir?)
          && (forall p | p in Dirs(t) && p in done :: p in tree && tree[p] == Dir(t[p].mode | EXEC_BITS))
          && (forall p | p in now && p !in Dirs(t) :: tree[p] == if p in done then Applied(now, t)[p] else now[p]))
  }

  lemma BlockedAt(now: Tree, tree: Tree, t: Tree, done: set<Path>, dir: Path, n: nat)
    requires WellFormed(t) && Partly(now, tree, t, done) && dir in Dirs(t) && 0 < n <= |dir|
    requires dir[..n] in tree && !tree[dir[..n]].Dir?
    ensures Blocked(now, t)
  {
    DirPrefix(t, dir, n);
  }

  lemma DirPrefix(t: Tree, dir: Path, n: nat)
    requires WellFormed(t) && dir in Dirs(t) && 0 < n <= |dir|
    ensures dir[..n] in Dirs(t)
  {
    assert n == |dir| ==> dir[..n] == dir;
    if Skipped(dir[..n]) { SkippedBelow(dir, n); }
  }

  /** What creating a directory of the snapshot changes. */
  ghost predicate DirCreated(tree: Tree, t: Tree, dir: Path, after: Tree)
    requires dir in Dirs(t)
  {
    && tree.Keys + {dir} <= after.Keys && after.Keys <= tree.Keys + Dirs(t)
    && after[dir] == Dir(t[dir].mode | EXEC_BITS)
    && (forall p | p in tree && p != dir :: after[p] == tree[p])
    && (forall p | p in after && p !in tree :: after[p].Dir?)
  }

  lemma CreateDirCreates(tree: Tree, t: Tree, dir: Path)
    requires WellFormed(t) && dir in Dirs(t)
    ensures DirCreated(tree, t, dir, CreateDir(tree, dir, t[dir].mode | EXEC_BITS))
  {
    assert dir[..|dir|] == dir;
    forall n | 0 < n <= |dir| ensures dir[..n] in Dirs(t) {
      DirPrefix(t, dir, n);
    }
  }

  lemma DirStep(now: Tree, tree: Tree, t: Tree, done: set<Path>, dir: Path, after: Tree)
    requires Partly(now, tree, t, done) && dir in Dirs(t) && DirCreated(tree, t, dir, after)
    requires dir in tree ==> tree[dir].Dir?
    ensures Partly(now, after, t, done + {dir})
  {
  }

  lemma FileStep(now: Tree, tree: Tree, t: Tree, done: set<Path>, p: Path)
    requires WellFormed(t) && Partly(now, tree, t, done) && p in Visible(t) && !t[p].Dir?
    requires p in now && !now[p].Dir?
    ensures !Blocked(now, t) ==> p in tree
    ensures Partly(now, if t[p].File? && p in tree && tree[p].File? then tree[p := File(tree[p].data, t[p].mode)] else tree, t, done + {p})
  {
  }

  lemma PartlyDone(now: Tree, tree: Tree, t: Tree)
    requires Partly(now, tree, t, Visible(t).Keys)
    ensures !Blocked(now, t) ==> tree == Applied(now, t)
    ensures Blocked(now, t) ==> exists p | p in Dirs(t) :: p in tree && !tree[p].Dir?
  {
    if !Blocked(now, t) {
      assert tree.Keys == Applied(now, t).Keys;
    } else {
      var p :| p in Visible(t) && t[p].Dir? && p in now && !now[p].Dir?;
      assert p in Dirs(t);
    }
  }
}
