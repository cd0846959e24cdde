/** Directory trees and the pruned walk (src/backup.rs:834-932). */
module Trees {
  import opened LogLines

  /** The components of a path below the project directory; [] is the project directory itself. */
  type Path = seq<string>

  /** Permission bits. */
  type Mode = bv16
  const EXEC_BITS: Mode := 0x49

  datatype Node =
    | Dir(mode: Mode)
    | File(data: seq<Byte>, mode: Mode)
    | Link(target: string)

  type Tree = map<Path, Node>

  ghost predicate WellFormed(t: Tree)
  {
    && [] !in t
    && forall p, n | p in t && 0 < n < |p| :: p[..n] in t && t[p[..n]].Dir?
  }

  function Lower(s: string): (lower: string)
    ensures |lower| == |s|
  {
    seq(|s|, i requires 0 <= i < |s| => if 'A' <= s[i] <= 'Z' then ((s[i] as int) + 32) as char else s[i])
  }

  predicate SkippedName(name: string)
  {
    Lower(name) == ".git" || Lower(name) == "lost+found"
  }

  /** The two names in any mixture of small and capital letters. */
  predicate IsInAnyCase(name: string, small: string)
  {
    |name| == |small| && forall i | 0 <= i < |name| :: name[i] == small[i] || ('a' <= small[i] <= 'z' && name[i] as int + 32 == small[i] as int)
  }

  lemma SkippedNames(name: string)
    ensures SkippedName(name) <==> IsInAnyCase(name, ".git") || IsInAnyCase(name, "lost+found")
  {
    LowerIs(name, ".git");
    LowerIs(name, "lost+found");
  }

  lemma LowerIs(name: string, small: string)
    requires forall c | c in small :: !('A' <= c <= 'Z')
    ensures Lower(name) == small <==> IsInAnyCase(name, small)
  {
    if IsInAnyCase(name, small) {
      forall i | 0 <= i < |name| ensures Lower(name)[i] == small[i] {
        assert small[i] in small;
      }
    }
  }

  predicate Skipped(p: Path)
  {
    exists i | 0 <= i < |p| :: SkippedName(p[i])
  }

  lemma SkippedBelow(p: Path, n: nat)
    requires n <= |p| && Skipped(p[..n])
    ensures Skipped(p)
  {
  }

  /** What backups see of a tree. */
  function Visible(t: Tree): Tree
  {
    map p | p in t && !Skipped(p) :: t[p]
  }

  function Parent(p: Path): Path
  {
    if p == [] then [] else p[..|p| - 1]
  }

  /** The visible entries directly below some directories. */
  function Listed(t: Tree, dirs: set<Path>): set<Path>
  {
    set p | p in t && !Skipped(p) && Parent(p) in dirs
  }

  function Directories(t: Tree, among: set<Path>): set<Path>
  {
    set p | p in among && p in t && t[p].Dir?
  }

  /** The traversal with its filter: a skipped entry is neither reported nor entered. */
  method Walk(t: Tree) returns (entries: set<Path>)
    requires WellFormed(t)
    ensures entries == Visible(t).Keys
  {
    entries := {};
    var open, entered := {[]}, {};
    while open != {}
      invariant open !! entered && open + entered == {[]} + Directories(t, entries)
      invariant entries == Listed(t, entered)
      decreases {[]} + Visible(t).Keys - entered
    {
      var dir :| dir in open;
      var found := Listed(t, {dir});
      ListOneMore(t, entered, dir);
      entries := entries + found;
      open := open - {dir} + Directories(t, found);
      entered := entered + {dir};
    }
    forall p | p in t && !Skipped(p) ensures p in entries {
      AllReached(t, entered, p);
    }
  }

  lemma ListOneMore(t: Tree, entered: set<Path>, dir: Path)
    requires WellFormed(t) && dir !in entered
    ensures Listed(t, entered + {dir}) == Listed(t, entered) + Listed(t, {dir})
    ensures Listed(t, entered) !! Listed(t, {dir}) && [] !in Listed(t, {dir})
  {
  }

  lemma {:induction false} AllReached(t: Tree, entered: set<Path>, p: Path)
    requires WellFormed(t) && p in t && !Skipped(p)
    requires entered == {[]} + Directories(t, Listed(t, entered))
    ensures p in Listed(t, entered)
    decreases |p|
  {
    var parent := Parent(p);
    if parent != [] {
      if Skipped(parent) { SkippedBelow(p, |parent|); }
      AllReached(t, entered, parent);
    }
  }

  /** The visible directory a skipped entry hangs from. */
  function Anchor(p: Path): (anchor: Path)
    ensures anchor <= p && !Skipped(anchor)
    ensures forall n | |anchor| < n <= |p| :: Skipped(p[..n])
  {
    if p == [] then []
    else
      var shorter := Anchor(p[..|p| - 1]);
      if |shorter| == |p| - 1 && !SkippedName(p[|p| - 1]) then
        p
      else
        assert forall n | |shorter| < n < |p| :: p[..|p| - 1][..n] == p[..n];
        assert |shorter| == |p| - 1 || p[..|p| - 1][..|p| - 1] == p[..|p| - 1];
        assert p[..|p|] == p;
        assert |shorter| < |p| - 1 ==> Skipped(p[..|p| - 1]);
        shorter
  }

  lemma AnchorPrefixes(p: Path)
    ensures p[..|Anchor(p)|] == Anchor(p)
    ensures forall n | 0 < n <= |Anchor(p)| :: !Skipped(p[..n]) && p[..n] == Anchor(p)[..n]
  {
    var a := Anchor(p);
    forall n | 0 < n <= |a| ensures !Skipped(a[..n]) && p[..n] == a[..n] {
      if Skipped(a[..n]) { SkippedBelow(a, n); }
    }
  }

  ghost predicate ParentClosed(kept: set<Path>)
  {
    forall p, n | p in kept && 0 < n < |p| :: p[..n] in kept
  }
}
