/** The walk that lists what a restore removes: contents before their directory, through a filter that leaves a
    rejected directory by skipping the current listing (src/backup.rs:874-896). By then the directory's own listing is
    closed, so that it is its parent's that ends. The iterator is that of the walkdir crate, version 2.5.0. */
module ContentsFirst {
  import opened Text
  import opened Trees

  /** In which order each directory yields its entries. */
  type Listing = map<Path, seq<string>>

  predicate IsDirectory(t: Tree, p: Path)
  {
    p == [] || (p in t && t[p].Dir?)
  }

  predicate Named(t: Tree, dir: Path, names: seq<string>)
  {
    forall name | name in names :: dir + [name] in t
  }

  ghost predicate ListsDirectory(t: Tree, dir: Path, names: seq<string>)
  {
    && (forall i, j | 0 <= i < j < |names| :: names[i] != names[j])
    && Named(t, dir, names)
    && (forall p | p in t && p != [] && Parent(p) == dir :: Last(p) in names)
  }

  ghost predicate Lists(t: Tree, listing: Listing)
  {
    forall dir | IsDirectory(t, dir) :: dir in listing && ListsDirectory(t, dir, listing[dir])
  }

  /** An entry that ends the listing of its directory. */
  predicate Ends(t: Tree, p: Path)
  {
    p in t && t[p].Dir? && Skipped(p)
  }

  /** The entry at place i is not behind one that ends the listing. */
  predicate Open(t: Tree, dir: Path, names: seq<string>, i: nat)
    requires i <= |names|
  {
    forall k | 0 <= k < i :: !Ends(t, dir + [names[k]])
  }

  ghost predicate InTime(t: Tree, dir: Path, names: seq<string>, name: string)
  {
    exists i | 0 <= i < |names| :: names[i] == name && Open(t, dir, names, i)
  }

  ghost predicate Comes(t: Tree, listing: Listing, p: Path)
  {
    p != [] && Parent(p) in listing && InTime(t, Parent(p), listing[Parent(p)], Last(p))
  }

  /** The same from some depth on. */
  ghost predicate ComesFrom(t: Tree, listing: Listing, p: Path, depth: nat)
  {
    forall n | depth < n <= |p| :: Comes(t, listing, p[..n])
  }

  /** The walk comes to an entry if neither it nor a directory above it is listed too late. */
  ghost predicate Reached(t: Tree, listing: Listing, p: Path)
  {
    ComesFrom(t, listing, p, 0)
  }

  /** Reference: what the walk reports. */
  ghost function Seen(t: Tree, listing: Listing): set<Path>
  {
    set p | p in t && !Skipped(p) && Reached(t, listing, p)
  }

  function Under(t: Tree, dir: Path): set<Path>
  {
    set p | p in t && dir < p
  }

  /** What is reported of the rest of a directory. */
  ghost function Visit(t: Tree, listing: Listing, dir: Path, names: seq<string>): set<Path>
    requires Lists(t, listing) && Named(t, dir, names)
    decreases Under(t, dir), |names|
  {
    if names == [] then {}
    else
      var p, rest := dir + [names[0]], names[1..];
      assert names[0] in names;
      if t[p].Dir? then
        assert p in Under(t, dir) && p !in Under(t, p);
        Visit(t, listing, p, listing[p]) + if Skipped(p) then {} else {p} + Visit(t, listing, dir, rest)
      else (if Skipped(p) then {} else {p}) + Visit(t, listing, dir, rest)
  }

  /** How many steps the rest of a directory takes. */
  ghost function Cost(t: Tree, listing: Listing, dir: Path, names: seq<string>): nat
    requires Lists(t, listing) && Named(t, dir, names)
    decreases Under(t, dir), |names|
  {
    if names == [] then 0
    else
      var p, rest := dir + [names[0]], names[1..];
      assert names[0] in names;
      assert t[p].Dir? ==> p in Under(t, dir) && p !in Under(t, p);
      (if t[p].Dir? then 3 + Cost(t, listing, p, listing[p]) else 1) + Cost(t, listing, dir, rest)
  }

  /** An open directory and what it has not yet yielded. */
  datatype Frame = Frame(dir: Path, rest: seq<string>)

  ghost predicate FrameFits(t: Tree, frame: Frame)
  {
    IsDirectory(t, frame.dir) && Named(t, frame.dir, frame.rest)
  }

  /** Every open directory waits among the deferred ones, and so does the one that was closed last. */
  ghost predicate Stacked(t: Tree, frames: seq<Frame>, deferred: seq<Path>)
  {
    && |frames| <= |deferred| <= |frames| + 1
    && (forall i | 0 <= i < |frames| :: FrameFits(t, frames[i]) && frames[i].dir == deferred[i])
    && (forall i | 0 <= i < |deferred| :: IsDirectory(t, deferred[i]))
  }

  /** What is still to be reported. */
  ghost function Pending(t: Tree, listing: Listing, frames: seq<Frame>, deferred: seq<Path>): set<Path>
    requires Lists(t, listing) && Stacked(t, frames, deferred)
    decreases |frames| + |deferred|
  {
    if |deferred| > |frames| then
      var dir := Last(deferred);
      if !Skipped(dir) then (if dir == [] then {} else {dir}) + Pending(t, listing, frames, Init(deferred))
      else Pending(t, listing, if frames == [] then [] else Init(frames), Init(deferred))
    else if frames == [] then {}
    else Visit(t, listing, Last(frames).dir, Last(frames).rest) + Pending(t, listing, Init(frames), deferred)
  }

  ghost function Remaining(t: Tree, listing: Listing, frames: seq<Frame>, deferred: seq<Path>): nat
    requires Lists(t, listing) && Stacked(t, frames, deferred)
  {
    FrameCosts(t, listing, frames) + |frames| + |deferred|
  }

  ghost function FrameCosts(t: Tree, listing: Listing, frames: seq<Frame>): nat
    requires Lists(t, listing) && forall i | 0 <= i < |frames| :: FrameFits(t, frames[i])
  {
    if frames == [] then 0
    else
      assert FrameFits(t, Last(frames));
      FrameCosts(t, listing, Init(frames)) + Cost(t, listing, Last(frames).dir, Last(frames).rest)
  }

  /** The iterator, with "contents_first". */
  class WalkDir {
    const tree: Tree
    const listing: Listing
    var frames: seq<Frame>
    var deferred: seq<Path>

    ghost predicate Valid()
      reads this
    {
      Lists(tree, listing) && Stacked(tree, frames, deferred)
    }

    ghost function ToReport(): set<Path>
      requires Valid()
      reads this
    {
      Pending(tree, listing, frames, deferred)
    }

    ghost function Steps(): nat
      requires Valid()
      reads this
    {
      Remaining(tree, listing, frames, deferred)
    }

    constructor (tree: Tree, listing: Listing)
      requires Lists(tree, listing)
      ensures Valid() && this.tree == tree && this.listing == listing
      ensures ToReport() == Visit(tree, listing, [], listing[[]])
    {
      this.tree, this.listing := tree, listing;
      frames, deferred := [Frame([], listing[[]])], [[]];
      new;
      assert IsDirectory(tree, []) && ListsDirectory(tree, [], listing[[]]);
      StartIsAll(tree, listing);
    }

    /** One entry of the open directory: a directory is entered, anything else comes out. */
    method Step() returns (entry: Option<Path>)
      requires Valid() && frames != [] && |deferred| == |frames|
      modifies this
      ensures Valid() && Steps() < old(Steps())
      ensures entry.None? ==> ToReport() == old(ToReport())
      ensures entry.Some? ==> entry.value in tree && !IsDirectory(tree, entry.value)
      ensures entry.Some? ==> old(ToReport()) == Filtered(tree, listing, frames, deferred, entry.value)
    {
      var top := Last(frames);
      if top.rest == [] {
        Exhausted(tree, listing, frames, deferred);
        frames := Init(frames);
        return None;
      }
      var p := top.dir + [top.rest[0]];
      AdvanceFits(tree, frames, deferred);
      if tree[p].Dir? {
        EntersDirectory(tree, listing, frames, deferred, p);
        frames, deferred := Advanced(frames) + [Frame(p, listing[p])], deferred + [p];
        return None;
      }
      TakesFile(tree, listing, frames, deferred, p);
      frames := Advanced(frames);
      return Some(p);
    }

    /** The next entry, whatever it is. What a filter then does decides what is left to report. */
    method Next() returns (entry: Option<Path>)
      requires Valid()
      modifies this
      ensures Valid()
      ensures entry.None? ==> old(ToReport()) == {}
      ensures entry.Some? ==> Steps() < old(Steps()) && (entry.value == [] || entry.value in tree)
      ensures entry.Some? && IsDirectory(tree, entry.value) ==> |deferred| == |frames|
      ensures entry.Some? ==> old(ToReport()) == Filtered(tree, listing, frames, deferred, entry.value)
    {
      while frames != [] && |deferred| == |frames|
        invariant Valid() && ToReport() == old(ToReport()) && Steps() <= old(Steps())
        decreases Steps()
      {
        entry := Step();
        if entry.Some? {
          return;
        }
      }
      if |deferred| > |frames| {
        entry := Some(Last(deferred));
        DeferredStep(tree, listing, frames, deferred);
        deferred := Init(deferred);
      } else {
        entry := None;
      }
    }

    /** "skip_current_dir". */
    method SkipCurrentDir()
      requires Valid() && |deferred| == |frames|
      modifies this
      ensures Valid() && Steps() <= old(Steps())
      ensures frames == if old(frames) == [] then [] else Init(old(frames))
      ensures deferred == old(deferred)
    {
      if frames != [] {
        frames := Init(frames);
      }
    }

    /** "filter_entry": the next entry that is not skipped; a rejected directory is left at once. */
    method NextAllowed() returns (entry: Option<Path>)
      requires Valid()
      modifies this
      ensures Valid()
      ensures entry.None? ==> old(ToReport()) == {}
      ensures entry.Some? ==> !Skipped(entry.value) && Steps() < old(Steps())
      ensures entry.Some? ==> old(ToReport()) == ToReport() + if entry.value == [] then {} else {entry.value}
    {
      entry := Next();
      while entry.Some? && Skipped(entry.value)
        invariant Valid()
        invariant entry.None? ==> old(ToReport()) == {}
        invariant entry.Some? ==> Steps() < old(Steps()) && (IsDirectory(tree, entry.value) ==> |deferred| == |frames|)
        invariant entry.Some? ==> old(ToReport()) == Filtered(tree, listing, frames, deferred, entry.value)
        decreases entry.Some?, Steps()
      {
        if IsDirectory(tree, entry.value) {
          SkipCurrentDir();
        }
        entry := Next();
      }
    }
  }

  /** What is left to report when an entry has come and the filter has done its part. */
  ghost function Filtered(t: Tree, listing: Listing, frames: seq<Frame>, deferred: seq<Path>, entry: Path): set<Path>
    requires Lists(t, listing) && Stacked(t, frames, deferred)
    requires IsDirectory(t, entry) ==> |deferred| == |frames|
  {
    if !Skipped(entry) then (if entry == [] then {} else {entry}) + Pending(t, listing, frames, deferred)
    else if IsDirectory(t, entry) then Pending(t, listing, if frames == [] then [] else Init(frames), deferred)
    else Pending(t, listing, frames, deferred)
  }

  lemma StartIsAll(t: Tree, listing: Listing)
    requires Lists(t, listing) && Stacked(t, [Frame([], listing[[]])], [[]])
    ensures Pending(t, listing, [Frame([], listing[[]])], [[]]) == Visit(t, listing, [], listing[[]])
  {
    var frames, deferred: seq<Path> := [Frame([], listing[[]])], [[]];
    assert Init(frames) == [] && Init(deferred) == [];
    assert Pending(t, listing, [], deferred) == {};
  }

  lemma Exhausted(t: Tree, listing: Listing, frames: seq<Frame>, deferred: seq<Path>)
    requires Lists(t, listing) && Stacked(t, frames, deferred) && frames != [] && |deferred| == |frames| && Last(frames).rest == []
    ensures Stacked(t, Init(frames), deferred)
    ensures Pending(t, listing, Init(frames), deferred) == Pending(t, listing, frames, deferred)
    ensures Remaining(t, listing, Init(frames), deferred) < Remaining(t, listing, frames, deferred)
  {
  }

  /** The top of the stack after one entry. */
  function Advanced(frames: seq<Frame>): seq<Frame>
    requires frames != [] && Last(frames).rest != []
  {
    Init(frames) + [Frame(Last(frames).dir, Last(frames).rest[1..])]
  }

  lemma AdvanceFits(t: Tree, frames: seq<Frame>, deferred: seq<Path>)
    requires Stacked(t, frames, deferred) && frames != [] && |deferred| == |frames| && Last(frames).rest != []
    ensures IsNext(t, frames, Last(frames).dir + [Last(frames).rest[0]]) && Stacked(t, Advanced(frames), deferred)
  {
    var top := Last(frames);
    assert FrameFits(t, top) && top.rest[0] in top.rest;
    assert FrameFits(t, Frame(top.dir, top.rest[1..]));
  }

  ghost predicate IsNext(t: Tree, frames: seq<Frame>, p: Path)
  {
    frames != [] && Last(frames).rest != [] && p == Last(frames).dir + [Last(frames).rest[0]] && p in t
  }

  lemma TakesFile(t: Tree, listing: Listing, frames: seq<Frame>, deferred: seq<Path>, p: Path)
    requires Lists(t, listing) && Stacked(t, frames, deferred) && |deferred| == |frames|
    requires IsNext(t, frames, p) && !t[p].Dir? && Stacked(t, Advanced(frames), deferred)
    ensures Filtered(t, listing, Advanced(frames), deferred, p) == Pending(t, listing, frames, deferred)
    ensures Remaining(t, listing, Advanced(frames), deferred) < Remaining(t, listing, frames, deferred)
  {
    var next := Advanced(frames);
    assert Init(next) == Init(frames) && FrameFits(t, Last(frames)) && FrameFits(t, Last(next));
  }

  lemma EntersDirectory(t: Tree, listing: Listing, frames: seq<Frame>, deferred: seq<Path>, p: Path)
    requires Lists(t, listing) && Stacked(t, frames, deferred) && |deferred| == |frames|
    requires IsNext(t, frames, p) && t[p].Dir? && Stacked(t, Advanced(frames), deferred)
    ensures var entered := Advanced(frames) + [Frame(p, listing[p])];
      && Stacked(t, entered, deferred + [p])
      && Pending(t, listing, entered, deferred + [p]) == Pending(t, listing, frames, deferred)
      && Remaining(t, listing, entered, deferred + [p]) < Remaining(t, listing, frames, deferred)
  {
    var next, entered, waiting := Advanced(frames), Advanced(frames) + [Frame(p, listing[p])], deferred + [p];
    EnteredFits(t, listing, next, deferred, p);
    assert Init(entered) == next && Last(entered) == Frame(p, listing[p]);
    assert Init(waiting) == deferred && Last(waiting) == p && Init(next) == Init(frames);
    assert FrameFits(t, Last(frames)) && FrameFits(t, Last(next));
    EnteredPending(t, listing, frames, deferred, p, next);
    EnteredCost(t, listing, frames, p, next);
    assert Pending(t, listing, entered, waiting) == Visit(t, listing, p, listing[p]) + Pending(t, listing, next, waiting);
    assert FrameCosts(t, listing, entered) == FrameCosts(t, listing, next) + Cost(t, listing, p, listing[p]);
  }

  lemma EnteredFits(t: Tree, listing: Listing, next: seq<Frame>, deferred: seq<Path>, p: Path)
    requires Lists(t, listing) && Stacked(t, next, deferred) && |deferred| == |next| && p in t && t[p].Dir?
    ensures Named(t, p, listing[p])
    ensures Stacked(t, next + [Frame(p, listing[p])], deferred + [p]) && Stacked(t, next, deferred + [p])
  {
    assert ListsDirectory(t, p, listing[p]) && FrameFits(t, Frame(p, listing[p]));
  }

  lemma EnteredPending(t: Tree, listing: Listing, frames: seq<Frame>, deferred: seq<Path>, p: Path, next: seq<Frame>)
    requires Lists(t, listing) && Stacked(t, frames, deferred) && |deferred| == |frames|
    requires IsNext(t, frames, p) && t[p].Dir? && next == Advanced(frames) && Stacked(t, next, deferred) && Stacked(t, next, deferred + [p])
    requires Named(t, p, listing[p])
    ensures Visit(t, listing, p, listing[p]) + Pending(t, listing, next, deferred + [p]) == Pending(t, listing, frames, deferred)
  {
    var waiting, top := deferred + [p], Last(frames);
    assert Init(waiting) == deferred && Last(waiting) == p && Init(next) == Init(frames);
    assert FrameFits(t, top) && FrameFits(t, Last(next));
    var others := Pending(t, listing, Init(frames), deferred);
    var rest := Visit(t, listing, top.dir, top.rest[1..]);
    assert Pending(t, listing, frames, deferred) == Visit(t, listing, top.dir, top.rest) + others;
    if Skipped(p) {
      assert Pending(t, listing, next, waiting) == others;
    } else {
      assert Pending(t, listing, next, deferred) == rest + others;
    }
  }

  lemma EnteredCost(t: Tree, listing: Listing, frames: seq<Frame>, p: Path, next: seq<Frame>)
    requires Lists(t, listing) && (forall i | 0 <= i < |frames| :: FrameFits(t, frames[i]))
    requires IsNext(t, frames, p) && t[p].Dir? && next == Advanced(frames) && forall i | 0 <= i < |next| :: FrameFits(t, next[i])
    requires Named(t, p, listing[p])
    ensures FrameCosts(t, listing, frames) == FrameCosts(t, listing, next) + Cost(t, listing, p, listing[p]) + 3
  {
    assert Init(next) == Init(frames) && FrameFits(t, Last(frames)) && FrameFits(t, Last(next));
  }

  /** The closed directory comes out. */
  lemma DeferredStep(t: Tree, listing: Listing, frames: seq<Frame>, deferred: seq<Path>)
    requires Lists(t, listing) && Stacked(t, frames, deferred) && |deferred| > |frames|
    ensures Stacked(t, frames, Init(deferred))
    ensures Filtered(t, listing, frames, Init(deferred), Last(deferred)) == Pending(t, listing, frames, deferred)
    ensures Remaining(t, listing, frames, Init(deferred)) < Remaining(t, listing, frames, deferred)
  {
  }

  lemma InTimeOrLater(t: Tree, dir: Path, names: seq<string>, name: string)
    requires names != []
    ensures InTime(t, dir, names, name)
       <==> names[0] == name || (!Ends(t, dir + [names[0]]) && InTime(t, dir, names[1..], name))
  {
    if names[0] == name {
      assert Open(t, dir, names, 0);
    } else if InTime(t, dir, names, name) {
      var i :| 0 <= i < |names| && names[i] == name && Open(t, dir, names, i);
      assert names[1..][i - 1] == name && Open(t, dir, names[1..], i - 1);
    }
    if !Ends(t, dir + [names[0]]) && InTime(t, dir, names[1..], name) {
      var i :| 0 <= i < |names[1..]| && names[1..][i] == name && Open(t, dir, names[1..], i);
      forall k | 0 <= k < i + 1 ensures !Ends(t, dir + [names[k]]) {
        assert k > 0 ==> names[1..][k - 1] == names[k];
      }
      assert names[i + 1] == name && Open(t, dir, names, i + 1);
    }
  }

  /** What the walk reports below a directory of whose entries some are still to come. */
  ghost predicate Reports(t: Tree, listing: Listing, dir: Path, names: seq<string>, p: Path)
  {
    && p in t && !Skipped(p) && dir < p
    && InTime(t, dir, names, p[|dir|]) && ComesFrom(t, listing, p, |dir| + 1)
  }

  /** Being come to, one level at a time. */
  lemma ComesNext(t: Tree, listing: Listing, p: Path, dir: Path)
    requires dir < p && dir in listing
    ensures ComesFrom(t, listing, p, |dir|)
       <==> InTime(t, dir, listing[dir], p[|dir|]) && ComesFrom(t, listing, p, |dir| + 1)
  {
    var first := p[..|dir| + 1];
    assert Parent(first) == dir && Last(first) == p[|dir|];
    assert Comes(t, listing, first) <==> InTime(t, dir, listing[dir], p[|dir|]);
    assert ComesFrom(t, listing, p, |dir|) <==> Comes(t, listing, first) && ComesFrom(t, listing, p, |dir| + 1);
  }

  lemma ReportsBelow(t: Tree, listing: Listing, dir: Path, name: string, p: Path)
    requires Lists(t, listing) && dir + [name] in t && t[dir + [name]].Dir? && dir + [name] < p
    ensures Reports(t, listing, dir + [name], listing[dir + [name]], p)
       <==> p in t && !Skipped(p) && ComesFrom(t, listing, p, |dir| + 1)
  {
    ComesNext(t, listing, p, dir + [name]);
  }

  lemma ReportsStep(t: Tree, listing: Listing, dir: Path, names: seq<string>, p: Path)
    requires WellFormed(t) && Lists(t, listing) && names != [] && dir + [names[0]] in t
    ensures var q := dir + [names[0]];
      Reports(t, listing, dir, names, p) <==>
        || (p == q && !Skipped(p))
        || (t[q].Dir? && Reports(t, listing, q, listing[q], p))
        || (!Ends(t, q) && Reports(t, listing, dir, names[1..], p))
  {
    var q := dir + [names[0]];
    if dir < p {
      InTimeOrLater(t, dir, names, p[|dir|]);
      assert q <= p <==> p[|dir|] == names[0];
      if q < p && p in t {
        assert q == p[..|q|];
        ReportsBelow(t, listing, dir, names[0], p);
      }
    }
  }

  lemma VisitStep(t: Tree, listing: Listing, dir: Path, names: seq<string>, p: Path)
    requires Lists(t, listing) && Named(t, dir, names) && names != []
    ensures var q := dir + [names[0]];
      && q in t && Named(t, dir, names[1..]) && (t[q].Dir? ==> Named(t, q, listing[q]))
      && (t[q].Dir? ==> q in Under(t, dir) && q !in Under(t, q))
      && (p in Visit(t, listing, dir, names) <==>
           || (p == q && !Skipped(p))
           || (t[q].Dir? && p in Visit(t, listing, q, listing[q]))
           || (!Ends(t, q) && p in Visit(t, listing, dir, names[1..])))
  {
    assert names[0] in names;
  }

  /** The walk reports exactly the entries it comes to. */
  lemma {:induction false} VisitIs(t: Tree, listing: Listing, dir: Path, names: seq<string>, p: Path)
    requires WellFormed(t) && Lists(t, listing) && Named(t, dir, names)
    ensures p in Visit(t, listing, dir, names) <==> Reports(t, listing, dir, names, p)
    decreases Under(t, dir), |names|
  {
    if names != [] {
      var q := dir + [names[0]];
      VisitStep(t, listing, dir, names, p);
      ReportsStep(t, listing, dir, names, p);
      if t[q].Dir? {
        VisitIs(t, listing, q, listing[q], p);
      }
      VisitIs(t, listing, dir, names[1..], p);
    }
  }

  lemma VisitIsSeen(t: Tree, listing: Listing)
    requires WellFormed(t) && Lists(t, listing) && Named(t, [], listing[[]])
    ensures Visit(t, listing, [], listing[[]]) == Seen(t, listing)
  {
    forall p ensures p in Visit(t, listing, [], listing[[]]) <==> p in Seen(t, listing) {
      VisitIs(t, listing, [], listing[[]], p);
      if p in t {
        ComesNext(t, listing, p, []);
      }
    }
  }
}
