/** The directory monitor that queues image archives once they have settled (src/images.rs:520-548). */
module ImageMonitor {
  import opened Text

  type Name = string
  datatype Signature = Signature(size: nat, modified: Option<nat>)

  /** One successful listing of the directory. */
  type Listing = map<Name, Signature>

  /** All successful listings so far, the one at startup first. */
  type History = seq<Listing>

  function At<K, V>(m: map<K, V>, k: K): Option<V>
  {
    if k in m then Some(m[k]) else None
  }

  /** A file is stable at a listing that shows it as the one before did; at startup all files are. */
  predicate Stable(history: History, name: Name, i: nat)
    requires i < |history|
  {
    name in history[i] && (i == 0 || At(history[i - 1], name) == At(history[i], name))
  }

  /** The signature a file last settled with, as long as it has been there since. */
  function Settled(history: History, name: Name): Option<Signature>
  {
    if history == [] || name !in Last(history) then None
    else if Stable(history, name, |history| - 1) then Some(Last(history)[name])
    else Settled(Init(history), name)
  }

  /** Queued at the last listing: stable, and not with the signature it had settled with before. */
  predicate Queued(history: History, name: Name)
    requires |history| > 1
  {
    Stable(history, name, |history| - 1) && Settled(Init(history), name) != Some(Last(history)[name])
  }

  /** What `candidates` should hold. */
  function Candidate(history: History, name: Name): Option<Signature>
  {
    if history == [] || name !in Last(history) || Settled(history, name) == Some(Last(history)[name]) then None
    else Some(Last(history)[name])
  }

  /** Listing i is the latest at which the file was stable, and it has not been missing since. */
  ghost predicate LatestStable(history: History, name: Name, i: nat)
  {
    && i < |history| && Stable(history, name, i)
    && forall j | i < j < |history| :: name in history[j] && !Stable(history, name, j)
  }

  ghost predicate SettledWith(history: History, name: Name, signature: Signature)
  {
    exists i: nat :: LatestStable(history, name, i) && history[i][name] == signature
  }

  lemma EarlierStable(history: History, name: Name, i: nat)
    requires history != [] && name in Last(history) && !Stable(history, name, |history| - 1)
    ensures LatestStable(history, name, i) <==> LatestStable(Init(history), name, i)
  {
    var before := Init(history);
    forall j | 0 <= j < |before| ensures Stable(before, name, j) <==> Stable(history, name, j) {
    }
  }

  /** The settled signature, read off the history without recursion. */
  lemma {:induction false} SettledIsLatestStable(history: History, name: Name, signature: Signature)
    ensures Settled(history, name) == Some(signature) <==> SettledWith(history, name, signature)
  {
    if history == [] {
    } else if name !in Last(history) {
      forall i: nat ensures !LatestStable(history, name, i) {
        assert Last(history) == history[|history| - 1];
      }
    } else if Stable(history, name, |history| - 1) {
      forall i: nat ensures LatestStable(history, name, i) <==> i == |history| - 1 {
      }
    } else {
      SettledIsLatestStable(Init(history), name, signature);
      forall i: nat ensures LatestStable(history, name, i) <==> LatestStable(Init(history), name, i) {
        EarlierStable(history, name, i);
      }
      assert forall i | 0 <= i < |history| - 1 :: Init(history)[i] == history[i];
    }
  }

  /** Which listings a file was queued at. */
  predicate QueuedAt(history: History, name: Name, k: nat)
  {
    0 < k < |history| && Queued(history[..k + 1], name)
  }

  lemma {:induction false} StaysSettled(history: History, name: Name, signature: Signature, j: nat, k: nat)
    requires 0 < j <= k < |history|
    requires QueuedAt(history, name, j) && history[j][name] == signature
    requires forall i | j <= i <= k :: At(history[i], name) == Some(signature)
    ensures Settled(history[..k + 1], name) == Some(signature)
    decreases k
  {
    assert Last(history[..k + 1]) == history[k];
    if j < k {
      StaysSettled(history, name, signature, j, k - 1);
      assert Init(history[..k + 1]) == history[..k];
    }
  }

  /** Between two imports of the same signature of a file, the file changed or disappeared. */
  lemma SameSignatureTwice(history: History, name: Name, j: nat, k: nat)
    requires j < k && QueuedAt(history, name, j) && QueuedAt(history, name, k) && history[j][name] == history[k][name]
    ensures exists i | j < i < k :: At(history[i], name) != Some(history[j][name])
  {
    assert Init(history[..k + 1]) == history[..k];
    if forall i | j < i < k :: At(history[i], name) == Some(history[j][name]) {
      StaysSettled(history, name, history[j][name], j, k - 1);
      assert false;
    }
  }

  /** A file there at startup is never queued while it stays as it was. */
  lemma {:induction false} StartupFilesStay(history: History, name: Name, k: nat)
    requires k < |history| && name in history[0]
    requires forall i | 0 <= i <= k :: At(history[i], name) == At(history[0], name)
    ensures Settled(history[..k + 1], name) == At(history[0], name) && !QueuedAt(history, name, k)
  {
    assert Last(history[..k + 1]) == history[k];
    if k > 0 {
      StartupFilesStay(history, name, k - 1);
      assert Init(history[..k + 1]) == history[..k];
    }
  }

  datatype Import = Import(name: Name, signature: Signature)

  /** The imports one listing queues, in the order the table is walked, while `todo` is left to walk. */
  ghost predicate Batch(history: History, todo: set<Name>, batch: seq<Import>)
    requires |history| > 1
  {
    && (forall x | x in batch :: x.name !in todo && Queued(history, x.name) && x.signature == Last(history)[x.name])
    && (forall name | name !in todo && Queued(history, name) :: Import(name, Last(history)[name]) in batch)
    && (forall i, j | 0 <= i < j < |batch| :: batch[i].name != batch[j].name)
  }

  /** The two tables say of a file what the history says. */
  ghost predicate Tracks(history: History, name: Name, baseline: Listing, candidates: Listing)
  {
    At(baseline, name) == Settled(history, name) && At(candidates, name) == Candidate(history, name)
  }

  /** Before a file is walked, the tables still hold what the last listing left, unless the file is gone. */
  ghost predicate Lags(history: History, name: Name, baseline: Listing, candidates: Listing)
    requires |history| > 1
  {
    if name in Last(history) then Tracks(Init(history), name, baseline, candidates)
    else Tracks(history, name, baseline, candidates)
  }

  ghost predicate Walking(history: History, todo: set<Name>, baseline: Listing, candidates: Listing)
    requires |history| > 1
  {
    && (forall name | name in todo :: Lags(history, name, baseline, candidates))
    && (forall name | name !in todo :: Tracks(history, name, baseline, candidates))
  }

  /** Once all files are walked, each file there is either settled or a candidate with the signature it has. */
  lemma SettledOrCandidate(history: History, baseline: Listing, candidates: Listing, name: Name)
    requires history != [] && Tracks(history, name, baseline, candidates)
    ensures name in Last(history) ==>
      (At(baseline, name) == At(Last(history), name) <==> At(candidates, name) != At(Last(history), name))
    ensures name !in Last(history) ==> name !in baseline && name !in candidates
  {
    if name in Last(history) && Settled(history, name) == Some(Last(history)[name]) {
      assert At(candidates, name) == None;
    }
  }

  /** Dropping what is gone from both tables readies them for the walk. */
  lemma WalkBegins(history: History, before: Listing, tracked: Listing, baseline: Listing, candidates: Listing, name: Name)
    requires |history| > 1 && Tracks(Init(history), name, before, tracked)
    requires At(baseline, name) == if name in Last(history) then At(before, name) else None
    requires At(candidates, name) == if name in Last(history) then At(tracked, name) else None
    ensures Lags(history, name, baseline, candidates)
  {
  }

  /** What the loop body does about one file. */
  lemma WalkOne(history: History, name: Name, baseline: Listing, candidates: Listing)
    requires |history| > 1 && name in Last(history) && Lags(history, name, baseline, candidates)
    ensures var signature := Last(history)[name];
      if At(baseline, name) == Some(signature) then
        !Queued(history, name) && Tracks(history, name, baseline, candidates - {name})
      else if At(candidates, name) == Some(signature) then
        Queued(history, name) && Tracks(history, name, baseline[name := signature], candidates - {name})
      else
        !Queued(history, name) && Tracks(history, name, baseline, candidates[name := signature])
  {
  }

  ghost predicate SameElsewhere(a: Listing, b: Listing, name: Name)
  {
    forall other: Name | other != name :: At(a, other) == At(b, other)
  }

  lemma WalkGoesOn(history: History, todo: set<Name>, name: Name, b0: Listing, c0: Listing, b1: Listing, c1: Listing)
    requires |history| > 1 && Walking(history, todo, b0, c0) && name in todo
    requires SameElsewhere(b0, b1, name) && SameElsewhere(c0, c1, name) && Tracks(history, name, b1, c1)
    ensures Walking(history, todo - {name}, b1, c1)
  {
    forall other: Name | other in todo - {name} ensures Lags(history, other, b1, c1) {
      assert Lags(history, other, b0, c0);
    }
    forall other: Name | other !in todo - {name} ensures Tracks(history, other, b1, c1) {
      assert other != name ==> Tracks(history, other, b0, c0);
    }
  }

  lemma BatchGrows(history: History, todo: set<Name>, batch: seq<Import>, name: Name)
    requires |history| > 1 && Batch(history, todo, batch) && name in todo && name in Last(history)
    ensures Batch(history, todo - {name}, batch + if Queued(history, name) then [Import(name, Last(history)[name])] else [])
  {
    forall i | 0 <= i < |batch| ensures batch[i].name != name {
      assert batch[i] in batch;
    }
  }

  class Monitor {
    var baseline: Listing
    var candidates: Listing
    var queue: seq<Import>
    ghost var history: History

    ghost predicate Valid()
      reads this
    {
      history != [] && forall name: Name :: Tracks(history, name, baseline, candidates)
    }

    /** A listing that fails at startup counts as an empty one. */
    constructor (startup: Option<Listing>)
      ensures Valid() && queue == []
      ensures history == [if startup.Some? then startup.value else map[]]
    {
      baseline := if startup.Some? then startup.value else map[];
      candidates := map[];
      queue := [];
      history := [if startup.Some? then startup.value else map[]];
    }

    /** The body of the loop over one listing. */
    method Visit(name: Name, signature: Signature, ghost todo: set<Name>)
      requires |history| > 1 && At(Last(history), name) == Some(signature) && name in todo
      requires Walking(history, todo, baseline, candidates)
      modifies `baseline, `candidates, `queue
      ensures Walking(history, todo - {name}, baseline, candidates)
      ensures queue == old(queue) + if Queued(history, name) then [Import(name, signature)] else []
    {
      ghost var b, c := baseline, candidates;
      WalkOne(history, name, baseline, candidates);
      if At(baseline, name) == Some(signature) {
        candidates := candidates - {name};
      } else if At(candidates, name) == Some(signature) {
        baseline := baseline[name := signature];
        candidates := candidates - {name};
        queue := queue + [Import(name, signature)];
      } else {
        candidates := candidates[name := signature];
      }
      WalkGoesOn(history, todo, name, b, c, baseline, candidates);
    }

    /** Dropping the files that are gone from both tables. */
    method Forget(current: Listing)
      requires Valid()
      modifies `baseline, `candidates, `history
      ensures history == old(history) + [current]
      ensures Walking(history, current.Keys, baseline, candidates)
    {
      ghost var b, c := baseline, candidates;
      history := history + [current];
      assert Init(history) == old(history);
      baseline := map name | name in baseline && name in current :: baseline[name];
      candidates := map name | name in candidates && name in current :: candidates[name];
      forall name: Name ensures Lags(history, name, baseline, candidates) {
        WalkBegins(history, b, c, baseline, candidates, name);
      }
    }

    /** The loop over one listing. */
    method WalkAll(current: Listing) returns (ghost batch: seq<Import>)
      requires |history| > 1 && current == Last(history)
      requires Walking(history, current.Keys, baseline, candidates)
      modifies `baseline, `candidates, `queue
      ensures Valid()
      ensures queue == old(queue) + batch && Batch(history, {}, batch)
    {
      var todo := current.Keys;
      batch := [];
      while todo != {}
        invariant todo <= current.Keys
        invariant Walking(history, todo, baseline, candidates)
        invariant queue == old(queue) + batch
        invariant Batch(history, todo, batch)
        decreases |todo|
      {
        var name :| name in todo;
        BatchGrows(history, todo, batch, name);
        Visit(name, current[name], todo);
        batch := batch + if Queued(history, name) then [Import(name, current[name])] else [];
        todo := todo - {name};
      }
    }

    /** One turn of the loop; a listing that fails changes nothing. */
    method Poll(listing: Option<Listing>)
      requires Valid()
      modifies this
      ensures Valid()
      ensures listing.None? ==> history == old(history) && queue == old(queue)
      ensures listing.Some? ==>
        && history == old(history) + [listing.value]
        && old(queue) <= queue && Batch(history, {}, queue[|old(queue)|..])
    {
      if listing.None? {
        return;
      }
      Forget(listing.value);
      ghost var batch := WalkAll(listing.value);
      assert queue[|old(queue)|..] == batch;
    }
  }
}
