/** Listing a project's database backups and pruning the scheduled ones (src/dbbackup.rs:158-188, 846-862). */
module Retention {
  type Id = string

  /** manifest.json; `created` stands for the RFC 3339 text, which sorts as the time does. */
  datatype Manifest = Manifest(id: Id, kind: string, service: string, database: string, created: nat)

  /** The project's backup directories, by identifier. */
  type Backups = map<Id, Manifest>

  const SCHEDULED := "scheduled"

  ghost predicate Valid(backups: Backups)
  {
    forall id | id in backups :: backups[id].id == id
  }

  predicate Matches(m: Manifest, service: string, database: string)
  {
    m.kind == SCHEDULED && m.service == service && m.database == database
  }

  function Matching(backups: Backups, service: string, database: string): set<Id>
  {
    set id | id in backups && Matches(backups[id], service, database)
  }

  function Newer(backups: Backups, service: string, database: string, created: nat): set<Id>
  {
    set id | id in Matching(backups, service, database) && backups[id].created > created
  }

  function Min(a: nat, b: nat): nat
  {
    if a <= b then a else b
  }

  /** Nothing but scheduled backups of that service and database goes, as many as possible up to `retain` stay, and
      none of those that go is newer than one that stays. */
  ghost predicate Pruned(before: Backups, after: Backups, service: string, database: string, retain: nat)
  {
    var candidates := Matching(before, service, database);
    && after.Keys <= before.Keys && (forall id | id in after :: after[id] == before[id])
    && before.Keys - after.Keys <= candidates
    && |candidates * after.Keys| == Min(retain, |candidates|)
    && forall kept, gone | kept in candidates * after.Keys && gone in candidates - after.Keys :: before[kept].created >= before[gone].created
  }

  lemma SubsetSize<T>(small: set<T>, big: set<T>)
    requires small <= big
    ensures |small| <= |big|
    ensures small != big ==> |small| < |big|
  {
    assert big == small + (big - small);
  }

  ghost predicate DistinctTimes(before: Backups, candidates: set<Id>)
    requires candidates <= before.Keys
  {
    forall a, b | a in candidates && b in candidates && a != b :: before[a].created != before[b].created
  }

  /** A backup of another kind, service or database stays, and no backup that stays is changed. */
  lemma OthersStay(before: Backups, after: Backups, service: string, database: string, retain: nat, id: Id)
    requires Pruned(before, after, service, database, retain) && id in before
    requires before[id].kind != "scheduled" || before[id].service != service || before[id].database != database
    ensures id in after && after[id] == before[id]
  {
  }

  /** Those that count against the limit are the scheduled ones of that service and database, no fewer and no more. */
  lemma WhatCounts(backups: Backups, service: string, database: string, created: nat)
    ensures forall id | id in backups ::
      (id in Newer(backups, service, database, created) <==>
         && backups[id].kind == "scheduled" && backups[id].service == service && backups[id].database == database
         && backups[id].created > created)
  {
  }

  /** With distinct creation times the pruned directory holds exactly the newest `retain`: a scheduled backup stays
      if and only if fewer than `retain` others are newer. */
  lemma PrunedKeepsNewest(before: Backups, after: Backups, service: string, database: string, retain: nat, id: Id)
    requires Pruned(before, after, service, database, retain)
    requires id in Matching(before, service, database) && DistinctTimes(before, Matching(before, service, database))
    ensures id in after <==> |Newer(before, service, database, before[id].created)| < retain
  {
    var candidates := Matching(before, service, database);
    var kept := candidates * after.Keys;
    var newer := Newer(before, service, database, before[id].created);
    if id in after {
      assert id in kept && newer !! candidates - after.Keys;
      SubsetSize(newer + {id}, kept);
    } else {
      assert id in candidates - after.Keys;
      assert kept <= newer;
      SubsetSize(kept, newer);
      SubsetSize(kept, candidates);
    }
  }

  /** A backup newer than all others of its kind, such as the one just made, survives. */
  lemma NewestSurvives(before: Backups, after: Backups, service: string, database: string, retain: nat, id: Id)
    requires Pruned(before, after, service, database, retain) && retain >= 1
    requires id in Matching(before, service, database)
    requires forall j | j in Matching(before, service, database) && j != id :: before[j].created < before[id].created
    ensures id in after
  {
    var candidates := Matching(before, service, database);
    SubsetSize({id}, candidates);
    var kept :| kept in candidates * after.Keys;
    assert id in candidates * after.Keys || id in candidates - after.Keys;
  }

  lemma SameMap(after: Backups, again: Backups, left: set<Id>)
    requires again.Keys <= after.Keys && after.Keys - again.Keys <= left && left <= again.Keys
    requires forall id | id in again :: again[id] == after[id]
    ensures again == after
  {
    assert again.Keys == after.Keys;
  }

  lemma FullIntersection(left: set<Id>, keys: set<Id>)
    requires |left * keys| >= |left|
    ensures left <= keys
  {
    SubsetSize(left * keys, left);
  }

  /** Pruning again with the same number removes nothing. */
  lemma PruneAgain(before: Backups, after: Backups, again: Backups, service: string, database: string, retain: nat)
    requires Pruned(before, after, service, database, retain) && Pruned(after, again, service, database, retain)
    ensures again == after
  {
    var left := Matching(after, service, database);
    assert left == Matching(before, service, database) * after.Keys;
    FullIntersection(left, again.Keys);
    SameMap(after, again, left);
  }

  ghost predicate NewestFirst(list: seq<Manifest>)
  {
    forall i, j | 0 <= i < j < |list| :: list[i].created >= list[j].created
  }

  ghost predicate NoRepeats(list: seq<Manifest>)
  {
    forall i, j | 0 <= i < j < |list| :: list[i].id != list[j].id
  }

  /** The list names each backup in `ids` once. */
  ghost predicate Lists(backups: Backups, ids: set<Id>, list: seq<Manifest>)
  {
    && ids <= backups.Keys && NoRepeats(list)
    && (forall i | 0 <= i < |list| :: list[i].id in ids && list[i] == backups[list[i].id])
    && (forall id | id in ids :: backups[id] in list)
  }

  function IdsOf(list: seq<Manifest>): set<Id>
  {
    set i | 0 <= i < |list| :: list[i].id
  }

  /** Where a manifest goes in a list that is newest first: behind those as new. */
  function Insert(list: seq<Manifest>, m: Manifest): (longer: seq<Manifest>)
  {
    if list == [] || list[0].created < m.created then [m] + list
    else [list[0]] + Insert(list[1..], m)
  }

  lemma {:induction false} InsertHas(list: seq<Manifest>, m: Manifest)
    ensures forall x :: x in Insert(list, m) <==> x in list || x == m
  {
    if list == [] || list[0].created < m.created {
    } else {
      InsertHas(list[1..], m);
      assert forall x :: x in list <==> x == list[0] || x in list[1..];
    }
  }

  lemma {:induction false} InsertSorts(list: seq<Manifest>, m: Manifest)
    requires NewestFirst(list)
    ensures NewestFirst(Insert(list, m))
  {
    if list == [] || list[0].created < m.created {
    } else {
      var rest := Insert(list[1..], m);
      InsertSorts(list[1..], m);
      InsertHas(list[1..], m);
      forall k | 0 <= k < |rest| ensures list[0].created >= rest[k].created {
        assert rest[k] in rest;
      }
    }
  }

  lemma {:induction false} InsertKeepsDistinct(list: seq<Manifest>, m: Manifest)
    requires NoRepeats(list) && forall x | x in list :: x.id != m.id
    ensures NoRepeats(Insert(list, m))
  {
    if list == [] || list[0].created < m.created {
    } else {
      var rest := Insert(list[1..], m);
      InsertKeepsDistinct(list[1..], m);
      InsertHas(list[1..], m);
      forall k | 0 <= k < |rest| ensures list[0].id != rest[k].id {
        assert rest[k] in rest;
      }
    }
  }

  lemma InsertLists(backups: Backups, ids: set<Id>, list: seq<Manifest>, id: Id)
    requires Valid(backups) && Lists(backups, ids, list) && id in backups && id !in ids
    ensures Lists(backups, ids + {id}, Insert(list, backups[id]))
  {
    var longer := Insert(list, backups[id]);
    InsertHas(list, backups[id]);
    InsertKeepsDistinct(list, backups[id]);
    forall i | 0 <= i < |longer| ensures longer[i].id in ids + {id} && longer[i] == backups[longer[i].id] {
      assert longer[i] in longer;
    }
  }

  lemma FilterStep(list: seq<Manifest>, i: nat, service: string, database: string)
    requires i < |list|
    ensures Filter(list[..i + 1], service, database)
         == Filter(list[..i], service, database) + (if Matches(list[i], service, database) then [list[i]] else [])
  {
    assert list[..i + 1][..i] == list[..i];
  }

  function Filter(list: seq<Manifest>, service: string, database: string): seq<Manifest>
  {
    if list == [] then []
    else
      var last := list[|list| - 1];
      Filter(list[..|list| - 1], service, database) + (if Matches(last, service, database) then [last] else [])
  }

  lemma {:induction false} FilterHas(list: seq<Manifest>, service: string, database: string)
    ensures forall x :: x in Filter(list, service, database) <==> x in list && Matches(x, service, database)
  {
    if list != [] {
      var init := list[..|list| - 1];
      FilterHas(init, service, database);
      assert list == init + [list[|list| - 1]];
    }
  }

  lemma {:induction false} FilterOrder(list: seq<Manifest>, service: string, database: string)
    requires NewestFirst(list) && NoRepeats(list)
    ensures NewestFirst(Filter(list, service, database)) && NoRepeats(Filter(list, service, database))
  {
    if list != [] {
      var init := list[..|list| - 1];
      var chosen := Filter(init, service, database);
      FilterOrder(init, service, database);
      FilterHas(init, service, database);
      forall k | 0 <= k < |chosen| ensures chosen[k].created >= list[|list| - 1].created && chosen[k].id != list[|list| - 1].id {
        assert chosen[k] in init;
      }
    }
  }

  lemma FilterLists(backups: Backups, list: seq<Manifest>, service: string, database: string)
    requires Lists(backups, backups.Keys, list) && NewestFirst(list) && Valid(backups)
    ensures Lists(backups, Matching(backups, service, database), Filter(list, service, database))
    ensures NewestFirst(Filter(list, service, database))
  {
    var chosen := Filter(list, service, database);
    FilterHas(list, service, database);
    FilterOrder(list, service, database);
    forall i | 0 <= i < |chosen| ensures chosen[i].id in Matching(backups, service, database) && chosen[i] == backups[chosen[i].id] {
      assert chosen[i] in list;
    }
  }

  lemma {:induction false} IdsCount(list: seq<Manifest>)
    requires NoRepeats(list)
    ensures |IdsOf(list)| == |list|
  {
    if list != [] {
      var init := list[..|list| - 1];
      IdsCount(init);
      assert IdsOf(list) == IdsOf(init) + {list[|list| - 1].id};
      assert list[|list| - 1].id !in IdsOf(init);
    }
  }

  lemma Separates(list: seq<Manifest>, head: nat)
    requires NoRepeats(list) && head <= |list|
    ensures IdsOf(list) == IdsOf(list[..head]) + IdsOf(list[head..])
    ensures IdsOf(list[..head]) !! IdsOf(list[head..])
  {
    assert list == list[..head] + list[head..];
    forall i | 0 <= i < |list| ensures list[i].id in IdsOf(list[..head]) + IdsOf(list[head..]) {
      if i < head {
        assert list[..head][i] == list[i];
      } else {
        assert list[head..][i - head] == list[i];
      }
    }
  }

  lemma ListsAll(backups: Backups, ids: set<Id>, list: seq<Manifest>)
    requires Valid(backups) && Lists(backups, ids, list)
    ensures IdsOf(list) == ids
  {
    forall id | id in ids ensures id in IdsOf(list) {
      assert backups[id] in list;
    }
  }

  lemma HeadIsNewer(backups: Backups, list: seq<Manifest>, head: nat, kept: Id, gone: Id)
    requires NewestFirst(list) && head <= |list|
    requires forall m | m in list :: m.id in backups && backups[m.id] == m
    requires kept in IdsOf(list[..head]) && gone in IdsOf(list[head..])
    ensures kept in backups && gone in backups && backups[kept].created >= backups[gone].created
  {
    var i :| 0 <= i < head && list[..head][i].id == kept;
    var j :| 0 <= j < |list| - head && list[head..][j].id == gone;
    assert list[i] in list && list[head + j] in list;
    assert list[i].created >= list[head + j].created;
  }

  lemma HeadAndTail(ids: set<Id>, head: set<Id>, tail: set<Id>, all: set<Id>)
    requires ids <= all && ids == head + tail && head !! tail
    ensures ids * (all - tail) == head && ids - (all - tail) == tail
  {
  }

  /** Removing everything past the first `retain` of the sorted list prunes. */
  lemma TailPrunes(before: Backups, scheduled: seq<Manifest>, service: string, database: string, retain: nat)
    requires Valid(before) && NewestFirst(scheduled)
    requires Lists(before, Matching(before, service, database), scheduled)
    ensures var head := Min(retain, |scheduled|);
      Pruned(before, before - IdsOf(scheduled[head..]), service, database, retain)
  {
    var head := Min(retain, |scheduled|);
    var first, rest := IdsOf(scheduled[..head]), IdsOf(scheduled[head..]);
    ListsAll(before, Matching(before, service, database), scheduled);
    Separates(scheduled, head);
    IdsCount(scheduled);
    IdsCount(scheduled[..head]);
    HeadAndTail(Matching(before, service, database), first, rest, before.Keys);
    forall kept, gone | kept in first && gone in rest ensures before[kept].created >= before[gone].created {
      HeadIsNewer(before, scheduled, head, kept, gone);
    }
  }

  lemma OneMoreId(list: seq<Manifest>, head: nat, k: nat)
    requires head <= k < |list|
    ensures IdsOf(list[head..k + 1]) == IdsOf(list[head..k]) + {list[k].id}
  {
    var shorter, longer := list[head..k], list[head..k + 1];
    assert longer == shorter + [list[k]];
    assert longer[|shorter|] == list[k];
    forall i | 0 <= i < |shorter| ensures shorter[i].id in IdsOf(longer) {
      assert longer[i] == shorter[i];
    }
  }

  /** One project's backup directory. */
  class BackupRoot {
    var backups: Backups

    /** All backups, newest first; the directory is read in any order. */
    method List() returns (list: seq<Manifest>)
      requires Valid(backups)
      ensures Lists(backups, backups.Keys, list) && NewestFirst(list)
    {
      list := [];
      var unread := backups.Keys;
      while unread != {}
        invariant unread <= backups.Keys
        invariant Lists(backups, backups.Keys - unread, list) && NewestFirst(list)
        decreases |unread|
      {
        var id :| id in unread;
        InsertLists(backups, backups.Keys - unread, list, id);
        InsertSorts(list, backups[id]);
        list := Insert(list, backups[id]);
        assert backups.Keys - (unread - {id}) == backups.Keys - unread + {id};
        unread := unread - {id};
      }
      assert backups.Keys - unread == backups.Keys;
    }

    method Scheduled(service: string, database: string) returns (scheduled: seq<Manifest>)
      requires Valid(backups)
      ensures Lists(backups, Matching(backups, service, database), scheduled) && NewestFirst(scheduled)
    {
      var list := List();
      scheduled := [];
      var i := 0;
      while i < |list|
        invariant 0 <= i <= |list| && scheduled == Filter(list[..i], service, database)
      {
        FilterStep(list, i, service, database);
        if Matches(list[i], service, database) {
          scheduled := scheduled + [list[i]];
        }
        i := i + 1;
      }
      assert list[..i] == list;
      FilterLists(backups, list, service, database);
    }

    method RemoveFrom(list: seq<Manifest>, head: nat)
      requires head <= |list|
      modifies this
      ensures backups == old(backups) - IdsOf(list[head..])
    {
      assert list[head..head] == [];
      var k := head;
      while k < |list|
        invariant head <= k <= |list|
        invariant backups == old(backups) - IdsOf(list[head..k])
      {
        OneMoreId(list, head, k);
        backups := backups - {list[k].id};
        k := k + 1;
      }
      assert list[head..k] == list[head..];
    }

    method ApplyRetention(service: string, database: string, retain: nat)
      requires Valid(backups)
      modifies this
      ensures Pruned(old(backups), backups, service, database, retain)
    {
      var scheduled := Scheduled(service, database);
      TailPrunes(backups, scheduled, service, database, retain);
      RemoveFrom(scheduled, Min(retain, |scheduled|));
    }
  }
}
