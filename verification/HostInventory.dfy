/** Merging discovered cluster nodes into the host table (src/hosts.rs:608-683). */
module HostInventory {
  import opened Text

  /** Row identifiers; the kind of a row goes with its identifier. */
  datatype Id = LocalHost | Cluster(node: string) | Manual(key: string)

  /** A row of managed_hosts; an empty `password` means that none is stored. */
  datatype Row = Row(name: string, host: string, port: nat, username: string, password: string, node: string, created: nat, updated: nat)
  type Table = map<Id, Row>

  /** A discovered node and the address read from what it reported, empty if there is none. */
  datatype Node = Node(id: string, name: string, host: string)

  /** What the machine says of itself. */
  datatype Local = Local(name: string, host: string, node: string)

  const SSH_PORT := 22

  predicate Active(local: string, node: Node)
  {
    node.id != local && node.host != ""
  }

  /** The hand-entered rows a node at that address replaces. */
  function Duplicates(t: Table, host: string): set<Id>
  {
    set id | id in t && id.Manual? && t[id].host == host && t[id].port == SSH_PORT
  }

  /** ORDER BY: rows with a password first, then the latest updated. */
  predicate NoWorse(a: Row, b: Row)
  {
    if (a.password == "") == (b.password == "") then a.updated >= b.updated else b.password == ""
  }

  predicate Best(t: Table, host: string, id: Id)
  {
    id in Duplicates(t, host) && forall other | other in Duplicates(t, host) :: NoWorse(t[id], t[other])
  }

  /** What the query may return. */
  predicate IsPick(t: Table, local: string, node: Node, pick: Option<Id>)
  {
    if pick.Some? then Active(local, node) && Best(t, node.host, pick.value)
    else Active(local, node) ==> Duplicates(t, node.host) == {}
  }

  function OrElse(value: string, other: string): string
  {
    if value == "" then other else value
  }

  function NodeRow(t: Table, node: Node, pick: Option<Id>, now: nat): Row
    requires pick.Some? ==> pick.value in t
  {
    var username := if pick.Some? then t[pick.value].username else "root";
    var password := if pick.Some? then t[pick.value].password else "";
    var created := if pick.Some? then t[pick.value].created else now;
    var id := Cluster(node.id);
    if id in t then
      t[id].(name := node.name, host := node.host, username := OrElse(t[id].username, username),
             password := OrElse(t[id].password, password), node := node.id, updated := now)
    else Row(node.name, node.host, SSH_PORT, username, password, node.id, created, now)
  }

  /** The upsert of one node and the deletion after it. */
  function Step(t: Table, local: string, node: Node, pick: Option<Id>, now: nat): Table
    requires IsPick(t, local, node, pick)
  {
    if Active(local, node) then t[Cluster(node.id) := NodeRow(t, node, pick, now)] - Duplicates(t, node.host) else t
  }

  function SyncLocal(t: Table, local: Local, now: nat): Table
  {
    t[LocalHost :=
      if LocalHost in t then t[LocalHost].(name := local.name, host := local.host, node := local.node, updated := now)
      else Row(local.name, local.host, SSH_PORT, "root", "", local.node, now, now)]
  }

  /** The query results of a whole run over `nodes`. */
  ghost predicate ArePicks(t: Table, local: string, nodes: seq<Node>, picks: seq<Option<Id>>, now: nat)
    decreases |nodes|, 0
  {
    && |picks| == |nodes|
    && (nodes != [] ==>
          && ArePicks(t, local, Init(nodes), Init(picks), now)
          && IsPick(SyncNodes(t, local, Init(nodes), Init(picks), now), local, Last(nodes), Last(picks)))
  }

  ghost function SyncNodes(t: Table, local: string, nodes: seq<Node>, picks: seq<Option<Id>>, now: nat): Table
    requires ArePicks(t, local, nodes, picks, now)
    decreases |nodes|, 1
  {
    if nodes == [] then t
    else Step(SyncNodes(t, local, Init(nodes), Init(picks), now), local, Last(nodes), Last(picks), now)
  }

  ghost function Sync(t: Table, local: Local, nodes: seq<Node>, picks: seq<Option<Id>>, now: nat): Table
    requires ArePicks(SyncLocal(t, local, now), local.node, nodes, picks, now)
  {
    SyncNodes(SyncLocal(t, local, now), local.node, nodes, picks, now)
  }

  /** Node identifiers are the primary key of cluster_nodes. */
  predicate Distinct(nodes: seq<Node>)
  {
    forall i, j | 0 <= i < j < |nodes| :: nodes[i].id != nodes[j].id
  }

  /** Addresses at which the run finds a node. */
  predicate Discovered(local: string, nodes: seq<Node>, host: string)
  {
    exists n | n in nodes :: Active(local, n) && n.host == host
  }

  predicate Replaced(local: string, nodes: seq<Node>, row: Row)
  {
    row.port == SSH_PORT && Discovered(local, nodes, row.host)
  }

  lemma DiscoveredSnoc(local: string, nodes: seq<Node>, host: string)
    requires nodes != []
    ensures Discovered(local, nodes, host)
      <==> Discovered(local, Init(nodes), host) || (Active(local, Last(nodes)) && Last(nodes).host == host)
  {
    assert nodes == Init(nodes) + [Last(nodes)];
  }

  /** Of the hand-entered rows exactly those at a discovered address and the SSH port go; the others are untouched. */
  lemma {:induction false} ManualRows(t: Table, local: string, nodes: seq<Node>, picks: seq<Option<Id>>, now: nat, key: string)
    requires ArePicks(t, local, nodes, picks, now)
    ensures var after := SyncNodes(t, local, nodes, picks, now); var id := Manual(key);
      && (id in after <==> id in t && !Replaced(local, nodes, t[id]))
      && (id in after ==> after[id] == t[id])
    decreases |nodes|
  {
    if nodes != [] {
      ManualRows(t, local, Init(nodes), Init(picks), now, key);
      if Manual(key) in t {
        DiscoveredSnoc(local, nodes, t[Manual(key)].host);
      }
    }
  }

  /** Afterwards no hand-entered row shares a discovered address. */
  lemma NoDuplicatesLeft(t: Table, local: string, nodes: seq<Node>, picks: seq<Option<Id>>, now: nat, host: string)
    requires ArePicks(t, local, nodes, picks, now) && Discovered(local, nodes, host)
    ensures Duplicates(SyncNodes(t, local, nodes, picks, now), host) == {}
  {
    forall key: string ensures Manual(key) !in Duplicates(SyncNodes(t, local, nodes, picks, now), host) {
      ManualRows(t, local, nodes, picks, now, key);
    }
    var left := Duplicates(SyncNodes(t, local, nodes, picks, now), host);
    assert forall id: Id | id.Manual? :: id == Manual(id.key) && id !in left;
  }

  /** Rows that are neither hand-entered nor of one of the nodes are untouched. */
  lemma {:induction false} OtherRows(t: Table, local: string, nodes: seq<Node>, picks: seq<Option<Id>>, now: nat, id: Id)
    requires ArePicks(t, local, nodes, picks, now) && !id.Manual?
    requires forall n | n in nodes && Active(local, n) :: Cluster(n.id) != id
    ensures At(SyncNodes(t, local, nodes, picks, now), id) == At(t, id)
    decreases |nodes|
  {
    if nodes != [] {
      assert nodes == Init(nodes) + [Last(nodes)];
      OtherRows(t, local, Init(nodes), Init(picks), now, id);
    }
  }

  function At(t: Table, id: Id): Option<Row>
  {
    if id in t then Some(t[id]) else None
  }

  /** Node i is the first the run finds at its address. */
  predicate FirstThere(local: string, nodes: seq<Node>, i: nat)
  {
    i < |nodes| && Active(local, nodes[i]) && forall j | 0 <= j < i && Active(local, nodes[j]) :: nodes[j].host != nodes[i].host
  }

  lemma SameDuplicates(t: Table, u: Table, local: string, node: Node, pick: Option<Id>, now: nat)
    requires Duplicates(t, node.host) == Duplicates(u, node.host)
    requires forall id | id in Duplicates(t, node.host) :: t[id] == u[id]
    requires At(t, Cluster(node.id)) == At(u, Cluster(node.id))
    requires IsPick(u, local, node, pick)
    ensures IsPick(t, local, node, pick) && NodeRow(t, node, pick, now) == NodeRow(u, node, pick, now)
  {
  }

  /** A prefix of the run that does not come to the node's address leaves the node's row and duplicates alone. */
  lemma PrefixLeaves(t: Table, local: string, nodes: seq<Node>, picks: seq<Option<Id>>, now: nat, node: Node)
    requires ArePicks(t, local, nodes, picks, now)
    requires forall n | n in nodes :: n.id != node.id
    ensures var u := SyncNodes(t, local, nodes, picks, now);
      && At(t, Cluster(node.id)) == At(u, Cluster(node.id))
      && (!Discovered(local, nodes, node.host) ==>
            Duplicates(t, node.host) == Duplicates(u, node.host) && forall id | id in Duplicates(t, node.host) :: t[id] == u[id])
  {
    var u := SyncNodes(t, local, nodes, picks, now);
    OtherRows(t, local, nodes, picks, now, Cluster(node.id));
    if !Discovered(local, nodes, node.host) {
      forall key: string ensures Manual(key) in Duplicates(t, node.host) <==> Manual(key) in Duplicates(u, node.host)
        ensures Manual(key) in Duplicates(t, node.host) ==> t[Manual(key)] == u[Manual(key)]
      {
        ManualRows(t, local, nodes, picks, now, key);
      }
      assert forall id: Id | id.Manual? :: id == Manual(id.key);
    }
  }

  /** What becomes of a node's row: the first node found at an address is merged with the best hand-entered row there
      was, any later one with none. */
  lemma {:induction false} NodeRowAfter(t: Table, local: string, nodes: seq<Node>, picks: seq<Option<Id>>, now: nat, i: nat)
    requires ArePicks(t, local, nodes, picks, now) && Distinct(nodes)
    requires i < |nodes| && Active(local, nodes[i])
    ensures var after := SyncNodes(t, local, nodes, picks, now);
      && Cluster(nodes[i].id) in after
      && if FirstThere(local, nodes, i)
         then IsPick(t, local, nodes[i], picks[i]) && after[Cluster(nodes[i].id)] == NodeRow(t, nodes[i], picks[i], now)
         else after[Cluster(nodes[i].id)] == NodeRow(t, nodes[i], None, now)
    decreases |nodes|
  {
    if i == |nodes| - 1 {
      LastNodeRow(t, local, nodes, picks, now);
    } else {
      assert Init(nodes)[i] == nodes[i] && Init(picks)[i] == picks[i];
      assert FirstThere(local, Init(nodes), i) <==> FirstThere(local, nodes, i);
      assert Last(nodes).id != nodes[i].id;
      NodeRowAfter(t, local, Init(nodes), Init(picks), now, i);
    }
  }

  lemma LastNodeRow(t: Table, local: string, nodes: seq<Node>, picks: seq<Option<Id>>, now: nat)
    requires ArePicks(t, local, nodes, picks, now) && Distinct(nodes)
    requires nodes != [] && Active(local, Last(nodes))
    ensures var after := SyncNodes(t, local, nodes, picks, now); var node := Last(nodes);
      && Cluster(node.id) in after
      && if FirstThere(local, nodes, |nodes| - 1)
         then IsPick(t, local, node, Last(picks)) && after[Cluster(node.id)] == NodeRow(t, node, Last(picks), now)
         else after[Cluster(node.id)] == NodeRow(t, node, None, now)
  {
    var i := |nodes| - 1;
    var before := SyncNodes(t, local, Init(nodes), Init(picks), now);
    PrefixLeaves(t, local, Init(nodes), Init(picks), now, nodes[i]);
    if FirstThere(local, nodes, i) {
      SameDuplicates(t, before, local, nodes[i], picks[i], now);
    } else {
      var j :| 0 <= j < i && Active(local, nodes[j]) && nodes[j].host == nodes[i].host;
      assert nodes[j] in Init(nodes);
      NoDuplicatesLeft(t, local, Init(nodes), Init(picks), now, nodes[i].host);
    }
  }

  /** The machine's own row: what the machine says of itself is new, what was entered for it stays. */
  ghost predicate LocalRowIs(before: Table, local: Local, now: nat, after: Table)
  {
    && LocalHost in after
    && after[LocalHost].name == local.name && after[LocalHost].host == local.host
    && after[LocalHost].node == local.node && after[LocalHost].updated == now
    && (LocalHost in before ==>
          && after[LocalHost].port == before[LocalHost].port && after[LocalHost].created == before[LocalHost].created
          && after[LocalHost].username == before[LocalHost].username && after[LocalHost].password == before[LocalHost].password)
    && (LocalHost !in before ==>
          && after[LocalHost].port == 22 && after[LocalHost].created == now
          && after[LocalHost].username == "root" && after[LocalHost].password == "")
  }

  lemma LocalRowAfter(t: Table, local: Local, nodes: seq<Node>, picks: seq<Option<Id>>, now: nat)
    requires ArePicks(SyncLocal(t, local, now), local.node, nodes, picks, now)
    ensures LocalRowIs(t, local, now, Sync(t, local, nodes, picks, now))
    ensures forall id: Id | id != LocalHost :: At(SyncLocal(t, local, now), id) == At(t, id)
  {
    OtherRows(SyncLocal(t, local, now), local.node, nodes, picks, now, LocalHost);
  }

  /** A hand-entered row at an address and port 22. */
  predicate EnteredFor(t: Table, host: string, id: Id)
  {
    id.Manual? && id in t && t[id].host == host && t[id].port == 22
  }

  /** One that the node merges with: it has a password if any of them has, and of those that agree with it in that it is
      the last updated. */
  ghost predicate MergesWith(t: Table, host: string, id: Id)
  {
    && EnteredFor(t, host, id)
    && forall other | EnteredFor(t, host, other) ::
         && (t[other].password != "" ==> t[id].password != "")
         && ((t[other].password == "") == (t[id].password == "") ==> t[id].updated >= t[other].updated)
  }

  /** A node's row: what was discovered is new; port and creation time stay, and so do user name and password unless they
      are empty, in which case those of `entered` take their place. */
  ghost predicate NodeRowIs(before: Table, node: Node, now: nat, username: string, password: string, created: nat, after: Row)
  {
    var id := Cluster(node.id);
    && after.name == node.name && after.host == node.host && after.node == node.id && after.updated == now
    && (id in before ==>
          && after.port == before[id].port && after.created == before[id].created
          && after.username == (if before[id].username != "" then before[id].username else username)
          && after.password == (if before[id].password != "" then before[id].password else password))
    && (id !in before ==> after.port == 22 && after.created == created && after.username == username && after.password == password)
  }

  /** What the row of every node other than the machine itself, with an address, is made of: for the first node found at
      its address the login and the creation time of a hand-entered row there, if there is one; else "root", no
      password, and the time of the run. */
  lemma NodeRowContents(t: Table, local: string, nodes: seq<Node>, picks: seq<Option<Id>>, now: nat, i: nat)
    requires ArePicks(t, local, nodes, picks, now) && Distinct(nodes)
    requires i < |nodes| && nodes[i].id != local && nodes[i].host != ""
    ensures var after := SyncNodes(t, local, nodes, picks, now); var id := Cluster(nodes[i].id);
      var first := forall j | 0 <= j < i && nodes[j].id != local :: nodes[j].host != nodes[i].host;
      && id in after
      && if first && exists d :: EnteredFor(t, nodes[i].host, d) then
           exists d :: MergesWith(t, nodes[i].host, d) &&
             NodeRowIs(t, nodes[i], now, t[d].username, t[d].password, t[d].created, after[id])
         else NodeRowIs(t, nodes[i], now, "root", "", now, after[id])
  {
    NodeRowAfter(t, local, nodes, picks, now, i);
    var host := nodes[i].host;
    forall d: Id ensures EnteredFor(t, host, d) <==> d in Duplicates(t, host) {
    }
    if FirstThere(local, nodes, i) && picks[i].Some? {
      PickMerges(t, local, nodes[i], picks[i].value);
    }
  }

  lemma PickMerges(t: Table, local: string, node: Node, pick: Id)
    requires Active(local, node) && IsPick(t, local, node, Some(pick))
    ensures MergesWith(t, node.host, pick)
  {
    forall other | EnteredFor(t, node.host, other) ensures NoWorse(t[pick], t[other]) {
      assert other in Duplicates(t, node.host);
    }
  }

  /** No row comes of the machine itself as a node, nor of a node without an address. */
  lemma NoOtherNodeRows(t: Table, local: string, nodes: seq<Node>, picks: seq<Option<Id>>, now: nat, node: string)
    requires ArePicks(t, local, nodes, picks, now)
    requires forall n | n in nodes && n.id == node :: n.id == local || n.host == ""
    ensures At(SyncNodes(t, local, nodes, picks, now), Cluster(node)) == At(t, Cluster(node))
  {
    OtherRows(t, local, nodes, picks, now, Cluster(node));
  }

  predicate HasPassword(t: Table, id: Id)
  {
    id in t && t[id].password != ""
  }

  /** The first node found at an address has a password exactly if its row or a hand-entered row there had one; its
      own comes first. */
  lemma NodePassword(t: Table, local: string, nodes: seq<Node>, picks: seq<Option<Id>>, now: nat, i: nat)
    requires ArePicks(t, local, nodes, picks, now) && Distinct(nodes) && FirstThere(local, nodes, i)
    ensures var after := SyncNodes(t, local, nodes, picks, now); var id := Cluster(nodes[i].id);
      && (HasPassword(after, id) <==> HasPassword(t, id) || exists d | d in Duplicates(t, nodes[i].host) :: t[d].password != "")
      && (HasPassword(t, id) ==> after[id].password == t[id].password)
  {
    NodeRowAfter(t, local, nodes, picks, now, i);
  }

  /** The password it gets is that of the hand-entered row updated last among those that have one. */
  lemma LatestPassword(t: Table, local: string, nodes: seq<Node>, picks: seq<Option<Id>>, now: nat, i: nat)
    requires ArePicks(t, local, nodes, picks, now) && Distinct(nodes) && FirstThere(local, nodes, i)
    requires !HasPassword(t, Cluster(nodes[i].id)) && exists d | d in Duplicates(t, nodes[i].host) :: t[d].password != ""
    ensures var after := SyncNodes(t, local, nodes, picks, now); var id := Cluster(nodes[i].id);
      id in after && exists d | d in Duplicates(t, nodes[i].host) ::
        && t[d].password == after[id].password != ""
        && forall other | other in Duplicates(t, nodes[i].host) && t[other].password != "" :: t[d].updated >= t[other].updated
  {
    NodeRowAfter(t, local, nodes, picks, now, i);
    assert picks[i].value in Duplicates(t, nodes[i].host);
  }

  predicate SameLogin(a: Row, b: Row)
  {
    a.username == b.username && a.password == b.password
  }

  /** User name and password are filled in separately: a known node without a password keeps its user name and takes
      the password of another user, exactly if the hand-entered row has a password and a different user name. */
  lemma LoginsCanMix(t: Table, local: string, nodes: seq<Node>, picks: seq<Option<Id>>, now: nat, i: nat)
    requires ArePicks(t, local, nodes, picks, now) && Distinct(nodes) && FirstThere(local, nodes, i)
    requires Named(t) && Cluster(nodes[i].id) in t && picks[i].Some? && picks[i].value in t
    ensures var id := Cluster(nodes[i].id); var after := SyncNodes(t, local, nodes, picks, now);
      var own, manual := t[id], t[picks[i].value];
      var mixed := own.password == "" && manual.password != "" && own.username != manual.username;
      id in after && (mixed <==> !SameLogin(after[id], own) && !SameLogin(after[id], manual))
  {
    NodeRowAfter(t, local, nodes, picks, now, i);
  }

  /** The same rows up to the time of their last update. */
  ghost predicate SameButTimes(a: Table, b: Table)
  {
    a.Keys == b.Keys && forall id | id in a :: a[id].(updated := 0) == b[id].(updated := 0)
  }

  /** The table agrees with what was discovered. */
  ghost predicate Merged(t: Table, local: string, nodes: seq<Node>)
  {
    forall n | n in nodes && Active(local, n) ::
      && Duplicates(t, n.host) == {} && Cluster(n.id) in t
      && t[Cluster(n.id)].name == n.name && t[Cluster(n.id)].host == n.host && t[Cluster(n.id)].node == n.id
  }

  ghost predicate NodesNamed(t: Table, local: string, nodes: seq<Node>)
  {
    forall n | n in nodes && Active(local, n) :: Cluster(n.id) in t && t[Cluster(n.id)].username != ""
  }

  lemma RunMerges(t: Table, local: string, nodes: seq<Node>, picks: seq<Option<Id>>, now: nat)
    requires ArePicks(t, local, nodes, picks, now) && Distinct(nodes)
    ensures Merged(SyncNodes(t, local, nodes, picks, now), local, nodes)
  {
    forall i | 0 <= i < |nodes| && Active(local, nodes[i])
      ensures var after := SyncNodes(t, local, nodes, picks, now); var n := nodes[i];
        && Duplicates(after, n.host) == {} && Cluster(n.id) in after
        && after[Cluster(n.id)].name == n.name && after[Cluster(n.id)].host == n.host && after[Cluster(n.id)].node == n.id
    {
      NodeRowAfter(t, local, nodes, picks, now, i);
      assert nodes[i] in nodes;
      NoDuplicatesLeft(t, local, nodes, picks, now, nodes[i].host);
    }
  }

  lemma SameDuplicateIds(a: Table, b: Table, host: string)
    requires SameButTimes(a, b)
    ensures Duplicates(a, host) == Duplicates(b, host)
  {
    forall id ensures id in Duplicates(a, host) <==> id in Duplicates(b, host) {
      if id in a {
        assert a[id].(updated := 0) == b[id].(updated := 0);
      }
    }
  }

  /** On a table that already agrees, a step for a node with a user name changes nothing but the time. */
  lemma StepAgain(t: Table, u: Table, local: string, node: Node, pick: Option<Id>, now: nat)
    requires SameButTimes(t, u) && Merged(t, local, [node]) && NodesNamed(t, local, [node]) && IsPick(u, local, node, pick)
    ensures SameButTimes(t, Step(u, local, node, pick, now))
  {
    assert node in [node];
    SameDuplicateIds(t, u, node.host);
    if Active(local, node) {
      var id := Cluster(node.id);
      assert t[id].(updated := 0) == u[id].(updated := 0);
      assert NodeRow(u, node, None, now).(updated := 0) == u[id].(updated := 0);
    }
  }

  lemma {:induction false} RunAgain(t: Table, local: string, nodes: seq<Node>, picks: seq<Option<Id>>, now: nat)
    requires Merged(t, local, nodes) && NodesNamed(t, local, nodes) && ArePicks(t, local, nodes, picks, now)
    ensures SameButTimes(t, SyncNodes(t, local, nodes, picks, now))
    decreases |nodes|
  {
    if nodes != [] {
      assert nodes == Init(nodes) + [Last(nodes)];
      RunAgain(t, local, Init(nodes), Init(picks), now);
      StepAgain(t, SyncNodes(t, local, Init(nodes), Init(picks), now), local, Last(nodes), Last(picks), now);
    }
  }

  /** A nameless row does change: it gets the default user name. */
  lemma NamelessChanges(t: Table, local: string, nodes: seq<Node>, picks: seq<Option<Id>>, now: nat)
    requires Merged(t, local, nodes) && !NodesNamed(t, local, nodes) && Distinct(nodes) && ArePicks(t, local, nodes, picks, now)
    ensures !SameButTimes(t, SyncNodes(t, local, nodes, picks, now))
  {
    var n :| n in nodes && Active(local, n) && t[Cluster(n.id)].username == "";
    var i :| 0 <= i < |nodes| && nodes[i] == n;
    NodeRowAfter(t, local, nodes, picks, now, i);
    var after := SyncNodes(t, local, nodes, picks, now);
    assert after[Cluster(n.id)].username == "root";
    assert t[Cluster(n.id)].(updated := 0) != after[Cluster(n.id)].(updated := 0);
  }

  /** A second run over unchanged nodes changes nothing but timestamps, if and only if the first left every node's
      row with a user name. */
  lemma SyncAgain(t: Table, local: Local, nodes: seq<Node>, picks: seq<Option<Id>>, now: nat, morePicks: seq<Option<Id>>, later: nat)
    requires Distinct(nodes) && ArePicks(SyncLocal(t, local, now), local.node, nodes, picks, now)
    requires ArePicks(SyncLocal(Sync(t, local, nodes, picks, now), local, later), local.node, nodes, morePicks, later)
    ensures var first := Sync(t, local, nodes, picks, now);
      SameButTimes(first, Sync(first, local, nodes, morePicks, later)) <==> NodesNamed(first, local.node, nodes)
  {
    var first := Sync(t, local, nodes, picks, now);
    var middle := SyncLocal(first, local, later);
    var second := SyncNodes(middle, local.node, nodes, morePicks, later);
    OtherRows(SyncLocal(t, local, now), local.node, nodes, picks, now, LocalHost);
    assert SameButTimes(first, middle);
    RunMerges(SyncLocal(t, local, now), local.node, nodes, picks, now);
    StillMerged(first, middle, local.node, nodes);
    if NodesNamed(middle, local.node, nodes) {
      RunAgain(middle, local.node, nodes, morePicks, later);
      SameTransitive(first, middle, second);
    } else {
      NamelessChanges(middle, local.node, nodes, morePicks, later);
      SameTransitive(middle, first, second);
    }
  }

  lemma SameTransitive(a: Table, b: Table, c: Table)
    requires SameButTimes(a, b)
    ensures SameButTimes(b, c) <==> SameButTimes(a, c)
  {
  }

  lemma StillMerged(a: Table, b: Table, local: string, nodes: seq<Node>)
    requires SameButTimes(a, b) && Merged(a, local, nodes)
    ensures Merged(b, local, nodes) && (NodesNamed(a, local, nodes) <==> NodesNamed(b, local, nodes))
  {
    forall n | n in nodes && Active(local, n)
      ensures Duplicates(b, n.host) == {} && Cluster(n.id) in b
        && b[Cluster(n.id)].(updated := 0) == a[Cluster(n.id)].(updated := 0)
    {
      SameDuplicateIds(a, b, n.host);
    }
  }

  /** Every row has a user name; the forms for entering hosts see to that. */
  ghost predicate Named(t: Table)
  {
    forall id | id in t :: t[id].username != ""
  }

  lemma {:induction false} NamesStay(t: Table, local: string, nodes: seq<Node>, picks: seq<Option<Id>>, now: nat)
    requires Named(t) && ArePicks(t, local, nodes, picks, now)
    ensures Named(SyncNodes(t, local, nodes, picks, now))
    decreases |nodes|
  {
    if nodes != [] {
      NamesStay(t, local, Init(nodes), Init(picks), now);
    }
  }

  /** So with user names throughout, a second run only ever touches timestamps. */
  lemma SyncIsIdempotent(t: Table, local: Local, nodes: seq<Node>, picks: seq<Option<Id>>, now: nat, morePicks: seq<Option<Id>>, later: nat)
    requires Named(t) && Distinct(nodes) && ArePicks(SyncLocal(t, local, now), local.node, nodes, picks, now)
    requires ArePicks(SyncLocal(Sync(t, local, nodes, picks, now), local, later), local.node, nodes, morePicks, later)
    ensures var first := Sync(t, local, nodes, picks, now); SameButTimes(first, Sync(first, local, nodes, morePicks, later))
  {
    var first := Sync(t, local, nodes, picks, now);
    NamesStay(SyncLocal(t, local, now), local.node, nodes, picks, now);
    RunMerges(SyncLocal(t, local, now), local.node, nodes, picks, now);
    SyncAgain(t, local, nodes, picks, now, morePicks, later);
  }

  lemma {:induction false} BestExists(t: Table, ids: set<Id>)
    requires ids != {} && ids <= t.Keys
    ensures exists id | id in ids :: forall other | other in ids :: NoWorse(t[id], t[other])
  {
    var one :| one in ids;
    var rest := ids - {one};
    if rest == {} {
      assert ids == {one};
    } else {
      BestExists(t, rest);
      var best :| best in rest && forall other | other in rest :: NoWorse(t[best], t[other]);
      var top := if NoWorse(t[one], t[best]) then one else best;
      forall other | other in ids ensures NoWorse(t[top], t[other]) {
        assert other == one || other in rest;
      }
    }
  }

  /** The managed_hosts table. */
  class Inventory {
    var table: Table

    method Query(local: string, node: Node) returns (pick: Option<Id>)
      ensures IsPick(table, local, node, pick)
    {
      var ids := Duplicates(table, node.host);
      if !Active(local, node) || ids == {} {
        return None;
      }
      BestExists(table, ids);
      var id :| id in ids && forall other | other in ids :: NoWorse(table[id], table[other]);
      return Some(id);
    }

    /** One turn of the loop. */
    method MergeNode(local: string, node: Node, now: nat) returns (pick: Option<Id>)
      modifies this
      ensures IsPick(old(table), local, node, pick) && table == Step(old(table), local, node, pick, now)
    {
      pick := Query(local, node);
      if Active(local, node) {
        table := table[Cluster(node.id) := NodeRow(table, node, pick, now)];
        assert Duplicates(table, node.host) == Duplicates(old(table), node.host);
        table := table - Duplicates(table, node.host);
      }
    }

    method SyncInventory(local: Local, nodes: seq<Node>, now: nat) returns (picks: seq<Option<Id>>)
      modifies this
      ensures ArePicks(SyncLocal(old(table), local, now), local.node, nodes, picks, now)
      ensures table == Sync(old(table), local, nodes, picks, now)
      ensures LocalRowIs(old(table), local, now, table)
    {
      table := SyncLocal(table, local, now);
      ghost var start := table;
      picks := [];
      var i := 0;
      while i < |nodes|
        invariant 0 <= i <= |nodes|
        invariant ArePicks(start, local.node, nodes[..i], picks, now)
        invariant table == SyncNodes(start, local.node, nodes[..i], picks, now)
      {
        var pick := MergeNode(local.node, nodes[i], now);
        ghost var done := nodes[..i + 1];
        assert Init(done) == nodes[..i] && Last(done) == nodes[i];
        assert Init(picks + [pick]) == picks;
        picks := picks + [pick];
        i := i + 1;
      }
      assert nodes[..i] == nodes;
      LocalRowAfter(old(table), local, nodes, picks, now);
    }
  }
}
