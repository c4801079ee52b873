/**
 The configuration of the HotStuff client: the nodes it sends each command to and the
 number of replies it waits for.

 Nodes whose endpoints refuse connections are recorded as dead and the configuration is
 rebuilt without them, under a lock; the rebuild may fail, and then the old configuration
 stays.  Recognising endpoints in an error text and building a configuration are outside
 the model: the endpoints and the success of the rebuild are parameters of a step.
 */
module Quorum {
  import opened Basics

  type Nodes = map<string, nat>

  /** Integer division of the source truncates towards zero. */
  function NumFaulty(n: int): (f: int)
    ensures n >= 1 ==> 3 * f < n <= 3 * f + 3
    ensures n <= 0 ==> 3 * f - 3 < n - 1 <= 3 * f
  {
    if n >= 1 then (n - 1) / 3 else -((1 - n) / 3)
  }

  /** A configuration: its nodes and the number of faulty ones it is built for. */
  datatype Config = Config(nodes: Nodes, faulty: int)

  datatype State = State(all: Nodes, dead: set<nat>, config: Config, version: nat, active: int)

  /** One failed command: the endpoints named by its error and whether a rebuild succeeds. */
  datatype Failure = Failure(endpoints: seq<string>, builds: bool)

  // ---------- Identifiers ----------

  function Ids(nodes: Nodes): (r: set<nat>) {
    set a | a in nodes :: nodes[a]
  }

  ghost predicate Injective(nodes: Nodes) {
    forall a, b :: a in nodes && b in nodes && nodes[a] == nodes[b] ==> a == b
  }

  ghost predicate Distinct(view: seq<string>) {
    forall i, j :: 0 <= i < j < |view| ==> view[i] != view[j]
  }

  lemma IdsWithout(nodes: Nodes, a: string)
    requires Injective(nodes) && a in nodes
    ensures Injective(nodes - {a}) && |nodes - {a}| == |nodes| - 1
    ensures nodes[a] !in Ids(nodes - {a}) && Ids(nodes) == Ids(nodes - {a}) + {nodes[a]}
  {
    var rest := nodes - {a};
    assert nodes.Keys == rest.Keys + {a};
    assert |nodes| == |nodes.Keys| && |rest| == |rest.Keys|;
    forall b | b in nodes ensures nodes[b] in Ids(rest) + {nodes[a]} {
      assert b == a || (b in rest && rest[b] == nodes[b]);
    }
  }

  lemma {:induction false} IdsCount(nodes: Nodes)
    requires Injective(nodes)
    ensures |Ids(nodes)| == |nodes|
    decreases |nodes|
  {
    if nodes.Keys == {} {
      assert nodes == map[];
      assert Ids(nodes) == {};
    } else {
      var a := Member(nodes.Keys);
      IdsWithout(nodes, a);
      hide Ids, Injective;
      IdsCount(nodes - {a});
    }
  }

  // ---------- The client ----------

  const PORT := ":1338"

  /** The node of the i-th address of the view. */
  function NodeId(i: nat): (id: nat) {
    (i + 1) % 0x1_0000_0000
  }

  /** The nodes of a view; a repeated address keeps its last number. */
  function NodesOf(view: seq<string>): (nodes: Nodes) {
    if view == [] then map[]
    else NodesOf(view[..|view| - 1])[view[|view| - 1] + PORT := NodeId(|view| - 1)]
  }

  function Start(view: seq<string>): (s: State) {
    State(NodesOf(view), {}, Config(NodesOf(view), NumFaulty(|view|)), 0, |NodesOf(view)|)
  }

  /** The known nodes that some endpoints name. */
  function Named(all: Nodes, endpoints: seq<string>): (r: set<nat>) {
    set e | e in endpoints && e in all :: all[e]
  }

  function Alive(all: Nodes, dead: set<nat>): (r: Nodes)
    ensures forall a :: a in r <==> a in all && all[a] !in dead
    ensures forall a :: a in r ==> r[a] == all[a]
  {
    map a | a in all && all[a] !in dead :: all[a]
  }

  /** The state after a failed command. */
  function Prune(s: State, f: Failure): (r: State) {
    var dead := s.dead + Named(s.all, f.endpoints);
    var alive := Alive(s.all, dead);
    if dead == s.dead || alive == map[] || !f.builds then s.(dead := dead)
    else s.(dead := dead, config := Config(alive, NumFaulty(|alive|)),
            version := s.version + 1, active := |alive|)
  }

  function Run(s: State, fs: seq<Failure>): (r: State) {
    if fs == [] then s else Prune(Run(s, fs[..|fs| - 1]), fs[|fs| - 1])
  }

  /** A set of replies, by node, that ends the wait for a command. */
  ghost predicate Accepted(config: Config, replies: set<nat>) {
    replies <= Ids(config.nodes) && |replies| >= config.faulty + 1
  }

  class Client {
    var allNodes: Nodes
    var dead: set<nat>
    var config: Config
    var cfgVersion: nat
    var activeNodes: int

    function Contents(): (s: State)
      reads this
    {
      State(allNodes, dead, config, cfgVersion, activeNodes)
    }

    constructor (view: seq<string>)
      ensures Contents() == Start(view)
    {
      var nodes: Nodes := map[];
      for i := 0 to |view|
        invariant nodes == NodesOf(view[..i])
      {
        assert view[..i + 1][..i] == view[..i];
        nodes := nodes[view[i] + PORT := NodeId(i)];
      }
      assert view[..|view|] == view;
      allNodes, dead, config := nodes, {}, Config(nodes, NumFaulty(|view|));
      cfgVersion, activeNodes := 0, |nodes|;
    }

    /** Marks the named nodes dead; says whether one of them was not. */
    method MarkDead(endpoints: seq<string>) returns (changed: bool)
      modifies this`dead
      ensures dead == old(dead) + Named(allNodes, endpoints)
      ensures changed <==> dead != old(dead)
    {
      changed := false;
      for i := 0 to |endpoints|
        invariant dead == old(dead) + Named(allNodes, endpoints[..i])
        invariant changed <==> dead != old(dead)
      {
        var e := endpoints[i];
        assert endpoints[..i + 1] == endpoints[..i] + [e];
        ghost var marked := dead;
        if e in allNodes && allNodes[e] !in dead {
          dead := dead + {allNodes[e]};
          changed := true;
        }
        NamedStep(allNodes, endpoints[..i], e);
        assert old(dead) <= marked <= dead;
      }
      assert endpoints[..|endpoints|] == endpoints;
    }

    /** The nodes that are not dead, collected in an arbitrary order. */
    method ActiveNodes() returns (active: Nodes)
      ensures active == Alive(allNodes, dead)
    {
      active := map[];
      var rest := allNodes.Keys;
      while rest != {}
        invariant rest <= allNodes.Keys
        invariant forall a :: a in active <==> a in allNodes && a !in rest && allNodes[a] !in dead
        invariant forall a :: a in active ==> active[a] == allNodes[a]
        decreases rest
      {
        ghost var some := Member(rest);
        var a :| a in rest;
        rest := rest - {a};
        if allNodes[a] !in dead {
          active := active[a := allNodes[a]];
        }
      }
    }

    method PruneUnavailableNodes(endpoints: seq<string>, builds: bool)
      modifies this
      ensures Contents() == Prune(old(Contents()), Failure(endpoints, builds))
    {
      if |endpoints| == 0 {
        assert Named(allNodes, endpoints) == {};
        return;
      }
      var changed := MarkDead(endpoints);
      if !changed {
        return;
      }
      var active := ActiveNodes();
      if |active| == 0 {
        return;
      }
      if !builds {
        return;
      }
      config := Config(active, NumFaulty(|active|));
      cfgVersion := cfgVersion + 1;
      activeNodes := |active|;
    }
  }

  lemma NamedStep(all: Nodes, endpoints: seq<string>, e: string)
    ensures Named(all, endpoints + [e]) ==
            Named(all, endpoints) + if e in all then {all[e]} else {}
  {}

  // ---------- What every run keeps ----------

  /** What holds of the client between commands. */
  ghost predicate Consistent(s: State) {
    && s.config.nodes != map[]
    && s.active == |s.config.nodes|
    && s.config.faulty == NumFaulty(|s.config.nodes|)
    && s.config.nodes.Keys <= s.all.Keys
    && (forall a :: a in s.config.nodes ==> s.config.nodes[a] == s.all[a])
    && (forall a :: a in s.all && s.all[a] !in s.dead ==> a in s.config.nodes)
    && s.dead <= Ids(s.all)
    && s.version <= |s.dead|
  }

  /** The addresses of a view, each once. */
  ghost function Addresses(view: seq<string>): (r: set<string>) {
    set i | 0 <= i < |view| :: view[i]
  }

  lemma AddressesStep(view: seq<string>)
    requires view != []
    ensures Addresses(view) == Addresses(view[..|view| - 1]) + {view[|view| - 1]}
  {
    var before := view[..|view| - 1];
    forall i | 0 <= i < |view| ensures view[i] in Addresses(before) + {view[|view| - 1]} {
      assert i < |before| ==> before[i] == view[i];
    }
    forall i | 0 <= i < |before| ensures before[i] in Addresses(view) {
      assert before[i] == view[i];
    }
  }

  /** Every node is that of some position of its address, and every address has one. */
  lemma {:induction false} NodesNumbered(view: seq<string>)
    ensures forall a :: a in NodesOf(view) ==>
                          exists i :: 0 <= i < |view| && a == view[i] + PORT && NodesOf(view)[a] == NodeId(i)
    ensures forall x :: x + PORT in NodesOf(view) <==> x in Addresses(view)
  {
    hide NodeId;
    if view != [] {
      var n := |view| - 1;
      var before := view[..n];
      NodesNumbered(before);
      AddressesStep(view);
      hide Addresses;
      forall x ensures x + PORT in NodesOf(view) <==> x in Addresses(view) {
        Unsuffixed(x, view[n]);
      }
      assert view[n] + PORT in NodesOf(view) && NodesOf(view)[view[n] + PORT] == NodeId(n);
    }
  }

  /** There are as many nodes as there are different addresses. */
  lemma {:induction false} NodesCount(view: seq<string>)
    ensures |NodesOf(view)| == |Addresses(view)|
  {
    if view == [] {
      assert Addresses(view) == {};
    } else {
      var before, last := view[..|view| - 1], view[|view| - 1];
      NodesCount(before);
      HasNode(before, last);
      AddressesStep(view);
      OneMore(NodesOf(before), last + PORT, NodeId(|view| - 1));
      assert NodesOf(view) == NodesOf(before)[last + PORT := NodeId(|view| - 1)];
      hide Addresses, NodesOf, NodeId;
      if last in Addresses(before) {
        assert Addresses(view) == Addresses(before);
      }
    }
  }

  lemma HasNode(view: seq<string>, x: string)
    ensures x + PORT in NodesOf(view) <==> x in Addresses(view)
  {
    NodesNumbered(view);
  }

  lemma OneMore(nodes: Nodes, a: string, id: nat)
    ensures |nodes[a := id]| == |nodes| + if a in nodes then 0 else 1
  {
    assert nodes[a := id].Keys == nodes.Keys + {a};
    assert |nodes[a := id]| == |nodes[a := id].Keys| && |nodes| == |nodes.Keys|;
  }

  lemma {:induction false} DistinctCount(view: seq<string>)
    requires Distinct(view)
    ensures |Addresses(view)| == |view|
  {
    if view == [] {
      assert Addresses(view) == {};
    } else {
      DistinctCount(view[..|view| - 1]);
      AddressesStep(view);
    }
  }

  lemma Unsuffixed(a: string, b: string)
    ensures a + PORT == b + PORT ==> a == b
  {
    assert (a + PORT)[..|a|] == a;
    assert (b + PORT)[..|b|] == b;
    assert |a + PORT| == |a| + |PORT| && |b + PORT| == |b| + |PORT|;
  }

  /** The nodes of a view of fewer than 2^32 addresses have different numbers. */
  lemma ViewInjective(view: seq<string>)
    requires |view| < 0x1_0000_0000
    ensures Injective(NodesOf(view))
  {
    var nodes := NodesOf(view);
    NodesNumbered(view);
    forall a, b | a in nodes && b in nodes && nodes[a] == nodes[b] ensures a == b {
      var i :| 0 <= i < |view| && a == view[i] + PORT && nodes[a] == NodeId(i);
      var j :| 0 <= j < |view| && b == view[j] + PORT && nodes[b] == NodeId(j);
      NodeIdInjective(i, j);
    }
  }

  /** The nodes of distinct addresses are numbered from 1 in the order of the view. */
  lemma {:induction false} ViewNumbered(view: seq<string>, i: nat)
    requires Distinct(view) && i < |view| < 0x1_0000_0000
    ensures view[i] + PORT in NodesOf(view) && NodesOf(view)[view[i] + PORT] == i + 1
  {
    var n := |view| - 1;
    if i < n {
      ViewNumbered(view[..n], i);
      Unsuffixed(view[i], view[n]);
    }
  }

  lemma NodeIdInjective(i: nat, j: nat)
    requires i < 0xffff_ffff && j < 0xffff_ffff && NodeId(i) == NodeId(j)
    ensures i == j
  {}

  lemma StartConsistent(view: seq<string>)
    requires Distinct(view) && view != []
    ensures Consistent(Start(view))
  {
    NodesCount(view);
    DistinctCount(view);
  }

  lemma NamedKnown(all: Nodes, endpoints: seq<string>)
    ensures Named(all, endpoints) <= Ids(all)
  {}

  lemma Grows(a: set<nat>, b: set<nat>)
    requires a <= b
    ensures |a| <= |b| && (a != b ==> |a| < |b|)
  {
    var extra := b - a;
    assert b == a + extra;
    if a != b {
      assert extra != {};
    }
  }

  lemma PruneKeeps(s: State, f: Failure)
    requires Consistent(s)
    ensures Consistent(Prune(s, f))
    ensures s.dead <= Prune(s, f).dead && Prune(s, f).all == s.all
    ensures Ids(Prune(s, f).config.nodes) <= Ids(s.all)
  {
    NamedKnown(s.all, f.endpoints);
    Grows(s.dead, s.dead + Named(s.all, f.endpoints));
  }

  /** After a failure the dead nodes are those before and those whose endpoints were refused; the nodes never change. */
  lemma {:induction false} DeadExactly(s: State, fs: seq<Failure>, id: nat)
    ensures Run(s, fs).all == s.all
    ensures id in Run(s, fs).dead <==>
            id in s.dead || exists k, e :: 0 <= k < |fs| && e in fs[k].endpoints && e in s.all && s.all[e] == id
  {
    if fs != [] {
      var before, f := fs[..|fs| - 1], fs[|fs| - 1];
      DeadExactly(s, before, id);
      assert forall k :: 0 <= k < |before| ==> before[k] == fs[k];
      if e :| e in f.endpoints && e in s.all && s.all[e] == id {
        assert fs[|fs| - 1] == f;
      }
    }
  }

  /** A failure installs exactly the nodes alive when it finds a new dead node, some are alive and the rebuild succeeds. */
  lemma InstallsExactly(s: State, f: Failure)
    ensures var r := Prune(s, f);
            if r.dead != s.dead && f.builds && (exists a :: a in s.all && s.all[a] !in r.dead)
            then
              && (forall a :: a in r.config.nodes <==> a in s.all && s.all[a] !in r.dead)
              && (forall a :: a in r.config.nodes ==> r.config.nodes[a] == s.all[a])
              && r.version == s.version + 1 && r.active == |r.config.nodes|
              && r.config.faulty == NumFaulty(|r.config.nodes|)
            else r == s.(dead := r.dead)
  {
    var r := Prune(s, f);
    var alive := Alive(s.all, r.dead);
    if a :| a in s.all && s.all[a] !in r.dead {
      assert a in alive;
    } else {
      assert alive == map[];
    }
  }

  /** Over every sequence of failures: the dead nodes only grow and the state stays consistent. */
  lemma {:induction false} RunKeeps(s: State, fs: seq<Failure>, k: nat)
    requires Consistent(s) && k <= |fs|
    ensures Consistent(Run(s, fs)) && Run(s, fs).all == s.all
    ensures Run(s, fs[..k]).dead <= Run(s, fs).dead
  {
    hide Consistent, Prune;
    if fs != [] {
      var before := fs[..|fs| - 1];
      RunKeeps(s, before, if k < |fs| then k else k - 1);
      PruneKeeps(Run(s, before), fs[|fs| - 1]);
      if k < |fs| {
        assert before[..k] == fs[..k];
      } else {
        assert fs[..k] == fs;
      }
    }
  }

  // ---------- Quorums ----------

  /** The configuration can always gather enough replies. */
  lemma ThresholdReachable(s: State)
    requires Consistent(s) && Injective(s.all)
    ensures 1 <= s.config.faulty + 1 <= |Ids(s.config.nodes)| == s.active
  {
    IdsCount(s.config.nodes);
    assert |s.config.nodes| == |s.config.nodes.Keys|;
  }

  ghost predicate Sound(config: Config, faulty: set<nat>) {
    forall replies: set<nat> :: Accepted(config, replies) ==> !(replies <= faulty)
  }

  /** Accepted replies always come from some correct node exactly when few enough are faulty. */
  lemma SoundExactly(config: Config, faulty: set<nat>)
    ensures Sound(config, faulty) <==> |faulty * Ids(config.nodes)| <= config.faulty
  {
    var bad := faulty * Ids(config.nodes);
    if |bad| <= config.faulty {
      forall replies: set<nat> | Accepted(config, replies) ensures !(replies <= faulty) {
        if replies <= bad {
          Grows(replies, bad);
        }
      }
    } else {
      assert Accepted(config, bad) && bad <= faulty;
    }
  }

  lemma Remaining(all: set<nat>, kept: set<nat>, faulty: set<nat>)
    requires kept <= all && all - kept <= faulty <= all
    ensures |kept| == |all| - |all - kept|
    ensures |faulty * kept| == |faulty| - |all - kept|
    ensures |kept - faulty| == |all| - |faulty|
  {
    var gone := all - kept;
    assert all == kept + gone;
    assert faulty == faulty * kept + gone;
    assert all == (kept - faulty) + faulty;
  }

  /** Losing nodes never takes more than as many faults from what is tolerated. */
  lemma TolerancePruned(n: nat, gone: nat)
    requires gone < n
    ensures NumFaulty(n) - gone <= NumFaulty(n - gone)
    ensures NumFaulty(n - gone) + 1 <= n - NumFaulty(n)
  {}

  /**
   While no more nodes of the view are faulty than it tolerates, and only faulty nodes
   refuse connections, every accepted set of replies has one from a correct node, and the
   correct nodes suffice for a quorum, after every sequence of failures.
   */
  lemma QuorumsSurvivePruning(view: seq<string>, fs: seq<Failure>, faulty: set<nat>)
    requires Distinct(view) && 0 < |view| < 0x1_0000_0000
    requires faulty <= Ids(NodesOf(view)) && |faulty| <= NumFaulty(|view|)
    requires Run(Start(view), fs).dead <= faulty
    ensures var config := Run(Start(view), fs).config;
            Sound(config, faulty) && Accepted(config, Ids(config.nodes) - faulty)
  {
    var s := Run(Start(view), fs);
    StartConsistent(view);
    RunKeeps(Start(view), fs, 0);
    ViewInjective(view);
    NodesCount(view);
    DistinctCount(view);
    IdsCount(s.all);
    IdsCount(s.config.nodes);
    var all, kept := Ids(s.all), Ids(s.config.nodes);
    PrunedDead(s);
    Remaining(all, kept, faulty);
    ThresholdReachable(s);
    TolerancePruned(|all|, |all - kept|);
    SoundExactly(s.config, faulty);
  }

  lemma PrunedDead(s: State)
    requires Consistent(s)
    ensures Ids(s.config.nodes) <= Ids(s.all)
    ensures Ids(s.all) - Ids(s.config.nodes) <= s.dead
  {
    forall id | id in Ids(s.all) ensures id in s.dead || id in Ids(s.config.nodes) {
      var a :| a in s.all && s.all[a] == id;
      if id !in s.dead {
        assert s.config.nodes[a] in Ids(s.config.nodes);
      }
    }
  }

  // ---------- Where the premises are needed ----------

  /** Enough nodes to answer: the replies waited for do not exceed the nodes asked. */
  ghost predicate Answerable(config: Config) {
    config.faulty + 1 <= |Ids(config.nodes)|
  }

  /** A client can get its replies exactly when its view has more different addresses than it tolerates faults. */
  lemma AnswerableExactly(view: seq<string>)
    requires |view| < 0x1_0000_0000
    ensures Answerable(Start(view).config) <==> NumFaulty(|view|) < |Addresses(view)|
  {
    NodesCount(view);
    ViewInjective(view);
    IdsCount(NodesOf(view));
  }

  /** A configuration is the first one, or one that was rebuilt from some of the nodes. */
  ghost predicate Rebuilt(view: seq<string>, s: State) {
    && s.all == NodesOf(view)
    && (s.version == 0 ==> s.config == Start(view).config)
    && (s.version > 0 ==>
          && s.config.nodes != map[] && s.config.faulty == NumFaulty(|s.config.nodes|)
          && forall a :: a in s.config.nodes ==> a in s.all && s.config.nodes[a] == s.all[a])
  }

  lemma {:induction false} RunRebuilt(view: seq<string>, fs: seq<Failure>)
    ensures Rebuilt(view, Run(Start(view), fs))
  {
    if fs != [] {
      RunRebuilt(view, fs[..|fs| - 1]);
    }
  }

  /** The same over every sequence of failures: a rebuilt configuration can always be answered. */
  lemma AnswerableRun(view: seq<string>, fs: seq<Failure>)
    requires |view| < 0x1_0000_0000
    ensures var s := Run(Start(view), fs);
            Answerable(s.config) <==> s.version > 0 || NumFaulty(|view|) < |Addresses(view)|
  {
    var s := Run(Start(view), fs);
    RunRebuilt(view, fs);
    AnswerableExactly(view);
    ViewInjective(view);
    if s.version > 0 {
      IdsCount(s.config.nodes);
      assert |s.config.nodes| == |s.config.nodes.Keys|;
    }
  }

  /** With repeated addresses the client can wait for more replies than it has nodes. */
  lemma RepeatedAddresses(view: seq<string>, a: string)
    requires |view| >= 4 && forall i :: 0 <= i < |view| ==> view[i] == a
    ensures !Answerable(Start(view).config)
  {
    var nodes := NodesOf(view);
    NodesNumbered(view);
    hide NodesOf;
    assert view[0] in Addresses(view);
    Grows(Ids(nodes), {nodes[a + PORT]});
  }

  /** When all other nodes refuse connections, a lone faulty node can answer for all. */
  lemma CorrectNodesPruned(s: State, endpoints: seq<string>, a: string)
    requires Consistent(s) && Injective(s.all) && a in s.all
    requires s.dead + Named(s.all, endpoints) == Ids(s.all) - {s.all[a]} != s.dead
    ensures !Sound(Prune(s, Failure(endpoints, true)).config, {s.all[a]})
  {
    var dead := Ids(s.all) - {s.all[a]};
    var alive := Alive(s.all, dead);
    assert a in alive;
    OneLeft(s.all, a);
    assert Ids(alive) == {s.all[a]};
    var config := Prune(s, Failure(endpoints, true)).config;
    assert config == Config(alive, NumFaulty(1));
    assert Accepted(config, {s.all[a]});
  }

  lemma OneLeft(all: Nodes, a: string)
    requires Injective(all) && a in all
    ensures Alive(all, Ids(all) - {all[a]}) == map[a := all[a]]
  {
    var alive := Alive(all, Ids(all) - {all[a]});
    forall b | b in all ensures b in alive <==> b == a {
      assert all[b] in Ids(all);
    }
  }
}
