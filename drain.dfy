/** Snapshots of a company and the facts that draining the waiting map
    (CheckManageeMap, hierarchy.go:120-139) establishes about them. The heap
    methods of module Hierarchy state their effect with these predicates. */
module Drain {
  import opened Records
  import opened Tree
  import opened Resolution

  /** The state of a company: the arena, the id map, the CEO and, for the
      proofs, the manager of every node. */
  datatype Arena = Arena(nodes: seq<Employee>, parent: seq<nat>, employees: map<string, nat>, ceo: Option<nat>)

  /** The company invariant: the arena is a tree rooted at the CEO, node 0,
      and every registered id names the node carrying it. */
  ghost predicate Sound(s: Arena)
  {
    && IsTree(s.nodes, s.parent)
    && (s.ceo.Some? <==> |s.nodes| > 0)
    && (s.ceo.Some? ==> s.ceo.value == 0)
    && (forall id :: id in s.employees ==> s.employees[id] < |s.nodes| && s.nodes[s.employees[id]].id == id)
  }

  /** The company after `raw` became the CEO. */
  function Crown(s: Arena, raw: RawEmployee): (r: Arena)
    ensures |r.nodes| == |s.nodes| + 1 && r.nodes[|s.nodes|] == Employee(raw.name, raw.id, [])
  {
    Arena(s.nodes + [Employee(raw.name, raw.id, [])], s.parent + [0], s.employees[raw.id := |s.nodes|], Some(|s.nodes|))
  }

  /** The company after `raw` became the last managee of node `p`. */
  function Attach(s: Arena, p: nat, raw: RawEmployee): (r: Arena)
    requires p < |s.nodes|
    ensures |r.nodes| == |s.nodes| + 1 && r.nodes[|s.nodes|] == Employee(raw.name, raw.id, [])
    ensures r.nodes[p].managees == s.nodes[p].managees + [|s.nodes|]
  {
    Arena(AttachLeaf(s.nodes, p, raw.name, raw.id), s.parent + [p], s.employees[raw.id := |s.nodes|], s.ceo)
  }

  /** Whether AddEmployee accepts `raw` in state `s`: a record without a
      manager needs the CEO slot free, any other needs its manager registered. */
  predicate Accepts(s: Arena, raw: RawEmployee)
  {
    if raw.manager == "" then s.ceo.None? else raw.manager in s.employees
  }

  /** The company after AddEmployee accepted `raw`. */
  ghost function Added(s: Arena, raw: RawEmployee): (r: Arena)
    requires Sound(s) && Accepts(s, raw)
    ensures |r.nodes| == |s.nodes| + 1 && r.nodes[|s.nodes|] == Employee(raw.name, raw.id, [])
    ensures r.employees == s.employees[raw.id := |s.nodes|]
  {
    if raw.manager == "" then Crown(s, raw) else Attach(s, s.employees[raw.manager], raw)
  }

  /** Node `manager` is registered under its own id. */
  ghost predicate Registered(s: Arena, manager: nat)
  {
    manager < |s.nodes| && s.nodes[manager].id in s.employees && s.employees[s.nodes[manager].id] == manager
  }

  /** The bookkeeping between the batch `rs`, the waiting map `m` and the
      company, including the order of the waiting lists and of siblings. */
  ghost predicate Tracked(m: Pending, rs: seq<RawEmployee>, s: Arena)
  {
    && UniqueIds(rs) && PendingFrom(m, rs)
    && WaitingUnderUnknown(m, s.employees.Keys)
    && Closed(rs, s.employees) && Recorded(rs, s.nodes, s.employees)
    && Linked(rs, s.parent, s.employees)
    && QueuesInOrder(m, rs) && SiblingsInOrder(rs, s.employees)
  }

  /** Every record of `queue` from position `t` on comes after all registered
      records sharing its manager. */
  ghost predicate LaterThanSiblings(rs: seq<RawEmployee>, employees: map<string, nat>, queue: seq<RawEmployee>, t: nat)
  {
    forall k :: t <= k < |queue| ==> SiblingsBefore(rs, employees, queue[k])
  }

  /** What draining below node `manager` needs. */
  ghost predicate DrainReady(m: Pending, manager: nat, rs: seq<RawEmployee>, s: Arena)
  {
    && Sound(s) && Registered(s, manager) && Tracked(m, rs, s)
    && Waiting(Queue(m, s.nodes[manager].id), s.employees.Keys)
    && LaterThanSiblings(rs, s.employees, Queue(m, s.nodes[manager].id), 0)
  }

  /** The managees of node `manager` are `ms0` followed by nodes carrying the
      names and ids of `queue[..t]`, in that order. */
  ghost predicate QueuedBelow(nodes: seq<Employee>, manager: nat, ms0: seq<nat>, queue: seq<RawEmployee>, t: nat)
  {
    && manager < |nodes| && t <= |queue|
    && var ms := nodes[manager].managees;
    && |ms| == |ms0| + t && ms[..|ms0|] == ms0
    && forall k :: |ms0| <= k < |ms| ==>
         && ms[k] < |nodes|
         && nodes[ms[k]].name == queue[k - |ms0|].name
         && nodes[ms[k]].id == queue[k - |ms0|].id
  }

  /** Draining below node `manager` took the company from `s0` to `s` and the
      map from `m` to `pending`: the ids it registered are exactly those
      waiting, directly or transitively, for the manager's id; their lists and
      the manager's own list left the map; each became a node below the
      manager; the manager's queue became its last managees in queue order;
      nothing happened when nobody waited for the manager. */
  ghost predicate Drains(m: Pending, manager: nat, rs: seq<RawEmployee>, s0: Arena, s: Arena, pending: Pending)
  {
    && manager < |s0.nodes|
    && Sound(s) && s.ceo == s0.ceo && Keeps(s0.employees, s.employees)
    && (var added := s.employees.Keys - s0.employees.Keys;
        var id := s0.nodes[manager].id;
        && pending == m - (added + {id})
        && added == Drained(m, added + {id})
        && |s.nodes| == |s0.nodes| + |added|)
    && Tracked(pending, rs, s)
    && Extends(s0.nodes, s0.parent, s.nodes, s.parent, manager)
    && QueuedBelow(s.nodes, manager, s0.nodes[manager].managees, Queue(m, s0.nodes[manager].id),
                   |Queue(m, s0.nodes[manager].id)|)
    && (s0.nodes[manager].id !in m ==> pending == m && s == s0)
  }

  /** What attaching the waiting record `managee` below node `manager` needs. */
  ghost predicate AttachReady(m: Pending, manager: nat, managee: RawEmployee, rs: seq<RawEmployee>, s: Arena)
  {
    && Sound(s) && Registered(s, manager) && Tracked(m, rs, s)
    && managee in rs && managee.manager != "" && managee.manager == s.nodes[manager].id
    && managee.id !in s.employees
    && SiblingsBefore(rs, s.employees, managee)
  }

  /** Attaching `managee` below node `manager` and draining below it took the
      company from `s0` to `s`; `sub` holds the ids the draining registered. */
  ghost predicate Attaches(m: Pending, manager: nat, managee: RawEmployee, rs: seq<RawEmployee>,
                           s0: Arena, s: Arena, pending: Pending, sub: set<string>)
  {
    && AttachedKeys(m, managee.id, s0.employees, s.employees, pending, sub, |s0.nodes|, |s.nodes|)
    && AttachedShape(manager, managee, rs, s0, s, pending)
  }

  /** The id bookkeeping of an attach: `x` and the ids `sub` drained below it
      were registered, with `n0` nodes growing to `n`. */
  ghost predicate AttachedKeys(m: Pending, x: string, e0: map<string, nat>, e: map<string, nat>,
                               pending: Pending, sub: set<string>, n0: nat, n: nat)
  {
    && e.Keys == e0.Keys + sub + {x}
    && e0.Keys * sub == {} && x !in sub
    && Keeps(e0, e)
    && pending == m - (sub + {x})
    && sub == Drained(m, sub + {x})
    && n == n0 + 1 + |sub|
  }

  /** The shape of the company after an attach: the record is the last
      managee of `manager`, and everything new hangs below `manager`. */
  ghost predicate AttachedShape(manager: nat, managee: RawEmployee, rs: seq<RawEmployee>,
                                s0: Arena, s: Arena, pending: Pending)
  {
    && manager < |s0.nodes| < |s.nodes|
    && Sound(s) && s.ceo == s0.ceo
    && Tracked(pending, rs, s)
    && Extends(s0.nodes, s0.parent, s.nodes, s.parent, manager)
    && s.nodes[manager].managees == s0.nodes[manager].managees + [|s0.nodes|]
    && s.nodes[|s0.nodes|].name == managee.name && s.nodes[|s0.nodes|].id == managee.id
  }

  /** The loop of CheckManageeMap after attaching the first `t` records waiting
      for node `manager`; `added` holds the ids registered so far. */
  ghost predicate DrainLoop(m0: Pending, manager: nat, rs: seq<RawEmployee>, s0: Arena, t: nat,
                            added: set<string>, s: Arena, pending: Pending)
  {
    && manager < |s0.nodes| && s0.nodes[manager].id in m0
    && Tracked(m0, rs, s0) && Waiting(m0[s0.nodes[manager].id], s0.employees.Keys)
    && var managees := m0[s0.nodes[manager].id];
    && t <= |managees|
    && Sound(s) && Registered(s, manager) && s.ceo == s0.ceo
    && s.nodes[manager].id == s0.nodes[manager].id
    && s.employees.Keys == s0.employees.Keys + added && s0.employees.Keys * added == {}
    && Keeps(s0.employees, s.employees)
    && pending == m0 - added
    && added == Ids(managees[..t]) + Drained(m0, added)
    && |s.nodes| == |s0.nodes| + |added|
    && (forall k :: t <= k < |managees| ==> managees[k].id !in s.employees)
    && Tracked(pending, rs, s)
    && Extends(s0.nodes, s0.parent, s.nodes, s.parent, manager)
    && QueuedBelow(s.nodes, manager, s0.nodes[manager].managees, managees, t)
    && LaterThanSiblings(rs, s.employees, managees, t)
  }

  // ---------------------------------------------------------------------
  // Attaching one record

  /** A record waiting for a registered node is accepted, and attached
      below that node; this keeps the company sound and leaves the new node
      ready to be drained below. */
  lemma AttachReadyAfter(m: Pending, manager: nat, managee: RawEmployee, rs: seq<RawEmployee>, s0: Arena)
    requires AttachReady(m, manager, managee, rs, s0)
    ensures Accepts(s0, managee) && s0.employees[managee.manager] == manager
    ensures DrainReady(m, |s0.nodes|, rs, Attach(s0, manager, managee))
    ensures Extends(s0.nodes, s0.parent, Attach(s0, manager, managee).nodes, Attach(s0, manager, managee).parent, manager)
    ensures IsAncestor(Attach(s0, manager, managee).parent, manager, |s0.nodes|)
  {
    var s1 := Attach(s0, manager, managee);
    AttachLeafKeepsTree(s0.nodes, s0.parent, manager, managee.name, managee.id);
    AttachLeafExtends(s0.nodes, s0.parent, manager, managee.name, managee.id);
    AddKeepsWaiting(m, rs, s0.employees.Keys, managee);
    AddKeepsClosed(rs, s0.employees, managee, |s0.nodes|);
    AddKeepsRecorded(rs, s0.nodes, s0.employees, s1.nodes, managee);
    AddKeepsLinked(rs, s0.parent, s0.employees, managee, manager);
    AddKeepsSiblingsInOrder(rs, s0.employees, managee, |s0.nodes|);
    FreshSiblings(rs, s0.parent, s0.employees, m, managee, |s0.nodes|);
    assert s1.employees.Keys == s0.employees.Keys + {managee.id};
  }

  /** Making a batch record the CEO of an empty company leaves it ready to be
      drained below. */
  lemma CrownReadyAfter(m: Pending, raw: RawEmployee, rs: seq<RawEmployee>, s0: Arena)
    requires Sound(s0) && s0.ceo.None? && Tracked(m, rs, s0)
    requires raw in rs && raw.manager == "" && raw.id !in s0.employees
    ensures DrainReady(m, |s0.nodes|, rs, Crown(s0, raw))
  {
    var s1 := Crown(s0, raw);
    assert s0.nodes == [] && s1.nodes == [Employee(raw.name, raw.id, [])];
    AddKeepsWaiting(m, rs, s0.employees.Keys, raw);
    AddKeepsClosed(rs, s0.employees, raw, 0);
    AddKeepsRecorded(rs, s0.nodes, s0.employees, s1.nodes, raw);
    AddKeepsLinked(rs, s0.parent, s0.employees, raw, 0);
    AddKeepsSiblingsInOrder(rs, s0.employees, raw, 0);
    FreshSiblings(rs, s0.parent, s0.employees, m, raw, 0);
    assert s1.employees.Keys == s0.employees.Keys + {raw.id};
  }

  /** Attaching a record and draining below it, as one step. */
  lemma AttachFinish(m: Pending, manager: nat, managee: RawEmployee, rs: seq<RawEmployee>,
                     s0: Arena, s: Arena, pending: Pending)
    requires AttachReady(m, manager, managee, rs, s0)
    requires Drains(m, |s0.nodes|, rs, Attach(s0, manager, managee), s, pending)
    ensures Attaches(m, manager, managee, rs, s0, s, pending,
                     s.employees.Keys - Attach(s0, manager, managee).employees.Keys)
  {
    var s1 := Attach(s0, manager, managee);
    AttachFinishShape(m, manager, managee, rs, s0, s, pending);
    AttachFinishKeys(m, managee.id, |s0.nodes|, s0.employees, s1.employees, s.employees, pending, |s0.nodes|, |s.nodes|);
  }

  lemma AttachFinishShape(m: Pending, manager: nat, managee: RawEmployee, rs: seq<RawEmployee>,
                          s0: Arena, s: Arena, pending: Pending)
    requires AttachReady(m, manager, managee, rs, s0)
    requires Drains(m, |s0.nodes|, rs, Attach(s0, manager, managee), s, pending)
    ensures AttachedShape(manager, managee, rs, s0, s, pending)
  {
    var s1 := Attach(s0, manager, managee);
    AttachReadyAfter(m, manager, managee, rs, s0);
    ExtendsTrans(s0.nodes, s0.parent, s1.nodes, s1.parent, s.nodes, s.parent, manager, |s0.nodes|);
    assert s.nodes[manager] == s1.nodes[manager];
    assert s.nodes[|s0.nodes|].name == s1.nodes[|s0.nodes|].name;
    assert s.nodes[|s0.nodes|].id == s1.nodes[|s0.nodes|].id;
  }

  /** The id bookkeeping of attaching `x` as node `n0` and then draining below it. */
  lemma AttachFinishKeys(m: Pending, x: string, v: nat, e0: map<string, nat>, e1: map<string, nat>,
                         e: map<string, nat>, pending: Pending, n0: nat, n: nat)
    requires x !in e0 && e1 == e0[x := v] && Keeps(e1, e)
    requires pending == m - ((e.Keys - e1.Keys) + {x})
    requires e.Keys - e1.Keys == Drained(m, (e.Keys - e1.Keys) + {x})
    requires n == n0 + 1 + |e.Keys - e1.Keys|
    ensures AttachedKeys(m, x, e0, e, pending, e.Keys - e1.Keys, n0, n)
  {
    assert e1.Keys == e0.Keys + {x};
    KeepsKeys(e1, e);
    KeysBelow(e0.Keys, e1.Keys, e.Keys, x);
    KeepsAdd(e0, e1, e, x, v);
  }

  // ---------------------------------------------------------------------
  // Draining below one node

  lemma DrainNone(m: Pending, manager: nat, rs: seq<RawEmployee>, s: Arena)
    requires DrainReady(m, manager, rs, s) && s.nodes[manager].id !in m
    ensures Drains(m, manager, rs, s, s, m)
  {
    assert s.parent[..|s.nodes|] == s.parent;
    assert s.employees.Keys - s.employees.Keys == {};
    assert m - ({} + {s.nodes[manager].id}) == m;
    assert s.nodes[manager].managees[..|s.nodes[manager].managees|] == s.nodes[manager].managees;
  }

  lemma DrainLoopStart(m0: Pending, manager: nat, rs: seq<RawEmployee>, s0: Arena)
    requires DrainReady(m0, manager, rs, s0) && s0.nodes[manager].id in m0
    ensures DrainLoop(m0, manager, rs, s0, 0, {}, s0, m0)
  {
    assert s0.parent[..|s0.nodes|] == s0.parent;
    assert m0 - {} == m0;
    assert s0.nodes[manager].managees[..|s0.nodes[manager].managees|] == s0.nodes[manager].managees;
  }

  /** Within the loop, the next waiting record can be attached. */
  lemma DrainLoopReady(m0: Pending, manager: nat, rs: seq<RawEmployee>, s0: Arena, t: nat,
                       added: set<string>, s: Arena, pending: Pending)
    requires DrainLoop(m0, manager, rs, s0, t, added, s, pending) && t < |m0[s0.nodes[manager].id]|
    ensures AttachReady(pending, manager, m0[s0.nodes[manager].id][t], rs, s)
  {
  }

  /** The bookkeeping part of one loop step. */
  lemma DrainLoopStepSets(m0: Pending, manager: nat, rs: seq<RawEmployee>, s0: Arena, t: nat,
                          added: set<string>, s: Arena, pending: Pending, s': Arena, pending': Pending, sub: set<string>)
    requires DrainLoop(m0, manager, rs, s0, t, added, s, pending) && t < |m0[s0.nodes[manager].id]|
    requires Attaches(pending, manager, m0[s0.nodes[manager].id][t], rs, s, s', pending', sub)
    ensures var x := m0[s0.nodes[manager].id][t].id;
      && s'.employees.Keys == s0.employees.Keys + (added + sub + {x})
      && s0.employees.Keys * (added + sub + {x}) == {}
      && pending' == m0 - (added + sub + {x})
      && added + sub + {x} == Ids(m0[s0.nodes[manager].id][..t + 1]) + Drained(m0, added + sub + {x})
      && |s'.nodes| == |s0.nodes| + |added + sub + {x}|
      && Keeps(s0.employees, s'.employees)
  {
    var managees := m0[s0.nodes[manager].id];
    var x := managees[t].id;
    KeysStep(s0.employees.Keys, added, s.employees.Keys, s'.employees.Keys, x, sub);
    DrainStep(m0, managees, t, added, sub);
    DisjointCard(added, sub, x);
    RemoveStep(m0, added, sub, x);
    KeepsTrans(s0.employees, s.employees, s'.employees);
  }

  /** The records still waiting for the manager are not drained below the
      record just attached. */
  lemma DrainLoopStepRest(m0: Pending, manager: nat, rs: seq<RawEmployee>, s0: Arena, t: nat,
                          added: set<string>, s: Arena, pending: Pending, s': Arena, pending': Pending, sub: set<string>)
    requires DrainLoop(m0, manager, rs, s0, t, added, s, pending) && t < |m0[s0.nodes[manager].id]|
    requires Attaches(pending, manager, m0[s0.nodes[manager].id][t], rs, s, s', pending', sub)
    ensures forall k :: t + 1 <= k < |m0[s0.nodes[manager].id]| ==> m0[s0.nodes[manager].id][k].id !in s'.employees
  {
    var id := s0.nodes[manager].id;
    var managees := m0[id];
    var x := managees[t].id;
    forall k | t + 1 <= k < |managees| ensures managees[k].id !in s'.employees {
      assert managees[k] in rs && managees[k].manager == id;
      assert managees[k].id != x;
      NotBelow(pending, rs, sub, x, managees[k], s.employees.Keys, s'.employees.Keys);
    }
  }

  /** The records still waiting for the manager come after every registered
      record sharing their manager, the one just attached included. */
  lemma DrainLoopStepSiblings(m0: Pending, manager: nat, rs: seq<RawEmployee>, s0: Arena, t: nat,
                              added: set<string>, s: Arena, pending: Pending, s': Arena, pending': Pending, sub: set<string>)
    requires DrainLoop(m0, manager, rs, s0, t, added, s, pending) && t < |m0[s0.nodes[manager].id]|
    requires Attaches(pending, manager, m0[s0.nodes[manager].id][t], rs, s, s', pending', sub)
    ensures LaterThanSiblings(rs, s'.employees, m0[s0.nodes[manager].id], t + 1)
  {
    var managees := m0[s0.nodes[manager].id];
    LaterAfterAttach(rs, pending, managees, t, s0.nodes[manager].id, s.employees, s'.employees, sub);
  }

  /** The same, over the registered ids alone: `e'` registers the record
      `queue[t]` waiting for `id` and the ids `sub` drained below it. */
  lemma LaterAfterAttach(rs: seq<RawEmployee>, pending: Pending, queue: seq<RawEmployee>, t: nat, id: string,
                         e: map<string, nat>, e': map<string, nat>, sub: set<string>)
    requires UniqueIds(rs) && PendingFrom(pending, rs) && t < |queue|
    requires forall k :: 0 <= k < |queue| ==> queue[k] in rs && queue[k].manager == id
    requires forall t1, t2 :: 0 <= t1 < t2 < |queue| ==> Precedes(rs, queue[t1], queue[t2])
    requires id in e && e.Keys * sub == {} && queue[t].id !in e
    requires sub == Drained(pending, sub + {queue[t].id}) && e'.Keys == e.Keys + sub + {queue[t].id}
    requires LaterThanSiblings(rs, e, queue, t)
    ensures LaterThanSiblings(rs, e', queue, t + 1)
  {
    var x := queue[t].id;
    forall k, j | t + 1 <= k < |queue| && 0 <= j < |rs| && rs[j].id in e' && rs[j].manager == queue[k].manager
      ensures Precedes(rs, rs[j], queue[k])
    {
      if rs[j].id == x {
        SameIdSameRecord(rs, rs[j], queue[t]);
      } else if rs[j].id !in e {
        assert id !in sub by { assert id in e.Keys * sub ==> false; }
        assert id != x && rs[j].id in sub;
        NotDrained(pending, rs, sub + {x}, rs[j]);
      }
    }
  }

  /** A record waiting under a registered id is not among the ids registered
      by attaching `x` and draining `sub` below it. */
  lemma NotBelow(m: Pending, rs: seq<RawEmployee>, sub: set<string>, x: string, q: RawEmployee,
                 keys: set<string>, keys': set<string>)
    requires UniqueIds(rs) && PendingFrom(m, rs) && q in rs
    requires q.manager in keys && keys * sub == {} && x !in keys
    requires q.id !in keys && q.id != x
    requires sub == Drained(m, sub + {x}) && keys' == keys + sub + {x}
    ensures q.id !in keys'
  {
    assert q.manager !in sub by { assert q.manager in keys * sub ==> false; }
    NotDrained(m, rs, sub + {x}, q);
  }

  lemma DrainLoopStep(m0: Pending, manager: nat, rs: seq<RawEmployee>, s0: Arena, t: nat,
                      added: set<string>, s: Arena, pending: Pending, s': Arena, pending': Pending, sub: set<string>)
    requires DrainLoop(m0, manager, rs, s0, t, added, s, pending) && t < |m0[s0.nodes[manager].id]|
    requires Attaches(pending, manager, m0[s0.nodes[manager].id][t], rs, s, s', pending', sub)
    ensures DrainLoop(m0, manager, rs, s0, t + 1, added + sub + {m0[s0.nodes[manager].id][t].id}, s', pending')
  {
    var managees := m0[s0.nodes[manager].id];
    DrainLoopStepSets(m0, manager, rs, s0, t, added, s, pending, s', pending', sub);
    DrainLoopStepRest(m0, manager, rs, s0, t, added, s, pending, s', pending', sub);
    DrainLoopStepSiblings(m0, manager, rs, s0, t, added, s, pending, s', pending', sub);
    QueuedStep(s.nodes, s.parent, s'.nodes, s'.parent, manager, s0.nodes[manager].managees, managees, t);
    ExtendsTrans(s0.nodes, s0.parent, s.nodes, s.parent, s'.nodes, s'.parent, manager, manager);
    assert s'.nodes[manager].id == s.nodes[manager].id;
  }

  lemma DrainLoopEnd(m0: Pending, manager: nat, rs: seq<RawEmployee>, s0: Arena,
                     added: set<string>, s: Arena, pending: Pending)
    requires manager < |s0.nodes| && s0.nodes[manager].id in m0
    requires DrainLoop(m0, manager, rs, s0, |m0[s0.nodes[manager].id]|, added, s, pending)
    ensures Drains(m0, manager, rs, s0, s, pending - {s0.nodes[manager].id})
  {
    var id := s0.nodes[manager].id;
    var managees := m0[id];
    assert managees[..|managees|] == managees;
    DrainLoopEndSets(m0, id, added, s0.employees.Keys, s.employees.Keys, pending);
    TrackedRemove(pending, rs, s, {id});
    assert Queue(m0, id) == managees;
    assert QueuedBelow(s.nodes, manager, s0.nodes[manager].managees, Queue(m0, id), |Queue(m0, id)|);
    assert Extends(s0.nodes, s0.parent, s.nodes, s.parent, manager);
    assert Tracked(pending - {id}, rs, s);
  }

  /** The set bookkeeping at the end of the loop: what the loop registered is
      what the manager's id drains, and the manager's own list leaves the map. */
  lemma DrainLoopEndSets(m0: Pending, id: string, added: set<string>, keys0: set<string>,
                         keys: set<string>, pending: Pending)
    requires id in m0 && keys == keys0 + added && keys0 * added == {}
    requires pending == m0 - added && added == Ids(m0[id]) + Drained(m0, added)
    ensures keys - keys0 == added
    ensures pending - {id} == m0 - (added + {id})
    ensures added == Drained(m0, added + {id})
  {
    DisjointDiff(keys0, added, keys);
    DrainedOne(m0, id);
    DrainedUnion(m0, added, {id});
    RemoveTwice(m0, added, {id});
  }

  lemma TrackedRemove(m: Pending, rs: seq<RawEmployee>, s: Arena, keys: set<string>)
    requires Tracked(m, rs, s)
    ensures Tracked(m - keys, rs, s)
  {
    PendingFromRemove(m, rs, keys);
  }

  /** Growth that appends one node carrying `queue[t]` to the managees of
      `manager` extends the queue order by one. */
  lemma QueuedStep(nodes0: seq<Employee>, parent0: seq<nat>, nodes: seq<Employee>, parent: seq<nat>,
                   manager: nat, ms0: seq<nat>, queue: seq<RawEmployee>, t: nat)
    requires QueuedBelow(nodes0, manager, ms0, queue, t) && t < |queue|
    requires Extends(nodes0, parent0, nodes, parent, manager) && |nodes0| < |nodes|
    requires nodes[manager].managees == nodes0[manager].managees + [|nodes0|]
    requires nodes[|nodes0|].name == queue[t].name && nodes[|nodes0|].id == queue[t].id
    ensures QueuedBelow(nodes, manager, ms0, queue, t + 1)
  {
    var ms, ms1 := nodes[manager].managees, nodes0[manager].managees;
    assert ms[..|ms0|] == ms1[..|ms0|] == ms0;
    forall k | |ms0| <= k < |ms|
      ensures ms[k] < |nodes| && nodes[ms[k]].name == queue[k - |ms0|].name && nodes[ms[k]].id == queue[k - |ms0|].id
    {
      if k < |ms1| {
        var j := ms1[k];
        assert j < |nodes0| && nodes0[j].name == queue[k - |ms0|].name && nodes0[j].id == queue[k - |ms0|].id;
        assert ms[k] == j;
        assert nodes[j].name == nodes0[j].name && nodes[j].id == nodes0[j].id;
      }
    }
  }

  // ---------------------------------------------------------------------
  // The managee lists of a company built from a batch

  /** Two registered records of the batch listed as managees of node `p`
      both name `p`'s id as their manager, and they are listed in batch order. */
  lemma ManageesInBatchOrder(rs: seq<RawEmployee>, s: Arena, p: nat, k1: nat, k2: nat, j1: nat, j2: nat)
    requires Sound(s) && UniqueIds(rs) && Linked(rs, s.parent, s.employees) && SiblingsInOrder(rs, s.employees)
    requires p < |s.nodes| && k1 < |s.nodes[p].managees| && k2 < |s.nodes[p].managees|
    requires j1 < |rs| && j2 < |rs| && rs[j1].id in s.employees && rs[j2].id in s.employees
    requires s.employees[rs[j1].id] == s.nodes[p].managees[k1] && s.employees[rs[j2].id] == s.nodes[p].managees[k2]
    ensures rs[j1].manager == s.nodes[p].id && rs[j2].manager == s.nodes[p].id
    ensures k1 < k2 <==> j1 < j2
  {
    var ms := s.nodes[p].managees;
    assert s.parent[ms[k1]] == p < ms[k1] && s.parent[ms[k2]] == p < ms[k2];
    if j1 < j2 {
      assert ms[k1] < ms[k2];
    } else if j2 < j1 {
      assert ms[k2] < ms[k1];
    }
  }

  /** A registered record of the batch naming a registered id as its manager
      is listed among the managees of that id's node. */
  lemma ManagerListsManagee(rs: seq<RawEmployee>, s: Arena, j: nat)
    requires Sound(s) && Linked(rs, s.parent, s.employees)
    requires j < |rs| && rs[j].id in s.employees && rs[j].manager != ""
    ensures rs[j].manager in s.employees
    ensures s.employees[rs[j].id] in s.nodes[s.employees[rs[j].manager]].managees
  {
    var c := s.employees[rs[j].id];
    assert 0 < c && s.employees[rs[j].manager] == s.parent[c];
  }
}
