/** Facts about an input batch of raw records and about the map of records
    waiting for their manager (`manageeMap` in hierarchy.go:72-136). */
module Resolution {
  import opened Records

  /** Records waiting for their manager, keyed by the manager's id. */
  type Pending = map<string, seq<RawEmployee>>

  // ---------------------------------------------------------------------
  // The input batch

  ghost predicate UniqueIds(rs: seq<RawEmployee>)
  {
    forall p, q :: 0 <= p < q < |rs| ==> rs[p].id != rs[q].id
  }

  ghost function Ids(rs: seq<RawEmployee>): set<string>
  {
    set r | r in rs :: r.id
  }

  lemma SameIdSameRecord(rs: seq<RawEmployee>, a: RawEmployee, b: RawEmployee)
    requires UniqueIds(rs) && a in rs && b in rs && a.id == b.id
    ensures a == b
  {
    var p :| 0 <= p < |rs| && rs[p] == a;
    var q :| 0 <= q < |rs| && rs[q] == b;
    assert !(p < q) && !(q < p);
  }

  lemma DistinctRecordsDistinctIds(rs: seq<RawEmployee>, a: RawEmployee, b: RawEmployee)
    requires UniqueIds(rs) && a in rs && b in rs && a != b
    ensures a.id != b.id
  {
    var p :| 0 <= p < |rs| && rs[p] == a;
    var q :| 0 <= q < |rs| && rs[q] == b;
    assert p != q;
  }

  lemma {:induction false} IdsCard(rs: seq<RawEmployee>)
    requires UniqueIds(rs)
    ensures |Ids(rs)| == |rs|
  {
    if rs != [] {
      var init := rs[..|rs| - 1];
      assert UniqueIds(init);
      IdsCard(init);
      assert Ids(rs) == Ids(init) + {rs[|rs| - 1].id};
      assert rs[|rs| - 1].id !in Ids(init);
    }
  }

  /** Number of records without a manager, i.e. claiming to be the CEO. */
  function CeoCount(rs: seq<RawEmployee>): nat
  {
    if rs == [] then 0
    else CeoCount(rs[..|rs| - 1]) + (if rs[|rs| - 1].manager == "" then 1 else 0)
  }

  lemma {:induction false} CeoCountPrefix(rs: seq<RawEmployee>, i: nat)
    requires i <= |rs|
    ensures CeoCount(rs[..i]) <= CeoCount(rs)
    decreases |rs|
  {
    if i < |rs| {
      assert rs[..i] == rs[..|rs| - 1][..i];
      CeoCountPrefix(rs[..|rs| - 1], i);
    } else {
      assert rs[..i] == rs;
    }
  }

  /** Record `r` reaches, within `k` steps up its manager chain through
      the batch, a record without a manager or a manager in `known`. */
  ghost predicate ResolvesWithin(rs: seq<RawEmployee>, known: set<string>, r: RawEmployee, k: nat)
    decreases k
  {
    || r.manager == ""
    || r.manager in known
    || (k > 0 && exists q :: q in rs && q.id == r.manager && ResolvesWithin(rs, known, q, k - 1))
  }

  ghost predicate Resolvable(rs: seq<RawEmployee>, known: set<string>, r: RawEmployee)
  {
    exists k: nat :: ResolvesWithin(rs, known, r, k)
  }

  ghost predicate AllResolvable(rs: seq<RawEmployee>, known: set<string>)
  {
    forall r :: r in rs ==> Resolvable(rs, known, r)
  }

  /** Each record's manager is empty or the id of an earlier record. */
  ghost predicate InputOrdered(rs: seq<RawEmployee>)
  {
    forall i :: 0 <= i < |rs| ==> rs[i].manager == "" || exists j :: 0 <= j < i && rs[j].id == rs[i].manager
  }

  // ---------------------------------------------------------------------
  // The map of waiting records

  /** The records waiting for the id `id`. */
  function Queue(m: Pending, id: string): seq<RawEmployee>
  {
    if id in m then m[id] else []
  }

  /** Every list is non-empty and holds records of `rs` whose manager is its key. */
  ghost predicate PendingFrom(m: Pending, rs: seq<RawEmployee>)
  {
    forall x :: x in m ==>
      && |m[x]| > 0
      && x != ""
      && forall t :: 0 <= t < |m[x]| ==> m[x][t] in rs && m[x][t].manager == x
  }

  /** No record of `qs` is registered and no two share an id. */
  ghost predicate Waiting(qs: seq<RawEmployee>, known: set<string>)
  {
    && (forall t :: 0 <= t < |qs| ==> qs[t].id !in known)
    && (forall t1, t2 :: 0 <= t1 < t2 < |qs| ==> qs[t1].id != qs[t2].id)
  }

  ghost predicate WaitingUnderUnknown(m: Pending, known: set<string>)
  {
    forall x :: x in m && x !in known ==> Waiting(m[x], known)
  }

  /** Ids of the records waiting under the keys `keys`. */
  ghost function Drained(m: Pending, keys: set<string>): set<string>
  {
    set x, t | x in m && x in keys && 0 <= t < |m[x]| :: m[x][t].id
  }

  lemma DrainedUnion(m: Pending, a: set<string>, b: set<string>)
    ensures Drained(m, a + b) == Drained(m, a) + Drained(m, b)
  {
  }

  lemma DrainedRemoved(m: Pending, a: set<string>, b: set<string>)
    requires a * b == {}
    ensures Drained(m - a, b) == Drained(m, b)
  {
    forall y | y in Drained(m, b) ensures y in Drained(m - a, b) {
      var x, t :| x in m && x in b && 0 <= t < |m[x]| && m[x][t].id == y;
      assert x !in a * b;
      assert x in m - a && (m - a)[x][t].id == y;
    }
  }

  lemma DrainedOne(m: Pending, x: string)
    requires x in m
    ensures Drained(m, {x}) == Ids(m[x])
  {
    forall y | y in Ids(m[x]) ensures y in Drained(m, {x}) {
      var r :| r in m[x] && r.id == y;
      var t :| 0 <= t < |m[x]| && m[x][t] == r;
    }
  }

  lemma PendingFromRemove(m: Pending, rs: seq<RawEmployee>, keys: set<string>)
    requires PendingFrom(m, rs)
    ensures PendingFrom(m - keys, rs)
  {
  }

  lemma RemoveTwice(m: Pending, a: set<string>, b: set<string>)
    ensures (m - a) - b == m - (a + b)
  {
  }

  lemma RemoveStep(m: Pending, done: set<string>, sub: set<string>, x: string)
    ensures (m - done) - (sub + {x}) == m - (done + sub + {x})
  {
    RemoveTwice(m, done, sub + {x});
    assert done + (sub + {x}) == done + sub + {x};
  }

  lemma DisjointDiff(a: set<string>, b: set<string>, c: set<string>)
    requires c == a + b && a * b == {}
    ensures c - a == b
  {
    forall y | y in b ensures y !in a {
      assert y in a * b <==> y in a;
    }
  }

  /** The registered ids after one drain step: the ids before it, the added
      record `x` and the ids `sub` added below it. */
  lemma KeysStep(e0: set<string>, done: set<string>, before: set<string>, now: set<string>,
                 x: string, sub: set<string>)
    requires before == e0 + done && e0 * done == {}
    requires now == before + sub + {x} && x !in before && before * sub == {} && x !in sub
    ensures now == e0 + (done + sub + {x}) && e0 * (done + sub + {x}) == {} && done * (sub + {x}) == {}
  {
  }

  /** The ids registered below a record `x` added to `before`. */
  lemma KeysBelow(before: set<string>, mid: set<string>, now: set<string>, x: string)
    requires x !in before && mid == before + {x} && mid <= now
    ensures now == before + (now - mid) + {x} && before * (now - mid) == {} && x !in now - mid
  {
  }

  /** One step of draining the list `queue` of records waiting for a manager:
      `done` holds the ids added for `queue[..t]`, the record `queue[t]` is
      added and then the ids `sub` waiting (transitively) for it. */
  lemma DrainStep(m0: Pending, queue: seq<RawEmployee>, t: nat, done: set<string>, sub: set<string>)
    requires t < |queue|
    requires done == Ids(queue[..t]) + Drained(m0, done)
    requires sub == Drained(m0 - done, sub + {queue[t].id})
    requires done * (sub + {queue[t].id}) == {} && queue[t].id !in sub
    ensures done + sub + {queue[t].id} == Ids(queue[..t + 1]) + Drained(m0, done + sub + {queue[t].id})
  {
    var x := queue[t].id;
    var step := sub + {x};
    DrainedRemoved(m0, done, step);
    DrainedUnion(m0, done, step);
    assert Drained(m0, step) == sub;
    IdsSnoc(queue, t);
    assert done + step == done + sub + {x};
  }

  lemma DisjointCard(done: set<string>, sub: set<string>, x: string)
    requires done * (sub + {x}) == {} && x !in sub
    ensures |done + sub + {x}| == |done| + |sub| + 1
  {
    assert |sub + {x}| == |sub| + 1;
    assert done + sub + {x} == done + (sub + {x});
  }

  lemma IdsSnoc(queue: seq<RawEmployee>, t: nat)
    requires t < |queue|
    ensures Ids(queue[..t + 1]) == Ids(queue[..t]) + {queue[t].id}
  {
    assert queue[..t + 1] == queue[..t] + [queue[t]];
  }

  lemma CeoCountSnoc(rs: seq<RawEmployee>, i: nat)
    requires i < |rs|
    ensures CeoCount(rs[..i + 1]) == CeoCount(rs[..i]) + (if rs[i].manager == "" then 1 else 0)
  {
    assert rs[..i + 1][..i] == rs[..i];
  }

  /** The first `i + 1` records are the first `i` followed by record `i`. */
  lemma PrefixSnoc(rs: seq<RawEmployee>, i: nat)
    requires i < |rs|
    ensures rs[..i + 1][..i] == rs[..i] && rs[..i + 1] == rs[..i] + [rs[i]]
    ensures Ids(rs[..i + 1]) == Ids(rs[..i]) + {rs[i].id}
    ensures CeoCount(rs[..i + 1]) == CeoCount(rs[..i]) + (if rs[i].manager == "" then 1 else 0)
  {
    IdsSnoc(rs, i);
    CeoCountSnoc(rs, i);
  }

  /** A record whose manager is not among `keys` is not drained by them. */
  lemma NotDrained(m: Pending, rs: seq<RawEmployee>, keys: set<string>, q: RawEmployee)
    requires UniqueIds(rs) && PendingFrom(m, rs) && q in rs && q.manager !in keys
    ensures q.id !in Drained(m, keys)
  {
    forall x, t | x in m && x in keys && 0 <= t < |m[x]| ensures m[x][t].id != q.id {
      assert m[x][t].manager == x != q.manager;
      DistinctRecordsDistinctIds(rs, m[x][t], q);
    }
  }

  /** Registering record `a`, whose manager is registered or empty, keeps the
      waiting lists waiting, including the one keyed by `a`'s own id. */
  lemma AddKeepsWaiting(m: Pending, rs: seq<RawEmployee>, known: set<string>, a: RawEmployee)
    requires UniqueIds(rs) && PendingFrom(m, rs) && WaitingUnderUnknown(m, known)
    requires a in rs && a.id !in known && (a.manager == "" || a.manager in known)
    ensures WaitingUnderUnknown(m, known + {a.id})
    ensures a.id in m ==> Waiting(m[a.id], known + {a.id})
  {
    forall x, t | x in m && x !in known && 0 <= t < |m[x]| ensures m[x][t].id != a.id {
      assert m[x][t].manager == x != a.manager;
      DistinctRecordsDistinctIds(rs, m[x][t], a);
    }
  }

  // ---------------------------------------------------------------------
  // Registered records

  /** Every entry of `before` is still in `now`, unchanged. */
  ghost predicate Keeps(before: map<string, nat>, now: map<string, nat>)
  {
    forall x :: x in before ==> x in now && now[x] == before[x]
  }

  lemma KeepsAdd(before: map<string, nat>, mid: map<string, nat>, now: map<string, nat>, k: string, v: nat)
    requires k !in before && mid == before[k := v] && Keeps(mid, now)
    ensures Keeps(before, now)
  {
  }

  /** Registering more ids leaves no more of the batch unregistered. */
  lemma DiffShrinks(all: set<string>, a: set<string>, b: set<string>)
    requires a <= b
    ensures |all - b| <= |all - a|
  {
    assert all - a == (all - b) + ((all - a) - (all - b));
  }

  /** Registering a record of the batch shrinks the set of its ids still unregistered. */
  lemma AddShrinks(rs: seq<RawEmployee>, r: RawEmployee, employees: map<string, nat>, v: nat)
    requires r in rs && r.id !in employees
    ensures |Ids(rs) - employees[r.id := v].Keys| < |Ids(rs) - employees.Keys|
  {
    assert r.id in Ids(rs);
    assert Ids(rs) - employees.Keys == (Ids(rs) - employees[r.id := v].Keys) + {r.id};
  }

  lemma UpdateKeys(e: map<string, nat>, x: string, v: nat)
    ensures e[x := v].Keys == e.Keys + {x}
  {
  }

  lemma KeepsKeys(before: map<string, nat>, now: map<string, nat>)
    requires Keeps(before, now)
    ensures before.Keys <= now.Keys
  {
  }

  lemma KeepsTrans(a: map<string, nat>, b: map<string, nat>, c: map<string, nat>)
    requires Keeps(a, b) && Keeps(b, c)
    ensures Keeps(a, c)
  {
  }

  /** Every registered record of the batch is the CEO or was attached below
      a node registered before it. */
  ghost predicate Closed(rs: seq<RawEmployee>, employees: map<string, nat>)
  {
    forall j :: 0 <= j < |rs| && rs[j].id in employees ==>
      || rs[j].manager == ""
      || (rs[j].manager in employees && employees[rs[j].manager] < employees[rs[j].id])
  }

  /** Every registered record of the batch names a node carrying its name. */
  ghost predicate Recorded(rs: seq<RawEmployee>, nodes: seq<Employee>, employees: map<string, nat>)
  {
    forall j :: 0 <= j < |rs| && rs[j].id in employees ==>
      employees[rs[j].id] < |nodes| && nodes[employees[rs[j].id]].name == rs[j].name
  }

  /** Every registered record of the batch hangs where it says: a record
      without a manager is node 0, the CEO, and any other record's node is
      another node, whose parent is its manager's node. */
  ghost predicate Linked(rs: seq<RawEmployee>, parent: seq<nat>, employees: map<string, nat>)
  {
    forall j :: 0 <= j < |rs| && rs[j].id in employees ==>
      && employees[rs[j].id] < |parent|
      && (rs[j].manager == "" ==> employees[rs[j].id] == 0)
      && (rs[j].manager != "" ==>
            && rs[j].manager in employees && 0 < employees[rs[j].id]
            && parent[employees[rs[j].id]] == employees[rs[j].manager])
  }

  /** Record `a` comes before record `b` in the batch. */
  ghost predicate Precedes(rs: seq<RawEmployee>, a: RawEmployee, b: RawEmployee)
  {
    exists j1, j2 :: 0 <= j1 < j2 < |rs| && rs[j1] == a && rs[j2] == b
  }

  lemma PrecedesIndices(rs: seq<RawEmployee>, j1: nat, j2: nat)
    requires UniqueIds(rs) && j1 < |rs| && j2 < |rs|
    ensures Precedes(rs, rs[j1], rs[j2]) <==> j1 < j2
  {
    if Precedes(rs, rs[j1], rs[j2]) {
      var p, q :| 0 <= p < q < |rs| && rs[p] == rs[j1] && rs[q] == rs[j2];
      assert !(p < j1) && !(j1 < p) && !(q < j2) && !(j2 < q);
    }
  }

  /** Every waiting list holds its records in batch order. */
  ghost predicate QueuesInOrder(m: Pending, rs: seq<RawEmployee>)
  {
    forall x, t1, t2 :: x in m && 0 <= t1 < t2 < |m[x]| ==> Precedes(rs, m[x][t1], m[x][t2])
  }

  /** Registered records of the batch that share a manager got their nodes
      in batch order. */
  ghost predicate SiblingsInOrder(rs: seq<RawEmployee>, employees: map<string, nat>)
  {
    forall j1, j2 ::
      0 <= j1 < j2 < |rs| && rs[j1].id in employees && rs[j2].id in employees &&
      rs[j1].manager != "" && rs[j1].manager == rs[j2].manager
      ==> employees[rs[j1].id] < employees[rs[j2].id]
  }

  /** Every registered record of the batch with the manager of `a` comes before `a`. */
  ghost predicate SiblingsBefore(rs: seq<RawEmployee>, employees: map<string, nat>, a: RawEmployee)
  {
    forall j :: 0 <= j < |rs| && rs[j].id in employees && rs[j].manager == a.manager ==> Precedes(rs, rs[j], a)
  }

  /** Registering `a` as a new last node, after every registered record
      sharing its manager, keeps siblings in batch order. */
  lemma AddKeepsSiblingsInOrder(rs: seq<RawEmployee>, employees: map<string, nat>, a: RawEmployee, n: nat)
    requires UniqueIds(rs) && SiblingsInOrder(rs, employees) && a in rs && a.id !in employees
    requires forall x :: x in employees ==> employees[x] < n
    requires SiblingsBefore(rs, employees, a)
    ensures SiblingsInOrder(rs, employees[a.id := n])
  {
    var e := employees[a.id := n];
    forall j1, j2 | 0 <= j1 < j2 < |rs| && rs[j1].id in e && rs[j2].id in e &&
      rs[j1].manager != "" && rs[j1].manager == rs[j2].manager
      ensures e[rs[j1].id] < e[rs[j2].id]
    {
      if rs[j1].id == a.id {
        SameIdSameRecord(rs, rs[j1], a);
        assert rs[j2].id != a.id;
        PrecedesIndices(rs, j2, j1);
      } else if rs[j2].id == a.id {
        SameIdSameRecord(rs, rs[j2], a);
      }
    }
  }

  /** No registered record of the batch names the id of `a`, which is being
      registered, as its manager: the records waiting for `a` come after all
      of its (no) registered managees. */
  lemma FreshSiblings(rs: seq<RawEmployee>, parent: seq<nat>, employees: map<string, nat>, m: Pending,
                      a: RawEmployee, n: nat)
    requires UniqueIds(rs) && Linked(rs, parent, employees) && PendingFrom(m, rs)
    requires a in rs && a.id !in employees && (a.manager == "" || a.manager in employees)
    ensures forall k :: 0 <= k < |Queue(m, a.id)| ==> SiblingsBefore(rs, employees[a.id := n], Queue(m, a.id)[k])
  {
  }

  lemma AddKeepsClosed(rs: seq<RawEmployee>, employees: map<string, nat>, a: RawEmployee, n: nat)
    requires UniqueIds(rs) && Closed(rs, employees) && a in rs && a.id !in employees
    requires forall x :: x in employees ==> employees[x] < n
    requires a.manager == "" || a.manager in employees
    ensures Closed(rs, employees[a.id := n])
  {
    forall j | 0 <= j < |rs| && rs[j].id == a.id ensures rs[j] == a {
      SameIdSameRecord(rs, rs[j], a);
    }
  }

  lemma AddKeepsRecorded(rs: seq<RawEmployee>, nodes: seq<Employee>, employees: map<string, nat>,
                         nodes': seq<Employee>, a: RawEmployee)
    requires UniqueIds(rs) && Recorded(rs, nodes, employees) && a in rs
    requires |nodes'| == |nodes| + 1 && nodes'[|nodes|].name == a.name
    requires forall i :: 0 <= i < |nodes| ==> nodes'[i].name == nodes[i].name
    ensures Recorded(rs, nodes', employees[a.id := |nodes|])
  {
    forall j | 0 <= j < |rs| && rs[j].id == a.id ensures rs[j] == a {
      SameIdSameRecord(rs, rs[j], a);
    }
  }

  /** Registering `a` as the next node, below node `p`, keeps every record
      linked: a manager-less record only becomes the first node. */
  lemma AddKeepsLinked(rs: seq<RawEmployee>, parent: seq<nat>, employees: map<string, nat>,
                       a: RawEmployee, p: nat)
    requires UniqueIds(rs) && Linked(rs, parent, employees) && a in rs && a.id !in employees
    requires forall x :: x in employees ==> employees[x] < |parent|
    requires a.manager == "" ==> |parent| == 0
    requires a.manager != "" ==> a.manager in employees && p == employees[a.manager]
    ensures Linked(rs, parent + [p], employees[a.id := |parent|])
  {
    forall j | 0 <= j < |rs| && rs[j].id == a.id ensures rs[j] == a {
      SameIdSameRecord(rs, rs[j], a);
    }
  }

  // ---------------------------------------------------------------------
  // Which records an import registers

  /** A registered record of the batch resolves to the CEO or to an employee
      known before the import. */
  lemma {:induction false} RegisteredResolvable(rs: seq<RawEmployee>, known: set<string>,
                                                employees: map<string, nat>, j: nat)
    requires UniqueIds(rs) && Closed(rs, employees)
    requires employees.Keys - known <= Ids(rs)
    requires j < |rs| && rs[j].id in employees
    ensures Resolvable(rs, known, rs[j])
    decreases employees[rs[j].id]
  {
    var r := rs[j];
    if r.manager != "" && r.manager !in known {
      assert r.manager in Ids(rs);
      var q :| q in rs && q.id == r.manager;
      var j' :| 0 <= j' < |rs| && rs[j'] == q;
      RegisteredResolvable(rs, known, employees, j');
      var k: nat :| ResolvesWithin(rs, known, q, k);
      assert ResolvesWithin(rs, known, r, k + 1);
    } else {
      assert ResolvesWithin(rs, known, r, 0);
    }
  }

  /** When every unregistered record of the batch waits for an unregistered,
      non-empty manager, no unregistered record resolves. */
  lemma {:induction false} StuckUnresolvable(rs: seq<RawEmployee>, known: set<string>,
                                             registered: set<string>, r: RawEmployee, k: nat)
    requires known <= registered
    requires forall q :: q in rs && q.id !in registered ==> q.manager != "" && q.manager !in registered
    requires r in rs && r.id !in registered
    ensures !ResolvesWithin(rs, known, r, k)
    decreases k
  {
    if k > 0 {
      forall q | q in rs && q.id == r.manager ensures !ResolvesWithin(rs, known, q, k - 1) {
        StuckUnresolvable(rs, known, registered, q, k - 1);
      }
    }
  }

  lemma {:induction false} WithinMore(rs: seq<RawEmployee>, known: set<string>, r: RawEmployee, j: nat, k: nat)
    requires j <= k && ResolvesWithin(rs, known, r, j)
    ensures ResolvesWithin(rs, known, r, k)
    decreases j
  {
    if r.manager != "" && r.manager !in known {
      var q :| q in rs && q.id == r.manager && ResolvesWithin(rs, known, q, j - 1);
      WithinMore(rs, known, q, j - 1, k - 1);
    }
  }

  /** In a batch where managers come first, record `i` reaches a record
      without a manager (or a known employee) within `i` steps. */
  lemma {:induction false} OrderedResolvesWithin(rs: seq<RawEmployee>, known: set<string>, i: nat)
    requires InputOrdered(rs) && i < |rs|
    ensures ResolvesWithin(rs, known, rs[i], i)
    decreases i
  {
    if rs[i].manager != "" && rs[i].manager !in known {
      var j :| 0 <= j < i && rs[j].id == rs[i].manager;
      var q := rs[j];
      OrderedResolvesWithin(rs, known, j);
      WithinMore(rs, known, q, j, i - 1);
      assert q in rs && q.id == rs[i].manager && ResolvesWithin(rs, known, q, i - 1);
    }
  }

  lemma OrderedResolvable(rs: seq<RawEmployee>, known: set<string>)
    requires InputOrdered(rs)
    ensures AllResolvable(rs, known)
  {
    forall r | r in rs ensures Resolvable(rs, known, r) {
      var i :| 0 <= i < |rs| && rs[i] == r;
      OrderedResolvesWithin(rs, known, i);
    }
  }

  lemma {:induction false} NoCeoManagers(rs: seq<RawEmployee>)
    requires CeoCount(rs) == 0
    ensures forall r :: r in rs ==> r.manager != ""
  {
    if rs != [] {
      var init := rs[..|rs| - 1];
      NoCeoManagers(init);
      forall r | r in rs ensures r.manager != "" {
        var i :| 0 <= i < |rs| && rs[i] == r;
        if i < |rs| - 1 {
          assert init[i] == r;
        }
      }
    }
  }

  /** A non-empty batch in which every record names a manager has no record
      that resolves to a CEO. */
  lemma NoCeoUnresolvable(rs: seq<RawEmployee>)
    requires CeoCount(rs) == 0 && rs != []
    ensures !AllResolvable(rs, {})
  {
    NoCeoManagers(rs);
    forall k: nat ensures !ResolvesWithin(rs, {}, rs[0], k) {
      StuckUnresolvable(rs, {}, {}, rs[0], k);
    }
    assert rs[0] in rs && !Resolvable(rs, {}, rs[0]);
  }

  // ---------------------------------------------------------------------
  // The tree built from an input in which managers come first

  /** Indices, below `n`, of the records naming `id` as their manager, in input order. */
  function ManageesIn(rs: seq<RawEmployee>, id: string, n: nat): seq<nat>
    requires n <= |rs|
  {
    if n == 0 then []
    else ManageesIn(rs, id, n - 1) + (if rs[n - 1].manager != "" && rs[n - 1].manager == id then [n - 1] else [])
  }

  /** The arena holding the first `n` records, in input order, each with the
      later records naming it as manager as its managees. */
  function OrderedTree(rs: seq<RawEmployee>, n: nat): seq<Employee>
    requires n <= |rs|
  {
    seq(n, j requires 0 <= j < n => Employee(rs[j].name, rs[j].id, ManageesIn(rs, rs[j].id, n)))
  }

  /** In an ordered batch, no record up to `i` names record `i` as its manager. */
  lemma {:induction false} NoEarlierManagees(rs: seq<RawEmployee>, i: nat, n: nat)
    requires UniqueIds(rs) && InputOrdered(rs) && i < |rs| && n <= i + 1
    ensures ManageesIn(rs, rs[i].id, n) == []
  {
    if n > 0 {
      NoEarlierManagees(rs, i, n - 1);
      var r := rs[n - 1];
      if r.manager != "" {
        var j :| 0 <= j < n - 1 && rs[j].id == r.manager;
        assert rs[j].id != rs[i].id;
      }
    }
  }
}
