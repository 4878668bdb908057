/** The one pass of ImportRawEmployeeData (hierarchy.go:71-103) over company
    snapshots: what holds after the first `i` records of the batch, how each
    outcome of AddEmployee keeps it, and what it yields once the batch is
    done. */
module Import {
  import opened Records
  import opened Tree
  import opened Resolution
  import opened Drain

  /** 1 when the company already has a CEO, 0 otherwise. */
  function Ceos(s: Arena): nat
  {
    if s.ceo.Some? then 1 else 0
  }

  /** What an import demands of its caller: a sound company and a batch of
      distinct ids, none of them registered yet. */
  ghost predicate ImportReady(rs: seq<RawEmployee>, s0: Arena)
  {
    Sound(s0) && UniqueIds(rs) && forall r :: r in rs ==> r.id !in s0.employees
  }

  /** The company `s` and the waiting map `m` after the first `i` records of
      the batch, starting from `s0`: the old nodes and ids stay; the ids
      registered since are ids of those records, one node each; every one of those records is registered or waits
      in `m` under its manager's id; no key of `m` is registered; at most one
      CEO was seen, and `s` has one exactly when one was seen. Contracts
      compare it with `true` so that the verifier checks it as one fact. */
  ghost predicate ImportLoop(rs: seq<RawEmployee>, s0: Arena, i: nat, s: Arena, m: Pending)
  {
    && i <= |rs| && (forall r :: r in rs ==> r.id !in s0.employees)
    && Sound(s) && Keeps(s0.employees, s.employees) && Grows(s0.nodes, s0.parent, s.nodes, s.parent)
    && s.employees.Keys - s0.employees.Keys <= Ids(rs[..i])
    && |s.nodes| == |s0.nodes| + |s.employees.Keys - s0.employees.Keys|
    && Tracked(m, rs, s) && PendingFrom(m, rs[..i])
    && (forall x :: x in m ==> x !in s.employees)
    && (forall j :: 0 <= j < i ==> rs[j].id in s.employees || (rs[j].manager in m && rs[j] in m[rs[j].manager]))
    && CeoCount(rs[..i]) + Ceos(s0) < 2
    && (s.ceo.Some? <==> Ceos(s0) + CeoCount(rs[..i]) > 0)
  }

  /** Importing an ordered batch into an empty company: nothing waits, the
      arena is the ordered tree of the first `i` records and record `j` is
      node `j`. */
  ghost predicate OrderedLoop(rs: seq<RawEmployee>, i: nat, s: Arena, m: Pending)
  {
    && i <= |rs| && m == map[] && s.nodes == OrderedTree(rs, i)
    && forall j :: 0 <= j < i ==> rs[j].id in s.employees && s.employees[rs[j].id] == j
  }

  lemma ImportStart(rs: seq<RawEmployee>, s0: Arena)
    requires ImportReady(rs, s0)
    ensures ImportLoop(rs, s0, 0, s0, map[])
    ensures s0.nodes == [] ==> OrderedLoop(rs, 0, s0, map[])
  {
    assert rs[..0] == [];
    assert s0.employees.Keys - s0.employees.Keys == {};
    assert s0.parent[..|s0.nodes|] == s0.parent;
  }

  /** The next record is not registered yet; in an ordered batch its manager,
      if it has one, is. */
  lemma ImportNext(rs: seq<RawEmployee>, s0: Arena, i: nat, s: Arena, m: Pending)
    requires ImportLoop(rs, s0, i, s, m) == true && i < |rs|
    ensures rs[i] in rs && rs[i].id !in s.employees
    ensures OrderedLoop(rs, i, s, m) && InputOrdered(rs) && rs[i].manager != "" ==> rs[i].manager in s.employees
  {
    var r := rs[i];
    forall q | q in rs[..i] ensures q.id != r.id {
      var j :| 0 <= j < i && rs[j] == q;
    }
    assert r.id !in Ids(rs[..i]);
    if OrderedLoop(rs, i, s, m) && InputOrdered(rs) && r.manager != "" {
      var j :| 0 <= j < i && rs[j].id == r.manager;
    }
  }

  /** A record whose manager is not registered joins the end of the list
      waiting for that manager (a missing key reads as the empty list). */
  lemma ImportWait(rs: seq<RawEmployee>, s0: Arena, i: nat, s: Arena, m: Pending)
    requires ImportLoop(rs, s0, i, s, m) == true && i < |rs|
    requires rs[i].manager != "" && rs[i].manager !in s.employees
    ensures ImportLoop(rs, s0, i + 1, s, m[rs[i].manager := Queue(m, rs[i].manager) + [rs[i]]])
  {
    var r := rs[i];
    var q := Queue(m, r.manager);
    var m' := m[r.manager := q + [r]];
    ImportNext(rs, s0, i, s, m);
    PrefixSnoc(rs, i);
    forall t | 0 <= t < |q| ensures q[t].id != r.id {
      assert q[t] in rs[..i];
      var j :| 0 <= j < i && rs[j] == q[t];
    }
    WaitGrows(m, rs, rs[..i], rs[..i + 1], r, s.employees.Keys);
    WaitKeepsOrder(m, rs, i);
    assert s.employees.Keys - s0.employees.Keys <= Ids(rs[..i + 1]);
    assert Tracked(m', rs, s) && PendingFrom(m', rs[..i + 1]);
    assert forall x :: x in m' ==> x !in s.employees;
    WaitWaits(rs, i, s.employees.Keys, m);
    assert CeoCount(rs[..i + 1]) + Ceos(s0) < 2;
    assert ImportLoop(rs, s0, i + 1, s, m');
  }

  /** After record `i` joined the list of its manager, every record up to it
      is registered or waits under its manager. */
  lemma WaitWaits(rs: seq<RawEmployee>, i: nat, keys: set<string>, m: Pending)
    requires i < |rs| && rs[i].manager != ""
    requires forall j :: 0 <= j < i ==> rs[j].id in keys || (rs[j].manager in m && rs[j] in m[rs[j].manager])
    ensures var m' := m[rs[i].manager := Queue(m, rs[i].manager) + [rs[i]]];
      forall j :: 0 <= j < i + 1 ==> rs[j].id in keys || (rs[j].manager in m' && rs[j] in m'[rs[j].manager])
  {
    var r := rs[i];
    var m' := m[r.manager := Queue(m, r.manager) + [r]];
    assert m'[r.manager][|Queue(m, r.manager)|] == r;
    forall j | 0 <= j < i + 1 && rs[j].id !in keys ensures rs[j].manager in m' && rs[j] in m'[rs[j].manager] {
      if j < i && rs[j].manager == r.manager {
        assert m'[r.manager] == m[r.manager] + [r];
      }
    }
  }

  /** The waiting map after `r` joined the list of its unregistered manager. */
  lemma WaitGrows(m: Pending, rs: seq<RawEmployee>, done: seq<RawEmployee>, done': seq<RawEmployee>,
                  r: RawEmployee, keys: set<string>)
    requires PendingFrom(m, rs) && PendingFrom(m, done) && WaitingUnderUnknown(m, keys)
    requires done' == done + [r] && r in rs && r.manager != "" && r.manager !in keys && r.id !in keys
    requires forall t :: 0 <= t < |Queue(m, r.manager)| ==> Queue(m, r.manager)[t].id != r.id
    ensures var m' := m[r.manager := Queue(m, r.manager) + [r]];
      PendingFrom(m', rs) && PendingFrom(m', done') && WaitingUnderUnknown(m', keys)
  {
    var m' := m[r.manager := Queue(m, r.manager) + [r]];
    forall x | x in m' ensures forall t :: 0 <= t < |m'[x]| ==> m'[x][t] in done' {
      forall t | 0 <= t < |m'[x]| ensures m'[x][t] in done' {
        if x == r.manager && t < |m'[x]| - 1 {
          assert m'[x][t] == m[x][t] && m[x][t] in done;
        } else if x != r.manager {
          assert m[x][t] in done;
        }
      }
    }
  }

  /** Record `i` joins its list behind records that come before it. */
  lemma WaitKeepsOrder(m: Pending, rs: seq<RawEmployee>, i: nat)
    requires i < |rs| && PendingFrom(m, rs[..i]) && QueuesInOrder(m, rs)
    ensures QueuesInOrder(m[rs[i].manager := Queue(m, rs[i].manager) + [rs[i]]], rs)
  {
    var x := rs[i].manager;
    var q := Queue(m, x);
    var m' := m[x := q + [rs[i]]];
    forall t1, t2 | 0 <= t1 < t2 < |m'[x]| ensures Precedes(rs, m'[x][t1], m'[x][t2]) {
      if t2 == |q| {
        assert q[t1] in rs[..i];
        var j :| 0 <= j < i && rs[j] == q[t1];
      } else {
        assert m'[x][t1] == m[x][t1] && m'[x][t2] == m[x][t2];
      }
    }
  }

  /** A second record without a manager: the batch and the company hold two CEOs. */
  lemma ImportTwoCeos(rs: seq<RawEmployee>, s0: Arena, i: nat, s: Arena, m: Pending)
    requires ImportLoop(rs, s0, i, s, m) == true && i < |rs| && rs[i].manager == "" && s.ceo.Some?
    ensures CeoCount(rs) + Ceos(s0) >= 2
  {
    PrefixSnoc(rs, i);
    CeoCountPrefix(rs, i + 1);
  }

  /** An accepted record leaves its new node ready to be drained below. */
  lemma ImportAddReady(rs: seq<RawEmployee>, s0: Arena, i: nat, s: Arena, m: Pending)
    requires ImportLoop(rs, s0, i, s, m) == true && i < |rs| && Accepts(s, rs[i])
    ensures DrainReady(m, |s.nodes|, rs, Added(s, rs[i]))
  {
    ImportNext(rs, s0, i, s, m);
    var r := rs[i];
    if r.manager == "" {
      CrownReadyAfter(m, r, rs, s);
    } else {
      RegisteredBefore(rs, s0, i, s, m);
      AttachReadyAfter(m, s.employees[r.manager], r, rs, s);
    }
  }

  /** Every record of the batch registered before turn `i` precedes record `i`. */
  lemma RegisteredBefore(rs: seq<RawEmployee>, s0: Arena, i: nat, s: Arena, m: Pending)
    requires ImportLoop(rs, s0, i, s, m) == true && i < |rs|
    ensures SiblingsBefore(rs, s.employees, rs[i])
  {
    forall j | 0 <= j < |rs| && rs[j].id in s.employees && rs[j].manager == rs[i].manager
      ensures Precedes(rs, rs[j], rs[i])
    {
      assert rs[j] in rs && rs[j].id in s.employees.Keys - s0.employees.Keys;
      var q :| q in rs[..i] && q.id == rs[j].id;
      var j' :| 0 <= j' < i && rs[j'] == q;
      assert !(j < j') && !(j' < j);
    }
  }

  /** Adding an accepted record and draining below it keeps the loop facts. */
  lemma ImportAdd(rs: seq<RawEmployee>, s0: Arena, i: nat, s: Arena, m: Pending, s2: Arena, m2: Pending)
    requires ImportLoop(rs, s0, i, s, m) == true && i < |rs| && Accepts(s, rs[i])
    requires Drains(m, |s.nodes|, rs, Added(s, rs[i]), s2, m2) == true
    ensures ImportLoop(rs, s0, i + 1, s2, m2)
  {
    ImportAddKeys(rs, s0, i, s, m, s2, m2);
    ImportAddWaits(rs, s0, i, s, m, s2, m2);
    ImportAddGrows(rs, s0, i, s, m, s2, m2);
    PrefixSnoc(rs, i);
    assert s2.ceo == Added(s, rs[i]).ceo;
    assert CeoCount(rs[..i + 1]) + Ceos(s0) < 2;
    assert s2.ceo.Some? <==> Ceos(s0) + CeoCount(rs[..i + 1]) > 0;
  }

  /** Adding a record and draining below it keeps the old nodes. */
  lemma ImportAddGrows(rs: seq<RawEmployee>, s0: Arena, i: nat, s: Arena, m: Pending, s2: Arena, m2: Pending)
    requires ImportLoop(rs, s0, i, s, m) == true && i < |rs| && Accepts(s, rs[i])
    requires Drains(m, |s.nodes|, rs, Added(s, rs[i]), s2, m2) == true
    ensures Grows(s0.nodes, s0.parent, s2.nodes, s2.parent)
  {
    var s1 := Added(s, rs[i]);
    if rs[i].manager == "" {
      assert s1.parent[..|s.nodes|] == s.parent;
    } else {
      AttachLeafExtends(s.nodes, s.parent, s.employees[rs[i].manager], rs[i].name, rs[i].id);
      ExtendsGrows(s.nodes, s.parent, s1.nodes, s1.parent, s.employees[rs[i].manager]);
    }
    ExtendsGrows(s1.nodes, s1.parent, s2.nodes, s2.parent, |s.nodes|);
    GrowsTrans(s0.nodes, s0.parent, s.nodes, s.parent, s1.nodes, s1.parent);
    GrowsTrans(s0.nodes, s0.parent, s1.nodes, s1.parent, s2.nodes, s2.parent);
  }

  /** The registered ids and the nodes after adding a record and draining below it. */
  lemma ImportAddKeys(rs: seq<RawEmployee>, s0: Arena, i: nat, s: Arena, m: Pending, s2: Arena, m2: Pending)
    requires ImportLoop(rs, s0, i, s, m) && i < |rs| && Accepts(s, rs[i])
    requires Drains(m, |s.nodes|, rs, Added(s, rs[i]), s2, m2) == true
    ensures Keeps(s0.employees, s2.employees)
    ensures s2.employees.Keys - s0.employees.Keys <= Ids(rs[..i + 1])
    ensures |s2.nodes| == |s0.nodes| + |s2.employees.Keys - s0.employees.Keys|
  {
    var r := rs[i];
    var s1 := Added(s, r);
    var added := s2.employees.Keys - s1.employees.Keys;
    ImportNext(rs, s0, i, s, m);
    assert s1.nodes[|s.nodes|].id == r.id;
    assert Keeps(s1.employees, s2.employees);
    assert added == Drained(m, added + {r.id});
    assert |s2.nodes| == |s1.nodes| + |added|;
    PrefixSnoc(rs, i);
    KeepsAdd(s.employees, s1.employees, s2.employees, r.id, |s.nodes|);
    KeepsTrans(s0.employees, s.employees, s2.employees);
    KeepsKeys(s1.employees, s2.employees);
    KeepsKeys(s0.employees, s.employees);
    DrainedFrom(m, rs[..i], added + {r.id});
    UpdateKeys(s.employees, r.id, |s.nodes|);
    GrowKeys(s0.employees.Keys, s.employees.Keys, s1.employees.Keys, s2.employees.Keys, r.id, added, Ids(rs[..i]),
             |s0.nodes|, |s.nodes|, |s2.nodes|);
  }

  /** The waiting map after adding a record and draining below it. */
  lemma ImportAddWaits(rs: seq<RawEmployee>, s0: Arena, i: nat, s: Arena, m: Pending, s2: Arena, m2: Pending)
    requires ImportLoop(rs, s0, i, s, m) && i < |rs| && Accepts(s, rs[i])
    requires Drains(m, |s.nodes|, rs, Added(s, rs[i]), s2, m2) == true
    ensures Tracked(m2, rs, s2) && PendingFrom(m2, rs[..i + 1])
    ensures forall x :: x in m2 ==> x !in s2.employees
    ensures forall j :: 0 <= j < i + 1 ==> rs[j].id in s2.employees || (rs[j].manager in m2 && rs[j] in m2[rs[j].manager])
  {
    var r := rs[i];
    var s1 := Added(s, r);
    var added := s2.employees.Keys - s1.employees.Keys;
    assert s1.nodes[|s.nodes|].id == r.id;
    assert Keeps(s1.employees, s2.employees);
    assert added == Drained(m, added + {r.id}) && m2 == m - (added + {r.id});
    assert Tracked(m2, rs, s2);
    ImportNext(rs, s0, i, s, m);
    KeepsKeys(s1.employees, s2.employees);
    UpdateKeys(s.employees, r.id, |s.nodes|);
    KeysBelow(s.employees.Keys, s1.employees.Keys, s2.employees.Keys, r.id);
    AddWaits(rs, i, s.employees.Keys, s2.employees.Keys, m, m2, r.id, added);
    PrefixSnoc(rs, i);
    PendingFromRemove(m, rs[..i], added + {r.id});
    PendingFromGrow(m2, rs[..i], rs[..i + 1]);
  }

  /** Ids drained from a map of records of `done` are ids of `done`. */
  lemma DrainedFrom(m: Pending, done: seq<RawEmployee>, keys: set<string>)
    requires PendingFrom(m, done)
    ensures Drained(m, keys) <= Ids(done)
  {
    forall y | y in Drained(m, keys) ensures y in Ids(done) {
      var x, t :| x in m && x in keys && 0 <= t < |m[x]| && m[x][t].id == y;
      assert m[x][t] in done;
    }
  }

  lemma PendingFromGrow(m: Pending, done: seq<RawEmployee>, done': seq<RawEmployee>)
    requires PendingFrom(m, done) && forall r :: r in done ==> r in done'
    ensures PendingFrom(m, done')
  {
  }

  /** The registered ids after adding `x` to `k` and then `added` below it. */
  lemma GrowKeys(k0: set<string>, k: set<string>, k1: set<string>, k2: set<string>, x: string,
                 added: set<string>, ids: set<string>, n0: nat, n: nat, n2: nat)
    requires k0 <= k && k - k0 <= ids && n == n0 + |k - k0|
    requires x !in k && k1 == k + {x} && k1 <= k2 && added == k2 - k1 && added <= ids
    requires n2 == n + 1 + |added|
    ensures k2 - k0 <= ids + {x} && n2 == n0 + |k2 - k0|
  {
    assert k2 - k0 == ((k - k0) + {x}) + added;
    assert |(k - k0) + {x}| == |k - k0| + 1;
    assert ((k - k0) + {x}) * added == {};
  }

  /** After adding `x` and draining below it, every record up to `x` is
      registered or still waits under its manager, and no key of the map is
      registered. */
  lemma AddWaits(rs: seq<RawEmployee>, i: nat, keys: set<string>, keys2: set<string>,
                 m: Pending, m2: Pending, x: string, added: set<string>)
    requires i < |rs| && rs[i].id == x && keys2 == keys + added + {x}
    requires forall j :: 0 <= j < i ==> rs[j].id in keys || (rs[j].manager in m && rs[j] in m[rs[j].manager])
    requires forall y :: y in m ==> y !in keys
    requires added == Drained(m, added + {x}) && m2 == m - (added + {x})
    ensures forall j :: 0 <= j < i + 1 ==> rs[j].id in keys2 || (rs[j].manager in m2 && rs[j] in m2[rs[j].manager])
    ensures forall y :: y in m2 ==> y !in keys2
  {
    forall j | 0 <= j < i + 1
      ensures rs[j].id in keys2 || (rs[j].manager in m2 && rs[j] in m2[rs[j].manager])
    {
      if j < i && rs[j].id !in keys {
        var y := rs[j].manager;
        if y in added + {x} {
          var t :| 0 <= t < |m[y]| && m[y][t] == rs[j];
          assert rs[j].id in Drained(m, added + {x});
        }
      }
    }
  }

  /** In an ordered batch imported into an empty company, nothing ever waits
      and the arena grows into the ordered tree. */
  lemma OrderedAdd(rs: seq<RawEmployee>, s0: Arena, i: nat, s: Arena, m: Pending, s2: Arena, m2: Pending)
    requires ImportLoop(rs, s0, i, s, m) == true && i < |rs| && Accepts(s, rs[i])
    requires OrderedLoop(rs, i, s, m) == true && UniqueIds(rs) && InputOrdered(rs)
    requires Drains(m, |s.nodes|, rs, Added(s, rs[i]), s2, m2) == true
    ensures OrderedLoop(rs, i + 1, s2, m2)
  {
    var r := rs[i];
    var s1 := Added(s, r);
    assert s1.nodes[|s.nodes|].id == r.id;
    assert s2 == s1 && m2 == m;
    assert |s.nodes| == i;
    if r.manager == "" {
      OrderedTreeStep(rs, i, 0);
      assert s1.nodes == OrderedTree(rs, i + 1);
    } else {
      var j :| 0 <= j < i && rs[j].id == r.manager;
      OrderedTreeStep(rs, i, j);
      assert s1.nodes == AttachLeaf(s.nodes, j, r.name, r.id);
    }
    OrderedIds(rs, i, s.employees, s1.employees);
  }

  /** Record `i` registered as node `i` after records `0` to `i - 1` as nodes
      `0` to `i - 1`. */
  lemma OrderedIds(rs: seq<RawEmployee>, i: nat, e: map<string, nat>, e': map<string, nat>)
    requires UniqueIds(rs) && i < |rs| && e' == e[rs[i].id := i]
    requires forall j :: 0 <= j < i ==> rs[j].id in e && e[rs[j].id] == j
    ensures forall j :: 0 <= j < i + 1 ==> rs[j].id in e' && e'[rs[j].id] == j
  {
    forall j | 0 <= j < i ensures rs[j].id != rs[i].id {
    }
  }

  /** Adding record `i` of an ordered batch to the tree of the records before
      it, under the node `jm` of its manager, gives the tree of the first
      `i + 1` records. */
  lemma OrderedTreeStep(rs: seq<RawEmployee>, i: nat, jm: nat)
    requires UniqueIds(rs) && InputOrdered(rs) && i < |rs|
    requires rs[i].manager != "" ==> jm < i && rs[jm].id == rs[i].manager
    ensures rs[i].manager == "" ==>
      OrderedTree(rs, i) + [Employee(rs[i].name, rs[i].id, [])] == OrderedTree(rs, i + 1)
    ensures rs[i].manager != "" ==>
      AttachLeaf(OrderedTree(rs, i), jm, rs[i].name, rs[i].id) == OrderedTree(rs, i + 1)
  {
    var t, t' := OrderedTree(rs, i), OrderedTree(rs, i + 1);
    NoEarlierManagees(rs, i, i + 1);
    var leaf := Employee(rs[i].name, rs[i].id, []);
    var grown := if rs[i].manager == "" then t + [leaf] else AttachLeaf(t, jm, rs[i].name, rs[i].id);
    assert |grown| == |t'|;
    forall j | 0 <= j < i + 1 ensures grown[j] == t'[j] {
      if j < i {
        assert t'[j].managees == ManageesIn(rs, rs[j].id, i) + (if rs[i].manager != "" && rs[i].manager == rs[j].id then [i] else []);
        if rs[i].manager != "" && j != jm {
          assert rs[j].id != rs[jm].id;
        }
      }
    }
    assert grown == t';
  }

  /** Records still waiting at the end: some record of the batch never
      reaches the CEO or an employee known before the import. */
  lemma ImportStuck(rs: seq<RawEmployee>, s0: Arena, s: Arena, m: Pending)
    requires ImportLoop(rs, s0, |rs|, s, m) == true && |m| > 0
    ensures CeoCount(rs) + Ceos(s0) < 2
    ensures !AllResolvable(rs, s0.employees.Keys)
  {
    assert rs[..|rs|] == rs;
    var x :| x in m;
    var q := m[x][0];
    forall r' | r' in rs && r'.id !in s.employees ensures r'.manager != "" && r'.manager !in s.employees {
      var j :| 0 <= j < |rs| && rs[j] == r';
    }
    KeepsKeys(s0.employees, s.employees);
    forall k: nat ensures !ResolvesWithin(rs, s0.employees.Keys, q, k) {
      StuckUnresolvable(rs, s0.employees.Keys, s.employees.Keys, q, k);
    }
  }

  /** The verdict of an import from `s0` that ended in `s` with `err`. */
  lemma ImportVerdict(rs: seq<RawEmployee>, s0: Arena, i: nat, s: Arena, m: Pending, err: Option<Error>)
    requires Sound(s0) && ImportLoop(rs, s0, i, s, m) == true
    requires || (err == Some(MultipleCEOError) && CeoCount(rs) + Ceos(s0) >= 2)
             || (i == |rs| && err == (if |m| > 0 then Some(InvalidEmployeesError) else None))
    requires i == |rs| && s0.nodes == [] && InputOrdered(rs) ==> OrderedLoop(rs, i, s, m) == true
    ensures err == Some(MultipleCEOError) <==> CeoCount(rs) + Ceos(s0) >= 2
    ensures err == Some(InvalidEmployeesError) <==> CeoCount(rs) + Ceos(s0) < 2 && !AllResolvable(rs, s0.employees.Keys)
    ensures err == None <==> CeoCount(rs) + Ceos(s0) < 2 && AllResolvable(rs, s0.employees.Keys)
    ensures err == None ==> s.employees.Keys == s0.employees.Keys + Ids(rs) && |s.nodes| == |s0.nodes| + |rs|
    ensures Sound(s) && Stays(rs, s0, s)
    ensures err == None && s0.nodes == [] && InputOrdered(rs) ==> s.nodes == OrderedTree(rs, |rs|)
  {
    ImportStays(rs, s0, i, s, m);
    if err == Some(MultipleCEOError) {
    } else if |m| > 0 {
      ImportStuck(rs, s0, s, m);
    } else {
      ImportDone(rs, s0, s);
    }
  }

  /** What any import, successful or not, leaves in place: the registered
      ids, the old nodes and the CEO stay; every record it registered
      carries its name and hangs below its manager, or is the CEO; records
      sharing a manager got their nodes in batch order. */
  ghost predicate Stays(rs: seq<RawEmployee>, s0: Arena, s: Arena)
  {
    && Keeps(s0.employees, s.employees) && Grows(s0.nodes, s0.parent, s.nodes, s.parent)
    && (s0.ceo.Some? ==> s.ceo == s0.ceo)
    && Recorded(rs, s.nodes, s.employees) && Linked(rs, s.parent, s.employees)
    && SiblingsInOrder(rs, s.employees)
  }

  lemma ImportStays(rs: seq<RawEmployee>, s0: Arena, i: nat, s: Arena, m: Pending)
    requires ImportLoop(rs, s0, i, s, m) == true
    requires Sound(s0)
    ensures Stays(rs, s0, s)
  {
  }

  /** Nothing waiting at the end: every record resolves, is registered and
      has its own node. */
  lemma ImportDone(rs: seq<RawEmployee>, s0: Arena, s: Arena)
    requires ImportLoop(rs, s0, |rs|, s, map[]) == true
    ensures CeoCount(rs) + Ceos(s0) < 2
    ensures AllResolvable(rs, s0.employees.Keys)
    ensures s.employees.Keys == s0.employees.Keys + Ids(rs) && |s.nodes| == |s0.nodes| + |rs|
    ensures Recorded(rs, s.nodes, s.employees)
  {
    DoneCeos(rs, s0, s);
    DoneResolvable(rs, s0, s);
    DoneKeys(rs, s0, s);
  }

  lemma DoneCeos(rs: seq<RawEmployee>, s0: Arena, s: Arena)
    requires ImportLoop(rs, s0, |rs|, s, map[])
    ensures CeoCount(rs) + Ceos(s0) < 2
  {
    assert rs[..|rs|] == rs;
  }

  lemma DoneResolvable(rs: seq<RawEmployee>, s0: Arena, s: Arena)
    requires ImportLoop(rs, s0, |rs|, s, map[])
    ensures AllResolvable(rs, s0.employees.Keys)
  {
    forall r' | r' in rs ensures Resolvable(rs, s0.employees.Keys, r') {
      var j :| 0 <= j < |rs| && rs[j] == r';
      RegisteredResolvable(rs, s0.employees.Keys, s.employees, j);
    }
  }

  lemma DoneKeys(rs: seq<RawEmployee>, s0: Arena, s: Arena)
    requires ImportLoop(rs, s0, |rs|, s, map[])
    ensures s.employees.Keys == s0.employees.Keys + Ids(rs) && |s.nodes| == |s0.nodes| + |rs|
  {
    assert rs[..|rs|] == rs;
    KeepsKeys(s0.employees, s.employees);
    forall y | y in Ids(rs) ensures y in s.employees {
      var j :| 0 <= j < |rs| && rs[j].id == y;
    }
    DoneKeySets(s0.employees.Keys, s.employees.Keys, Ids(rs));
    IdsCard(rs);
  }

  /** The keys at the end are the old keys and the ids of the batch. */
  lemma DoneKeySets(k0: set<string>, k: set<string>, ids: set<string>)
    requires k0 <= k && k - k0 <= ids && ids <= k && ids !! k0
    ensures k == k0 + ids && k - k0 == ids
  { }
}
