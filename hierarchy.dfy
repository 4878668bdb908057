/** The company being built from raw records (hierarchy.go:30-139): an arena
    of employee nodes, the id-to-node map and the CEO; AddEmployee attaches one
    record, ImportRawEmployeeData attaches a batch, deferring records whose
    manager has not been seen yet and draining them with CheckManageeMap. */
module Hierarchy {
  import opened Records
  import opened Tree
  import opened Resolution
  import opened Drain
  import opened Import

  class Company {
    /** The employees allocated so far; node 0 is the CEO. */
    var nodes: seq<Employee>
    /** `Company.Employees`: id to node. */
    var employees: map<string, nat>
    /** `Company.CEO`. */
    var ceo: Option<nat>
    /** The manager of each node, kept for the proofs. */
    ghost var parent: seq<nat>

    /** The fields as one value. */
    ghost function State(): Arena
      reads this
    {
      Arena(nodes, parent, employees, ceo)
    }

    ghost predicate Valid()
      reads this
    {
      Sound(State())
    }

    constructor ()
      ensures Valid()
      ensures nodes == [] && employees == map[] && ceo == None
    {
      nodes, employees, ceo := [], map[], None;
      parent := [];
    }

    /** Adds one record: as the CEO when it has no manager, otherwise as the
        last managee of its registered manager; then registers it by id. */
    method AddEmployee(raw: RawEmployee) returns (res: Result<nat>)
      requires Valid()
      modifies this
      ensures Valid()
      ensures res.Success? <==> Accepts(old(State()), raw)
      ensures raw.manager == "" && old(ceo).Some? ==> res == Failure(MultipleCEOError)
      ensures raw.manager != "" && raw.manager !in old(employees) ==> res == Failure(MissingManagerError)
      ensures res.Failure? ==> State() == old(State())
      ensures res.Success? ==> res.value == |old(nodes)|
      ensures res.Success? && raw.manager == "" ==> State() == Crown(old(State()), raw)
      ensures res.Success? && raw.manager != "" ==>
        State() == Attach(old(State()), old(employees)[raw.manager], raw)
    {
      if raw.manager == "" {
        if ceo.Some? {
          return Failure(MultipleCEOError);
        }
        ceo := Some(|nodes|);
        nodes := nodes + [Employee(raw.name, raw.id, [])];
        parent := parent + [0];
      } else if raw.manager in employees {
        var p := employees[raw.manager];
        AttachLeafKeepsTree(nodes, parent, p, raw.name, raw.id);
        nodes := AttachLeaf(nodes, p, raw.name, raw.id);
        parent := parent + [p];
      } else {
        return Failure(MissingManagerError);
      }
      employees := employees[raw.id := |nodes| - 1];
      res := Success(|nodes| - 1);
    }

    /** Imports a batch in one pass. A record whose manager is not yet
        registered waits in `manageeMap` under the manager's id; each added
        record drains the records waiting for it. Fails with
        MultipleCEOError at the second record without a manager, and with
        InvalidEmployeesError when records are still waiting at the end. */
    method ImportRawEmployeeData(rs: seq<RawEmployee>) returns (err: Option<Error>)
      requires Valid()
      requires UniqueIds(rs)
      requires forall r :: r in rs ==> r.id !in employees
      modifies this
      ensures Valid()
      ensures err == Some(MultipleCEOError) <==> CeoCount(rs) + Ceos(old(State())) >= 2
      ensures err == Some(InvalidEmployeesError) <==>
        CeoCount(rs) + Ceos(old(State())) < 2 && !AllResolvable(rs, old(employees).Keys)
      ensures err == None <==>
        CeoCount(rs) + Ceos(old(State())) < 2 && AllResolvable(rs, old(employees).Keys)
      ensures Stays(rs, old(State()), State()) == true
      ensures err == None ==>
        && employees.Keys == old(employees).Keys + Ids(rs)
        && |nodes| == |old(nodes)| + |rs|
      ensures err == None && old(nodes) == [] && InputOrdered(rs) ==> nodes == OrderedTree(rs, |rs|)
    {
      var manageeMap: Pending := map[];
      ghost var s0 := State();
      ghost var ordered := s0.nodes == [] && InputOrdered(rs);
      ImportStart(rs, s0);
      for i := 0 to |rs|
        invariant ImportLoop(rs, s0, i, State(), manageeMap) == true
        invariant ordered ==> OrderedLoop(rs, i, State(), manageeMap) == true
      {
        var stop;
        manageeMap, stop := ImportRecord(rs, i, manageeMap, s0);
        if stop.Some? {
          ImportVerdict(rs, s0, i, State(), manageeMap, stop);
          return stop;
        }
      }
      err := if |manageeMap| > 0 then Some(InvalidEmployeesError) else None;
      ImportVerdict(rs, s0, |rs|, State(), manageeMap, err);
    }

    /** One turn of the import loop: adds record `rs[i]` and drains the
        records waiting for it; when its manager is not registered yet,
        appends it to the list waiting for that manager instead. A second
        record without a manager stops the import with MultipleCEOError and
        leaves the company and the map as they were. */
    method ImportRecord(rs: seq<RawEmployee>, i: nat, manageeMap: Pending, ghost s0: Arena)
      returns (pending: Pending, stop: Option<Error>)
      requires ImportLoop(rs, s0, i, State(), manageeMap) == true && i < |rs|
      requires s0.nodes == [] && InputOrdered(rs) ==> OrderedLoop(rs, i, State(), manageeMap) == true
      modifies this
      ensures stop.Some? ==>
        && stop == Some(MultipleCEOError) && CeoCount(rs) + Ceos(s0) >= 2
        && ImportLoop(rs, s0, i, State(), pending) == true
      ensures stop.None? ==> ImportLoop(rs, s0, i + 1, State(), pending) == true
      ensures stop.None? && s0.nodes == [] && InputOrdered(rs) ==> OrderedLoop(rs, i + 1, State(), pending) == true
      ensures rs[i].manager == "" && old(ceo).Some? ==>
        stop == Some(MultipleCEOError) && State() == old(State()) && pending == manageeMap
      ensures rs[i].manager != "" && rs[i].manager !in old(employees) ==>
        && stop.None? && State() == old(State())
        && pending == manageeMap[rs[i].manager := Queue(manageeMap, rs[i].manager) + [rs[i]]]
      ensures Accepts(old(State()), rs[i]) ==>
        stop.None? && Drains(manageeMap, |old(nodes)|, rs, Added(old(State()), rs[i]), State(), pending) == true
    {
      var r := rs[i];
      ghost var s := State();
      ImportNext(rs, s0, i, s, manageeMap);
      var res := AddEmployee(r);
      if res == Failure(MissingManagerError) {
        ImportWait(rs, s0, i, s, manageeMap);
        return manageeMap[r.manager := Queue(manageeMap, r.manager) + [r]], None;
      } else if res.Failure? {
        ImportTwoCeos(rs, s0, i, s, manageeMap);
        return manageeMap, Some(res.error);
      }
      ImportAddReady(rs, s0, i, s, manageeMap);
      assert State() == Added(s, r);
      pending := CheckManageeMap(manageeMap, res.value, this, rs, |Ids(rs) - employees.Keys|);
      ImportAdd(rs, s0, i, s, manageeMap, State(), pending);
      if s0.nodes == [] && InputOrdered(rs) {
        OrderedAdd(rs, s0, i, s, manageeMap, State(), pending);
      }
      stop := None;
    }

    /** The hierarchy as text rows: MissingCEOError when no CEO was added,
        otherwise every employee once, in depth-first order from the CEO,
        each indented by one tab per level below the CEO. */
    method GenerateHierarchyTable() returns (res: Result<seq<string>>)
      requires Valid()
      ensures res.Failure? <==> ceo.None?
      ensures res.Failure? ==> res.error == MissingCEOError
      ensures res.Success? ==>
        && |nodes| > 0
        && |res.value| == |nodes|
        && res.value[0] == nodes[0].name
        && Distinct(Preorder(nodes, 0))
        && (forall x: nat :: x in Preorder(nodes, 0) <==> x < |nodes|)
        && res.value == Rows(nodes, parent, Preorder(nodes, 0))
    {
      if ceo.None? {
        return Failure(MissingCEOError);
      }
      WalkListsEveryNodeOnce(nodes, parent);
      var rows := EmployeeWalkRows(nodes, 0, 0);
      res := Success(rows);
      assert res.value[0] == GenerateTabularRow(nodes[0].name, 0);
    }
  }

  /** EmployeeWalk as the loop of hierarchy.go: the row of node `i`, then,
      for each managee in stored order, the rows of its subtree one level
      deeper. */
  method EmployeeWalkRows(nodes: seq<Employee>, i: nat, depth: nat) returns (output: seq<string>)
    requires ManageesAfter(nodes) && i < |nodes|
    ensures output == EmployeeWalk(nodes, i, depth)
    decreases |nodes| - i
  {
    output := [GenerateTabularRow(nodes[i].name, depth)];
    var managees := nodes[i].managees;
    for k := 0 to |managees|
      invariant output + ManageesWalk(nodes, i, k, depth + 1) == EmployeeWalk(nodes, i, depth)
    {
      var rows := EmployeeWalkRows(nodes, managees[k], depth + 1);
      assert ManageesWalk(nodes, i, k, depth + 1) == rows + ManageesWalk(nodes, i, k + 1, depth + 1);
      output := output + rows;
    }
  }

  /** Attaches, in queue order, the records waiting for the node `manager`,
      draining after each the records waiting for it in turn, then removes
      the manager's id from the map. */
  method CheckManageeMap(manageeMap: Pending, manager: nat, company: Company, ghost rs: seq<RawEmployee>,
                         ghost budget: nat)
    returns (pending: Pending)
    requires DrainReady(manageeMap, manager, rs, company.State())
    requires |Ids(rs) - company.employees.Keys| <= budget
    modifies company
    decreases budget, 2
    ensures Drains(manageeMap, manager, rs, old(company.State()), company.State(), pending)
  {
    var id := company.nodes[manager].id;
    if id !in manageeMap {
      DrainNone(manageeMap, manager, rs, company.State());
      return manageeMap;
    }
    ghost var s0 := company.State();
    ghost var added;
    pending, added := DrainQueue(manageeMap, manager, company, rs, budget);
    DrainLoopEnd(manageeMap, manager, rs, s0, added, company.State(), pending);
    pending := pending - {id};
  }

  /** The loop of CheckManageeMap over the records waiting for node
      `manager`; `added` holds the ids it registered. */
  method DrainQueue(manageeMap: Pending, manager: nat, company: Company, ghost rs: seq<RawEmployee>,
                    ghost budget: nat)
    returns (pending: Pending, ghost added: set<string>)
    requires DrainReady(manageeMap, manager, rs, company.State())
    requires company.nodes[manager].id in manageeMap
    requires |Ids(rs) - company.employees.Keys| <= budget
    modifies company
    decreases budget, 1
    ensures DrainLoop(manageeMap, manager, rs, old(company.State()), |manageeMap[old(company.nodes[manager].id)]|,
                      added, company.State(), pending) == true
  {
    var managees := manageeMap[company.nodes[manager].id];
    pending := manageeMap;
    ghost var s0 := company.State();
    added := {};
    DrainLoopStart(manageeMap, manager, rs, s0);
    for t := 0 to |managees|
      invariant DrainLoop(manageeMap, manager, rs, s0, t, added, company.State(), pending) == true
    {
      pending, added := AttachManagee(manageeMap, manager, t, company, rs, s0, added, pending, budget);
    }
    assert s0 == old(company.State()) && managees == manageeMap[s0.nodes[manager].id];
  }

  /** One turn of the loop of DrainQueue: adds record `t` of the queue
      of node `manager` as that node's last managee, then drains the records
      waiting for it in the map `pending`. */
  method AttachManagee(manageeMap: Pending, manager: nat, t: nat, company: Company, ghost rs: seq<RawEmployee>,
                       ghost s0: Arena, ghost added: set<string>, pending: Pending, ghost budget: nat)
    returns (pending': Pending, ghost added': set<string>)
    requires DrainLoop(manageeMap, manager, rs, s0, t, added, company.State(), pending) == true
    requires t < |manageeMap[s0.nodes[manager].id]|
    requires |Ids(rs) - s0.employees.Keys| <= budget
    modifies company
    decreases budget, 0
    ensures DrainLoop(manageeMap, manager, rs, s0, t + 1, added', company.State(), pending')
  {
    ghost var s := company.State();
    var managee := manageeMap[company.nodes[manager].id][t];
    DrainLoopReady(manageeMap, manager, rs, s0, t, added, s, pending);
    DiffShrinks(Ids(rs), s0.employees.Keys, s.employees.Keys);
    var res := company.AddEmployee(managee);
    var employee := res.value;
    AttachReadyAfter(pending, manager, managee, rs, s);
    ghost var s1 := company.State();
    assert s1 == Attach(s, manager, managee);
    AddShrinks(rs, managee, s.employees, |s.nodes|);
    pending' := CheckManageeMap(pending, employee, company, rs, budget - 1);
    ghost var sub := company.employees.Keys - s1.employees.Keys;
    AttachFinish(pending, manager, managee, rs, s, company.State(), pending');
    DrainLoopStep(manageeMap, manager, rs, s0, t, added, s, pending, company.State(), pending', sub);
    added' := added + sub + {managee.id};
  }
}
