/** Concrete batches run through GenerateHierarchy: the well-formed company
    of six employees and the malformed batches the importer rejects. */
module Scenarios {
  import opened Records
  import opened Tree
  import opened Resolution
  import opened Drain
  import opened Generate

  /** jamie is the CEO; alan and steve report to jamie, martin and alex to
      alan, david to steve. */
  function Company6(): seq<RawEmployee>
  {
    [ RawEmployee("jamie", "1", ""),
      RawEmployee("alan", "2", "1"),
      RawEmployee("martin", "3", "2"),
      RawEmployee("alex", "4", "2"),
      RawEmployee("steve", "5", "1"),
      RawEmployee("david", "6", "5") ]
  }

  lemma Company6Ordered(rs: seq<RawEmployee>)
    requires rs == Company6()
    ensures UniqueIds(rs) && InputOrdered(rs)
  {
    assert rs[1].manager == rs[0].id && rs[2].manager == rs[1].id && rs[3].manager == rs[1].id;
    assert rs[4].manager == rs[0].id && rs[5].manager == rs[4].id;
  }

  lemma Company6Ceos(rs: seq<RawEmployee>)
    requires rs == Company6()
    ensures CeoCount(rs) == 1
  {
    assert rs[..0] == [];
    CeoCountSnoc(rs, 0);
    CeoCountSnoc(rs, 1);
    CeoCountSnoc(rs, 2);
    CeoCountSnoc(rs, 3);
    CeoCountSnoc(rs, 4);
    CeoCountSnoc(rs, 5);
    assert rs[..6] == rs;
  }

  /** The tree the importer builds from Company6: node `j` is record `j`. */
  lemma Company6Tree(rs: seq<RawEmployee>)
    requires rs == Company6()
    ensures OrderedTree(rs, 6) ==
      [ Employee("jamie", "1", [1, 4]), Employee("alan", "2", [2, 3]),
        Employee("martin", "3", []), Employee("alex", "4", []),
        Employee("steve", "5", [5]), Employee("david", "6", []) ]
  {
    assert ManageesIn(rs, "1", 2) == [1];
    assert ManageesIn(rs, "1", 4) == [1];
    assert ManageesIn(rs, "1", 6) == [1, 4];
    assert ManageesIn(rs, "2", 3) == [2];
    assert ManageesIn(rs, "2", 6) == [2, 3];
    assert ManageesIn(rs, "3", 3) == [];
    assert ManageesIn(rs, "3", 6) == [];
    assert ManageesIn(rs, "4", 3) == [];
    assert ManageesIn(rs, "4", 6) == [];
    assert ManageesIn(rs, "5", 3) == [];
    assert ManageesIn(rs, "5", 6) == [5];
    assert ManageesIn(rs, "6", 3) == [];
    assert ManageesIn(rs, "6", 6) == [];
  }

  lemma Company6Walk(tree: seq<Employee>)
    requires tree ==
      [ Employee("jamie", "1", [1, 4]), Employee("alan", "2", [2, 3]),
        Employee("martin", "3", []), Employee("alex", "4", []),
        Employee("steve", "5", [5]), Employee("david", "6", []) ]
    ensures EmployeeWalk(tree, 0, 0) == ["jamie", "\talan", "\t\tmartin", "\t\talex", "\tsteve", "\t\tdavid"]
  {
    assert ManageesAfter(tree);
    assert Repeat('\t', 1) == "\t" && Repeat('\t', 2) == "\t\t";
    assert GenerateTabularRow("jamie", 0) == "jamie";
    assert GenerateTabularRow("alan", 1) == "\talan";
    assert GenerateTabularRow("steve", 1) == "\tsteve";
    assert GenerateTabularRow("martin", 2) == "\t\tmartin";
    assert GenerateTabularRow("alex", 2) == "\t\talex";
    assert GenerateTabularRow("david", 2) == "\t\tdavid";
    assert ManageesWalk(tree, 2, 0, 3) == [] && ManageesWalk(tree, 3, 0, 3) == [] && ManageesWalk(tree, 5, 0, 3) == [];
    var martin := EmployeeWalk(tree, 2, 2);
    var alex := EmployeeWalk(tree, 3, 2);
    var david := EmployeeWalk(tree, 5, 2);
    assert martin == ["\t\tmartin"];
    assert alex == ["\t\talex"];
    assert david == ["\t\tdavid"];
    assert ManageesWalk(tree, 1, 2, 2) == [];
    assert ManageesWalk(tree, 1, 1, 2) == alex;
    assert ManageesWalk(tree, 1, 0, 2) == martin + alex;
    assert EmployeeWalk(tree, 1, 1) == ["\talan"] + martin + alex;
    assert ManageesWalk(tree, 4, 1, 2) == [];
    assert ManageesWalk(tree, 4, 0, 2) == david;
    assert EmployeeWalk(tree, 4, 1) == ["\tsteve"] + david;
    assert ManageesWalk(tree, 0, 2, 1) == [];
    assert ManageesWalk(tree, 0, 1, 1) == EmployeeWalk(tree, 4, 1);
    assert ManageesWalk(tree, 0, 0, 1) == EmployeeWalk(tree, 1, 1) + EmployeeWalk(tree, 4, 1);
  }

  method Company6Table() returns (res: Result<seq<string>>)
    ensures res == Success(["jamie", "\talan", "\t\tmartin", "\t\talex", "\tsteve", "\t\tdavid"])
  {
    ghost var tree;
    Company6Ordered(Company6());
    Company6Ceos(Company6());
    Company6Tree(Company6());
    Company6Walk(OrderedTree(Company6(), 6));
    res, tree := GenerateHierarchy(Company6());
  }

  /** The same kind of company listed managees first: alan reports to jamie
      and martin to alan, but both come before their managers, so both wait
      until jamie arrives and are then attached by draining. */
  function Backwards(): seq<RawEmployee>
  {
    [ RawEmployee("alan", "2", "1"),
      RawEmployee("martin", "3", "2"),
      RawEmployee("jamie", "1", "") ]
  }

  lemma BackwardsFacts(rs: seq<RawEmployee>)
    requires rs == Backwards()
    ensures UniqueIds(rs) && CeoCount(rs) == 1 && Ids(rs) == {"1", "2", "3"}
  {
    assert rs[..0] == [];
    CeoCountSnoc(rs, 0);
    CeoCountSnoc(rs, 1);
    CeoCountSnoc(rs, 2);
    assert rs[..3] == rs;
    assert rs[0] in rs && rs[1] in rs && rs[2] in rs;
  }

  /** jamie resolves at once, alan through jamie, martin through alan. */
  lemma BackwardsResolvable(rs: seq<RawEmployee>)
    requires rs == Backwards()
    ensures AllResolvable(rs, {})
  {
    assert ResolvesWithin(rs, {}, rs[2], 0);
    assert ResolvesWithin(rs, {}, rs[0], 1) by { assert rs[2] in rs; }
    assert ResolvesWithin(rs, {}, rs[1], 2) by { assert rs[0] in rs; }
    forall r | r in rs ensures Resolvable(rs, {}, r) {
      if r == rs[0] {
        assert ResolvesWithin(rs, {}, r, 1);
      } else if r == rs[1] {
        assert ResolvesWithin(rs, {}, r, 2);
      } else {
        assert ResolvesWithin(rs, {}, r, 0);
      }
    }
  }

  /** The only tree of three nodes that holds the records of Backwards, each
      with its name, the CEO at the root and each other record directly below
      its manager. */
  lemma BackwardsTree(rs: seq<RawEmployee>, tree: Arena)
    requires rs == Backwards()
    requires Sound(tree) && |tree.nodes| == 3 && tree.employees.Keys == {"1", "2", "3"}
    requires Recorded(rs, tree.nodes, tree.employees) && Linked(rs, tree.parent, tree.employees)
    ensures tree.nodes == [Employee("jamie", "1", [1]), Employee("alan", "2", [2]), Employee("martin", "3", [])]
  {
    var nodes, parent, e := tree.nodes, tree.parent, tree.employees;
    assert e["1"] == 0 && parent[e["2"]] == e["1"] && parent[e["3"]] == e["2"] by {
      assert rs[2].id in e && rs[0].id in e && rs[1].id in e;
    }
    assert nodes[e["1"]].id == "1" && nodes[e["2"]].id == "2" && nodes[e["3"]].id == "3";
    assert e["2"] == 1 && e["3"] == 2;
    assert nodes[0].name == "jamie" && nodes[1].name == "alan" && nodes[2].name == "martin" by {
      assert rs[2].id in e && rs[0].id in e && rs[1].id in e;
    }
    OnlyManagee(nodes, parent, 0, 1);
    OnlyManagee(nodes, parent, 1, 2);
    FirstManagee(nodes, 2);
    assert nodes[2].managees == [];
  }

  /** In a tree of three nodes where node `c` is the only node below `p`,
      `p` manages exactly `c`. */
  lemma OnlyManagee(nodes: seq<Employee>, parent: seq<nat>, p: nat, c: nat)
    requires IsTree(nodes, parent) && |nodes| == 3 && p < c < 3 && parent[c] == p
    requires forall x :: p < x < 3 && x != c ==> parent[x] != p
    ensures nodes[p].managees == [c]
  {
    var ms := nodes[p].managees;
    forall k | 0 <= k < |ms| ensures ms[k] == c {
      assert p < ms[k] < 3 && parent[ms[k]] == p;
    }
    assert c in ms;
    FirstTwo(ms);
    assert ms == [c];
  }

  lemma FirstManagee(nodes: seq<Employee>, i: nat)
    requires ManageesAfter(nodes) && i < |nodes|
    ensures |nodes[i].managees| > 0 ==> i < nodes[i].managees[0] < |nodes|
  {
  }

  lemma FirstTwo(ms: seq<nat>)
    requires forall k1, k2 :: 0 <= k1 < k2 < |ms| ==> ms[k1] != ms[k2]
    ensures |ms| > 1 ==> ms[0] != ms[1]
  {
  }

  lemma BackwardsWalk(tree: seq<Employee>)
    requires tree == [Employee("jamie", "1", [1]), Employee("alan", "2", [2]), Employee("martin", "3", [])]
    ensures EmployeeWalk(tree, 0, 0) == ["jamie", "\talan", "\t\tmartin"]
  {
    assert ManageesAfter(tree);
    assert Repeat('\t', 1) == "\t" && Repeat('\t', 2) == "\t\t";
    assert GenerateTabularRow("jamie", 0) == "jamie";
    assert GenerateTabularRow("alan", 1) == "\talan";
    assert GenerateTabularRow("martin", 2) == "\t\tmartin";
    assert ManageesWalk(tree, 2, 0, 3) == [];
    var martin := EmployeeWalk(tree, 2, 2);
    assert martin == ["\t\tmartin"];
    assert ManageesWalk(tree, 1, 1, 2) == [];
    assert ManageesWalk(tree, 1, 0, 2) == martin;
    assert EmployeeWalk(tree, 1, 1) == ["\talan"] + martin;
    assert ManageesWalk(tree, 0, 1, 1) == [];
    assert ManageesWalk(tree, 0, 0, 1) == EmployeeWalk(tree, 1, 1);
  }

  /** Managees listed before their managers are drained below them once the
      managers arrive. */
  method BackwardsTable() returns (res: Result<seq<string>>)
    ensures res == Success(["jamie", "\talan", "\t\tmartin"])
  {
    ghost var tree;
    BackwardsFacts(Backwards());
    BackwardsResolvable(Backwards());
    res, tree := GenerateHierarchy(Backwards());
    BackwardsTree(Backwards(), tree);
    BackwardsWalk(tree.nodes);
  }

  /** Two managees of jamie listed before jamie: both wait in the list for
      jamie, in batch order, and are attached in that order. */
  function SiblingsFirst(): seq<RawEmployee>
  {
    [ RawEmployee("alan", "2", "1"),
      RawEmployee("steve", "5", "1"),
      RawEmployee("jamie", "1", "") ]
  }

  lemma SiblingsFirstFacts(rs: seq<RawEmployee>)
    requires rs == SiblingsFirst()
    ensures UniqueIds(rs) && CeoCount(rs) == 1 && Ids(rs) == {"1", "2", "5"}
  {
    assert rs[..0] == [];
    CeoCountSnoc(rs, 0);
    CeoCountSnoc(rs, 1);
    CeoCountSnoc(rs, 2);
    assert rs[..3] == rs;
    assert rs[0] in rs && rs[1] in rs && rs[2] in rs;
  }

  lemma SiblingsFirstResolvable(rs: seq<RawEmployee>)
    requires rs == SiblingsFirst()
    ensures AllResolvable(rs, {})
  {
    assert ResolvesWithin(rs, {}, rs[2], 0);
    assert ResolvesWithin(rs, {}, rs[0], 1) by { assert rs[2] in rs; }
    assert ResolvesWithin(rs, {}, rs[1], 1) by { assert rs[2] in rs; }
    forall r | r in rs ensures Resolvable(rs, {}, r) {
      if r == rs[2] {
        assert ResolvesWithin(rs, {}, r, 0);
      } else {
        assert ResolvesWithin(rs, {}, r, 1);
      }
    }
  }

  /** The only tree of three nodes that holds the records of SiblingsFirst,
      each below its manager, with siblings in batch order: alan before
      steve. */
  lemma SiblingsFirstTree(rs: seq<RawEmployee>, tree: Arena)
    requires rs == SiblingsFirst()
    requires Sound(tree) && |tree.nodes| == 3 && tree.employees.Keys == {"1", "2", "5"}
    requires Recorded(rs, tree.nodes, tree.employees) && Linked(rs, tree.parent, tree.employees)
    requires SiblingsInOrder(rs, tree.employees)
    ensures tree.nodes == [Employee("jamie", "1", [1, 2]), Employee("alan", "2", []), Employee("steve", "5", [])]
  {
    var nodes, parent, e := tree.nodes, tree.parent, tree.employees;
    assert e["1"] == 0 && 0 < e["2"] && 0 < e["5"] && parent[e["2"]] == 0 && parent[e["5"]] == 0 by {
      assert rs[2].id in e && rs[0].id in e && rs[1].id in e;
    }
    assert nodes[e["2"]].id == "2" && nodes[e["5"]].id == "5";
    assert e["2"] < e["5"] by {
      assert rs[0].id in e && rs[1].id in e && rs[0].manager == rs[1].manager != "";
    }
    assert e["2"] == 1 && e["5"] == 2;
    assert nodes[0].name == "jamie" && nodes[1].name == "alan" && nodes[2].name == "steve" by {
      assert rs[2].id in e && rs[0].id in e && rs[1].id in e;
    }
    BothManagees(nodes, parent);
    NoManagees(nodes, parent, 1);
    NoManagees(nodes, parent, 2);
  }

  /** In a tree of three nodes where nodes 1 and 2 both sit below the root,
      the root manages them in that order. */
  lemma BothManagees(nodes: seq<Employee>, parent: seq<nat>)
    requires IsTree(nodes, parent) && |nodes| == 3 && parent[1] == 0 && parent[2] == 0
    ensures nodes[0].managees == [1, 2]
  {
    var ms := nodes[0].managees;
    assert 1 in ms && 2 in ms;
    var a :| 0 <= a < |ms| && ms[a] == 1;
    var b :| 0 <= b < |ms| && ms[b] == 2;
    assert a < b;
    ShortIncreasing(ms, 3);
    assert ms == [1, 2];
  }

  /** A strictly increasing sequence of naturals below `n` and above 0 has at most `n - 1` elements. */
  lemma ShortIncreasing(ms: seq<nat>, n: nat)
    requires 0 < n
    requires forall k :: 0 <= k < |ms| ==> 0 < ms[k] < n
    requires forall k1, k2 :: 0 <= k1 < k2 < |ms| ==> ms[k1] < ms[k2]
    ensures |ms| < n
  {
    IncreasingFloor(ms);
    if ms != [] {
      assert |ms| - 1 < ms[|ms| - 1] < n;
    }
  }

  lemma {:induction false} IncreasingFloor(ms: seq<nat>)
    requires forall k :: 0 <= k < |ms| ==> 0 < ms[k]
    requires forall k1, k2 :: 0 <= k1 < k2 < |ms| ==> ms[k1] < ms[k2]
    ensures forall k :: 0 <= k < |ms| ==> k < ms[k]
  {
    if ms != [] {
      var init := ms[..|ms| - 1];
      IncreasingFloor(init);
      if |ms| > 1 {
        assert init[|ms| - 2] == ms[|ms| - 2];
      }
    }
  }

  /** A node with no node below it among the later nodes manages nobody. */
  lemma NoManagees(nodes: seq<Employee>, parent: seq<nat>, p: nat)
    requires IsTree(nodes, parent) && p < |nodes|
    requires forall x :: p < x < |nodes| ==> parent[x] != p
    ensures nodes[p].managees == []
  {
    FirstManagee(nodes, p);
  }

  lemma SiblingsFirstWalk(tree: seq<Employee>)
    requires tree == [Employee("jamie", "1", [1, 2]), Employee("alan", "2", []), Employee("steve", "5", [])]
    ensures EmployeeWalk(tree, 0, 0) == ["jamie", "\talan", "\tsteve"]
  {
    assert ManageesAfter(tree);
    assert Repeat('\t', 1) == "\t";
    assert GenerateTabularRow("jamie", 0) == "jamie";
    assert GenerateTabularRow("alan", 1) == "\talan";
    assert GenerateTabularRow("steve", 1) == "\tsteve";
    assert ManageesWalk(tree, 1, 0, 2) == [] && ManageesWalk(tree, 2, 0, 2) == [];
    var alan := EmployeeWalk(tree, 1, 1);
    var steve := EmployeeWalk(tree, 2, 1);
    assert alan == ["\talan"];
    assert steve == ["\tsteve"];
    assert ManageesWalk(tree, 0, 2, 1) == [];
    assert ManageesWalk(tree, 0, 1, 1) == steve;
    assert ManageesWalk(tree, 0, 0, 1) == alan + steve;
  }

  /** Managees of one manager that wait for it keep their batch order. */
  method SiblingsFirstTable() returns (res: Result<seq<string>>)
    ensures res == Success(["jamie", "\talan", "\tsteve"])
  {
    ghost var tree;
    SiblingsFirstFacts(SiblingsFirst());
    SiblingsFirstResolvable(SiblingsFirst());
    res, tree := GenerateHierarchy(SiblingsFirst());
    SiblingsFirstTree(SiblingsFirst(), tree);
    SiblingsFirstWalk(tree.nodes);
  }

  /** An empty batch imports without error, and then there is no CEO. */
  method EmptyTable() returns (res: Result<seq<string>>)
    ensures res == Failure(MissingCEOError)
  {
    ghost var tree;
    res, tree := GenerateHierarchy([]);
  }

  /** A second record without a manager. */
  method TwoCeosTable() returns (res: Result<seq<string>>)
    ensures res == Failure(MultipleCEOError)
  {
    ghost var tree;
    var rs := [RawEmployee("jamie", "1", ""), RawEmployee("alan", "2", "")];
    assert CeoCount(rs) == 2;
    res, tree := GenerateHierarchy(rs);
  }

  /** No record without a manager. */
  method NoCeoTable() returns (res: Result<seq<string>>)
    ensures res == Failure(InvalidEmployeesError)
  {
    ghost var tree;
    var rs := [RawEmployee("alan", "2", "1"), RawEmployee("steve", "5", "1")];
    assert CeoCount(rs) == 0;
    res, tree := GenerateHierarchy(rs);
  }

  /** Record `rs[x]` never reaches the CEO "1" when every record other than
      the CEO waits for a manager other than "1". */
  lemma Unresolved(rs: seq<RawEmployee>, x: nat)
    requires x < |rs| && rs[x].id != "1"
    requires forall q :: q in rs && q.id != "1" ==> q.manager != "" && q.manager != "1"
    ensures !AllResolvable(rs, {})
  {
    forall k: nat ensures !ResolvesWithin(rs, {}, rs[x], k) {
      StuckUnresolvable(rs, {}, {"1"}, rs[x], k);
    }
    assert rs[x] in rs && !Resolvable(rs, {}, rs[x]);
  }

  /** A manager id that no record carries. */
  method MissingManagerTable() returns (res: Result<seq<string>>)
    ensures res == Failure(InvalidEmployeesError)
  {
    ghost var tree;
    var rs := [RawEmployee("jamie", "1", ""), RawEmployee("alan", "2", "9")];
    Unresolved(rs, 1);
    assert CeoCount(rs) == 1;
    res, tree := GenerateHierarchy(rs);
  }

  /** A record that names itself as its manager. */
  method OwnManagerTable() returns (res: Result<seq<string>>)
    ensures res == Failure(InvalidEmployeesError)
  {
    ghost var tree;
    var rs := [RawEmployee("jamie", "1", ""), RawEmployee("alan", "2", "2")];
    Unresolved(rs, 1);
    assert CeoCount(rs) == 1;
    res, tree := GenerateHierarchy(rs);
  }

  /** Two records that name each other as manager. */
  method CircularManagerTable() returns (res: Result<seq<string>>)
    ensures res == Failure(InvalidEmployeesError)
  {
    ghost var tree;
    var rs := [RawEmployee("jamie", "1", ""), RawEmployee("alan", "2", "3"), RawEmployee("martin", "3", "2")];
    Unresolved(rs, 1);
    assert rs[..0] == [];
    CeoCountSnoc(rs, 0);
    CeoCountSnoc(rs, 1);
    CeoCountSnoc(rs, 2);
    assert rs[..3] == rs;
    res, tree := GenerateHierarchy(rs);
  }
}
