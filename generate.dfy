/** The whole pipeline on a batch of records (hierarchy.go:188-197): a new,
    empty company imports the batch and then renders its hierarchy table.
    Reading the CSV file that supplies the batch is not part of this model. */
module Generate {
  import opened Records
  import opened Tree
  import opened Resolution
  import opened Drain
  import opened Import
  import opened Hierarchy

  /** The hierarchy table of a batch, or the first error of the import or
      of the rendering. On success, `tree` is the company the batch built:
      one node per record, carrying its name, the CEO at the root and every
      other record directly below its manager, after the records before it
      in the batch that share its manager. */
  method GenerateHierarchy(rs: seq<RawEmployee>) returns (res: Result<seq<string>>, ghost tree: Arena)
    requires UniqueIds(rs)
    ensures res == Failure(MultipleCEOError) <==> CeoCount(rs) >= 2
    ensures res == Failure(InvalidEmployeesError) <==> CeoCount(rs) < 2 && !AllResolvable(rs, {})
    ensures res == Failure(MissingCEOError) <==> rs == []
    ensures res.Success? <==> rs != [] && CeoCount(rs) < 2 && AllResolvable(rs, {})
    ensures rs != [] && CeoCount(rs) == 0 ==> res == Failure(InvalidEmployeesError)
    ensures rs != [] && CeoCount(rs) < 2 && InputOrdered(rs) ==> res.Success?
    ensures res.Success? ==>
      && Sound(tree) && |tree.nodes| == |rs| > 0 && tree.employees.Keys == Ids(rs)
      && Recorded(rs, tree.nodes, tree.employees) && Linked(rs, tree.parent, tree.employees)
      && SiblingsInOrder(rs, tree.employees)
      && |res.value| == |rs|
      && res.value == EmployeeWalk(tree.nodes, 0, 0)
      && res.value == Rows(tree.nodes, tree.parent, Preorder(tree.nodes, 0))
    ensures res.Success? && InputOrdered(rs) ==> tree.nodes == OrderedTree(rs, |rs|)
  {
    if rs != [] && CeoCount(rs) == 0 {
      NoCeoUnresolvable(rs);
    }
    if InputOrdered(rs) {
      OrderedResolvable(rs, {});
    }
    var company := new Company();
    assert company.employees.Keys == {};
    var err := company.ImportRawEmployeeData(rs);
    tree := company.State();
    if err.Some? {
      return Failure(err.value), tree;
    }
    res := company.GenerateHierarchyTable();
    if res.Success? {
      WalkListsEveryNodeOnce(company.nodes, company.parent);
    }
  }
}
