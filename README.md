# Employee hierarchy importer, in Dafny

This project models `hierarchy.go`, a small Go program that turns a batch of
raw employee records into a company tree and renders that tree as text
rows. Each record has a name, an id and a manager id; an empty manager id
marks the CEO.

- `Company.AddEmployee` attaches one record. A record without a manager
  becomes the CEO, and a second one is refused with `MultipleCEOError`. Any
  other record becomes the last managee of its manager, and is refused with
  `MissingManagerError` when that manager is not registered yet. On success
  the record is registered under its id.
- `Company.ImportRawEmployeeData` walks the batch once, one record per
  turn (`Company.ImportRecord`). A record refused with
  `MissingManagerError` waits in a map keyed by its manager's id. After each
  accepted record, `CheckManageeMap` attaches the records waiting for it, in
  arrival order. It then recursively attaches the records waiting for each
  of those. Records still waiting at the end give `InvalidEmployeesError`.
- `Company.GenerateHierarchyTable` gives `MissingCEOError` when there is no
  CEO. Otherwise it returns `EmployeeWalk` from the CEO: a depth-first walk
  that renders each employee as one row, indented by one tab per level
  (`GenerateTabularRow`).
- `GenerateHierarchy` chains the steps for one batch: new company, import,
  table.

The Go program links employees by pointer. The model keeps them in an
arena instead:

- `Company.nodes` is a sequence of `Employee(name, id, managees)`, and
  `managees` holds node indices.
- Node 0 is the CEO.
- `Company.employees` maps an id to its node.
- A ghost `parent` sequence records each node's manager for the proofs.
- `Drain.Arena` is the same state as a value. The heap methods state their
  effect through it: `Drain.Crown`, `Drain.Attach`, `Drain.Drains`,
  `Import.ImportLoop`.

What the import does is stated against the batch alone. A record is
*resolvable* when its manager chain, followed through the batch, reaches a
record without a manager or an employee registered before the import
(`Resolution.Resolvable`). The import returns:

- `MultipleCEOError` exactly when the batch and the company hold two CEOs;
- `InvalidEmployeesError` exactly when there is at most one CEO and some
  record is not resolvable;
- no error exactly otherwise.

On success every record is registered with its own node, carrying its
name. A record without a manager is node 0, the CEO, and every other
record's node hangs directly below its manager's node
(`Resolution.Linked`), whatever the order of the batch. Records that share
a manager get their nodes in batch order (`Resolution.SiblingsInOrder`).
Every managee list is in allocation order, so each manager lists its
managees in batch order (`Drain.ManageesInBatchOrder`), whether they were
attached directly or waited in the map. When managers come before their
managees in the batch, the resulting arena is also given in closed form
(`Resolution.OrderedTree`). The table lists every node exactly once, in
depth-first order, each at its depth below the CEO.

Files:

- `records.dfy`: the records and errors.
- `tree.dfy`: the arena as a tree, the walk and the row format.
- `resolution.dfy`: facts about the batch and the waiting map.
- `drain.dfy`: company snapshots and what draining establishes.
- `import.dfy`: the import loop's invariant and its steps.
- `hierarchy.dfy`: the `Company` class and the draining methods.
- `generate.dfy`: the whole pipeline.
- `scenarios.dfy`: concrete batches.

## Model

| member | source | states |
|---|---|---|
| Hierarchy.Company.constructor | hierarchy.go:188-190 | a new company has no employees, no id entries and no CEO, and is sound |
| Hierarchy.Company.AddEmployee | hierarchy.go:36-68 | succeeds exactly when the record is acceptable (no CEO yet for a manager-less record, a registered manager otherwise); MultipleCEOError for a second CEO, MissingManagerError for an unregistered manager; a failure changes nothing; on success the record is the new last node and the returned index, registered under its id, made CEO or appended to its manager's managees; the company stays a sound tree |
| Drain.Crown | hierarchy.go:44-50 | the company after a CEO is added has one more node, the new record with no managees |
| Drain.Attach | hierarchy.go:52-56 | the company after a managee is added has one more node, the new record, and the manager's managees gain that node at the end |
| Tree.AttachLeaf | hierarchy.go:52-56 | the arena gains one last node, the new employee with no managees; the manager keeps its name and id and gains that node as its last managee; every other node is unchanged |
| Tree.AttachLeafKeepsTree | hierarchy.go:52-56 | appending a new node as the last managee of an existing node keeps the arena a tree with consistent manager links, each managee list in allocation order |
| Hierarchy.Company.ImportRawEmployeeData | hierarchy.go:71-103 | MultipleCEOError exactly when the batch and the company hold two CEOs; InvalidEmployeesError exactly when at most one CEO is present and some record does not resolve; no error exactly otherwise; whatever the outcome, the registered ids, the old nodes and the CEO stay, every record registered carries its name and is the CEO at node 0 or hangs directly below its manager's node, and records sharing a manager got their nodes in batch order; on success every id of the batch is registered, with one new node each; into an empty company, a batch listing managers before their managees yields exactly the ordered tree |
| Hierarchy.Company.ImportRecord | hierarchy.go:73-96 | one turn of the import loop: a record refused for a missing manager leaves the company as it was and is appended at the end of the list waiting for that manager; a second CEO stops the import with MultipleCEOError and leaves the company and the map as they were, which happens only when the batch and the company hold two CEOs; an accepted record is added and followed by the drain below its node; each keeps the loop facts, and in an ordered batch imported into an empty company, the ordered tree |
| Import.ImportVerdict | hierarchy.go:86-103 | the three outcomes of the import, each exactly characterised by the batch and the company, together with what stays |
| Import.ImportStays | hierarchy.go:71-103 | at any point of the import the registered ids, the old nodes (names, ids, managers) and the CEO are kept, every registered record of the batch carries its name and sits below its manager, and records sharing a manager got their nodes in batch order |
| Import.RegisteredBefore | hierarchy.go:73-74 | at each turn, every record of the batch registered so far comes before the current record in the batch |
| Import.ImportAddGrows | hierarchy.go:90-96 | adding a record and draining below it keeps the names, ids and managers of all earlier nodes |
| Resolution.AddKeepsLinked | hierarchy.go:44-65 | registering a record as the next node, as the first node when it has no manager and below its manager's node otherwise, keeps every registered record linked to its manager |
| Resolution.AddKeepsSiblingsInOrder | hierarchy.go:52-65 | registering a record as the next node, after every registered record sharing its manager in the batch, keeps siblings' nodes in batch order |
| Resolution.FreshSiblings | hierarchy.go:90-93 | when a record is registered, no registered record names it as manager yet, so every record waiting for it comes after all its registered managees |
| Import.ImportNext | hierarchy.go:73-74 | the next record is not registered yet, and in an ordered batch imported into an empty company its manager already is |
| Import.ImportWait | hierarchy.go:75-85 | a record refused for a missing manager, appended to its manager's list in the waiting map, keeps the import invariant |
| Import.WaitKeepsOrder | hierarchy.go:81-82 | appending the current record to its manager's list keeps every waiting list in batch order |
| Import.ImportTwoCeos | hierarchy.go:86-88 | the other refusal, a second CEO, means the batch and the company hold two CEOs |
| Import.ImportAddReady | hierarchy.go:90-93 | an accepted record leaves the company ready to drain the records waiting for it |
| Import.ImportAdd | hierarchy.go:90-96 | an accepted record followed by the drain below it keeps the import invariant |
| Import.OrderedAdd | hierarchy.go:90-96 | in an ordered batch imported into an empty company, nothing waits and the arena stays the ordered tree of the records seen so far |
| Import.ImportStuck | hierarchy.go:99-101 | records still waiting at the end mean some record of the batch does not resolve |
| Import.ImportDone | hierarchy.go:99-103 | an empty waiting map at the end means every record resolves and is registered with its own node |
| Resolution.RegisteredResolvable | hierarchy.go:71-103 | a record the import registered resolves |
| Resolution.StuckUnresolvable | hierarchy.go:99-101 | when every unregistered record waits for an unregistered manager, none of them resolves |
| Resolution.OrderedResolvable | hierarchy.go:71-103 | in a batch that lists managers before their managees, every record resolves |
| Resolution.NoCeoUnresolvable | hierarchy.go:99-101 | in a non-empty batch where every record has a manager, some record does not resolve |
| Hierarchy.CheckManageeMap | hierarchy.go:120-139 | draining below a node registers exactly the records waiting for it, directly or transitively; their lists and the node's own list leave the map; every new node hangs below the node, directly below the node of its own manager; the node's queue becomes its last managees in queue order; the remaining lists stay in batch order and all registered records sharing a manager keep their nodes in batch order; nothing changes when nobody waits for it |
| Hierarchy.DrainQueue | hierarchy.go:122-133 | the loop over the queue of one manager ends with the whole queue attached in order and everything waiting below it drained |
| Hierarchy.AttachManagee | hierarchy.go:124-132 | one turn of that loop: the next queued record becomes the manager's last managee, and the records waiting for it are drained |
| Drain.AttachReadyAfter | hierarchy.go:125-128 | a queued record is accepted, and attached below the registered node it waits for, so the error branch of the drain loop cannot be taken; the new node is ready to be drained below |
| Drain.DrainLoopStep | hierarchy.go:124-132 | one attach and its drain extend the loop's facts by one queue entry |
| Drain.LaterAfterAttach | hierarchy.go:124-131 | after one queued record is attached and the records waiting below it are drained, the records still queued come after every registered record sharing their manager |
| Drain.ManageesInBatchOrder | hierarchy.go:52-56 | two records of the batch listed as managees of one node both name that node as their manager, and one comes first in the list exactly when it comes first in the batch |
| Drain.ManagerListsManagee | hierarchy.go:52-56 | every registered record with a manager is listed among the managees of its manager's node |
| Drain.DrainLoopEnd | hierarchy.go:135-136 | after the queue is done, deleting the manager's key yields the drain result |
| Drain.DrainNone | hierarchy.go:121 | with nobody waiting for the node, the map and the company stay as they were |
| Hierarchy.Company.GenerateHierarchyTable | hierarchy.go:106-116 | MissingCEOError exactly when there is no CEO; otherwise one row per employee, first the CEO's, each node exactly once in depth-first order, each rendered at its depth |
| Hierarchy.EmployeeWalkRows | hierarchy.go:147-157 | the loop over the managees yields the rows of the walk from the given node |
| Tree.EmployeeWalk | hierarchy.go:147-157 | the walk from a node starts with the node's own row at the given depth and holds more rows than the node has managees |
| Tree.ManageesWalk | hierarchy.go:151-155 | the loop over the managees from the `k`-th on yields at least one row per remaining managee, the first being that managee's own row |
| Tree.GenerateTabularRow | hierarchy.go:142-144 | the row is `depth` tab characters followed by the name |
| Tree.SplitRowInvertsRow | hierarchy.go:142-144 | the depth and the name can be read back from a row when the name does not start with a tab |
| Tree.WalkRendersPreorder | hierarchy.go:147-157 | the walk from a node renders the depth-first order of its subtree, each row at the node's depth in the tree |
| Tree.WalkListsEveryNodeOnce | hierarchy.go:147-157 | the walk from the CEO lists every node exactly once, one row per node |
| Generate.GenerateHierarchy | hierarchy.go:188-197 | for a fresh company: MultipleCEOError exactly for two CEOs; InvalidEmployeesError exactly when at most one CEO is present and some record does not resolve, in particular when no record is the CEO; MissingCEOError exactly for the empty batch; otherwise the rows are the walk, in depth-first order at each node's depth, of a tree with one node per record carrying its name, the CEO at the root, every other record directly below its manager and records sharing a manager in batch order; for a batch listing managers first, that tree is the ordered tree |
| Scenarios.Company6Table | hierarchy_test.go:42-62 | the six-employee company renders as jamie, alan, martin, alex, steve, david, at depths 0, 1, 2, 2, 1, 2 |
| Scenarios.TwoCeosTable | hierarchy_test.go:7-12 | two records without a manager give MultipleCEOError |
| Scenarios.NoCeoTable | hierarchy_test.go:14-19 | a batch with no CEO gives InvalidEmployeesError |
| Scenarios.MissingManagerTable | hierarchy_test.go:21-26 | a manager id that no record carries gives InvalidEmployeesError |
| Scenarios.OwnManagerTable | hierarchy_test.go:28-33 | a record that is its own manager gives InvalidEmployeesError |
| Scenarios.CircularManagerTable | hierarchy_test.go:35-40 | two records that manage each other give InvalidEmployeesError |
| Scenarios.BackwardsTable | hierarchy.go:71-139 | a batch listing alan and martin before their managers jamie and alan renders as jamie, alan, martin, at depths 0, 1, 2 |
| Scenarios.SiblingsFirstTable | hierarchy.go:71-139 | a batch listing alan and steve before their manager jamie renders as jamie, alan, steve: the two wait in batch order and keep it |
| Scenarios.EmptyTable | hierarchy.go:106-116 | an empty batch imports without error and then gives MissingCEOError |

## Left out

- Reading the CSV file, `main`, `ImportCSVFile` and `ReadRawEmployeeData` (hierarchy.go:159-186, 200-233): file I/O and CSV parsing. `GenerateHierarchy` starts from the parsed records. The test CSV files are not part of this model, so the scenarios use batches of their own; the six-employee one gives exactly the table the test expects.
- Pointers and copies: `Employee.Manager` points to a copy of the manager held in the id map, and managee lists are shared through a slice pointer. The model uses arena indices instead. The back-pointer is the ghost `parent` sequence, so aliasing between copies is not modelled.
- The error values are Go sentinels compared by identity; here they are constructors of `Error`.
- Hierarchy.Company.ImportRawEmployeeData: requires distinct ids in the batch, none of them registered yet. With repeated ids the Go code overwrites map entries, and a record waiting for its own id can make `CheckManageeMap` recurse without end. That behaviour is not modelled.
- Hierarchy.Company.ImportRawEmployeeData: for a batch in any order the resulting tree is stated through properties: each record's node, its manager's node and batch order among siblings (`Linked`, `SiblingsInOrder`, `IsTree`). These fix the tree and the table, but the arena is given in closed form, with record `j` as node `j`, only for a batch listing managers first imported into an empty company (`Resolution.OrderedTree`). For other orders the node numbering follows the drains.
- Hierarchy.CheckManageeMap: returns no error, because the Go function returns nil on every path once its `AddEmployee` call is proved never to fail. It takes a ghost `budget` (the number of batch ids still unregistered) as its termination measure.
- Depths and counts are unbounded naturals. Go's `int` cannot overflow at these sizes.
