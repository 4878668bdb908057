/** The management tree as an arena of `Employee` nodes, its pre-order walk
    and the tab-indented table rendered from it (hierarchy.go:141-157). */
module Tree {
  import opened Records

  /** Every managee index names a later node of the arena. */
  ghost predicate ManageesAfter(nodes: seq<Employee>)
  {
    forall i, k :: 0 <= i < |nodes| && 0 <= k < |nodes[i].managees| ==> i < nodes[i].managees[k] < |nodes|
  }

  /** `parent[j]` is the manager of node `j` (node 0 is the root): every node
      but the root sits exactly once in exactly one managee list, that of an
      earlier node; each managee list is in order of allocation. */
  ghost predicate IsTree(nodes: seq<Employee>, parent: seq<nat>)
  {
    && |parent| == |nodes|
    && ManageesAfter(nodes)
    && (forall i, k :: 0 <= i < |nodes| && 0 <= k < |nodes[i].managees| ==> parent[nodes[i].managees[k]] == i)
    && (forall j :: 0 < j < |nodes| ==> parent[j] < j && j in nodes[parent[j]].managees)
    && (forall i, k1, k2 :: 0 <= i < |nodes| && 0 <= k1 < k2 < |nodes[i].managees| ==>
          nodes[i].managees[k1] < nodes[i].managees[k2])
  }

  /** `a` is `j` or one of its managers, up the chain. */
  ghost predicate IsAncestor(parent: seq<nat>, a: nat, j: nat)
    decreases j
  {
    j < |parent| && (j == a || (0 < j && parent[j] < j && IsAncestor(parent, a, parent[j])))
  }

  /** Number of manager edges between node `j` and the root. */
  ghost function Depth(parent: seq<nat>, j: nat): nat
    decreases j
  {
    if j < |parent| && 0 < j && parent[j] < j then 1 + Depth(parent, parent[j]) else 0
  }

  ghost predicate Distinct(s: seq<nat>)
  {
    forall p, q :: 0 <= p < q < |s| ==> s[p] != s[q]
  }

  /** Adds node `|nodes|`, with no managees, as the last managee of `p`. */
  function AttachLeaf(nodes: seq<Employee>, p: nat, name: string, id: string): (r: seq<Employee>)
    requires p < |nodes|
    ensures |r| == |nodes| + 1 && r[|nodes|] == Employee(name, id, [])
    ensures r[p].name == nodes[p].name && r[p].id == nodes[p].id
    ensures r[p].managees == nodes[p].managees + [|nodes|]
    ensures forall j :: 0 <= j < |nodes| && j != p ==> r[j] == nodes[j]
  {
    nodes[p := nodes[p].(managees := nodes[p].managees + [|nodes|])] + [Employee(name, id, [])]
  }

  lemma AttachLeafKeepsTree(nodes: seq<Employee>, parent: seq<nat>, p: nat, name: string, id: string)
    requires IsTree(nodes, parent) && p < |nodes|
    ensures IsTree(AttachLeaf(nodes, p, name, id), parent + [p])
  {
    var r := AttachLeaf(nodes, p, name, id);
    var parent' := parent + [p];
    var n := |nodes|;
    forall i, k | 0 <= i < |r| && 0 <= k < |r[i].managees|
      ensures i < r[i].managees[k] < |r| && parent'[r[i].managees[k]] == i
    {
      if i == p && k == |nodes[p].managees| {
        assert r[i].managees[k] == n;
      } else {
        assert i < n && k < |nodes[i].managees| && r[i].managees[k] == nodes[i].managees[k];
      }
    }
    forall i, k1, k2 | 0 <= i < |r| && 0 <= k1 < k2 < |r[i].managees|
      ensures r[i].managees[k1] < r[i].managees[k2]
    {
      if i == p && k2 == |nodes[p].managees| {
        assert r[i].managees[k1] == nodes[p].managees[k1] < n == r[i].managees[k2];
      } else {
        assert i < n && r[i].managees[k1] == nodes[i].managees[k1] && r[i].managees[k2] == nodes[i].managees[k2];
      }
    }
    forall j | 0 < j < |r| ensures parent'[j] < j && j in r[parent'[j]].managees {
      if j == n {
        assert r[p].managees[|nodes[p].managees|] == n;
      } else {
        assert j in nodes[parent[j]].managees;
        var k :| 0 <= k < |nodes[parent[j]].managees| && nodes[parent[j]].managees[k] == j;
        assert r[parent'[j]].managees[k] == j;
      }
    }
  }

  /** The node indices in the order EmployeeWalk visits them: the node, then
      each managee's subtree in stored order. */
  ghost function Preorder(nodes: seq<Employee>, i: nat): (r: seq<nat>)
    requires ManageesAfter(nodes) && i < |nodes|
    ensures |r| > 0 && r[0] == i
    ensures forall x :: x in r ==> i <= x < |nodes|
    ensures forall k :: 0 <= k < |r| ==> i <= r[k] < |nodes|
    decreases |nodes| - i, 1, 0
  {
    [i] + PreorderFrom(nodes, i, 0)
  }

  ghost function PreorderFrom(nodes: seq<Employee>, i: nat, k: nat): (r: seq<nat>)
    requires ManageesAfter(nodes) && i < |nodes| && k <= |nodes[i].managees|
    ensures forall x :: x in r ==> i < x < |nodes|
    ensures forall k :: 0 <= k < |r| ==> i < r[k] < |nodes|
    decreases |nodes| - i, 0, |nodes[i].managees| - k
  {
    if k == |nodes[i].managees| then []
    else Preorder(nodes, nodes[i].managees[k]) + PreorderFrom(nodes, i, k + 1)
  }

  /** Row of the output table: `depth` tab characters, then the name
      (GenerateTabularRow). */
  function GenerateTabularRow(name: string, depth: nat): (row: string)
    ensures |row| == depth + |name|
    ensures forall k :: 0 <= k < depth ==> row[k] == '\t'
    ensures row[depth..] == name
  {
    Repeat('\t', depth) + name
  }

  function Repeat(c: char, n: nat): (s: string)
    ensures |s| == n && forall k :: 0 <= k < n ==> s[k] == c
  {
    if n == 0 then "" else [c] + Repeat(c, n - 1)
  }

  /** Reads a row back: the number of leading tabs and the rest. */
  function SplitRow(row: string): (nat, string)
  {
    if row != [] && row[0] == '\t' then
      var (d, name) := SplitRow(row[1..]);
      (d + 1, name)
    else (0, row)
  }

  /** A row determines its depth and name, for names that do not start with a tab. */
  lemma {:induction false} SplitRowInvertsRow(name: string, depth: nat)
    requires name == [] || name[0] != '\t'
    ensures SplitRow(GenerateTabularRow(name, depth)) == (depth, name)
  {
    var row := GenerateTabularRow(name, depth);
    if depth > 0 {
      assert row[1..] == GenerateTabularRow(name, depth - 1);
      SplitRowInvertsRow(name, depth - 1);
    } else {
      assert row == name;
    }
  }

  /** EmployeeWalk: the row of node `i` at `depth`, then the walks of its
      managees one level deeper, in stored order. */
  function EmployeeWalk(nodes: seq<Employee>, i: nat, depth: nat): (r: seq<string>)
    requires ManageesAfter(nodes) && i < |nodes|
    ensures |r| > |nodes[i].managees| && r[0] == GenerateTabularRow(nodes[i].name, depth)
    decreases |nodes| - i, 1, 0
  {
    [GenerateTabularRow(nodes[i].name, depth)] + ManageesWalk(nodes, i, 0, depth + 1)
  }

  /** The loop of EmployeeWalk over the managees of `i`, from the `k`-th on. */
  function ManageesWalk(nodes: seq<Employee>, i: nat, k: nat, depth: nat): (r: seq<string>)
    requires ManageesAfter(nodes) && i < |nodes| && k <= |nodes[i].managees|
    ensures |r| >= |nodes[i].managees| - k
    ensures k < |nodes[i].managees| ==> r[0] == GenerateTabularRow(nodes[nodes[i].managees[k]].name, depth)
    decreases |nodes| - i, 0, |nodes[i].managees| - k
  {
    if k == |nodes[i].managees| then []
    else EmployeeWalk(nodes, nodes[i].managees[k], depth) + ManageesWalk(nodes, i, k + 1, depth)
  }

  /** The rows of the nodes `s`, each at its depth in the tree. */
  ghost function Rows(nodes: seq<Employee>, parent: seq<nat>, s: seq<nat>): seq<string>
    requires forall k :: 0 <= k < |s| ==> s[k] < |nodes|
  {
    seq(|s|, k requires 0 <= k < |s| => GenerateTabularRow(nodes[s[k]].name, Depth(parent, s[k])))
  }

  // ---------------------------------------------------------------------
  // The ancestor relation

  lemma {:induction false} AncestorBelow(parent: seq<nat>, a: nat, j: nat)
    requires IsAncestor(parent, a, j)
    ensures a <= j
    decreases j
  {
    if j != a {
      AncestorBelow(parent, a, parent[j]);
    }
  }

  lemma {:induction false} AncestorTrans(parent: seq<nat>, a: nat, b: nat, j: nat)
    requires IsAncestor(parent, a, b) && IsAncestor(parent, b, j)
    ensures IsAncestor(parent, a, j)
    decreases j
  {
    if j != b && j != a {
      AncestorTrans(parent, a, b, parent[j]);
    }
  }

  /** The managers of one node form a chain. */
  lemma {:induction false} AncestorsOrdered(parent: seq<nat>, a: nat, b: nat, j: nat)
    requires IsAncestor(parent, a, j) && IsAncestor(parent, b, j)
    ensures IsAncestor(parent, a, b) || IsAncestor(parent, b, a)
    decreases j
  {
    if j != a && j != b {
      AncestorsOrdered(parent, a, b, parent[j]);
    }
  }

  lemma {:induction false} AncestorExtend(parent: seq<nat>, more: seq<nat>, a: nat, j: nat)
    requires IsAncestor(parent, a, j)
    ensures IsAncestor(parent + more, a, j)
    decreases j
  {
    if j != a {
      AncestorExtend(parent, more, a, parent[j]);
    }
  }

  /** `nodes`/`parent` grow `nodes0`/`parent0`: the old nodes keep their
      names, ids and managers, only node `top` may gain managees, and every
      new node lies below `top`. */
  ghost predicate Extends(nodes0: seq<Employee>, parent0: seq<nat>, nodes: seq<Employee>, parent: seq<nat>, top: nat)
  {
    && |nodes0| <= |nodes| && |parent0| == |nodes0| && |parent| == |nodes|
    && parent[..|nodes0|] == parent0
    && (forall j :: 0 <= j < |nodes0| ==> nodes[j].name == nodes0[j].name && nodes[j].id == nodes0[j].id)
    && (forall j :: 0 <= j < |nodes0| && j != top ==> nodes[j] == nodes0[j])
    && (forall j :: |nodes0| <= j < |nodes| ==> IsAncestor(parent, top, j))
  }

  /** `nodes`/`parent` grow `nodes0`/`parent0`: the old nodes keep their
      names, ids and managers, and may gain managees. */
  ghost predicate Grows(nodes0: seq<Employee>, parent0: seq<nat>, nodes: seq<Employee>, parent: seq<nat>)
  {
    && |nodes0| <= |nodes| && |parent0| == |nodes0| && |parent| == |nodes|
    && parent[..|nodes0|] == parent0
    && (forall j :: 0 <= j < |nodes0| ==> nodes[j].name == nodes0[j].name && nodes[j].id == nodes0[j].id)
  }

  lemma ExtendsGrows(nodes0: seq<Employee>, parent0: seq<nat>, nodes: seq<Employee>, parent: seq<nat>, top: nat)
    requires Extends(nodes0, parent0, nodes, parent, top)
    ensures Grows(nodes0, parent0, nodes, parent)
  {
  }

  lemma GrowsTrans(n0: seq<Employee>, p0: seq<nat>, n1: seq<Employee>, p1: seq<nat>, n2: seq<Employee>, p2: seq<nat>)
    requires Grows(n0, p0, n1, p1) && Grows(n1, p1, n2, p2)
    ensures Grows(n0, p0, n2, p2)
  {
    assert p2[..|n0|] == p2[..|n1|][..|n0|];
  }

  lemma AttachLeafExtends(nodes: seq<Employee>, parent: seq<nat>, p: nat, name: string, id: string)
    requires IsTree(nodes, parent) && p < |nodes|
    ensures Extends(nodes, parent, AttachLeaf(nodes, p, name, id), parent + [p], p)
    ensures IsAncestor(parent + [p], p, |nodes|)
  {
    var parent' := parent + [p];
    assert parent'[..|nodes|] == parent;
    RootIsAncestor(nodes, parent, p);
    AncestorExtend(parent, [p], p, p);
    assert IsAncestor(parent', p, |nodes|);
  }

  /** Growth below `top` followed by growth below `c`, `top` itself or a node
      added below `top` by the first step, is growth below `top`. */
  lemma ExtendsTrans(n0: seq<Employee>, p0: seq<nat>, n1: seq<Employee>, p1: seq<nat>,
                     n2: seq<Employee>, p2: seq<nat>, top: nat, c: nat)
    requires Extends(n0, p0, n1, p1, top) && Extends(n1, p1, n2, p2, c)
    requires c == top || (|n0| <= c < |n1| && IsAncestor(p1, top, c))
    ensures Extends(n0, p0, n2, p2, top)
  {
    var more := p2[|p1|..];
    assert p2 == p1 + more;
    assert p2[..|n0|] == p1[..|n0|];
    if c != top {
      AncestorExtend(p1, more, top, c);
    }
    forall j | |n0| <= j < |n2| ensures IsAncestor(p2, top, j) {
      if j < |n1| {
        AncestorExtend(p1, more, top, j);
      } else if c != top {
        AncestorTrans(p2, top, c, j);
      }
    }
  }

  /** Every node lies below the root. */
  lemma {:induction false} RootIsAncestor(nodes: seq<Employee>, parent: seq<nat>, j: nat)
    requires IsTree(nodes, parent) && j < |nodes|
    ensures IsAncestor(parent, 0, j)
    decreases j
  {
    if j > 0 {
      RootIsAncestor(nodes, parent, parent[j]);
    }
  }

  lemma ManageeIsChild(nodes: seq<Employee>, parent: seq<nat>, i: nat, k: nat)
    requires IsTree(nodes, parent) && i < |nodes| && k < |nodes[i].managees|
    ensures IsAncestor(parent, i, nodes[i].managees[k])
    ensures Depth(parent, nodes[i].managees[k]) == Depth(parent, i) + 1
  {
    var c := nodes[i].managees[k];
    assert parent[c] == i < c;
    assert IsAncestor(parent, i, i);
  }

  /** A proper descendant of `i` lies below one of the managees of `i`. */
  lemma {:induction false} DescendantOfManagee(nodes: seq<Employee>, parent: seq<nat>, i: nat, x: nat)
    requires IsTree(nodes, parent) && i < |nodes|
    requires IsAncestor(parent, i, x) && x != i
    ensures exists k :: 0 <= k < |nodes[i].managees| && IsAncestor(parent, nodes[i].managees[k], x)
    decreases x
  {
    if parent[x] == i {
      assert x in nodes[i].managees;
      var k :| 0 <= k < |nodes[i].managees| && nodes[i].managees[k] == x;
      assert IsAncestor(parent, x, x);
    } else {
      DescendantOfManagee(nodes, parent, i, parent[x]);
      var k :| 0 <= k < |nodes[i].managees| && IsAncestor(parent, nodes[i].managees[k], parent[x]);
      AncestorBelow(parent, nodes[i].managees[k], parent[x]);
    }
  }

  // ---------------------------------------------------------------------
  // What the walk visits

  lemma {:induction false} PreorderBelow(nodes: seq<Employee>, parent: seq<nat>, i: nat, x: nat)
    requires IsTree(nodes, parent) && i < |nodes| && x in Preorder(nodes, i)
    ensures IsAncestor(parent, i, x)
    decreases |nodes| - i, 1, 0
  {
    if x != i {
      PreorderFromBelow(nodes, parent, i, 0, x);
      var k' :| 0 <= k' < |nodes[i].managees| && IsAncestor(parent, nodes[i].managees[k'], x);
      ManageeIsChild(nodes, parent, i, k');
      AncestorTrans(parent, i, nodes[i].managees[k'], x);
    }
  }

  lemma {:induction false} PreorderFromBelow(nodes: seq<Employee>, parent: seq<nat>, i: nat, k: nat, x: nat)
    requires IsTree(nodes, parent) && i < |nodes| && k <= |nodes[i].managees|
    requires x in PreorderFrom(nodes, i, k)
    ensures exists k' :: k <= k' < |nodes[i].managees| && IsAncestor(parent, nodes[i].managees[k'], x)
    decreases |nodes| - i, 0, |nodes[i].managees| - k
  {
    var c := nodes[i].managees[k];
    if x in Preorder(nodes, c) {
      PreorderBelow(nodes, parent, c, x);
    } else {
      PreorderFromBelow(nodes, parent, i, k + 1, x);
    }
  }

  lemma {:induction false} PreorderFromCovers(nodes: seq<Employee>, parent: seq<nat>, i: nat, k: nat, k': nat, x: nat)
    requires IsTree(nodes, parent) && i < |nodes| && k <= k' < |nodes[i].managees|
    requires x in Preorder(nodes, nodes[i].managees[k'])
    ensures x in PreorderFrom(nodes, i, k)
    decreases k' - k
  {
    if k < k' {
      PreorderFromCovers(nodes, parent, i, k + 1, k', x);
    }
  }

  /** The walk from `i` reaches every node below `i`. */
  lemma {:induction false} PreorderCovers(nodes: seq<Employee>, parent: seq<nat>, i: nat, x: nat)
    requires IsTree(nodes, parent) && i < |nodes| && IsAncestor(parent, i, x)
    ensures x in Preorder(nodes, i)
    decreases |nodes| - i
  {
    if x != i {
      DescendantOfManagee(nodes, parent, i, x);
      var k :| 0 <= k < |nodes[i].managees| && IsAncestor(parent, nodes[i].managees[k], x);
      PreorderCovers(nodes, parent, nodes[i].managees[k], x);
      PreorderFromCovers(nodes, parent, i, 0, k, x);
    }
  }

  lemma DistinctConcat(a: seq<nat>, b: seq<nat>)
    requires Distinct(a) && Distinct(b)
    requires forall x :: x in a ==> x !in b
    ensures Distinct(a + b)
  {
    forall p, q | 0 <= p < q < |a + b| ensures (a + b)[p] != (a + b)[q] {
      if p < |a| && |a| <= q {
        assert (a + b)[p] in a && (a + b)[q] in b;
      }
    }
  }

  /** The walk from `i` visits no node twice. */
  lemma {:induction false} PreorderDistinct(nodes: seq<Employee>, parent: seq<nat>, i: nat)
    requires IsTree(nodes, parent) && i < |nodes|
    ensures Distinct(Preorder(nodes, i))
    decreases |nodes| - i, 1, 0
  {
    PreorderFromDistinct(nodes, parent, i, 0);
    DistinctConcat([i], PreorderFrom(nodes, i, 0));
  }

  lemma {:induction false} PreorderFromDistinct(nodes: seq<Employee>, parent: seq<nat>, i: nat, k: nat)
    requires IsTree(nodes, parent) && i < |nodes| && k <= |nodes[i].managees|
    ensures Distinct(PreorderFrom(nodes, i, k))
    decreases |nodes| - i, 0, |nodes[i].managees| - k
  {
    if k < |nodes[i].managees| {
      var c := nodes[i].managees[k];
      PreorderDistinct(nodes, parent, c);
      PreorderFromDistinct(nodes, parent, i, k + 1);
      forall x | x in Preorder(nodes, c) ensures x !in PreorderFrom(nodes, i, k + 1) {
        if x in PreorderFrom(nodes, i, k + 1) {
          PreorderBelow(nodes, parent, c, x);
          PreorderFromBelow(nodes, parent, i, k + 1, x);
          var k' :| k + 1 <= k' < |nodes[i].managees| && IsAncestor(parent, nodes[i].managees[k'], x);
          var c' := nodes[i].managees[k'];
          AncestorsOrdered(parent, c, c', x);
          ManageeIsChild(nodes, parent, i, k);
          ManageeIsChild(nodes, parent, i, k');
          if IsAncestor(parent, c, c') {
            AncestorBelow(parent, c, parent[c']);
          } else {
            AncestorBelow(parent, c', parent[c]);
          }
        }
      }
      DistinctConcat(Preorder(nodes, c), PreorderFrom(nodes, i, k + 1));
    }
  }

  // ---------------------------------------------------------------------
  // The rendered table

  lemma {:induction false} WalkRendersPreorder(nodes: seq<Employee>, parent: seq<nat>, i: nat)
    requires IsTree(nodes, parent) && i < |nodes|
    ensures EmployeeWalk(nodes, i, Depth(parent, i)) == Rows(nodes, parent, Preorder(nodes, i))
    decreases |nodes| - i, 1, 0
  {
    ManageesWalkRendersPreorder(nodes, parent, i, 0);
  }

  lemma {:induction false} ManageesWalkRendersPreorder(nodes: seq<Employee>, parent: seq<nat>, i: nat, k: nat)
    requires IsTree(nodes, parent) && i < |nodes| && k <= |nodes[i].managees|
    ensures ManageesWalk(nodes, i, k, Depth(parent, i) + 1) == Rows(nodes, parent, PreorderFrom(nodes, i, k))
    decreases |nodes| - i, 0, |nodes[i].managees| - k
  {
    if k < |nodes[i].managees| {
      var c := nodes[i].managees[k];
      ManageeIsChild(nodes, parent, i, k);
      WalkRendersPreorder(nodes, parent, c);
      ManageesWalkRendersPreorder(nodes, parent, i, k + 1);
      RowsAppend(nodes, parent, Preorder(nodes, c), PreorderFrom(nodes, i, k + 1));
    }
  }

  lemma RowsAppend(nodes: seq<Employee>, parent: seq<nat>, a: seq<nat>, b: seq<nat>)
    requires forall k :: 0 <= k < |a| ==> a[k] < |nodes|
    requires forall k :: 0 <= k < |b| ==> b[k] < |nodes|
    ensures Rows(nodes, parent, a + b) == Rows(nodes, parent, a) + Rows(nodes, parent, b)
  {
  }

  /** A sequence of distinct naturals holding exactly those below `n` has length `n`. */
  lemma {:induction false} DistinctCoverLength(s: seq<nat>, n: nat)
    requires Distinct(s)
    requires forall x :: x in s ==> x < n
    requires forall x: nat :: x < n ==> x in s
    ensures |s| == n
    decreases n
  {
    if n == 0 {
      assert forall k :: 0 <= k < |s| ==> s[k] in s;
    } else {
      assert n - 1 in s;
      var p :| 0 <= p < |s| && s[p] == n - 1;
      var s' := s[..p] + s[p + 1..];
      assert forall q :: 0 <= q < |s'| ==> s'[q] == (if q < p then s[q] else s[q + 1]);
      forall x | x in s' ensures x < n - 1 {
        var q :| 0 <= q < |s'| && s'[q] == x;
        var q' := if q < p then q else q + 1;
        assert s'[q] == s[q'] && q' != p;
        assert s[q'] in s && s[q'] != s[p];
      }
      forall x: nat | x < n - 1 ensures x in s' {
        assert x in s;
        var q :| 0 <= q < |s| && s[q] == x;
        assert q != p;
        if q < p { assert s'[q] == x; } else { assert s'[q - 1] == x; }
      }
      DistinctCoverLength(s', n - 1);
    }
  }

  /** The table lists every node of the tree exactly once, in pre-order,
      each row indented by the node's depth below the root. */
  lemma WalkListsEveryNodeOnce(nodes: seq<Employee>, parent: seq<nat>)
    requires IsTree(nodes, parent) && |nodes| > 0
    ensures Distinct(Preorder(nodes, 0))
    ensures forall x: nat :: x in Preorder(nodes, 0) <==> x < |nodes|
    ensures EmployeeWalk(nodes, 0, 0) == Rows(nodes, parent, Preorder(nodes, 0))
    ensures |EmployeeWalk(nodes, 0, 0)| == |nodes|
  {
    var p := Preorder(nodes, 0);
    PreorderDistinct(nodes, parent, 0);
    forall x: nat | x < |nodes| ensures x in p {
      RootIsAncestor(nodes, parent, x);
      PreorderCovers(nodes, parent, 0, x);
    }
    WalkRendersPreorder(nodes, parent, 0);
    DistinctCoverLength(p, |nodes|);
  }
}
