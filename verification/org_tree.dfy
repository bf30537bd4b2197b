/** The organisation view: a forest of organisation nodes, flattened in
    pre-order with each node's depth and name path, pruned by a search
    keyword that keeps the ancestors of every match, and summarised by three
    counters. */
module OrgTree {
  import opened Optional
  import opened Text
  import opened Seqs

  /** The fields of an organisation node the view computes with. */
  datatype OrgInfo = OrgInfo(
    id: int,
    name: string,
    code: string,
    leader: Option<string>,
    memberCount: Option<int>,
    sensitivity: Option<string>)

  /** A node and its children; a missing `children` array is the empty one. */
  datatype Org = Org(info: OrgInfo, children: seq<Org>)

  /** A flattened node with the depth and the names from the root down to it. */
  datatype FlatEntry = FlatEntry(node: OrgInfo, level: int, path: seq<string>)

  function Size(t: Org): nat {
    1 + ForestSize(t.children)
  }

  function ForestSize(f: seq<Org>): nat {
    if |f| == 0 then 0 else Size(f[0]) + ForestSize(f[1..])
  }

  /** The nodes of a forest in pre-order: each node, then its subtrees, then
      its younger siblings. */
  function PreOrder(f: seq<Org>): seq<OrgInfo> {
    if |f| == 0 then [] else [f[0].info] + PreOrder(f[0].children) + PreOrder(f[1..])
  }

  function Infos(xs: seq<FlatEntry>): (r: seq<OrgInfo>)
    ensures |r| == |xs| && forall i :: 0 <= i < |xs| ==> r[i] == xs[i].node
  {
    MapSeq(xs, (e: FlatEntry) => e.node)
  }

  /** `flattenTree(tree, level, parentPath)`: every node once, at its depth,
      with its path extending the parent path by its own name. */
  function Flatten(tree: seq<Org>, level: int, parentPath: seq<string>): (r: seq<FlatEntry>)
    ensures |r| == ForestSize(tree)
  {
    if |tree| == 0 then []
    else
      var path := parentPath + [tree[0].info.name];
      [FlatEntry(tree[0].info, level, path)] + Flatten(tree[0].children, level + 1, path) + Flatten(tree[1..], level, parentPath)
  }

  /** An entry's path is the one it was given, extended by one name per
      level below the starting level, ending in the entry's own name. */
  predicate PlacedUnder(e: FlatEntry, level: int, parentPath: seq<string>) {
    && e.level >= level
    && |e.path| == |parentPath| + e.level - level + 1
    && e.path[..|parentPath|] == parentPath
    && e.path[|e.path| - 1] == e.node.name
  }

  /** Roots sit at the starting level, each child one level below its parent,
      and every path extends its parent's path by the node's own name. */
  lemma {:induction false} FlattenLevels(tree: seq<Org>, level: int, parentPath: seq<string>)
    ensures forall e :: e in Flatten(tree, level, parentPath) ==> PlacedUnder(e, level, parentPath)
  {
    if |tree| > 0 {
      var path := parentPath + [tree[0].info.name];
      var below := Flatten(tree[0].children, level + 1, path);
      var rest := Flatten(tree[1..], level, parentPath);
      FlattenLevels(tree[0].children, level + 1, path);
      FlattenLevels(tree[1..], level, parentPath);
      forall e | e in below ensures PlacedUnder(e, level, parentPath) {
        assert e.path[..|parentPath|] == path[..|parentPath|];
      }
      assert Flatten(tree, level, parentPath) == [FlatEntry(tree[0].info, level, path)] + below + rest;
    }
  }

  /** Flattening lists exactly the pre-order of the forest. */
  lemma {:induction false} FlattenPreOrder(tree: seq<Org>, level: int, parentPath: seq<string>)
    ensures Infos(Flatten(tree, level, parentPath)) == PreOrder(tree)
  {
    if |tree| > 0 {
      var path := parentPath + [tree[0].info.name];
      var root := FlatEntry(tree[0].info, level, path);
      var below := Flatten(tree[0].children, level + 1, path);
      var rest := Flatten(tree[1..], level, parentPath);
      FlattenPreOrder(tree[0].children, level + 1, path);
      FlattenPreOrder(tree[1..], level, parentPath);
      assert Flatten(tree, level, parentPath) == [root] + below + rest;
      InfosConcat([root] + below, rest);
      InfosConcat([root], below);
    }
  }

  lemma InfosConcat(a: seq<FlatEntry>, b: seq<FlatEntry>)
    ensures Infos(a + b) == Infos(a) + Infos(b)
  {
    assert Infos(a + b) == Infos(a) + Infos(b);
  }

  /** The subtrees of a forest in pre-order: the node behind each entry of
      the flattened listing. */
  function Subtrees(f: seq<Org>): (r: seq<Org>)
    ensures |r| == ForestSize(f)
  {
    if |f| == 0 then [] else [f[0]] + Subtrees(f[0].children) + Subtrees(f[1..])
  }

  /** Where the `k`-th tree of a forest starts in its pre-order listing:
      after every node of its elder siblings. */
  function Offset(f: seq<Org>, k: int): nat
    requires 0 <= k <= |f|
  {
    ForestSize(f[..k])
  }

  lemma OffsetStep(f: seq<Org>, k: int)
    requires 1 <= k <= |f|
    ensures Offset(f, k) == Size(f[0]) + Offset(f[1..], k - 1)
  {
    assert f[..k][0] == f[0];
    assert f[..k][1..] == f[1..][..k - 1];
  }

  /** Every entry shows the node behind it. */
  predicate NodesListed(r: seq<FlatEntry>, nodes: seq<Org>)
    requires |r| == |nodes|
  {
    forall j :: 0 <= j < |r| ==> r[j].node == nodes[j].info
  }

  /** Root `i` of the forest is listed at its offset, at the starting level,
      with the given path followed by its own name. */
  predicate RootsPlaced(f: seq<Org>, level: int, parentPath: seq<string>, r: seq<FlatEntry>, nodes: seq<Org>)
    requires |r| == |nodes|
  {
    forall i :: 0 <= i < |f| ==>
      var p := Offset(f, i);
      p < |r| && nodes[p] == f[i] && r[p] == FlatEntry(f[i].info, level, parentPath + [f[i].info.name])
  }

  /** Child `k` of the node at entry `j` is listed right after its parent and
      the subtrees of its elder siblings, one level deeper than its parent,
      with the parent's path followed by its own name. */
  predicate ChildPlaced(r: seq<FlatEntry>, nodes: seq<Org>, j: int, k: int)
    requires |r| == |nodes| && 0 <= j < |r| && 0 <= k < |nodes[j].children|
  {
    var c := j + 1 + Offset(nodes[j].children, k);
    && c < |r|
    && nodes[c] == nodes[j].children[k]
    && r[c] == FlatEntry(nodes[c].info, r[j].level + 1, r[j].path + [nodes[c].info.name])
  }

  predicate ChildrenPlaced(r: seq<FlatEntry>, nodes: seq<Org>)
    requires |r| == |nodes|
  {
    forall j, k {:trigger ChildPlaced(r, nodes, j, k)} ::
      0 <= j < |r| && 0 <= k < |nodes[j].children| ==> ChildPlaced(r, nodes, j, k)
  }

  /** The listing of a forest, with the node behind each entry: every root
      at the starting level under the given path, and every child of every
      listed node one level below it, under its path. Since every node is a
      root or a child of a node listed before it, this fixes each entry's
      level and path. */
  predicate Placed(f: seq<Org>, level: int, parentPath: seq<string>, r: seq<FlatEntry>, nodes: seq<Org>) {
    && |r| == |nodes|
    && NodesListed(r, nodes)
    && RootsPlaced(f, level, parentPath, r, nodes)
    && ChildrenPlaced(r, nodes)
  }

  /** A placed listing moved to a later position keeps every child where it
      was relative to its parent. */
  lemma ChildrenShift(pre: seq<FlatEntry>, preN: seq<Org>, a: seq<FlatEntry>, an: seq<Org>, post: seq<FlatEntry>, postN: seq<Org>)
    requires |pre| == |preN| && |a| == |an| && |post| == |postN|
    requires ChildrenPlaced(a, an)
    ensures var r, nodes := pre + a + post, preN + an + postN;
      forall j, k {:trigger ChildPlaced(r, nodes, j, k)} ::
        |pre| <= j < |pre| + |a| && 0 <= k < |nodes[j].children| ==> ChildPlaced(r, nodes, j, k)
  {
    var r, nodes := pre + a + post, preN + an + postN;
    forall j, k | |pre| <= j < |pre| + |a| && 0 <= k < |nodes[j].children|
      ensures ChildPlaced(r, nodes, j, k)
    {
      var j' := j - |pre|;
      assert nodes[j] == an[j'] && r[j] == a[j'];
      assert ChildPlaced(a, an, j', k);
      var c' := j' + 1 + Offset(an[j'].children, k);
      assert r[|pre| + c'] == a[c'] && nodes[|pre| + c'] == an[c'];
    }
  }

  lemma ListedConcat(a: seq<FlatEntry>, an: seq<Org>, b: seq<FlatEntry>, bn: seq<Org>)
    requires |a| == |an| && |b| == |bn| && NodesListed(a, an) && NodesListed(b, bn)
    ensures NodesListed(a + b, an + bn)
  {
    forall j | 0 <= j < |a + b| ensures (a + b)[j].node == (an + bn)[j].info {
      if j >= |a| {
        assert (a + b)[j] == b[j - |a|] && (an + bn)[j] == bn[j - |a|];
      }
    }
  }

  /** The children of the first root are the roots of the listing below it. */
  lemma FirstRootChildren(t: Org, level: int, path: seq<string>, below: seq<FlatEntry>, bn: seq<Org>, rest: seq<FlatEntry>, rn: seq<Org>)
    requires |below| == |bn| && |rest| == |rn|
    requires RootsPlaced(t.children, level + 1, path, below, bn)
    ensures var r, nodes := [FlatEntry(t.info, level, path)] + below + rest, [t] + bn + rn;
      forall k {:trigger ChildPlaced(r, nodes, 0, k)} :: 0 <= k < |t.children| ==> ChildPlaced(r, nodes, 0, k)
  {
    var r, nodes := [FlatEntry(t.info, level, path)] + below + rest, [t] + bn + rn;
    forall k | 0 <= k < |t.children| ensures ChildPlaced(r, nodes, 0, k) {
      var p := Offset(t.children, k);
      assert p < |below| && bn[p] == t.children[k];
      assert r[1 + p] == below[p] && nodes[1 + p] == bn[p];
    }
  }

  /** The younger roots are the roots of the listing of the younger
      siblings, moved past the first tree. */
  lemma LaterRoots(tree: seq<Org>, level: int, parentPath: seq<string>, head: FlatEntry, below: seq<FlatEntry>, bn: seq<Org>, rest: seq<FlatEntry>, rn: seq<Org>)
    requires |tree| > 0 && |below| == |bn| == ForestSize(tree[0].children) && |rest| == |rn|
    requires head == FlatEntry(tree[0].info, level, parentPath + [tree[0].info.name])
    requires RootsPlaced(tree[1..], level, parentPath, rest, rn)
    ensures RootsPlaced(tree, level, parentPath, [head] + below + rest, [tree[0]] + bn + rn)
  {
    var r, nodes := [head] + below + rest, [tree[0]] + bn + rn;
    forall i | 0 <= i < |tree|
      ensures Offset(tree, i) < |r| && nodes[Offset(tree, i)] == tree[i]
        && r[Offset(tree, i)] == FlatEntry(tree[i].info, level, parentPath + [tree[i].info.name])
    {
      if i == 0 {
        assert tree[..0] == [];
      } else {
        OffsetStep(tree, i);
        var p := Offset(tree[1..], i - 1);
        assert tree[1..][i - 1] == tree[i];
        assert p < |rest| && rn[p] == tree[i];
        assert r[1 + |below| + p] == rest[p] && nodes[1 + |below| + p] == rn[p];
      }
    }
  }

  /** Flattening places every node: each root at the starting level with the
      given path and its name, and each child of the node at entry `j` at
      level `r[j].level + 1` with path `r[j].path` and its name. */
  lemma {:induction false} FlattenPlaces(tree: seq<Org>, level: int, parentPath: seq<string>)
    ensures Placed(tree, level, parentPath, Flatten(tree, level, parentPath), Subtrees(tree))
  {
    if |tree| > 0 {
      var t := tree[0];
      var path := parentPath + [t.info.name];
      var head := FlatEntry(t.info, level, path);
      var below := Flatten(t.children, level + 1, path);
      var rest := Flatten(tree[1..], level, parentPath);
      var bn, rn := Subtrees(t.children), Subtrees(tree[1..]);
      FlattenPlaces(t.children, level + 1, path);
      FlattenPlaces(tree[1..], level, parentPath);
      var r, nodes := [head] + below + rest, [t] + bn + rn;
      assert Flatten(tree, level, parentPath) == r;
      assert Subtrees(tree) == nodes;
      ListedConcat([head], [t], below, bn);
      ListedConcat([head] + below, [t] + bn, rest, rn);
      FirstRootChildren(t, level, path, below, bn, rest, rn);
      ChildrenShift([head], [t], below, bn, rest, rn);
      ChildrenShift([head] + below, [t] + bn, rest, rn, [], []);
      assert nodes + [] == nodes;
      LaterRoots(tree, level, parentPath, head, below, bn, rest, rn);
      forall j, k {:trigger ChildPlaced(r, nodes, j, k)} | 0 <= j < |r| && 0 <= k < |nodes[j].children|
        ensures ChildPlaced(r, nodes, j, k)
      {
        if j >= 1 + |below| {
          assert ([head] + below + rest) + [] == r;
        }
      }
    }
  }

  /** Entry `i` is the parent of entry `j`: one level up, with the path that
      `j`'s path extends by `j`'s own name. */
  predicate IsParent(r: seq<FlatEntry>, i: int, j: int)
    requires 0 <= i < |r| && 0 <= j < |r|
  {
    r[i].level == r[j].level - 1 && r[j].path == r[i].path + [r[j].node.name]
  }

  /** Some entry before index `j` is the parent of entry `j`. */
  predicate ParentBefore(r: seq<FlatEntry>, j: int)
    requires 0 <= j < |r|
  {
    exists i :: 0 <= i < j && IsParent(r, i, j)
  }

  /** Every entry deeper than `level` has its parent earlier in the list. */
  predicate AllParented(r: seq<FlatEntry>, level: int) {
    forall j {:trigger ParentBefore(r, j)} :: 0 <= j < |r| && r[j].level > level ==> ParentBefore(r, j)
  }

  /** Every entry deeper than the roots has its parent earlier in the list. */
  lemma FlattenParentFirst(tree: seq<Org>, level: int, parentPath: seq<string>)
    ensures var r := Flatten(tree, level, parentPath);
      forall j :: 0 <= j < |r| && r[j].level > level ==> ParentBefore(r, j)
  {
    FlattenParented(tree, level, parentPath);
  }

  lemma {:induction false} FlattenParented(tree: seq<Org>, level: int, parentPath: seq<string>)
    ensures AllParented(Flatten(tree, level, parentPath), level)
  {
    if |tree| > 0 {
      var path := parentPath + [tree[0].info.name];
      var root := FlatEntry(tree[0].info, level, path);
      var below := Flatten(tree[0].children, level + 1, path);
      var rest := Flatten(tree[1..], level, parentPath);
      FlattenParented(tree[0].children, level + 1, path);
      FlattenParented(tree[1..], level, parentPath);
      FlattenLevels(tree[0].children, level + 1, path);
      forall k | 0 <= k < |below| ensures ChildOf(root, below[k]) {
        assert below[k] in below;
        if below[k].level == level + 1 {
          DirectChild(below[k], level + 1, path);
        }
      }
      ParentedUnderRoot(root, below, level);
      ParentedConcat([root] + below, rest, level);
      assert Flatten(tree, level, parentPath) == [root] + below + rest;
    }
  }

  /** Two lists whose entries each find their parents find them in their
      concatenation too. */
  lemma ParentedConcat(a: seq<FlatEntry>, b: seq<FlatEntry>, level: int)
    requires AllParented(a, level) && AllParented(b, level)
    ensures AllParented(a + b, level)
  {
    var r := a + b;
    forall j | 0 <= j < |r| && r[j].level > level ensures ParentBefore(r, j) {
      if j < |a| {
        assert r[j] == a[j];
        assert ParentBefore(a, j);
        var i :| 0 <= i < j && IsParent(a, i, j);
        assert r[i] == a[i];
        assert IsParent(r, i, j);
      } else {
        var k := j - |a|;
        assert r[j] == b[k];
        assert ParentBefore(b, k);
        var i :| 0 <= i < k && IsParent(b, i, k);
        assert r[|a| + i] == b[i];
        assert IsParent(r, |a| + i, j);
      }
    }
  }

  /** A root followed by its subtree: the root's children find the root, the
      deeper entries their parents inside the subtree. */
  lemma ParentedUnderRoot(root: FlatEntry, below: seq<FlatEntry>, level: int)
    requires root.level == level && AllParented(below, level + 1)
    requires forall k :: 0 <= k < |below| ==> ChildOf(root, below[k])
    ensures AllParented([root] + below, level)
  {
    var r := [root] + below;
    forall j | 0 <= j < |r| && r[j].level > level ensures ParentBefore(r, j) {
      assert r[j] == below[j - 1];
      assert ChildOf(root, below[j - 1]);
      if below[j - 1].level == level + 1 {
        assert IsParent(r, 0, j);
      } else {
        ParentInTail(root, below, level, j - 1);
      }
    }
  }

  /** `e` sits below `root`: deeper, and directly under it when one level
      down. */
  predicate ChildOf(root: FlatEntry, e: FlatEntry) {
    e.level >= root.level + 1 && (e.level == root.level + 1 ==> e.path == root.path + [e.node.name])
  }

  lemma ParentInTail(root: FlatEntry, below: seq<FlatEntry>, level: int, k: int)
    requires AllParented(below, level + 1)
    requires 0 <= k < |below| && below[k].level > level + 1
    ensures ParentBefore([root] + below, k + 1)
  {
    var r := [root] + below;
    assert ParentBefore(below, k);
    var i :| 0 <= i < k && IsParent(below, i, k);
    assert r[i + 1] == below[i] && r[k + 1] == below[k];
    assert IsParent(r, i + 1, k + 1);
  }

  /** An entry placed at the starting level is a root: its path is the
      given one and its own name. */
  lemma DirectChild(e: FlatEntry, level: int, parentPath: seq<string>)
    requires PlacedUnder(e, level, parentPath) && e.level == level
    ensures e.path == parentPath + [e.node.name]
  {
    assert e.path == e.path[..|parentPath|] + [e.path[|e.path| - 1]];
  }

  /** The view's top-level call: roots at level 1 from an empty path, so every
      path is as long as its entry's level, and every child is listed one
      level below its parent. */
  function FlattenTree(tree: seq<Org>): (r: seq<FlatEntry>)
    ensures |r| == ForestSize(tree)
    ensures forall j :: 0 <= j < |r| ==> r[j].level >= 1 && |r[j].path| == r[j].level
    ensures Placed(tree, 1, [], r, Subtrees(tree))
  {
    FlattenLevels(tree, 1, []);
    FlattenPlaces(tree, 1, []);
    var r := Flatten(tree, 1, []);
    assert forall j :: 0 <= j < |r| ==> r[j] in r;
    r
  }

  /** The keyword test of `matchNode`: lower-cased name, code or leader
      contains the (already lower-cased) keyword. */
  predicate Hit(info: OrgInfo, keyword: string) {
    || Contains(Lower(info.name), keyword)
    || Contains(Lower(info.code), keyword)
    || (info.leader.Some? && Contains(Lower(info.leader.value), keyword))
  }

  /** A node survives the search when it matches or a descendant does. */
  predicate Relevant(t: Org, keyword: string) {
    Hit(t.info, keyword) || exists i :: 0 <= i < |t.children| && Relevant(t.children[i], keyword)
  }

  /** The reference pruning: keep the relevant nodes of a forest, in order,
      each with its own children pruned the same way. */
  function KeptForest(f: seq<Org>, keyword: string): (r: seq<Org>)
    decreases f
  {
    var k := Filter(f, (t: Org) => Relevant(t, keyword));
    seq(|k|, i requires 0 <= i < |k| => assert k[i] in f; Prune(k[i], keyword))
  }

  function Prune(t: Org, keyword: string): (r: Org)
    decreases t
  {
    Org(t.info, KeptForest(t.children, keyword))
  }

  /** `matchNode`. */
  function MatchNode(t: Org, keyword: string): (r: Option<Org>)
    ensures r.Some? ==> r.value.info == t.info
  {
    var children := FilterForest(t.children, keyword);
    if Hit(t.info, keyword) || |children| > 0 then Some(Org(t.info, children)) else None
  }

  /** `filterTree`: `matchNode` on every root, the nulls dropped. */
  function FilterForest(f: seq<Org>, keyword: string): (r: seq<Org>)
    ensures |r| <= |f|
  {
    if |f| == 0 then []
    else
      var rest := FilterForest(f[1..], keyword);
      match MatchNode(f[0], keyword)
      case Some(n) => [n] + rest
      case None => rest
  }

  /** `matchNode` keeps exactly the relevant nodes, pruned. */
  lemma {:induction false} MatchNodeSpec(t: Org, keyword: string)
    ensures MatchNode(t, keyword) == if Relevant(t, keyword) then Some(Prune(t, keyword)) else None
    decreases t, 1
  {
    FilterForestSpec(t.children, keyword);
    var ch := FilterForest(t.children, keyword);
    var k := Filter(t.children, (c: Org) => Relevant(c, keyword));
    assert |ch| == |k|;
    assert Prune(t, keyword) == Org(t.info, ch);
    if exists i :: 0 <= i < |t.children| && Relevant(t.children[i], keyword) {
      var i :| 0 <= i < |t.children| && Relevant(t.children[i], keyword);
      assert t.children[i] in k;
      assert Relevant(t, keyword);
    } else {
      FilterNone(t.children, (c: Org) => Relevant(c, keyword));
    }
  }

  /** `filterTree` is the reference pruning: it keeps a node iff the node or
      one of its descendants matches, keeps sibling order, and prunes the
      children of every kept node the same way. */
  lemma {:induction false} FilterForestSpec(f: seq<Org>, keyword: string)
    ensures FilterForest(f, keyword) == KeptForest(f, keyword)
    decreases f, 0
  {
    if |f| > 0 {
      var p := (t: Org) => Relevant(t, keyword);
      MatchNodeSpec(f[0], keyword);
      FilterForestSpec(f[1..], keyword);
      var k := Filter(f, p);
      var k1 := Filter(f[1..], p);
      assert k == (if p(f[0]) then [f[0]] else []) + k1;
      var kept := KeptForest(f, keyword);
      var kept1 := KeptForest(f[1..], keyword);
      if p(f[0]) {
        assert kept == [Prune(f[0], keyword)] + kept1 by {
          assert |kept| == 1 + |kept1|;
          forall i | 0 <= i < |kept| ensures kept[i] == ([Prune(f[0], keyword)] + kept1)[i] {
            if i > 0 {
              assert k[i] == k1[i - 1];
            }
          }
        }
      } else {
        assert kept == kept1;
      }
    }
  }

  /** The pruned forest lists, in pre-order, a subsequence of the original
      pre-order: nodes keep their relative order and nothing is invented. */
  lemma {:induction false} FilterPreOrderSubseq(f: seq<Org>, keyword: string)
    ensures IsSubseq(PreOrder(FilterForest(f, keyword)), PreOrder(f))
  {
    if |f| > 0 {
      var t := f[0];
      var rest := FilterForest(f[1..], keyword);
      FilterPreOrderSubseq(t.children, keyword);
      FilterPreOrderSubseq(f[1..], keyword);
      var whole := [t.info] + PreOrder(t.children);
      match MatchNode(t, keyword)
      case Some(n) =>
        var r := [n] + rest;
        assert r[0] == n && r[1..] == rest;
        SubseqRefl([t.info]);
        SubseqConcat([t.info], [t.info], PreOrder(n.children), PreOrder(t.children));
        SubseqConcat([t.info] + PreOrder(n.children), whole, PreOrder(rest), PreOrder(f[1..]));
      case None =>
        SubseqConcat([], whole, PreOrder(rest), PreOrder(f[1..]));
        assert [] + PreOrder(rest) == PreOrder(rest);
        assert PreOrder(f) == whole + PreOrder(f[1..]);
    }
  }

  /** The empty keyword is contained in every string, so it keeps the whole
      forest. */
  lemma {:induction false} FilterEmptyKeyword(f: seq<Org>)
    ensures FilterForest(f, "") == f
  {
    if |f| > 0 {
      FilterEmptyKeyword(f[0].children);
      FilterEmptyKeyword(f[1..]);
      ContainsEmpty(Lower(f[0].info.name));
      assert MatchNode(f[0], "") == Some(f[0]);
      assert f == [f[0]] + f[1..];
    }
  }

  /** The view's `filteredTree`: a blank search shows the tree as loaded;
      otherwise the trimmed, lower-cased search is the keyword. */
  function FilteredTree(tree: seq<Org>, search: string): (r: seq<Org>)
    ensures IsBlank(search) ==> r == tree
    ensures !IsBlank(search) ==> r == KeptForest(tree, Lower(Trim(search)))
  {
    if IsBlank(search) then tree
    else
      FilterForestSpec(tree, Lower(Trim(search)));
      FilterForest(tree, Lower(Trim(search)))
  }

  /** The three counters over the flattened tree. */
  datatype Stats = Stats(totalOrg: nat, totalMembers: int, sensitiveOrgs: nat)

  /** `memberCount || 0`. */
  function Members(info: OrgInfo): int {
    info.memberCount.GetOr(0)
  }

  predicate Sensitive(info: OrgInfo) {
    info.sensitivity == Some("SECRET") || info.sensitivity == Some("TOP_SECRET")
  }

  predicate SensitiveEntry(e: FlatEntry) {
    Sensitive(e.node)
  }

  /** `flattened.reduce((sum, item) => sum + (item.memberCount || 0), 0)`. */
  function SumMembers(xs: seq<FlatEntry>): int {
    if |xs| == 0 then 0 else SumMembers(xs[..|xs| - 1]) + Members(xs[|xs| - 1].node)
  }

  /** The `stats` memo, computed over the flattened tree. The counters agree
      with the folds over the tree itself: the node count, the sum of member
      counts with a missing count as 0, and the number of SECRET or
      TOP_SECRET nodes. */
  function ComputeStats(tree: seq<Org>): (r: Stats)
    ensures r == Stats(ForestSize(tree), TreeMembers(tree), TreeSensitive(tree))
  {
    var flat := FlattenTree(tree);
    FlattenCounts(tree, 1, []);
    Stats(|flat|, SumMembers(flat), |Filter(flat, SensitiveEntry)|)
  }

  /** Member total of a forest, folded over the tree itself. */
  function TreeMembers(f: seq<Org>): int {
    if |f| == 0 then 0 else Members(f[0].info) + TreeMembers(f[0].children) + TreeMembers(f[1..])
  }

  /** Sensitive-node count of a forest, folded over the tree itself. */
  function TreeSensitive(f: seq<Org>): nat {
    if |f| == 0 then 0
    else (if Sensitive(f[0].info) then 1 else 0) + TreeSensitive(f[0].children) + TreeSensitive(f[1..])
  }

  lemma {:induction false} SumMembersConcat(a: seq<FlatEntry>, b: seq<FlatEntry>)
    ensures SumMembers(a + b) == SumMembers(a) + SumMembers(b)
    decreases |b|
  {
    if |b| > 0 {
      SumMembersConcat(a, b[..|b| - 1]);
      assert (a + b)[..|a + b| - 1] == a + b[..|b| - 1];
    } else {
      assert a + b == a;
    }
  }

  lemma {:induction false} FlattenCounts(tree: seq<Org>, level: int, parentPath: seq<string>)
    ensures SumMembers(Flatten(tree, level, parentPath)) == TreeMembers(tree)
    ensures |Filter(Flatten(tree, level, parentPath), SensitiveEntry)| == TreeSensitive(tree)
  {
    if |tree| > 0 {
      var path := parentPath + [tree[0].info.name];
      var head := [FlatEntry(tree[0].info, level, path)];
      var below := Flatten(tree[0].children, level + 1, path);
      var rest := Flatten(tree[1..], level, parentPath);
      FlattenCounts(tree[0].children, level + 1, path);
      FlattenCounts(tree[1..], level, parentPath);
      SumMembersConcat(head + below, rest);
      SumMembersConcat(head, below);
      assert SumMembers(head) == Members(tree[0].info) by {
        assert head[..0] == [];
      }
      FilterConcat(head + below, rest, SensitiveEntry);
      FilterConcat(head, below, SensitiveEntry);
    }
  }
}
