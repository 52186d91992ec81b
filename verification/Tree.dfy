/**
 The id/parent-pointer tree under the in-memory lock system and filesystem (src/tree.rs).

 A node knows its parent's id and maps child names to child ids. What the tree *means* is given by
 labelling every node with the path of names that leads to it from the root; `Entries` is that
 labelled view, and every operation is specified by what it does to the entries.
 */
module Trees {
  import opened Results

  const ROOT_ID: nat := 1
  const NO_PARENT: nat := 0

  datatype Node<K, D> = Node(data: D, parentId: nat, children: map<K, nat>)

  datatype Entry<K, D> = Entry(path: seq<K>, data: D)

  type Nodes<K, D> = map<nat, Node<K, D>>
  type Entries<K, D> = map<nat, Entry<K, D>>

  // ---------------------------------------------------------------------------------------------
  // Well-formedness: the entries label the nodes

  /** A non-root node hangs under its parent, under the last name of its own path. */
  ghost predicate LinkedUp<K, D>(nodes: Nodes<K, D>, e: Entries<K, D>, i: nat)
    requires i in nodes && i in e
  {
    var p := nodes[i].parentId;
    && p in nodes && p in e
    && |e[i].path| > 0
    && e[i].path == e[p].path + [e[i].path[|e[i].path| - 1]]
    && e[i].path[|e[i].path| - 1] in nodes[p].children
    && nodes[p].children[e[i].path[|e[i].path| - 1]] == i
  }

  /** The child stored under a name exists, points back, and carries the extended path. */
  ghost predicate LinkedDown<K, D>(nodes: Nodes<K, D>, e: Entries<K, D>, p: nat, k: K)
    requires p in nodes && p in e && k in nodes[p].children
  {
    var c := nodes[p].children[k];
    && c in nodes && c in e && c != ROOT_ID
    && nodes[c].parentId == p
    && e[c].path == e[p].path + [k]
  }

  ghost predicate AllLinkedUp<K, D>(nodes: Nodes<K, D>, e: Entries<K, D>)
    requires e.Keys == nodes.Keys
  {
    forall i {:trigger LinkedUp(nodes, e, i)} :: i in e && i != ROOT_ID ==> LinkedUp(nodes, e, i)
  }

  ghost predicate AllLinkedDown<K, D>(nodes: Nodes<K, D>, e: Entries<K, D>)
    requires e.Keys == nodes.Keys
  {
    forall p, k {:trigger LinkedDown(nodes, e, p, k)} ::
      p in e && k in nodes[p].children ==> LinkedDown(nodes, e, p, k)
  }

  ghost predicate Labels<K, D>(nodes: Nodes<K, D>, e: Entries<K, D>) {
    && e.Keys == nodes.Keys
    && ROOT_ID in e && e[ROOT_ID].path == [] && nodes[ROOT_ID].parentId == NO_PARENT
    && NO_PARENT !in e
    && (forall i :: i in e ==> e[i].data == nodes[i].data)
    && AllLinkedUp(nodes, e)
    && AllLinkedDown(nodes, e)
  }

  // ---------------------------------------------------------------------------------------------
  // What a labelling implies

  lemma RootIffEmptyPath<K, D>(nodes: Nodes<K, D>, e: Entries<K, D>, i: nat)
    requires Labels(nodes, e) && i in e
    ensures i == ROOT_ID <==> e[i].path == []
  {
    if i != ROOT_ID { assert LinkedUp(nodes, e, i); }
  }

  /** No two nodes share a path. */
  lemma {:induction false} PathsInjective<K, D>(nodes: Nodes<K, D>, e: Entries<K, D>, i: nat, j: nat)
    requires Labels(nodes, e)
    requires i in e && j in e && e[i].path == e[j].path
    ensures i == j
    decreases |e[i].path|
  {
    RootIffEmptyPath(nodes, e, i);
    RootIffEmptyPath(nodes, e, j);
    if i != ROOT_ID {
      assert LinkedUp(nodes, e, i) && LinkedUp(nodes, e, j);
      var p, q := nodes[i].parentId, nodes[j].parentId;
      assert e[p].path == e[i].path[..|e[i].path| - 1] == e[q].path;
      PathsInjective(nodes, e, p, q);
    }
  }

  /** Every prefix of a node's path is the path of a node: its ancestor at that depth. */
  lemma {:induction false} AncestorExists<K, D>(nodes: Nodes<K, D>, e: Entries<K, D>, i: nat, n: nat) returns (a: nat)
    requires Labels(nodes, e)
    requires i in e && n <= |e[i].path|
    ensures a in e && e[a].path == e[i].path[..n]
    decreases |e[i].path|
  {
    if n == |e[i].path| {
      a := i;
    } else {
      assert LinkedUp(nodes, e, i);
      var p := nodes[i].parentId;
      a := AncestorExists(nodes, e, p, n);
      assert e[p].path == e[i].path[..|e[i].path| - 1];
      assert e[p].path[..n] == e[i].path[..n];
    }
  }

  /** A node strictly below another lies at or below one of its children. */
  lemma ChildTowards<K, D>(nodes: Nodes<K, D>, e: Entries<K, D>, a: nat, i: nat) returns (k: K, c: nat)
    requires Labels(nodes, e)
    requires a in e && i in e && e[a].path < e[i].path
    ensures k in nodes[a].children && nodes[a].children[k] == c
    ensures c in e && e[c].path == e[a].path + [k] && e[c].path <= e[i].path
  {
    var n := |e[a].path|;
    c := AncestorExists(nodes, e, i, n + 1);
    assert LinkedUp(nodes, e, c);
    var p := nodes[c].parentId;
    assert e[p].path == e[c].path[..n] == e[i].path[..n] == e[a].path;
    PathsInjective(nodes, e, p, a);
    k := e[c].path[n];
  }

  /** A node has no children exactly when no node lies strictly below it. */
  lemma LeafIffNothingBelow<K, D>(nodes: Nodes<K, D>, e: Entries<K, D>, a: nat)
    requires Labels(nodes, e) && a in e
    ensures nodes[a].children == map[] <==> forall i :: i in e ==> !(e[a].path < e[i].path)
  {
    if nodes[a].children == map[] {
      forall i | i in e ensures !(e[a].path < e[i].path) {
        if e[a].path < e[i].path {
          var k, c := ChildTowards(nodes, e, a, i);
        }
      }
    } else {
      var k :| k in nodes[a].children;
      assert LinkedDown(nodes, e, a, k);
      assert e[a].path < e[nodes[a].children[k]].path;
    }
  }

  /** The labelling is determined by the nodes: the entries are not a choice. */
  lemma {:induction false} LabelsUniqueAt<K, D>(nodes: Nodes<K, D>, e: Entries<K, D>, f: Entries<K, D>, i: nat)
    requires Labels(nodes, e) && Labels(nodes, f) && i in e
    ensures i in f && e[i] == f[i]
    decreases |e[i].path|
  {
    if i != ROOT_ID {
      assert LinkedUp(nodes, e, i) && LinkedUp(nodes, f, i);
      var p := nodes[i].parentId;
      var k := e[i].path[|e[i].path| - 1];
      LabelsUniqueAt(nodes, e, f, p);
      assert LinkedDown(nodes, f, p, k);
    }
  }

  lemma LabelsUnique<K, D>(nodes: Nodes<K, D>, e: Entries<K, D>, f: Entries<K, D>)
    requires Labels(nodes, e) && Labels(nodes, f)
    ensures e == f
  {
    forall i | i in e ensures i in f && e[i] == f[i] {
      LabelsUniqueAt(nodes, e, f, i);
    }
  }

  /** Following a sequence of names downwards from a node, as the lookups do. */
  ghost function Walk<K, D>(nodes: Nodes<K, D>, from: nat, path: seq<K>): Option<nat>
    decreases |path|
  {
    if from !in nodes then None
    else if path == [] then Some(from)
    else if path[0] !in nodes[from].children then None
    else Walk(nodes, nodes[from].children[path[0]], path[1..])
  }

  /** A walk ends at the node whose path is the start's path extended by the names walked. */
  lemma {:induction false} WalkFollowsPaths<K, D>(nodes: Nodes<K, D>, e: Entries<K, D>, from: nat, path: seq<K>)
    requires Labels(nodes, e) && from in e
    ensures Walk(nodes, from, path).Some? ==>
              var i := Walk(nodes, from, path).value; i in e && e[i].path == e[from].path + path
    decreases |path|
  {
    if path != [] && path[0] in nodes[from].children {
      assert LinkedDown(nodes, e, from, path[0]);
      var c := nodes[from].children[path[0]];
      WalkFollowsPaths(nodes, e, c, path[1..]);
      assert e[from].path + path == e[c].path + path[1..];
    }
  }

  lemma {:induction false} WalkReaches<K, D>(nodes: Nodes<K, D>, e: Entries<K, D>, from: nat, i: nat)
    requires Labels(nodes, e) && from in e && i in e && e[from].path <= e[i].path
    ensures Walk(nodes, from, e[i].path[|e[from].path|..]) == Some(i)
    decreases |e[i].path| - |e[from].path|
  {
    if |e[i].path| == |e[from].path| {
      assert e[i].path == e[from].path;
      PathsInjective(nodes, e, from, i);
    } else {
      var k, c := ChildTowards(nodes, e, from, i);
      WalkReaches(nodes, e, c, i);
      var rest := e[i].path[|e[from].path|..];
      assert rest[0] == k by { assert e[c].path[|e[from].path|] == e[i].path[|e[from].path|]; }
      assert rest[1..] == e[i].path[|e[c].path|..];
    }
  }

  /** No leaks and nothing dangling: the node map is exactly what the root reaches, each node by its own path. */
  lemma NodesAreWhatRootReaches<K, D>(nodes: Nodes<K, D>, e: Entries<K, D>, i: nat)
    requires Labels(nodes, e)
    ensures i in nodes <==> exists path :: Walk(nodes, ROOT_ID, path) == Some(i)
    ensures i in nodes ==> forall path :: Walk(nodes, ROOT_ID, path) == Some(i) <==> path == e[i].path
  {
    if i in nodes {
      WalkReaches(nodes, e, ROOT_ID, i);
      assert e[i].path[0..] == e[i].path;
      assert Walk(nodes, ROOT_ID, e[i].path) == Some(i);
    }
    forall path | Walk(nodes, ROOT_ID, path) == Some(i) ensures i in nodes && path == e[i].path {
      WalkFollowsPaths(nodes, e, ROOT_ID, path);
      assert [] + path == path;
    }
  }

  // ---------------------------------------------------------------------------------------------
  // Specification of the operations on entries

  /** Everything strictly below `id` goes, and so does `id` itself unless it is the root. */
  ghost function WithoutSubtree<K, D>(e: Entries<K, D>, id: nat): Entries<K, D>
    requires id in e
  {
    map i | i in e && (i == ROOT_ID || !(e[id].path <= e[i].path)) :: e[i]
  }

  /** The entries that are not at or below `path`. */
  ghost function WithoutPath<K, D>(e: Entries<K, D>, path: seq<K>): Entries<K, D> {
    map i | i in e && !(path <= e[i].path) :: e[i]
  }

  /** The entries that are not at or below any of the first `n` children listed. */
  ghost function WithoutChildren<K, D>(e: Entries<K, D>, children: seq<(K, nat)>, n: nat): Entries<K, D>
    requires n <= |children|
    requires forall m :: 0 <= m < n ==> children[m].1 in e
  {
    map i | i in e && forall m :: 0 <= m < n ==> !(e[children[m].1].path <= e[i].path) :: e[i]
  }

  ghost predicate PathTaken<K, D>(e: Entries<K, D>, path: seq<K>) {
    exists i :: i in e && e[i].path == path
  }

  ghost predicate HasBelow<K, D>(e: Entries<K, D>, id: nat)
    requires id in e
  {
    exists i :: i in e && e[id].path < e[i].path
  }

  /** `items` lists the direct children of `parent` with their names, each exactly once. */
  ghost predicate EnumeratesChildren<K, D>(e: Entries<K, D>, parent: nat, items: seq<(K, nat)>)
    requires parent in e
  {
    && (forall n :: 0 <= n < |items| ==>
          items[n].1 in e && e[items[n].1].path == e[parent].path + [items[n].0])
    && (forall i :: i in e && |e[i].path| == |e[parent].path| + 1 && e[parent].path < e[i].path ==>
          exists n :: 0 <= n < |items| && items[n].1 == i)
    && (forall m, n :: 0 <= m < n < |items| ==> items[m].0 != items[n].0 && items[m].1 != items[n].1)
  }

  /** `path` with its prefix `from`, if it has that prefix, replaced by `to`. */
  ghost function Rebased<K>(path: seq<K>, from: seq<K>, to: seq<K>): seq<K> {
    if from <= path then to + path[|from|..] else path
  }

  /** The subtree of `id` is re-rooted at `path`; every other entry stays. */
  ghost function Rerooted<K, D>(e: Entries<K, D>, id: nat, path: seq<K>): Entries<K, D>
    requires id in e
  {
    map i | i in e :: Entry(Rebased(e[i].path, e[id].path, path), e[i].data)
  }

  ghost function SubtreeIds<K, D>(e: Entries<K, D>, id: nat): set<nat> {
    if id in e then set i | i in e && e[id].path <= e[i].path else {}
  }

  // ---------------------------------------------------------------------------------------------
  // Each elementary change of the node map keeps it labelled

  ghost function LeafAdded<K, D>(nodes: Nodes<K, D>, p: nat, key: K, id: nat, data: D): Nodes<K, D>
    requires p in nodes
  {
    var grown := nodes[id := Node(data, p, map[])];
    grown[p := grown[p].(children := grown[p].children[key := id])]
  }

  lemma LeafAddedUp<K, D>(nodes: Nodes<K, D>, e: Entries<K, D>, p: nat, key: K, id: nat, data: D)
    requires Labels(nodes, e)
    requires p in e && key !in nodes[p].children && id !in e
    ensures AllLinkedUp(LeafAdded(nodes, p, key, id, data), e[id := Entry(e[p].path + [key], data)])
  {
    var nodes', e' := LeafAdded(nodes, p, key, id, data), e[id := Entry(e[p].path + [key], data)];
    forall i | i in e' && i != ROOT_ID ensures LinkedUp(nodes', e', i) {
      if i == id {
        assert e'[id].path[|e'[id].path| - 1] == key;
      } else {
        assert LinkedUp(nodes, e, i);
      }
    }
  }

  lemma LeafAddedDown<K, D>(nodes: Nodes<K, D>, e: Entries<K, D>, p: nat, key: K, id: nat, data: D)
    requires Labels(nodes, e)
    requires p in e && key !in nodes[p].children && id !in e
    ensures AllLinkedDown(LeafAdded(nodes, p, key, id, data), e[id := Entry(e[p].path + [key], data)])
  {
    var nodes', e' := LeafAdded(nodes, p, key, id, data), e[id := Entry(e[p].path + [key], data)];
    forall q, k | q in e' && k in nodes'[q].children ensures LinkedDown(nodes', e', q, k) {
      if q != p || k != key {
        assert LinkedDown(nodes, e, q, k);
      }
    }
  }

  lemma LeafAddedLabels<K, D>(nodes: Nodes<K, D>, e: Entries<K, D>, p: nat, key: K, id: nat, data: D)
    requires Labels(nodes, e)
    requires p in e && key !in nodes[p].children && id !in e && id != NO_PARENT
    ensures Labels(LeafAdded(nodes, p, key, id, data), e[id := Entry(e[p].path + [key], data)])
  {
    LeafAddedUp(nodes, e, p, key, id, data);
    LeafAddedDown(nodes, e, p, key, id, data);
  }

  ghost function Unlinked<K, D>(nodes: Nodes<K, D>, p: nat, key: K): Nodes<K, D>
    requires p in nodes
  {
    nodes[p := nodes[p].(children := nodes[p].children - {key})]
  }

  /** Exactly one name of exactly one node leads to a given child. */
  lemma ParentIsUnique<K, D>(nodes: Nodes<K, D>, e: Entries<K, D>, p: nat, key: K, q: nat, k: K)
    requires Labels(nodes, e)
    requires p in e && key in nodes[p].children && q in e && k in nodes[q].children
    requires nodes[p].children[key] == nodes[q].children[k]
    ensures p == q && key == k
  {
    assert LinkedDown(nodes, e, p, key) && LinkedDown(nodes, e, q, k);
    assert (e[p].path + [key])[|e[p].path|] == key;
  }

  lemma LeafRemovedUp<K, D>(nodes: Nodes<K, D>, e: Entries<K, D>, id: nat, p: nat, key: K)
    requires Labels(nodes, e)
    requires id in e && id != ROOT_ID && nodes[id].children == map[]
    requires p in e && key in nodes[p].children && nodes[p].children[key] == id
    ensures AllLinkedUp(Unlinked(nodes, p, key) - {id}, e - {id})
  {
    var nodes', e' := Unlinked(nodes, p, key) - {id}, e - {id};
    forall i | i in e' && i != ROOT_ID ensures LinkedUp(nodes', e', i) {
      assert LinkedUp(nodes, e, i);
    }
  }

  lemma LeafRemovedDown<K, D>(nodes: Nodes<K, D>, e: Entries<K, D>, id: nat, p: nat, key: K)
    requires Labels(nodes, e)
    requires id in e && id != ROOT_ID && nodes[id].children == map[]
    requires p in e && key in nodes[p].children && nodes[p].children[key] == id
    ensures AllLinkedDown(Unlinked(nodes, p, key) - {id}, e - {id})
  {
    var nodes', e' := Unlinked(nodes, p, key) - {id}, e - {id};
    forall q, k | q in e' && k in nodes'[q].children ensures LinkedDown(nodes', e', q, k) {
      assert LinkedDown(nodes, e, q, k);
      if nodes[q].children[k] == id {
        ParentIsUnique(nodes, e, p, key, q, k);
      }
    }
  }

  lemma LeafRemovedLabels<K, D>(nodes: Nodes<K, D>, e: Entries<K, D>, id: nat, p: nat, key: K)
    requires Labels(nodes, e)
    requires id in e && id != ROOT_ID && nodes[id].children == map[]
    requires p in e && key in nodes[p].children && nodes[p].children[key] == id
    ensures Labels(Unlinked(nodes, p, key) - {id}, e - {id})
  {
    assert LinkedDown(nodes, e, p, key);
    LeafRemovedUp(nodes, e, id, p, key);
    LeafRemovedDown(nodes, e, id, p, key);
  }

  lemma DataSetUp<K, D>(nodes: Nodes<K, D>, e: Entries<K, D>, id: nat, data: D)
    requires Labels(nodes, e) && id in e
    ensures AllLinkedUp(nodes[id := nodes[id].(data := data)], e[id := Entry(e[id].path, data)])
  {
    var nodes', e' := nodes[id := nodes[id].(data := data)], e[id := Entry(e[id].path, data)];
    forall i | i in e' && i != ROOT_ID ensures LinkedUp(nodes', e', i) {
      assert LinkedUp(nodes, e, i);
    }
  }

  lemma DataSetDown<K, D>(nodes: Nodes<K, D>, e: Entries<K, D>, id: nat, data: D)
    requires Labels(nodes, e) && id in e
    ensures AllLinkedDown(nodes[id := nodes[id].(data := data)], e[id := Entry(e[id].path, data)])
  {
    var nodes', e' := nodes[id := nodes[id].(data := data)], e[id := Entry(e[id].path, data)];
    forall q, k | q in e' && k in nodes'[q].children ensures LinkedDown(nodes', e', q, k) {
      assert LinkedDown(nodes, e, q, k);
    }
  }

  lemma DataSetLabels<K, D>(nodes: Nodes<K, D>, e: Entries<K, D>, id: nat, data: D)
    requires Labels(nodes, e) && id in e
    ensures Labels(nodes[id := nodes[id].(data := data)], e[id := Entry(e[id].path, data)])
  {
    DataSetUp(nodes, e, id, data);
    DataSetDown(nodes, e, id, data);
  }

  /** Removing a leaf is the smallest case of removing a subtree. */
  lemma LeafIsWholeSubtree<K, D>(nodes: Nodes<K, D>, e: Entries<K, D>, id: nat)
    requires Labels(nodes, e) && id in e && id != ROOT_ID && nodes[id].children == map[]
    ensures WithoutSubtree(e, id) == e - {id}
  {
    LeafIffNothingBelow(nodes, e, id);
    forall i | i in e && e[id].path <= e[i].path ensures i == id {
      if e[id].path == e[i].path { PathsInjective(nodes, e, i, id); }
    }
  }

  // ---------------------------------------------------------------------------------------------
  // Moving

  /**
   The situation in which `move_node` relinks `id`, found under `key` of `p`, as `newName` of
   `newParent`: the target is not below `id`, and what it replaces is a childless other node.
   */
  ghost predicate MoveAllowed<K, D>(nodes: Nodes<K, D>, e: Entries<K, D>, id: nat, p: nat, key: K,
                                    newParent: nat, newName: K)
  {
    && Labels(nodes, e)
    && id in e && id != ROOT_ID
    && p in e && key in nodes[p].children && nodes[p].children[key] == id
    && newParent in e && !(e[id].path <= e[newParent].path)
    && (newName in nodes[newParent].children ==>
          var c := nodes[newParent].children[newName];
          c != id && c in nodes && nodes[c].children == map[])
  }

  ghost function Replaced<K, D>(nodes: Nodes<K, D>, newParent: nat, newName: K): set<nat>
    requires newParent in nodes
  {
    if newName in nodes[newParent].children then {nodes[newParent].children[newName]} else {}
  }

  /** The node map after unlinking `id`, dropping what it replaces, and linking `id` in again. */
  ghost function Relinked<K, D>(nodes: Nodes<K, D>, id: nat, p: nat, key: K, newParent: nat, newName: K): Nodes<K, D>
    requires p in nodes && id in nodes && newParent in nodes && newParent !in Replaced(nodes, newParent, newName)
  {
    var unlinked := Unlinked(nodes, p, key);
    var moved := unlinked[id := unlinked[id].(parentId := newParent)] - Replaced(nodes, newParent, newName);
    moved[newParent := moved[newParent].(children := moved[newParent].children[newName := id])]
  }

  ghost function MovedEntries<K, D>(nodes: Nodes<K, D>, e: Entries<K, D>, id: nat, newParent: nat,
                                    newName: K): Entries<K, D>
    requires newParent in nodes && newParent in e && id in e && id !in Replaced(nodes, newParent, newName)
  {
    Rerooted(e - Replaced(nodes, newParent, newName), id, e[newParent].path + [newName])
  }

  lemma RebasedExtends<K>(path: seq<K>, k: K, from: seq<K>, to: seq<K>)
    requires path + [k] != from
    ensures Rebased(path + [k], from, to) == Rebased(path, from, to) + [k]
  {
    if from <= path {
      assert (path + [k])[|from|..] == path[|from|..] + [k];
    } else if from <= path + [k] {
      assert false;
    }
  }

  /** The replaced node is neither the moved node, nor its new parent, nor anyone's parent. */
  lemma ReplacedIsLeaf<K, D>(nodes: Nodes<K, D>, e: Entries<K, D>, id: nat, p: nat, key: K, newParent: nat, newName: K)
    requires MoveAllowed(nodes, e, id, p, key, newParent, newName)
    ensures id !in Replaced(nodes, newParent, newName)
    ensures newParent !in Replaced(nodes, newParent, newName)
    ensures p !in Replaced(nodes, newParent, newName)
    ensures ROOT_ID !in Replaced(nodes, newParent, newName)
    ensures newParent != id
    ensures forall i :: i in Replaced(nodes, newParent, newName) ==> i in nodes && nodes[i].children == map[]
  {
    if newName in nodes[newParent].children {
      assert LinkedDown(nodes, e, newParent, newName);
    }
  }

  lemma MovedUp<K, D>(nodes: Nodes<K, D>, e: Entries<K, D>, id: nat, p: nat, key: K, newParent: nat, newName: K, i: nat)
    requires MoveAllowed(nodes, e, id, p, key, newParent, newName)
    requires newParent !in Replaced(nodes, newParent, newName) && id !in Replaced(nodes, newParent, newName)
    requires i in e && i != ROOT_ID && i !in Replaced(nodes, newParent, newName)
    ensures i in Relinked(nodes, id, p, key, newParent, newName)
    ensures i in MovedEntries(nodes, e, id, newParent, newName)
    ensures LinkedUp(Relinked(nodes, id, p, key, newParent, newName), MovedEntries(nodes, e, id, newParent, newName), i)
  {
    ReplacedIsLeaf(nodes, e, id, p, key, newParent, newName);
    var nodes', e' := Relinked(nodes, id, p, key, newParent, newName), MovedEntries(nodes, e, id, newParent, newName);
    var from, to := e[id].path, e[newParent].path + [newName];
    if i == id {
      assert e'[id].path == to;
      assert e'[id].path[|e'[id].path| - 1] == newName;
    } else {
      assert LinkedUp(nodes, e, i);
      var q := nodes[i].parentId;
      var k := e[i].path[|e[i].path| - 1];
      if e[i].path == from { PathsInjective(nodes, e, i, id); }
      RebasedExtends(e[q].path, k, from, to);
      assert q !in Replaced(nodes, newParent, newName);
      assert e'[i].path == e'[q].path + [k];
      assert nodes'[q].children[k] == i;
    }
  }

  lemma MovedDown<K, D>(nodes: Nodes<K, D>, e: Entries<K, D>, id: nat, p: nat, key: K, newParent: nat, newName: K,
                        q: nat, k: K)
    requires MoveAllowed(nodes, e, id, p, key, newParent, newName)
    requires newParent !in Replaced(nodes, newParent, newName) && id !in Replaced(nodes, newParent, newName)
    requires q in e && q !in Replaced(nodes, newParent, newName)
    requires q in Relinked(nodes, id, p, key, newParent, newName)
    requires k in Relinked(nodes, id, p, key, newParent, newName)[q].children
    ensures q in MovedEntries(nodes, e, id, newParent, newName)
    ensures LinkedDown(Relinked(nodes, id, p, key, newParent, newName),
                       MovedEntries(nodes, e, id, newParent, newName), q, k)
  {
    ReplacedIsLeaf(nodes, e, id, p, key, newParent, newName);
    var nodes', e' := Relinked(nodes, id, p, key, newParent, newName), MovedEntries(nodes, e, id, newParent, newName);
    var from, to := e[id].path, e[newParent].path + [newName];
    if q == newParent && k == newName {
      assert nodes'[q].children[k] == id;
      assert e'[id].path == to;
    } else {
      assert k in nodes[q].children;
      assert LinkedDown(nodes, e, q, k);
      var c := nodes[q].children[k];
      if c == id { ParentIsUnique(nodes, e, p, key, q, k); }
      if c in Replaced(nodes, newParent, newName) { ParentIsUnique(nodes, e, newParent, newName, q, k); }
      if e[c].path == from { PathsInjective(nodes, e, c, id); }
      RebasedExtends(e[q].path, k, from, to);
    }
  }

  lemma MovedAllUp<K, D>(nodes: Nodes<K, D>, e: Entries<K, D>, id: nat, p: nat, key: K, newParent: nat, newName: K)
    requires MoveAllowed(nodes, e, id, p, key, newParent, newName)
    requires newParent !in Replaced(nodes, newParent, newName) && id !in Replaced(nodes, newParent, newName)
    requires Relinked(nodes, id, p, key, newParent, newName).Keys == MovedEntries(nodes, e, id, newParent, newName).Keys
    ensures AllLinkedUp(Relinked(nodes, id, p, key, newParent, newName), MovedEntries(nodes, e, id, newParent, newName))
  {
    var nodes', e' := Relinked(nodes, id, p, key, newParent, newName), MovedEntries(nodes, e, id, newParent, newName);
    forall i | i in e' && i != ROOT_ID ensures LinkedUp(nodes', e', i) {
      MovedUp(nodes, e, id, p, key, newParent, newName, i);
    }
  }

  lemma MovedAllDown<K, D>(nodes: Nodes<K, D>, e: Entries<K, D>, id: nat, p: nat, key: K, newParent: nat, newName: K)
    requires MoveAllowed(nodes, e, id, p, key, newParent, newName)
    requires newParent !in Replaced(nodes, newParent, newName) && id !in Replaced(nodes, newParent, newName)
    requires Relinked(nodes, id, p, key, newParent, newName).Keys == MovedEntries(nodes, e, id, newParent, newName).Keys
    ensures AllLinkedDown(Relinked(nodes, id, p, key, newParent, newName),
                          MovedEntries(nodes, e, id, newParent, newName))
  {
    var nodes', e' := Relinked(nodes, id, p, key, newParent, newName), MovedEntries(nodes, e, id, newParent, newName);
    forall q, k | q in e' && k in nodes'[q].children ensures LinkedDown(nodes', e', q, k) {
      MovedDown(nodes, e, id, p, key, newParent, newName, q, k);
    }
  }

  lemma MovedRest<K, D>(nodes: Nodes<K, D>, e: Entries<K, D>, id: nat, p: nat, key: K, newParent: nat, newName: K)
    requires MoveAllowed(nodes, e, id, p, key, newParent, newName)
    ensures newParent !in Replaced(nodes, newParent, newName) && id !in Replaced(nodes, newParent, newName)
    ensures var nodes' := Relinked(nodes, id, p, key, newParent, newName);
            var e' := MovedEntries(nodes, e, id, newParent, newName);
            && nodes'.Keys == e'.Keys
            && ROOT_ID in e' && e'[ROOT_ID].path == [] && nodes'[ROOT_ID].parentId == NO_PARENT
            && NO_PARENT !in e'
            && forall i :: i in e' ==> e'[i].data == nodes'[i].data
  {
    ReplacedIsLeaf(nodes, e, id, p, key, newParent, newName);
    RootIffEmptyPath(nodes, e, id);
  }

  lemma MovedLabels<K, D>(nodes: Nodes<K, D>, e: Entries<K, D>, id: nat, p: nat, key: K, newParent: nat, newName: K)
    requires MoveAllowed(nodes, e, id, p, key, newParent, newName)
    ensures newParent !in Replaced(nodes, newParent, newName) && id !in Replaced(nodes, newParent, newName)
    ensures Labels(Relinked(nodes, id, p, key, newParent, newName), MovedEntries(nodes, e, id, newParent, newName))
  {
    MovedRest(nodes, e, id, p, key, newParent, newName);
    MovedAllUp(nodes, e, id, p, key, newParent, newName);
    MovedAllDown(nodes, e, id, p, key, newParent, newName);
  }

  lemma ReplacedIsWholeSubtree<K, D>(nodes: Nodes<K, D>, e: Entries<K, D>, id: nat, p: nat, key: K, newParent: nat,
                                     newName: K)
    requires MoveAllowed(nodes, e, id, p, key, newParent, newName)
    requires newParent !in Replaced(nodes, newParent, newName) && id !in Replaced(nodes, newParent, newName)
    ensures id in WithoutPath(e, e[newParent].path + [newName])
    ensures MovedEntries(nodes, e, id, newParent, newName)
            == Rerooted(WithoutPath(e, e[newParent].path + [newName]), id, e[newParent].path + [newName])
  {
    var path := e[newParent].path + [newName];
    if newName in nodes[newParent].children {
      assert LinkedDown(nodes, e, newParent, newName);
      var c := nodes[newParent].children[newName];
      LeafIsWholeSubtree(nodes, e, c);
      assert WithoutPath(e, path) == WithoutSubtree(e, c);
    } else {
      TakenIffChild(nodes, e, newParent, newName);
      NothingUnderUntaken(nodes, e, path);
      assert WithoutPath(e, path) == e == e - {};
    }
  }

  lemma MoveEffect<K, D>(nodes: Nodes<K, D>, e: Entries<K, D>, id: nat, p: nat, key: K, newParent: nat, newName: K)
    returns (e': Entries<K, D>)
    requires MoveAllowed(nodes, e, id, p, key, newParent, newName)
    ensures newParent !in Replaced(nodes, newParent, newName)
    ensures Labels(Relinked(nodes, id, p, key, newParent, newName), e')
    ensures e'.Keys <= e.Keys
    ensures id in WithoutPath(e, e[newParent].path + [newName])
    ensures e' == Rerooted(WithoutPath(e, e[newParent].path + [newName]), id, e[newParent].path + [newName])
  {
    MovedLabels(nodes, e, id, p, key, newParent, newName);
    ReplacedIsWholeSubtree(nodes, e, id, p, key, newParent, newName);
    e' := MovedEntries(nodes, e, id, newParent, newName);
  }

  lemma SelfMoveIffReplaced<K, D>(nodes: Nodes<K, D>, e: Entries<K, D>, id: nat, newParent: nat, newName: K)
    requires Labels(nodes, e) && id in e && newParent in e
    ensures e[id].path == e[newParent].path + [newName]
            <==> newName in nodes[newParent].children && nodes[newParent].children[newName] == id
  {
    if newName in nodes[newParent].children {
      assert LinkedDown(nodes, e, newParent, newName);
      if e[id].path == e[newParent].path + [newName] {
        PathsInjective(nodes, e, id, nodes[newParent].children[newName]);
      }
    } else {
      TakenIffChild(nodes, e, newParent, newName);
    }
  }

  /**
   When the name `id` is moved to is already bound to `id`, the code removes the very node it links
   in again: a child that does not exist, which no labelling allows.
   */
  lemma SelfReplacementIsBroken<K, D>(nodes: Nodes<K, D>, newParent: nat, newName: K, id: nat)
    requires newParent in nodes && newName in nodes[newParent].children
    requires nodes[newParent].children[newName] == id && id !in nodes
    ensures !exists e: Entries<K, D> :: Labels(nodes, e)
  {
    forall e: Entries<K, D> ensures !Labels(nodes, e) {
      assert Labels(nodes, e) ==> LinkedDown(nodes, e, newParent, newName);
    }
  }

  // ---------------------------------------------------------------------------------------------
  // Child maps, as seen through the entries

  lemma TakenIffChild<K, D>(nodes: Nodes<K, D>, e: Entries<K, D>, p: nat, key: K)
    requires Labels(nodes, e) && p in e
    ensures key in nodes[p].children <==> PathTaken(e, e[p].path + [key])
  {
    if key in nodes[p].children {
      assert LinkedDown(nodes, e, p, key);
    }
    forall i | i in e && e[i].path == e[p].path + [key] ensures key in nodes[p].children {
      var k, c := ChildTowards(nodes, e, p, i);
      assert k == e[i].path[|e[p].path|] == key;
    }
  }

  lemma NothingUnderUntaken<K, D>(nodes: Nodes<K, D>, e: Entries<K, D>, path: seq<K>)
    requires Labels(nodes, e) && !PathTaken(e, path)
    ensures forall i :: i in e ==> !(path <= e[i].path)
  {
    forall i | i in e ensures !(path <= e[i].path) {
      if path <= e[i].path {
        var a := AncestorExists(nodes, e, i, |path|);
      }
    }
  }

  /** If a path is taken, so are its prefixes. */
  lemma PrefixTaken<K, D>(nodes: Nodes<K, D>, e: Entries<K, D>, path: seq<K>, n: nat)
    requires Labels(nodes, e) && n <= |path|
    ensures PathTaken(e, path) ==> PathTaken(e, path[..n])
  {
    if i :| i in e && e[i].path == path {
      var a := AncestorExists(nodes, e, i, n);
    }
  }

  lemma ItemsEnumerate<K, D>(nodes: Nodes<K, D>, e: Entries<K, D>, p: nat, items: seq<(K, nat)>)
    requires Labels(nodes, e) && p in e
    requires forall n :: 0 <= n < |items| ==>
              items[n].0 in nodes[p].children && nodes[p].children[items[n].0] == items[n].1
    requires forall k :: k in nodes[p].children ==> exists n :: 0 <= n < |items| && items[n].0 == k
    requires forall a, b :: 0 <= a < b < |items| ==> items[a].0 != items[b].0
    ensures EnumeratesChildren(e, p, items)
  {
    forall n | 0 <= n < |items|
      ensures items[n].1 in e && e[items[n].1].path == e[p].path + [items[n].0]
    {
      assert LinkedDown(nodes, e, p, items[n].0);
    }
    forall i | i in e && |e[i].path| == |e[p].path| + 1 && e[p].path < e[i].path
      ensures exists n :: 0 <= n < |items| && items[n].1 == i
    {
      var k, c := ChildTowards(nodes, e, p, i);
      assert e[c].path == e[i].path;
      PathsInjective(nodes, e, c, i);
    }
    forall a, b | 0 <= a < b < |items| ensures items[a].1 != items[b].1 {
      assert e[items[a].1].path[|e[p].path|] == items[a].0;
      assert e[items[b].1].path[|e[p].path|] == items[b].0;
    }
  }

  /** Siblings are not below each other: deleting the first ones leaves the next one in place. */
  lemma SiblingUntouched<K, D>(e: Entries<K, D>, id: nat, children: seq<(K, nat)>, n: nat)
    requires id in e && EnumeratesChildren(e, id, children) && n < |children|
    ensures children[n].1 in WithoutChildren(e, children, n)
  {
    var c := children[n].1;
    forall m | 0 <= m < n ensures !(e[children[m].1].path <= e[c].path) {
      assert e[children[m].1].path[|e[id].path|] == children[m].0;
      assert e[c].path[|e[id].path|] == children[n].0;
    }
  }

  lemma NextChildDeleted<K, D>(e: Entries<K, D>, id: nat, children: seq<(K, nat)>, n: nat)
    requires id in e && EnumeratesChildren(e, id, children) && n < |children|
    requires ROOT_ID in e ==> e[ROOT_ID].path == []
    ensures children[n].1 in WithoutChildren(e, children, n)
    ensures WithoutSubtree(WithoutChildren(e, children, n), children[n].1) == WithoutChildren(e, children, n + 1)
    ensures SubtreeIds(WithoutChildren(e, children, n), children[n].1) < SubtreeIds(e, id)
  {
    SiblingUntouched(e, id, children, n);
    var c := children[n].1;
    assert e[c].path == e[id].path + [children[n].0];
    assert id in SubtreeIds(e, id) && id !in SubtreeIds(WithoutChildren(e, children, n), c);
  }

  lemma ParentUntouched<K, D>(e: Entries<K, D>, id: nat, children: seq<(K, nat)>)
    requires id in e && EnumeratesChildren(e, id, children)
    ensures id in WithoutChildren(e, children, |children|)
  {
    forall m | 0 <= m < |children| ensures !(e[children[m].1].path <= e[id].path) {
      assert |e[children[m].1].path| == |e[id].path| + 1;
    }
  }

  /** Once all listed children and what is below them are gone, `id` is a leaf. */
  lemma NoChildrenLeft<K, D>(nodes: Nodes<K, D>, e: Entries<K, D>, e0: Entries<K, D>, id: nat, children: seq<(K, nat)>)
    requires id in e0 && EnumeratesChildren(e0, id, children)
    requires Labels(nodes, e) && e == WithoutChildren(e0, children, |children|) && id in e
    ensures nodes[id].children == map[]
  {
    LeafIffNothingBelow(nodes, e, id);
    forall i | i in e ensures !(e[id].path < e[i].path) {
      if e[id].path < e[i].path {
        var k, c := ChildTowards(nodes, e, id, i);
      }
    }
  }

  /** Deleting the subtrees of all children and then `id`, unless it is the root, deletes the subtree of `id`. */
  lemma DeletedSubtree<K, D>(nodes: Nodes<K, D>, e: Entries<K, D>, e0: Entries<K, D>, id: nat, children: seq<(K, nat)>)
    requires id in e0 && EnumeratesChildren(e0, id, children)
    requires Labels(nodes, e) && e == WithoutChildren(e0, children, |children|) && id in e
    ensures WithoutSubtree(e0, id) == if id == ROOT_ID then e else e - {id}
  {
    NoChildrenLeft(nodes, e, e0, id, children);
    LeafIffNothingBelow(nodes, e, id);
    forall i | i in e && i != id ensures !(e[id].path <= e[i].path) {
      if e[id].path == e[i].path { PathsInjective(nodes, e, id, i); }
    }
    forall i | i in e0 && i !in e ensures e0[id].path <= e0[i].path && e0[i].path != [] {
      var m :| 0 <= m < |children| && e0[children[m].1].path <= e0[i].path;
      assert e0[id].path <= e0[children[m].1].path;
    }
    RootIffEmptyPath(nodes, e, id);
    assert ROOT_ID in e0 && e0[ROOT_ID] == e[ROOT_ID];
  }

  /** The (name, id) pairs of a child map in some order. */
  method ItemsOf<K>(m: map<K, nat>) returns (items: seq<(K, nat)>)
    ensures forall n :: 0 <= n < |items| ==> items[n].0 in m && m[items[n].0] == items[n].1
    ensures forall k :: k in m ==> exists n :: 0 <= n < |items| && items[n].0 == k
    ensures forall a, b :: 0 <= a < b < |items| ==> items[a].0 != items[b].0
  {
    items := [];
    var left := m.Keys;
    while left != {}
      invariant left <= m.Keys
      invariant forall n :: 0 <= n < |items| ==> items[n].0 in m && items[n].0 !in left && m[items[n].0] == items[n].1
      invariant forall k :: k in m && k !in left ==> exists n :: 0 <= n < |items| && items[n].0 == k
      invariant forall a, b :: 0 <= a < b < |items| ==> items[a].0 != items[b].0
      decreases left
    {
      var k :| k in left;
      ghost var before := items;
      items := items + [(k, m[k])];
      left := left - {k};
      forall k' | k' in m && k' !in left ensures exists n :: 0 <= n < |items| && items[n].0 == k' {
        if k' == k {
          assert items[|before|].0 == k;
        } else {
          var n :| 0 <= n < |before| && before[n].0 == k';
          assert items[n].0 == k';
        }
      }
    }
  }

  // ---------------------------------------------------------------------------------------------
  // The tree

  class Tree<K(==), D> {
    var nodes: Nodes<K, D>
    var nodeId: nat            // the next id to hand out
    ghost var entries: Entries<K, D>

    ghost predicate Valid()
      reads this
    {
      && Labels(nodes, entries)
      && nodeId > ROOT_ID
      && (forall i :: i in entries ==> i < nodeId)
    }

    constructor (data: D)
      ensures Valid()
      ensures entries == map[ROOT_ID := Entry([], data)] && nodeId == ROOT_ID + 1
    {
      nodes := map[ROOT_ID := Node(data, NO_PARENT, map[])];
      nodeId := ROOT_ID + 1;
      entries := map[ROOT_ID := Entry([], data)];
    }

    /** Put a new, unlinked node into the node map. */
    method NewNode(parent: nat, data: D) returns (id: nat)
      modifies this
      ensures id == old(nodeId) && nodeId == old(nodeId) + 1
      ensures nodes == old(nodes)[id := Node(data, parent, map[])]
      ensures entries == old(entries)
    {
      id := nodeId;
      nodeId := nodeId + 1;
      nodes := nodes[id := Node(data, parent, map[])];
    }

    method AddChild(parent: nat, key: K, data: D, overwrite: bool) returns (r: FsResult<nat>)
      requires Valid()
      modifies this
      ensures Valid()
      ensures parent !in old(entries) ==> r == Err(NotFound)
      ensures parent in old(entries) && !overwrite && PathTaken(old(entries), old(entries)[parent].path + [key]) ==>
                r == Err(Exists)
      ensures parent in old(entries) && (overwrite || !PathTaken(old(entries), old(entries)[parent].path + [key])) ==>
                r == Ok(old(nodeId))
      ensures r.Err? ==> entries == old(entries) && nodeId == old(nodeId)
      ensures r.Ok? ==>
                && nodeId == old(nodeId) + 1
                && entries == WithoutPath(old(entries), old(entries)[parent].path + [key])
                              [r.value := Entry(old(entries)[parent].path + [key], data)]
    {
      if parent !in nodes {
        return Err(NotFound);
      }
      ghost var e0 := entries;
      ghost var path := e0[parent].path + [key];
      TakenIffChild(nodes, entries, parent, key);
      if key in nodes[parent].children {
        if !overwrite {
          return Err(Exists);
        }
        var previous := nodes[parent].children[key];
        assert LinkedDown(nodes, entries, parent, key);
        var _ := DeleteSubtree(previous);
        assert entries == WithoutPath(e0, path);
        assert entries[parent] == e0[parent];
        TakenIffChild(nodes, entries, parent, key);
      } else {
        NothingUnderUntaken(nodes, entries, path);
        assert WithoutPath(e0, path) == e0;
      }
      ghost var n1, e1 := nodes, entries;
      var id := NewNode(parent, data);
      nodes := nodes[parent := nodes[parent].(children := nodes[parent].children[key := id])];
      entries := entries[id := Entry(path, data)];
      LeafAddedLabels(n1, e1, parent, key, id, data);
      r := Ok(id);
    }

    method GetChild(parent: nat, key: K) returns (r: FsResult<nat>)
      requires Valid()
      ensures r.Ok? ==> parent in entries && r.value in entries
                        && entries[r.value].path == entries[parent].path + [key]
      ensures r.Err? ==> r.error == NotFound
                         && (parent in entries ==> !PathTaken(entries, entries[parent].path + [key]))
    {
      if parent !in nodes {
        return Err(NotFound);
      }
      TakenIffChild(nodes, entries, parent, key);
      if key !in nodes[parent].children {
        return Err(NotFound);
      }
      assert LinkedDown(nodes, entries, parent, key);
      r := Ok(nodes[parent].children[key]);
    }

    /** The children in some order, each once. */
    method GetChildren(parent: nat) returns (r: FsResult<seq<(K, nat)>>)
      requires Valid()
      ensures r.Ok? <==> parent in entries
      ensures r.Err? ==> r.error == NotFound
      ensures r.Ok? ==> EnumeratesChildren(entries, parent, r.value)
    {
      if parent !in nodes {
        return Err(NotFound);
      }
      var children := nodes[parent].children;
      var items := ItemsOf(children);
      ItemsEnumerate(nodes, entries, parent, items);
      r := Ok(items);
    }

    method GetNode(id: nat) returns (r: FsResult<D>)
      requires Valid()
      ensures r == if id in entries then Ok(entries[id].data) else Err(NotFound)
    {
      r := if id in nodes then Ok(nodes[id].data) else Err(NotFound);
    }

    /** Write through the reference that `get_node_mut` hands out. */
    method SetNode(id: nat, data: D) returns (r: FsResult<()>)
      requires Valid()
      modifies this
      ensures Valid() && nodeId == old(nodeId)
      ensures r == if id in old(entries) then Ok(()) else Err(NotFound)
      ensures entries == if r.Ok? then old(entries)[id := Entry(old(entries)[id].path, data)] else old(entries)
    {
      if id !in nodes {
        return Err(NotFound);
      }
      DataSetLabels(nodes, entries, id, data);
      nodes := nodes[id := nodes[id].(data := data)];
      entries := entries[id := Entry(entries[id].path, data)];
      r := Ok(());
    }

    /** Take `id` out of its parent's child map; the node itself stays in the node map. */
    method DeleteNodeFromParent(id: nat) returns (r: FsResult<()>)
      requires Valid()
      modifies this`nodes
      ensures id == ROOT_ID ==> r == Ok(()) && nodes == old(nodes)
      ensures id !in old(nodes) ==> r == Err(NotFound) && nodes == old(nodes)
      ensures id in old(nodes) && id != ROOT_ID ==>
                && r == Ok(())
                && LinkedUp(old(nodes), entries, id)
                && nodes == Unlinked(old(nodes), old(nodes)[id].parentId, entries[id].path[|entries[id].path| - 1])
    {
      if id == ROOT_ID {
        return Ok(());
      }
      if id !in nodes {
        return Err(NotFound);
      }
      var parentId := nodes[id].parentId;
      assert LinkedUp(nodes, entries, id);
      if parentId == NO_PARENT {
        return Ok(());
      }
      ghost var name := entries[id].path[|entries[id].path| - 1];
      var children := nodes[parentId].children;
      var key := None;
      var left := children.Keys;
      while left != {}
        invariant left <= children.Keys
        invariant key == None && name in left
        decreases left
      {
        var k :| k in left;
        if children[k] == id {
          key := Some(k);
          ParentIsUnique(nodes, entries, parentId, k, parentId, name);
          break;
        }
        left := left - {k};
      }
      if key == None {
        return Err(NotFound);
      }
      nodes := nodes[parentId := nodes[parentId].(children := children - {key.value})];
      r := Ok(());
    }

    /** Unlink a childless node and drop it from the node map, unless it is the root. */
    method DropLeaf(id: nat)
      requires Valid() && id in entries && nodes[id].children == map[]
      modifies this
      ensures Valid() && nodeId == old(nodeId)
      ensures entries == if id == ROOT_ID then old(entries) else old(entries) - {id}
    {
      ghost var n0 := nodes;
      var unlinked := DeleteNodeFromParent(id);
      if id != ROOT_ID {
        nodes := nodes - {id};
        LeafRemovedLabels(n0, entries, id, n0[id].parentId, entries[id].path[|entries[id].path| - 1]);
        entries := entries - {id};
      }
    }

    /** Delete a childless node other than the root. */
    method DeleteNode(id: nat) returns (r: FsResult<D>)
      requires Valid()
      modifies this
      ensures Valid() && nodeId == old(nodeId)
      ensures r == if id !in old(entries) then Err(NotFound)
                   else if id == ROOT_ID || HasBelow(old(entries), id) then Err(Forbidden)
                   else Ok(old(entries)[id].data)
      ensures entries == if r.Ok? then old(entries) - {id} else old(entries)
    {
      if id !in nodes {
        return Err(NotFound);
      }
      LeafIffNothingBelow(nodes, entries, id);
      if id == ROOT_ID || nodes[id].children != map[] {
        return Err(Forbidden);
      }
      var data := nodes[id].data;
      DropLeaf(id);
      r := Ok(data);
    }

    /** Delete `id` and everything below it; the root itself always stays. */
    method DeleteSubtree(id: nat) returns (r: FsResult<()>)
      requires Valid()
      modifies this
      ensures Valid() && nodeId == old(nodeId)
      ensures r == if id in old(entries) then Ok(()) else Err(NotFound)
      ensures entries == if id in old(entries) then WithoutSubtree(old(entries), id) else old(entries)
      decreases SubtreeIds(entries, id)
    {
      if id !in nodes {
        return Err(NotFound);
      }
      ghost var e0 := entries;
      var found := GetChildren(id);
      var children := found.value;
      for n := 0 to |children|
        invariant Valid() && nodeId == old(nodeId)
        invariant entries == WithoutChildren(e0, children, n)
      {
        var c := children[n].1;
        NextChildDeleted(e0, id, children, n);
        var deleted := DeleteSubtree(c);
      }
      ParentUntouched(e0, id, children);
      NoChildrenLeft(nodes, entries, e0, id, children);
      DeletedSubtree(nodes, entries, e0, id, children);
      DropLeaf(id);
      r := Ok(());
    }

    /** Is `id` an ancestor of `node`, or `node` itself? The walk of `move_node` towards the root. */
    method WalkMeets(id: nat, node: nat) returns (r: FsResult<bool>)
      requires Valid() && id != ROOT_ID
      ensures node !in entries && node != id ==> r == Err(NotFound)
      ensures node in entries ==>
                r == Ok(id in entries && entries[id].path <= entries[node].path)
    {
      var ancestor := node;
      while true
        invariant ancestor == node || (node in entries && ancestor in entries)
        invariant node in entries ==> entries[ancestor].path <= entries[node].path
        invariant node in entries && id in entries && entries[id].path <= entries[node].path ==>
                    entries[id].path <= entries[ancestor].path
        decreases if ancestor in entries then |entries[ancestor].path| else 0
      {
        if ancestor == id {
          return Ok(true);
        }
        if ancestor == ROOT_ID {
          if id in nodes { RootIffEmptyPath(nodes, entries, id); }
          break;
        }
        if ancestor !in nodes {
          return Err(NotFound);
        }
        assert LinkedUp(nodes, entries, ancestor);
        var parentId := nodes[ancestor].parentId;
        if parentId == NO_PARENT {
          break;
        }
        if id in nodes && entries[id].path == entries[ancestor].path {
          PathsInjective(nodes, entries, id, ancestor);
        }
        ancestor := parentId;
      }
      return Ok(false);
    }

    /** Why `move_node` refuses, in the order in which it looks; `None` when it goes ahead. */
    static ghost function MoveRefusal(e: Entries<K, D>, id: nat, newParent: nat, newName: K,
                                      overwrite: bool): Option<FsError> {
      if id == ROOT_ID || id == newParent then Some(Forbidden)
      else if newParent !in e then Some(NotFound)
      else if id in e && e[id].path <= e[newParent].path then Some(Forbidden)
      else if PathTaken(e, e[newParent].path + [newName])
              && (!overwrite || exists i :: i in e && e[newParent].path + [newName] < e[i].path) then Some(Exists)
      else if id !in e then Some(NotFound)
      else None
    }

    /** The name moved to is the one `id` already has. */
    static ghost predicate MovesOntoItself(e: Entries<K, D>, id: nat, newParent: nat, newName: K) {
      id in e && newParent in e && e[id].path == e[newParent].path + [newName]
    }

    /**
     Give `id` a new parent and name. The tree stays well formed exactly when the new name is not
     the one `id` already has; moving a node onto itself loses the node.
     */
    method MoveNode(id: nat, newParent: nat, newName: K, overwrite: bool) returns (r: FsResult<()>)
      requires Valid()
      modifies this
      ensures nodeId == old(nodeId)
      ensures r == match MoveRefusal(old(entries), id, newParent, newName, overwrite)
                   case Some(e) => Err(e)
                   case None => Ok(())
      ensures r.Err? ==> Valid() && entries == old(entries)
      ensures r.Ok? ==>
                if MovesOntoItself(old(entries), id, newParent, newName)
                then !exists e: Entries<K, D> :: Labels(nodes, e)
                else && Valid()
                     && id in WithoutPath(old(entries), old(entries)[newParent].path + [newName])
                     && entries == Rerooted(WithoutPath(old(entries), old(entries)[newParent].path + [newName]),
                                            id, old(entries)[newParent].path + [newName])
    {
      var dest := MoveTarget(id, newParent, newName, overwrite);
      if dest.Err? {
        return Err(dest.error);
      }
      r := Relink(id, newParent, newName, dest.value);
    }

    /** The checks of `move_node`; yields the childless node that the move replaces, if any. */
    method MoveTarget(id: nat, newParent: nat, newName: K, overwrite: bool) returns (r: FsResult<Option<nat>>)
      requires Valid()
      ensures r.Err? ==> MoveRefusal(entries, id, newParent, newName, overwrite) == Some(r.error)
      ensures r.Ok? ==>
                && MoveRefusal(entries, id, newParent, newName, overwrite)
                   == (if id in entries then None else Some(NotFound))
                && id != ROOT_ID && newParent in entries && newParent in nodes
                && (id in entries ==> !(entries[id].path <= entries[newParent].path))
                && r.value == (if newName in nodes[newParent].children then Some(nodes[newParent].children[newName])
                               else None)
                && (r.value.Some? ==> r.value.value in nodes && nodes[r.value.value].children == map[])
    {
      if id == ROOT_ID {
        return Err(Forbidden);
      }
      if id == newParent {
        return Err(Forbidden);
      }
      var meets := WalkMeets(id, newParent);
      if meets.Err? {
        return Err(NotFound);
      }
      if meets.value {
        return Err(Forbidden);
      }
      TakenIffChild(nodes, entries, newParent, newName);
      if newName in nodes[newParent].children {
        assert LinkedDown(nodes, entries, newParent, newName);
        var cid := nodes[newParent].children[newName];
        LeafIffNothingBelow(nodes, entries, cid);
        if !overwrite || nodes[cid].children != map[] {
          return Err(Exists);
        }
        r := Ok(Some(cid));
      } else {
        NothingUnderUntaken(nodes, entries, entries[newParent].path + [newName]);
        r := Ok(None);
      }
    }

    /** The changes of `move_node`. */
    method Relink(id: nat, newParent: nat, newName: K, dest: Option<nat>) returns (r: FsResult<()>)
      requires Valid()
      requires id != ROOT_ID && newParent in entries && newParent in nodes
      requires id in entries ==> !(entries[id].path <= entries[newParent].path)
      requires dest == if newName in nodes[newParent].children then Some(nodes[newParent].children[newName]) else None
      requires dest.Some? ==> dest.value in nodes && nodes[dest.value].children == map[]
      modifies this
      ensures nodeId == old(nodeId)
      ensures r == if id in old(entries) then Ok(()) else Err(NotFound)
      ensures r.Err? ==> Valid() && entries == old(entries)
      ensures r.Ok? ==>
                if MovesOntoItself(old(entries), id, newParent, newName)
                then !exists e: Entries<K, D> :: Labels(nodes, e)
                else && Valid()
                     && id in WithoutPath(old(entries), old(entries)[newParent].path + [newName])
                     && entries == Rerooted(WithoutPath(old(entries), old(entries)[newParent].path + [newName]),
                                            id, old(entries)[newParent].path + [newName])
    {
      ghost var n0, e0 := nodes, entries;
      var unlinked := DeleteNodeFromParent(id);
      if unlinked.Err? {
        return unlinked;
      }
      SelfMoveIffReplaced(n0, e0, id, newParent, newName);
      nodes := nodes[id := nodes[id].(parentId := newParent)];
      if dest.Some? {
        nodes := nodes - {dest.value};
        assert newParent in nodes by {
          assert LinkedDown(n0, e0, newParent, newName);
        }
      }
      nodes := nodes[newParent := nodes[newParent].(children := nodes[newParent].children[newName := id])];
      r := Ok(());
      if dest == Some(id) {
        SelfReplacementIsBroken(nodes, newParent, newName, id);
      } else {
        ghost var p, key := n0[id].parentId, e0[id].path[|e0[id].path| - 1];
        assert nodes == Relinked(n0, id, p, key, newParent, newName);
        entries := MoveEffect(n0, e0, id, p, key, newParent, newName);
      }
    }
  }
}
