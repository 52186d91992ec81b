/**
 The in-memory filesystem and its open files (src/memfs.rs): the tree, proved against the map of
 FsModel. Timestamps are not modelled.
 */
module MemFiles {
  import opened Results
  import opened DavPaths
  import opened Trees
  import opened TreeViews
  import opened FsModel
  import opened FileContents

  type FsEntries = Entries<Bytes, FsNode>

  // ---------------------------------------------------------------------------------------------
  // Tree entries and the map they show

  /** What the map says about a node of the tree. */
  lemma NodeShown(e: FsEntries, i: nat)
    requires PathsUnique(e) && i in e
    ensures e[i].path in ViewOf(e) && ViewOf(e)[e[i].path] == e[i].data
  {
    assert ShownAt(e, ViewOf(e), i);
  }

  lemma TakenIffInView(e: FsEntries, p: Path)
    requires PathsUnique(e)
    ensures PathTaken(e, p) <==> p in ViewOf(e)
  {
    TakenIffShown(e, ViewOf(e), p);
  }

  lemma ViewIs(e: FsEntries, m: FsMap)
    requires PathsUnique(e) && Shows(e, m)
    ensures ViewOf(e) == m
  {
    ShownMapIsUnique(e, m, ViewOf(e));
  }

  /** A lookup that has come as far as `segs[..n]` and looks at the next segment. */
  lemma LookupStep(e: FsEntries, id: nat, segs: Path, n: nat)
    requires PathsUnique(e) && n < |segs| && id in e && e[id].path == segs[..n]
    requires Resolve(ViewOf(e), segs[..n]).Ok?
    ensures e[id].path + [segs[n]] == segs[..n + 1]
    ensures e[id].data.File? ==> Resolve(ViewOf(e), segs) == Err(Forbidden)
    ensures e[id].data.Dir? && !PathTaken(e, segs[..n + 1]) ==> Resolve(ViewOf(e), segs) == Err(NotFound)
    ensures e[id].data.Dir? && PathTaken(e, segs[..n + 1]) ==> Resolve(ViewOf(e), segs[..n + 1]).Ok?
  {
    NodeShown(e, id);
    TakenIffInView(e, segs[..n + 1]);
    ResolveNext(ViewOf(e), segs, n);
  }

  lemma AddedIsShown(nodes: Nodes<Bytes, FsNode>, e: FsEntries, nodes': Nodes<Bytes, FsNode>, id: nat, p: Path,
                     node: FsNode)
    requires Labels(nodes, e) && id !in e && p !in ViewOf(e)
    requires Labels(nodes', WithoutPath(e, p)[id := Entry(p, node)])
    ensures WithoutPath(e, p) == e
    ensures ViewOf(e[id := Entry(p, node)]) == ViewOf(e)[p := node]
  {
    LabelledPathsUnique(nodes, e);
    TakenIffInView(e, p);
    NothingUnderUntaken(nodes, e, p);
    assert WithoutPath(e, p) == e;
    LabelledPathsUnique(nodes', e[id := Entry(p, node)]);
    ShowsAfterAdd(e, ViewOf(e), id, p, node);
    ViewIs(e[id := Entry(p, node)], ViewOf(e)[p := node]);
  }

  lemma SetIsShown(e: FsEntries, id: nat, node: FsNode)
    requires PathsUnique(e) && id in e
    ensures PathsUnique(e[id := Entry(e[id].path, node)])
    ensures ViewOf(e[id := Entry(e[id].path, node)]) == ViewOf(e)[e[id].path := node]
  {
    ShowsAfterSet(e, ViewOf(e), id, node);
    ViewIs(e[id := Entry(e[id].path, node)], ViewOf(e)[e[id].path := node]);
  }

  lemma RemovedIsShown(e: FsEntries, id: nat)
    requires PathsUnique(e) && id in e && !HasBelow(e, id)
    ensures PathsUnique(e - {id}) && e - {id} == WithoutPath(e, e[id].path)
    ensures ViewOf(e - {id}) == ViewOf(e) - {e[id].path}
  {
    assert e - {id} == WithoutPath(e, e[id].path);
    ShowsAfterRemove(e, ViewOf(e), id);
    ViewIs(e - {id}, ViewOf(e) - {e[id].path});
  }

  lemma MoveRebases(m: FsMap, from: Path, to: Path)
    requires WellFormed(m) && RenameRefusal(m, from, to) == None && from != to
    ensures Rebases(m, from, to, Rename(m, from, to).1)
  {
    RenameTargetIsBeside(m, from, to);
    var w := WithoutTree(m, to);
    var m' := Moved(w, from, to);
    forall q | q in m && !(to <= q) ensures RebasedAt(m, from, to, m', q) {
      MovedAt(w, from, to, q);
    }
    forall q' | q' in m' ensures RebasedOnto(m, from, to, q') {
      var q := MovedFrom(w, from, to, q');
    }
  }

  lemma MovedIsShown(nodes: Nodes<Bytes, FsNode>, e: FsEntries, nodes': Nodes<Bytes, FsNode>, id: nat, to: Path)
    requires Labels(nodes, e) && id in WithoutPath(e, to)
    requires WellFormed(ViewOf(e)) && RenameRefusal(ViewOf(e), e[id].path, to) == None && e[id].path != to
    requires Labels(nodes', Rerooted(WithoutPath(e, to), id, to))
    ensures ViewOf(Rerooted(WithoutPath(e, to), id, to)) == Rename(ViewOf(e), e[id].path, to).1
  {
    LabelledPathsUnique(nodes, e);
    LabelledPathsUnique(nodes', Rerooted(WithoutPath(e, to), id, to));
    MoveRebases(ViewOf(e), e[id].path, to);
    ShowsAfterMove(e, ViewOf(e), id, to, Rename(ViewOf(e), e[id].path, to).1);
    ViewIs(Rerooted(WithoutPath(e, to), id, to), Rename(ViewOf(e), e[id].path, to).1);
  }

  /** `move_node` refuses exactly when the rename does, once the lookups have gone through. */
  lemma MoveRefusalIsRenameRefusal(nodes: Nodes<Bytes, FsNode>, e: FsEntries, id: nat, dst: nat, to: Path)
    requires Labels(nodes, e) && WellFormed(ViewOf(e)) && id in e && dst in e
    requires e[dst].path == Init(to) && e[dst].data.Dir?
    requires !(to in ViewOf(e) && ViewOf(e)[to].Dir?)
    requires ParentOf(ViewOf(e), e[id].path).Ok?
    ensures to != [] && e[dst].path + [FileName(to)] == to
    ensures Tree<Bytes, FsNode>.MoveRefusal(e, id, dst, FileName(to), true) == RenameRefusal(ViewOf(e), e[id].path, to)
  {
    var m := ViewOf(e);
    LabelledPathsUnique(nodes, e);
    NodeShown(e, id);
    NodeShown(e, dst);
    ResolvesIffStored(m, e[id].path);
    ResolvesIffStored(m, Init(to));
    RootIffEmptyPath(nodes, e, id);
    assert to != [];
    forall i | i in e && to < e[i].path ensures !PathTaken(e, to) {
      NodeShown(e, i);
      TakenIffInView(e, to);
      AncestorStored(m, to, e[i].path);
    }
  }

  // ---------------------------------------------------------------------------------------------
  // Node identity

  /** Node `i` stays where it is and what it is, and keeps its data unless it stands at `p`. */
  ghost predicate KeptBut(e: FsEntries, e': FsEntries, i: nat, p: Path)
    requires i in e
  {
    && i in e' && e'[i].path == e[i].path && e'[i].data.Dir? == e[i].data.Dir?
    && (e[i].path != p ==> e'[i].data == e[i].data)
  }

  ghost predicate NewOnlyAt(e: FsEntries, n: nat, e': FsEntries, i: nat, p: Path)
    requires i in e'
  {
    i in e || (n <= i && e'[i].path == p)
  }

  /** No node is lost, moved or taken for another; nodes are made, and data changed, at `p` only. */
  ghost predicate TouchesOnly(e: FsEntries, n: nat, e': FsEntries, n': nat, p: Path) {
    && n <= n'
    && (forall i {:trigger KeptBut(e, e', i, p)} :: i in e ==> KeptBut(e, e', i, p))
    && (forall i {:trigger NewOnlyAt(e, n, e', i, p)} :: i in e' ==> NewOnlyAt(e, n, e', i, p))
  }

  lemma TouchesTwice(e: FsEntries, n: nat, e': FsEntries, n': nat, e'': FsEntries, n'': nat, p: Path)
    requires TouchesOnly(e, n, e', n', p) && TouchesOnly(e', n', e'', n'', p)
    ensures TouchesOnly(e, n, e'', n'', p)
  {
    forall i | i in e ensures KeptBut(e, e'', i, p) {
      assert KeptBut(e, e', i, p) && KeptBut(e', e'', i, p);
    }
    forall i | i in e'' ensures NewOnlyAt(e, n, e'', i, p) {
      assert NewOnlyAt(e', n', e'', i, p);
      if i in e' {
        assert NewOnlyAt(e, n, e', i, p) && KeptBut(e', e'', i, p);
      }
    }
  }

  lemma SetTouches(e: FsEntries, n: nat, id: nat, node: FsNode)
    requires id in e && node.Dir? == e[id].data.Dir?
    ensures TouchesOnly(e, n, e[id := Entry(e[id].path, node)], n, e[id].path)
  {}

  lemma AddTouches(e: FsEntries, id: nat, p: Path, node: FsNode)
    requires id !in e
    ensures TouchesOnly(e, id, e[id := Entry(p, node)], id + 1, p)
  {}

  // ---------------------------------------------------------------------------------------------
  // The filesystem

  datatype DirEntry = DirEntry(name: Bytes, isDir: bool, size: nat, isCalendar: bool, isAddressbook: bool)

  /** `as_dirent` */
  function Dirent(n: FsNode, name: Bytes): DirEntry {
    match n
    case File(_, data) => DirEntry(name, false, |data|, false, false)
    case Dir(_, isCalendar, isAddressbook) => DirEntry(name, true, 0, isCalendar, isAddressbook)
  }

  ghost predicate ListedRight(m: FsMap, p: Path, item: DirEntry) {
    p + [item.name] in m && item == Dirent(m[p + [item.name]], item.name)
  }

  /** `items` describes the direct children of `p`, each exactly once. */
  ghost predicate ListsChildren(m: FsMap, p: Path, items: seq<DirEntry>) {
    && (forall n :: 0 <= n < |items| ==> ListedRight(m, p, items[n]))
    && (forall name :: p + [name] in m ==> exists n :: 0 <= n < |items| && items[n].name == name)
    && (forall j, n :: 0 <= j < n < |items| ==> items[j].name != items[n].name)
  }

  ghost predicate DescribesChildren(e: FsEntries, children: seq<(Bytes, nat)>, items: seq<DirEntry>) {
    && |items| == |children|
    && forall n :: 0 <= n < |items| ==>
         children[n].1 in e && items[n] == Dirent(e[children[n].1].data, children[n].0)
  }

  lemma ListedChildExists(e: FsEntries, id: nat, children: seq<(Bytes, nat)>, items: seq<DirEntry>, n: nat)
    requires PathsUnique(e) && id in e && EnumeratesChildren(e, id, children)
    requires DescribesChildren(e, children, items) && n < |items|
    ensures items[n].name == children[n].0
    ensures e[id].path + [items[n].name] in ViewOf(e)
    ensures items[n] == Dirent(ViewOf(e)[e[id].path + [items[n].name]], items[n].name)
  {
    NodeShown(e, children[n].1);
  }

  lemma ExistingChildListed(e: FsEntries, id: nat, children: seq<(Bytes, nat)>, items: seq<DirEntry>, name: Bytes)
    returns (n: nat)
    requires PathsUnique(e) && id in e && EnumeratesChildren(e, id, children)
    requires DescribesChildren(e, children, items) && e[id].path + [name] in ViewOf(e)
    ensures n < |items| && items[n].name == name
  {
    var p := e[id].path + [name];
    TakenIffInView(e, p);
    var i :| i in e && e[i].path == p;
    assert |e[i].path| == |e[id].path| + 1 && e[id].path < e[i].path;
    n :| 0 <= n < |children| && children[n].1 == i;
    ListedChildExists(e, id, children, items, n);
    assert e[i].path == e[id].path + [children[n].0];
    assert p[|e[id].path|] == name;
  }

  lemma ChildrenListed(e: FsEntries, id: nat, children: seq<(Bytes, nat)>, items: seq<DirEntry>)
    requires PathsUnique(e) && id in e && EnumeratesChildren(e, id, children) && DescribesChildren(e, children, items)
    ensures ListsChildren(ViewOf(e), e[id].path, items)
  {
    var m, p := ViewOf(e), e[id].path;
    forall n | 0 <= n < |items| ensures ListedRight(m, p, items[n]) && items[n].name == children[n].0 {
      ListedChildExists(e, id, children, items, n);
    }
    forall name | p + [name] in m ensures exists n :: 0 <= n < |items| && items[n].name == name {
      var n := ExistingChildListed(e, id, children, items, name);
    }
    forall j, n | 0 <= j < n < |items| ensures items[j].name != items[n].name {
      assert items[j].name == children[j].0 && items[n].name == children[n].0;
    }
  }

  /** Every node but a replaced one keeps its id and data; its path is re-rooted if it lay at or below `from`. */
  ghost predicate FollowsRename(e: FsEntries, from: Path, to: Path, e': FsEntries) {
    forall i {:trigger FollowsAt(e, from, to, e', i)} :: FollowsAt(e, from, to, e', i)
  }

  ghost predicate FollowsAt(e: FsEntries, from: Path, to: Path, e': FsEntries, i: nat) {
    && (i in e' <==> i in e && e[i].path != to)
    && (i in e' ==> e'[i] == Entry(Rebased(e[i].path, from, to), e[i].data))
  }

  lemma RenameIsShown(nodes: Nodes<Bytes, FsNode>, e: FsEntries, nodes': Nodes<Bytes, FsNode>, e': FsEntries, id: nat,
                      to: Path)
    requires Labels(nodes, e) && WellFormed(ViewOf(e)) && id in e
    ensures RenameRefusal(ViewOf(e), e[id].path, to) == None && e[id].path != to
            && id in WithoutPath(e, to) && Labels(nodes', e') && e' == Rerooted(WithoutPath(e, to), id, to) ==>
              && WellFormed(ViewOf(e'))
              && ViewOf(e') == FsModel.Rename(ViewOf(e), e[id].path, to).1
              && FollowsRename(e, e[id].path, to, e')
  {
    if RenameRefusal(ViewOf(e), e[id].path, to) == None && e[id].path != to
       && id in WithoutPath(e, to) && Labels(nodes', e') && e' == Rerooted(WithoutPath(e, to), id, to) {
      MovedIsShown(nodes, e, nodes', id, to);
      MoveKeepsWellFormed(ViewOf(e), e[id].path, to);
      LabelledPathsUnique(nodes, e);
      RenameIsFollowed(e, id, to);
    }
  }

  lemma RenameIsFollowed(e: FsEntries, id: nat, to: Path)
    requires PathsUnique(e) && WellFormed(ViewOf(e)) && id in WithoutPath(e, to)
    requires RenameRefusal(ViewOf(e), e[id].path, to) == None
    ensures FollowsRename(e, e[id].path, to, Rerooted(WithoutPath(e, to), id, to))
  {
    RenameTargetIsBeside(ViewOf(e), e[id].path, to);
    forall i | i in e && to <= e[i].path ensures e[i].path == to {
      NodeShown(e, i);
      AncestorStored(ViewOf(e), to, e[i].path);
    }
  }

  /** Opening the destination of a copy does not change the source, not even if they are the same. */
  lemma CopySourceSurvives(m: FsMap, from: Path, to: Path, oo: OpenOptions)
    requires WellFormed(m) && !oo.truncate
    ensures from in m ==> from in Open(m, to, oo).1 && Open(m, to, oo).1[from] == m[from]
  {
    ResolvesIffStored(m, to);
  }

  lemma WithPropsKeepsWellFormed(m: FsMap, p: Path, props: Props)
    requires WellFormed(m) && p in m
    ensures WellFormed(m[p := WithProps(m[p], props)])
  {
    if p != [] {
      assert HasParentDir(m, p);
      AddKeepsWellFormed(m, p, WithProps(m[p], props));
    } else {
      RootKeepsWellFormed(m, WithProps(m[p], props));
    }
  }

  lemma RootKeepsWellFormed(m: FsMap, n: FsNode)
    requires WellFormed(m) && n.Dir?
    ensures WellFormed(m[[] := n])
  {
    var m' := m[[] := n];
    forall q | q in m' && q != [] ensures HasParentDir(m', q) {
      assert HasParentDir(m, q);
    }
  }

  ghost function Marked(m: FsMap, p: Path, calendar: bool): (FsResult<()>, FsMap) {
    if Resolve(m, p).Err? then (Resolve(m, p), m)
    else if p !in m || !m[p].Dir? then (Err(Forbidden), m)
    else (Ok(()), m[p := if calendar then m[p].(isCalendar := true) else m[p].(isAddressbook := true)])
  }

  lemma MarkKeepsWellFormed(m: FsMap, p: Path, calendar: bool)
    requires WellFormed(m)
    ensures WellFormed(Marked(m, p, calendar).1)
  {
    var n := Marked(m, p, calendar).1;
    if n != m {
      if p != [] {
        assert HasParentDir(m, p);
        AddKeepsWellFormed(m, p, n[p]);
      } else {
        RootKeepsWellFormed(m, n[p]);
      }
    }
  }

  /** `cloneprop`: the property without its value. */
  function ClonedProp(p: DavProp): DavProp {
    p.(xml := None)
  }

  method PatchAll(props: Props, patch: seq<(bool, DavProp)>) returns (props': Props, done: seq<DavProp>)
    ensures props' == Patched(props, patch)
    ensures |done| == |patch| && forall n :: 0 <= n < |patch| ==> done[n] == ClonedProp(patch[n].1)
  {
    props', done := props, [];
    for n := 0 to |patch|
      invariant props' == Patched(props, patch[..n])
      invariant |done| == n && forall k :: 0 <= k < n ==> done[k] == ClonedProp(patch[k].1)
    {
      var (set_, p) := patch[n];
      if set_ {
        props' := props'[PropKey(p) := p];
      } else {
        props' := props' - {PropKey(p)};
      }
      done := done + [ClonedProp(p)];
      assert patch[..n + 1][..n] == patch[..n];
    }
    assert patch[..|patch|] == patch;
  }

  /** `listed` is all properties in the order of `keys`, which names each property once. */
  ghost predicate PropsListed(props: Props, keys: seq<string>, doContent: bool, listed: seq<DavProp>) {
    && |keys| == |listed|
    && (forall k :: k in props <==> k in keys)
    && (forall a, b :: 0 <= a < b < |keys| ==> keys[a] != keys[b])
    && (forall n :: 0 <= n < |keys| ==>
          keys[n] in props && listed[n] == if doContent then props[keys[n]] else ClonedProp(props[keys[n]]))
  }

  method ListProps(props: Props, doContent: bool) returns (listed: seq<DavProp>, ghost keys: seq<string>)
    ensures PropsListed(props, keys, doContent, listed)
  {
    listed, keys := [], [];
    var left := props.Keys;
    while left != {}
      invariant left <= props.Keys && |keys| == |listed|
      invariant forall k :: k in props <==> k in keys || k in left
      invariant forall n :: 0 <= n < |keys| ==> keys[n] !in left
      invariant forall a, b :: 0 <= a < b < |keys| ==> keys[a] != keys[b]
      invariant forall n :: 0 <= n < |keys| ==>
                  keys[n] in props && listed[n] == if doContent then props[keys[n]] else ClonedProp(props[keys[n]])
      decreases left
    {
      var k :| k in left;
      listed := listed + [if doContent then props[k] else ClonedProp(props[k])];
      keys := keys + [k];
      left := left - {k};
    }
  }

  ghost predicate ExactNames(m: FsMap, top: Path, names: set<Bytes>) {
    forall name {:trigger top + [name]} :: top + [name] in m <==> name in names
  }

  ghost function NamesOf(items: seq<DirEntry>, n: nat): set<Bytes>
    requires n <= |items|
  {
    set k | 0 <= k < n :: items[k].name
  }

  lemma NextName(items: seq<DirEntry>, n: nat)
    requires n < |items| && forall j, k :: 0 <= j < k < |items| ==> items[j].name != items[k].name
    ensures items[n].name !in NamesOf(items, n)
    ensures NamesOf(items, n + 1) == NamesOf(items, n) + {items[n].name}
  {}

  lemma ListedNamesExact(m: FsMap, p: Path, items: seq<DirEntry>)
    requires ListsChildren(m, p, items)
    ensures ExactNames(m, p, NamesOf(items, |items|))
  {
    forall name ensures p + [name] in m <==> name in NamesOf(items, |items|) {
      if name in NamesOf(items, |items|) {
        var k :| 0 <= k < |items| && items[k].name == name;
        assert ListedRight(m, p, items[k]);
      }
    }
  }

  class MemFs {
    const tree: Tree<Bytes, FsNode>

    ghost function View(): FsMap
      reads tree
    {
      ViewOf(tree.entries)
    }

    ghost predicate Valid()
      reads tree
    {
      tree.Valid() && WellFormed(View())
    }

    constructor ()
      ensures Valid() && fresh(tree) && View() == map[[] := NEW_DIR]
    {
      var t := new Tree<Bytes, FsNode>(NEW_DIR);
      tree := t;
      new;
      LabelledPathsUnique(tree.nodes, tree.entries);
      assert Shows(tree.entries, map[[] := NEW_DIR]) by {
        assert tree.entries[ROOT_ID].path == [];
      }
      ViewIs(tree.entries, map[[] := NEW_DIR]);
    }

    method LookupSegs(segs: Path) returns (r: FsResult<nat>)
      requires Valid()
      ensures r.Ok? ==> Resolve(View(), segs).Ok? && r.value in tree.entries && tree.entries[r.value].path == segs
      ensures r.Err? ==> Resolve(View(), segs) == Err(r.error)
    {
      var nodeId := ROOT_ID;
      ghost var e := tree.entries;
      LabelledPathsUnique(tree.nodes, e);
      for n := 0 to |segs|
        invariant nodeId in e && e[nodeId].path == segs[..n]
        invariant Resolve(ViewOf(e), segs[..n]).Ok?
      {
        LookupStep(e, nodeId, segs, n);
        var node := tree.GetNode(nodeId);
        if !node.value.Dir? {
          return Err(Forbidden);
        }
        var child := tree.GetChild(nodeId, segs[n]);
        if child.Err? {
          return Err(child.error);
        }
        nodeId := child.value;
        assert PathTaken(e, segs[..n + 1]);
      }
      assert segs[..|segs|] == segs;
      r := Ok(nodeId);
    }

    method Lookup(path: Bytes) returns (r: FsResult<nat>)
      requires Valid()
      ensures r.Ok? ==>
                Resolve(View(), Segs(path)).Ok? && r.value in tree.entries && tree.entries[r.value].path == Segs(path)
      ensures r.Err? ==> Resolve(View(), Segs(path)) == Err(r.error)
    {
      r := LookupSegs(Segs(path));
    }

    method LookupParent(path: Bytes) returns (r: FsResult<nat>)
      requires Valid()
      ensures r.Ok? ==>
                && ParentOf(View(), Segs(path)).Ok?
                && r.value in tree.entries && tree.entries[r.value].path == Init(Segs(path))
                && tree.entries[r.value].data.Dir?
      ensures r.Err? ==> ParentOf(View(), Segs(path)) == Err(r.error)
    {
      LabelledPathsUnique(tree.nodes, tree.entries);
      r := LookupSegs(Init(Segs(path)));
      if r.Err? {
        return;
      }
      NodeShown(tree.entries, r.value);
      var node := tree.GetNode(r.value);
      if !node.value.Dir? {
        return Err(Forbidden);
      }
    }

    method Metadata(path: Bytes) returns (r: FsResult<DirEntry>)
      requires Valid()
      ensures Resolve(View(), Segs(path)).Err? ==> r == Err(Resolve(View(), Segs(path)).error)
      ensures Resolve(View(), Segs(path)).Ok? ==> Segs(path) in View() && r == Ok(Dirent(View()[Segs(path)], path))
    {
      LabelledPathsUnique(tree.nodes, tree.entries);
      var nodeId := Lookup(path);
      if nodeId.Err? {
        return Err(nodeId.error);
      }
      NodeShown(tree.entries, nodeId.value);
      var node := tree.GetNode(nodeId.value);
      r := Ok(Dirent(node.value, path));
    }

    method ReadDir(path: Bytes) returns (r: FsResult<seq<DirEntry>>)
      requires Valid()
      ensures Resolve(View(), Segs(path)).Err? ==> r == Err(Resolve(View(), Segs(path)).error)
      ensures Segs(path) in View() && View()[Segs(path)].File? ==> r == Err(Forbidden)
      ensures Segs(path) in View() && View()[Segs(path)].Dir? ==>
                r.Ok? && ListsChildren(View(), Segs(path), r.value)
    {
      LabelledPathsUnique(tree.nodes, tree.entries);
      ResolvesIffStored(View(), Segs(path));
      var nodeId := Lookup(path);
      if nodeId.Err? {
        return Err(nodeId.error);
      }
      NodeShown(tree.entries, nodeId.value);
      var node := tree.GetNode(nodeId.value);
      if !node.value.Dir? {
        return Err(Forbidden);
      }
      var children := tree.GetChildren(nodeId.value);
      var v := DirentsOf(nodeId.value, children.value);
      ChildrenListed(tree.entries, nodeId.value, children.value, v);
      r := Ok(v);
    }

    /** The loop of `read_dir`: describe each child. */
    method DirentsOf(ghost nodeId: nat, children: seq<(Bytes, nat)>) returns (v: seq<DirEntry>)
      requires Valid() && nodeId in tree.entries && EnumeratesChildren(tree.entries, nodeId, children)
      ensures DescribesChildren(tree.entries, children, v)
    {
      v := [];
      for n := 0 to |children|
        invariant |v| == n
        invariant forall k :: 0 <= k < n ==> children[k].1 in tree.entries
        invariant forall k :: 0 <= k < n ==> v[k] == Dirent(tree.entries[children[k].1].data, children[k].0)
      {
        var (name, childId) := children[n];
        var child := tree.GetNode(childId);
        v := v + [Dirent(child.value, name)];
      }
    }

    /** `do_open`: find or create the file, truncate it if so asked, and hand out a new handle at its start. */
    method DoOpen(path: Bytes, options: OpenOptions) returns (r: FsResult<MemFsFile>)
      requires Valid()
      modifies tree
      ensures Valid() && TouchesOnly(old(tree.entries), old(tree.nodeId), tree.entries, tree.nodeId, Segs(path))
      ensures View() == FsModel.Open(old(View()), Segs(path), options).1
      ensures r.Ok? ==>
                && FsModel.Open(old(View()), Segs(path), options).0.Ok?
                && fresh(r.value) && r.value.tree == tree && r.value.pos == 0 && r.value.append == options.append
                && r.value.nodeId in tree.entries && tree.entries[r.value.nodeId].path == Segs(path)
                && tree.entries[r.value.nodeId].data.File?
      ensures r.Err? ==> FsModel.Open(old(View()), Segs(path), options).0 == Err(r.error)
    {
      OpenKeepsWellFormed(View(), Segs(path), options);
      ghost var e0, n0 := tree.entries, tree.nodeId;
      var nodeId := FindOrCreate(path, options);
      if nodeId.Err? {
        return Err(nodeId.error);
      }
      ghost var e1, n1 := tree.entries, tree.nodeId;
      var opened_ := OpenNode(nodeId.value, options);
      TouchesTwice(e0, n0, e1, n1, tree.entries, tree.nodeId, Segs(path));
      if opened_.Err? {
        return Err(opened_.error);
      }
      var file := new MemFsFile(tree, nodeId.value, options.append);
      r := Ok(file);
    }

    /** The first half of `do_open`: the node to open. */
    method FindOrCreate(path: Bytes, options: OpenOptions) returns (r: FsResult<nat>)
      requires Valid()
      modifies tree
      ensures tree.Valid() && TouchesOnly(old(tree.entries), old(tree.nodeId), tree.entries, tree.nodeId, Segs(path))
      ensures r.Err? ==>
                FsModel.Open(old(View()), Segs(path), options) == (Err(r.error), old(View())) && View() == old(View())
      ensures r.Ok? ==>
                && r.value in tree.entries && tree.entries[r.value].path == Segs(path)
                && FsModel.Open(old(View()), Segs(path), options) == FsModel.Opened(View(), Segs(path), options)
    {
      ResolvesIffStored(View(), Segs(path));
      var found := Lookup(path);
      if found.Ok? {
        if options.createNew {
          return Err(Exists);
        }
        return found;
      }
      if found.error != NotFound {
        return found;
      }
      if !options.create {
        return Err(NotFound);
      }
      var parent := LookupParent(path);
      if parent.Err? {
        return parent;
      }
      var added := AddNew(parent.value, path);
      r := Ok(added);
    }

    /** The second half of `do_open`: directories are refused, and the file is truncated if so asked. */
    method OpenNode(nodeId: nat, options: OpenOptions) returns (r: FsResult<()>)
      requires tree.Valid() && nodeId in tree.entries
      modifies tree
      ensures tree.Valid()
      ensures TouchesOnly(old(tree.entries), old(tree.nodeId), tree.entries, tree.nodeId,
                          old(tree.entries)[nodeId].path)
      ensures (r, View()) == FsModel.Opened(old(View()), old(tree.entries)[nodeId].path, options)
      ensures nodeId in tree.entries && tree.entries[nodeId].path == old(tree.entries)[nodeId].path
      ensures r.Ok? ==> tree.entries[nodeId].data.File?
    {
      LabelledPathsUnique(tree.nodes, tree.entries);
      NodeShown(tree.entries, nodeId);
      var node := tree.GetNode(nodeId);
      if node.value.Dir? {
        return Err(Forbidden);
      }
      if options.truncate {
        SetIsShown(tree.entries, nodeId, node.value.(data := []));
        SetTouches(tree.entries, tree.nodeId, nodeId, node.value.(data := []));
        var cleared := tree.SetNode(nodeId, node.value.(data := []));
      }
      r := Ok(());
    }

    /** Put an empty file where nothing is. */
    method AddNew(parentId: nat, path: Bytes) returns (nodeId: nat)
      requires Valid() && Resolve(View(), Segs(path)) == Err(NotFound)
      requires parentId in tree.entries && tree.entries[parentId].path == Init(Segs(path))
      requires tree.entries[parentId].data.Dir?
      modifies tree
      ensures tree.Valid() && PathsUnique(tree.entries)
      ensures TouchesOnly(old(tree.entries), old(tree.nodeId), tree.entries, tree.nodeId, Segs(path))
      ensures View() == old(View())[Segs(path) := NEW_FILE]
      ensures nodeId in tree.entries && tree.entries[nodeId].path == Segs(path)
    {
      ghost var nodes, e, p := tree.nodes, tree.entries, Segs(path);
      LabelledPathsUnique(nodes, e);
      ResolvesIffStored(ViewOf(e), p);
      assert Init(p) + [FileName(p)] == p;
      var added := tree.AddChild(parentId, FileName(Segs(path)), NEW_FILE, true);
      nodeId := added.value;
      AddedIsShown(nodes, e, tree.nodes, nodeId, p, NEW_FILE);
      AddTouches(e, nodeId, p, NEW_FILE);
      LabelledPathsUnique(tree.nodes, tree.entries);
    }

    method CreateDir(path: Bytes) returns (r: FsResult<()>)
      requires Valid()
      modifies tree
      ensures Valid() && TouchesOnly(old(tree.entries), old(tree.nodeId), tree.entries, tree.nodeId, Target(Segs(path)))
      ensures (r, View()) == FsModel.CreateDir(old(View()), Segs(path))
    {
      ghost var nodes, e, p := tree.nodes, tree.entries, Segs(path);
      LabelledPathsUnique(nodes, e);
      CreateDirKeepsWellFormed(ViewOf(e), p);
      var parent := LookupParent(path);
      if parent.Err? {
        return Err(parent.error);
      }
      TakenIffInView(e, Target(p));
      var added := tree.AddChild(parent.value, FileName(Segs(path)), NEW_DIR, false);
      if added.Err? {
        return Err(added.error);
      }
      AddedIsShown(nodes, e, tree.nodes, added.value, Target(p), NEW_DIR);
      AddTouches(e, added.value, Target(p), NEW_DIR);
      r := Ok(());
    }

    /** `remove_file` and `remove_dir`, which are the same code: remove a childless node. */
    method Remove(path: Bytes) returns (r: FsResult<()>)
      requires Valid()
      modifies tree
      ensures Valid() && tree.nodeId == old(tree.nodeId)
      ensures tree.entries == if r.Ok? then WithoutPath(old(tree.entries), Segs(path)) else old(tree.entries)
      ensures (r, View()) == FsModel.Remove(old(View()), Segs(path))
    {
      ghost var nodes, e, p := tree.nodes, tree.entries, Segs(path);
      LabelledPathsUnique(nodes, e);
      RemoveStepKeepsWellFormed(ViewOf(e), p);
      var parent := LookupParent(path);
      if parent.Err? {
        return Err(parent.error);
      }
      var nodeId := Lookup(path);
      if nodeId.Err? {
        return Err(nodeId.error);
      }
      HasBelowIffShown(e, ViewOf(e), nodeId.value);
      RootIffEmptyPath(nodes, e, nodeId.value);
      var deleted := tree.DeleteNode(nodeId.value);
      if deleted.Err? {
        return Err(deleted.error);
      }
      RemovedIsShown(e, nodeId.value);
      r := Ok(());
    }

    /**
     Rename, replacing a file but never a directory. A file renamed to itself is lost together with
     the tree's integrity; every other rename that goes ahead re-roots the subtree, and each node in
     it stays the node it was.
     */
    method Rename(from: Bytes, to: Bytes) returns (r: FsResult<()>)
      requires Valid()
      modifies tree
      ensures RenameRefusal(old(View()), Segs(from), Segs(to)).Some? ==>
                Valid() && View() == old(View()) && tree.entries == old(tree.entries) && tree.nodeId == old(tree.nodeId)
                && r == Err(RenameRefusal(old(View()), Segs(from), Segs(to)).value)
      ensures RenameRefusal(old(View()), Segs(from), Segs(to)) == None ==> r == Ok(())
      ensures RenameRefusal(old(View()), Segs(from), Segs(to)) == None && Segs(from) != Segs(to) ==>
                && Valid() && tree.nodeId == old(tree.nodeId)
                && View() == FsModel.Rename(old(View()), Segs(from), Segs(to)).1
                && FollowsRename(old(tree.entries), Segs(from), Segs(to), tree.entries)
      ensures RenameRefusal(old(View()), Segs(from), Segs(to)) == None && Segs(from) == Segs(to) ==>
                !exists e: FsEntries :: Labels(tree.nodes, e)
    {
      ghost var nodes, e := tree.nodes, tree.entries;
      var ends := RenameEnds(from, to);
      if ends.Err? {
        return Err(ends.error);
      }
      r := tree.MoveNode(ends.value.0, ends.value.1, FileName(Segs(to)), true);
      RenameIsShown(nodes, e, tree.nodes, tree.entries, ends.value.0, Segs(to));
    }

    /** The lookups and checks of `rename`: the node to move and the directory to move it into. */
    method RenameEnds(from: Bytes, to: Bytes) returns (r: FsResult<(nat, nat)>)
      requires Valid()
      ensures r.Err? ==> RenameRefusal(View(), Segs(from), Segs(to)) == Some(r.error)
      ensures r.Ok? ==>
                && var (id, dst) := r.value;
                && id in tree.entries && tree.entries[id].path == Segs(from)
                && dst in tree.entries && tree.entries[dst].path + [FileName(Segs(to))] == Segs(to)
                && Tree<Bytes, FsNode>.MoveRefusal(tree.entries, id, dst, FileName(Segs(to)), true)
                   == RenameRefusal(View(), Segs(from), Segs(to))
    {
      ghost var nodes, e := tree.nodes, tree.entries;
      LabelledPathsUnique(nodes, e);
      var nodeId := Lookup(from);
      if nodeId.Err? {
        return Err(nodeId.error);
      }
      var parentId := LookupParent(from);
      if parentId.Err? {
        return Err(parentId.error);
      }
      var dstId := LookupParent(to);
      if dstId.Err? {
        return Err(dstId.error);
      }
      ResolvesIffStored(ViewOf(e), Segs(to));
      var existing := Lookup(to);
      if existing.Ok? {
        NodeShown(e, existing.value);
        var node := tree.GetNode(existing.value);
        if node.value.Dir? {
          return Err(Exists);
        }
      }
      MoveRefusalIsRenameRefusal(nodes, e, nodeId.value, dstId.value, Segs(to));
      r := Ok((nodeId.value, dstId.value));
    }

    /** Copy a file's properties and bytes, creating the destination if needed. */
    method Copy(from: Bytes, to: Bytes) returns (r: FsResult<()>)
      requires Valid()
      modifies tree
      ensures Valid() && TouchesOnly(old(tree.entries), old(tree.nodeId), tree.entries, tree.nodeId, Segs(to))
      ensures (r, View()) == CopyFile(old(View()), Segs(from), Segs(to))
    {
      var oo := OpenOptions(false, false, true, false);
      ghost var m, e0, n0 := View(), tree.entries, tree.nodeId;
      LabelledPathsUnique(tree.nodes, e0);
      CopyFileKeepsWellFormed(m, Segs(from), Segs(to));
      CopySourceSurvives(m, Segs(from), Segs(to), oo);
      var sourceId := Lookup(from);
      if sourceId.Err? {
        return Err(sourceId.error);
      }
      NodeShown(e0, sourceId.value);
      var source := tree.GetNode(sourceId.value);
      if source.value.Dir? {
        return Err(Forbidden);
      }
      var file := DoOpen(to, oo);
      if file.Err? {
        return Err(file.error);
      }
      ghost var e1, n1 := tree.entries, tree.nodeId;
      ResolvesIffStored(View(), Segs(to));
      CopyTo(to, source.value);
      TouchesTwice(e0, n0, e1, n1, tree.entries, tree.nodeId, Segs(to));
      r := Ok(());
    }

    /** The last steps of `copy`: put the source's properties and bytes into the destination. */
    method CopyTo(to: Bytes, source: FsNode)
      requires Valid() && source.File? && Segs(to) in View() && View()[Segs(to)].File?
      modifies tree
      ensures tree.Valid() && TouchesOnly(old(tree.entries), old(tree.nodeId), tree.entries, tree.nodeId, Segs(to))
      ensures View() == old(View())[Segs(to) := File(source.props, source.data)]
    {
      LabelledPathsUnique(tree.nodes, tree.entries);
      ResolvesIffStored(View(), Segs(to));
      var destId := Lookup(to);
      NodeShown(tree.entries, destId.value);
      SetIsShown(tree.entries, destId.value, File(source.props, source.data));
      SetTouches(tree.entries, tree.nodeId, destId.value, File(source.props, source.data));
      var copied := tree.SetNode(destId.value, File(source.props, source.data));
    }

    /** Set and remove dead properties one after another; each one is reported as done, without its value. */
    method PatchProps(path: Bytes, patch: seq<(bool, DavProp)>) returns (r: FsResult<seq<DavProp>>)
      requires Valid()
      modifies tree
      ensures Valid() && TouchesOnly(old(tree.entries), old(tree.nodeId), tree.entries, tree.nodeId, Segs(path))
      ensures Resolve(old(View()), Segs(path)).Err? ==>
                View() == old(View()) && r == Err(Resolve(old(View()), Segs(path)).error)
      ensures Resolve(old(View()), Segs(path)).Ok? ==>
                && Segs(path) in old(View())
                && (var was := old(View())[Segs(path)];
                    View() == old(View())[Segs(path) := WithProps(was, Patched(was.props, patch))])
                && r.Ok? && |r.value| == |patch|
                && forall n :: 0 <= n < |patch| ==> r.value[n] == ClonedProp(patch[n].1)
    {
      ghost var m := View();
      LabelledPathsUnique(tree.nodes, tree.entries);
      ResolvesIffStored(m, Segs(path));
      var nodeId := Lookup(path);
      if nodeId.Err? {
        return Err(nodeId.error);
      }
      NodeShown(tree.entries, nodeId.value);
      var node := tree.GetNode(nodeId.value);
      var props, done := PatchAll(node.value.props, patch);
      SetIsShown(tree.entries, nodeId.value, WithProps(node.value, props));
      SetTouches(tree.entries, tree.nodeId, nodeId.value, WithProps(node.value, props));
      WithPropsKeepsWellFormed(m, Segs(path), props);
      var set_ := tree.SetNode(nodeId.value, WithProps(node.value, props));
      r := Ok(done);
    }

    /** All dead properties of a node, with or without their values. */
    method GetProps(path: Bytes, doContent: bool) returns (r: FsResult<seq<DavProp>>, ghost keys: seq<string>)
      requires Valid()
      ensures Resolve(View(), Segs(path)).Err? ==> r == Err(Resolve(View(), Segs(path)).error)
      ensures Resolve(View(), Segs(path)).Ok? ==>
                Segs(path) in View() && r.Ok? && PropsListed(View()[Segs(path)].props, keys, doContent, r.value)
    {
      keys := [];
      LabelledPathsUnique(tree.nodes, tree.entries);
      ResolvesIffStored(View(), Segs(path));
      var nodeId := Lookup(path);
      if nodeId.Err? {
        return Err(nodeId.error), [];
      }
      NodeShown(tree.entries, nodeId.value);
      var node := tree.GetNode(nodeId.value);
      var res;
      res, keys := ListProps(node.value.props, doContent);
      r := Ok(res);
    }

    method GetProp(path: Bytes, prop: DavProp) returns (r: FsResult<Bytes>)
      requires Valid()
      ensures Resolve(View(), Segs(path)).Err? ==> r == Err(Resolve(View(), Segs(path)).error)
      ensures Resolve(View(), Segs(path)).Ok? ==>
                && Segs(path) in View()
                && var props := View()[Segs(path)].props;
                   r == if PropKey(prop) in props && props[PropKey(prop)].xml.Some?
                        then Ok(props[PropKey(prop)].xml.value) else Err(NotFound)
    {
      LabelledPathsUnique(tree.nodes, tree.entries);
      ResolvesIffStored(View(), Segs(path));
      var nodeId := Lookup(path);
      if nodeId.Err? {
        return Err(nodeId.error);
      }
      NodeShown(tree.entries, nodeId.value);
      var node := tree.GetNode(nodeId.value);
      var props := node.value.props;
      if PropKey(prop) !in props || props[PropKey(prop)].xml.None? {
        return Err(NotFound);
      }
      r := Ok(props[PropKey(prop)].xml.value);
    }

    /** `mark_calendar` and `mark_addressbook`: set a mark on a directory; it is never taken off again. */
    method Mark(path: Bytes, calendar: bool) returns (r: FsResult<()>)
      requires Valid()
      modifies tree
      ensures Valid() && TouchesOnly(old(tree.entries), old(tree.nodeId), tree.entries, tree.nodeId, Segs(path))
      ensures (r, View()) == Marked(old(View()), Segs(path), calendar)
    {
      ghost var m := View();
      LabelledPathsUnique(tree.nodes, tree.entries);
      ResolvesIffStored(m, Segs(path));
      var nodeId := Lookup(path);
      if nodeId.Err? {
        return Err(nodeId.error);
      }
      NodeShown(tree.entries, nodeId.value);
      var node := tree.GetNode(nodeId.value);
      if !node.value.Dir? {
        return Err(Forbidden);
      }
      var dir := if calendar then node.value.(isCalendar := true) else node.value.(isAddressbook := true);
      SetIsShown(tree.entries, nodeId.value, dir);
      SetTouches(tree.entries, tree.nodeId, nodeId.value, dir);
      MarkKeepsWellFormed(m, Segs(path), calendar);
      r := tree.SetNode(nodeId.value, dir);
    }
  }

  /** `grow_to` */
  method GrowTo(data: FileData, end: nat, allocOk: bool) returns (r: FsResult<()>, data': FileData)
    ensures r == if |data| < end && (!allocOk || end > ISIZE_MAX) then Err(InsufficientStorage) else Ok(())
    ensures data' == if r.Ok? then ZeroExtended(data, end) else data
  {
    data' := data;
    if end > |data| {
      if !allocOk || end > ISIZE_MAX {
        return Err(InsufficientStorage), data;
      }
      data' := data + Zeros(end - |data|);
    }
    r := Ok(());
  }

  /** The common start of both writes: go to the end for an append, and make room for `len` bytes. */
  method MakeRoom(data: FileData, pos: nat, append: bool, len: nat, allocOk: bool)
    returns (r: FsResult<()>, data': FileData, start: nat)
    requires pos <= USIZE_MAX
    ensures start == (if append then |data| else pos)
    ensures r == if start + len > USIZE_MAX then Err(TooLarge)
                 else if |data| < start + len && (!allocOk || start + len > ISIZE_MAX) then Err(InsufficientStorage)
                 else Ok(())
    ensures data' == if r.Ok? then ZeroExtended(data, start + len) else data
  {
    data', start := data, pos;
    if append {
      start := |data|;
    }
    var end := start + len;
    if end > USIZE_MAX {
      return Err(TooLarge), data', start;
    }
    r, data' := GrowTo(data, end, allocOk);
  }

  /** The byte work of `write_bytes`. */
  method PutBytes(data: FileData, pos: nat, append: bool, buf: Bytes, allocOk: bool)
    returns (r: FsResult<()>, data': FileData, pos': nat)
    requires pos <= USIZE_MAX
    ensures (r, data', pos') == WriteAt(data, pos, append, buf, allocOk) && pos' <= USIZE_MAX
  {
    r, data', pos' := MakeRoom(data, pos, append, |buf|, allocOk);
    if r.Err? {
      return;
    }
    var end := pos' + |buf|;
    data' := data'[..pos'] + buf + data'[end..];
    pos' := end;
  }

  /** The byte work of `write_buf`: lay the chunks over the grown data one after another. */
  method PutChunks(data: FileData, pos: nat, append: bool, chunks: seq<Bytes>, allocOk: bool)
    returns (r: FsResult<()>, data': FileData, pos': nat)
    requires pos <= USIZE_MAX && |Concat(chunks)| <= USIZE_MAX
    ensures (r, data', pos') == WriteAt(data, pos, append, Concat(chunks), allocOk) && pos' <= USIZE_MAX
  {
    r, data', pos' := MakeRoom(data, pos, append, |Concat(chunks)|, allocOk);
    if r.Err? {
      return;
    }
    GrownThenSpliced(data, pos', Concat(chunks));
    data' := OverwriteChunks(data', pos', chunks);
    pos' := pos' + |Concat(chunks)|;
  }

  method OverwriteChunks(grown: FileData, start: nat, chunks: seq<Bytes>) returns (data: FileData)
    requires start + |Concat(chunks)| <= |grown|
    ensures data == Spliced(grown, start, Concat(chunks))
  {
    data := grown;
    var pos := start;
    assert Spliced(grown, start, []) == grown;
    for n := 0 to |chunks|
      invariant pos == start + |Concat(chunks[..n])|
      invariant data == Spliced(grown, start, Concat(chunks[..n])) && |data| == |grown|
    {
      var b := chunks[n];
      assert chunks[..n + 1][..n] == chunks[..n];
      ConcatPrefixLength(chunks, n + 1);
      SplicedPiece(grown, start, Concat(chunks[..n]), b);
      data := data[..pos] + b + data[pos + |b|..];
      pos := pos + |b|;
    }
    assert chunks[..|chunks|] == chunks;
  }

  /** An open file: it holds on to a node by its id. */
  class MemFsFile {
    const tree: Tree<Bytes, FsNode>
    const nodeId: nat
    var pos: nat
    const append: bool

    constructor (tree: Tree<Bytes, FsNode>, nodeId: nat, append: bool)
      ensures this.tree == tree && this.nodeId == nodeId && this.pos == 0 && this.append == append
    {
      this.tree := tree;
      this.nodeId := nodeId;
      this.pos := 0;
      this.append := append;
    }

    /** The node this handle was opened on still exists and is a file, as it must be if it exists. */
    ghost predicate OnFile()
      reads this, tree
    {
      nodeId in tree.entries && tree.entries[nodeId].data.File?
    }

    method ReadBytes(count: nat) returns (r: FsResult<Bytes>)
      requires tree.Valid() && pos <= USIZE_MAX && count <= USIZE_MAX
      modifies this`pos
      ensures nodeId !in tree.entries ==> r == Err(NotFound) && pos == old(pos)
      ensures OnFile() ==>
                && r == Ok(ReadAt(tree.entries[nodeId].data.data, old(pos), count))
                && pos == old(pos) + |r.value| <= USIZE_MAX
    {
      var node := tree.GetNode(nodeId);
      if node.Err? {
        return Err(node.error);
      }
      if !node.value.File? {
        return Err(Forbidden);
      }
      var data := node.value.data;
      var start, end := pos, Smaller(pos + count, USIZE_MAX);
      if start > |data| {
        start := |data|;
      }
      if end > |data| {
        end := |data|;
      }
      pos := pos + (end - start);
      r := Ok(data[start..end]);
    }

    method WriteBytes(buf: FileData, allocOk: bool) returns (r: FsResult<()>)
      requires tree.Valid() && pos <= USIZE_MAX
      modifies tree, this`pos
      ensures tree.Valid() && tree.nodeId == old(tree.nodeId) && pos <= USIZE_MAX
      ensures nodeId !in old(tree.entries) ==>
                r == Err(NotFound) && tree.entries == old(tree.entries) && pos == old(pos)
      ensures old(OnFile()) ==> WritesOnlyHere(old(tree.entries), old(pos), buf, allocOk, r)
    {
      var node := tree.GetNode(nodeId);
      if node.Err? {
        return Err(node.error);
      }
      if !node.value.File? {
        return Err(Forbidden);
      }
      var data;
      r, data, pos := PutBytes(node.value.data, pos, append, buf, allocOk);
      var written := tree.SetNode(nodeId, File(node.value.props, data));
    }

    /** `write_buf`: the same write from a buffer that comes in chunks. */
    method WriteBuf(chunks: seq<Bytes>, allocOk: bool) returns (r: FsResult<()>)
      requires tree.Valid() && pos <= USIZE_MAX && |Concat(chunks)| <= USIZE_MAX
      modifies tree, this`pos
      ensures tree.Valid() && tree.nodeId == old(tree.nodeId) && pos <= USIZE_MAX
      ensures nodeId !in old(tree.entries) ==>
                r == Err(NotFound) && tree.entries == old(tree.entries) && pos == old(pos)
      ensures old(OnFile()) ==> WritesOnlyHere(old(tree.entries), old(pos), Concat(chunks), allocOk, r)
    {
      var node := tree.GetNode(nodeId);
      if node.Err? {
        return Err(node.error);
      }
      if !node.value.File? {
        return Err(Forbidden);
      }
      var data;
      r, data, pos := PutChunks(node.value.data, pos, append, chunks, allocOk);
      var written := tree.SetNode(nodeId, File(node.value.props, data));
    }

    method Seek(from: SeekFrom) returns (r: FsResult<nat>)
      requires tree.Valid() && pos <= USIZE_MAX
      modifies this`pos
      ensures pos <= USIZE_MAX && (r.Ok? ==> pos == r.value) && (r.Err? ==> pos == old(pos))
      ensures OnFile() || !from.End? ==>
                r == SeekTarget(from, old(pos), if OnFile() then |tree.entries[nodeId].data.data| else 0)
      ensures from.End? && nodeId !in tree.entries ==> r == Err(NotFound)
    {
      var start, offset: int;
      match from {
        case Start(npos) =>
          pos := npos;
          return Ok(npos);
        case Current(npos) =>
          start, offset := pos, npos;
        case End(npos) =>
          var node := tree.GetNode(nodeId);
          if node.Err? {
            return Err(node.error);
          }
          if !node.value.File? {
            return Err(Forbidden);
          }
          start, offset := |node.value.data|, npos;
      }
      if start + offset < 0 || start + offset > USIZE_MAX {
        return Err(GeneralFailure);
      }
      pos := start + offset;
      r := Ok(pos);
    }

    /** What a write does: only the handle's own node changes, as `WriteAt` says. */
    ghost predicate WritesOnlyHere(e: FsEntries, pos0: nat, buf: Bytes, allocOk: bool, r: FsResult<()>)
      requires nodeId in e && e[nodeId].data.File?
      reads this, tree
    {
      var (result, data', pos') := WriteAt(e[nodeId].data.data, pos0, append, buf, allocOk);
      && r == result && pos == pos'
      && tree.entries == e[nodeId := Entry(e[nodeId].path, File(e[nodeId].data.props, data'))]
    }
  }
}
