/**
 What a filesystem of directories and files is: a map from segment sequences to nodes, and what each
 operation of the in-memory filesystem does to it (src/memfs.rs).
 */
module FsModel {
  import opened Results
  import opened DavPaths
  import opened Trees

  datatype DavProp = DavProp(name: string, prefix: Option<string>, namespace: Option<string>, xml: Option<Bytes>)

  /** `propkey`: namespace and name run together. */
  function PropKey(p: DavProp): string {
    Space(p) + p.name
  }

  function Space(p: DavProp): string {
    if p.namespace.Some? then p.namespace.value else ""
  }

  type Props = map<string, DavProp>

  /** A `usize` and the largest size of a byte vector, on a 64-bit target. */
  const USIZE_MAX: nat := 0xFFFF_FFFF_FFFF_FFFF
  const ISIZE_MAX: nat := 0x7FFF_FFFF_FFFF_FFFF

  type FileData = data: Bytes | |data| <= ISIZE_MAX

  datatype FsNode =
    | Dir(props: Props, isCalendar: bool, isAddressbook: bool)
    | File(props: Props, data: FileData)

  type Path = seq<Bytes>
  type FsMap = map<Path, FsNode>

  const NEW_DIR := Dir(map[], false, false)
  const NEW_FILE := File(map[], [])

  datatype OpenOptions = OpenOptions(append: bool, truncate: bool, create: bool, createNew: bool)

  function Init(p: Path): Path {
    if p == [] then [] else p[..|p| - 1]
  }

  /** `file_name`: the last segment, or the empty name for the root. */
  function FileName(p: Path): Bytes {
    if p == [] then [] else p[|p| - 1]
  }

  /** Where a node created at `p` ends up. For the root that is a child with an empty name. */
  function Target(p: Path): Path {
    Init(p) + [FileName(p)]
  }

  /** The root is a directory, and so is whatever has something below it. */
  ghost predicate WellFormed(m: FsMap) {
    && [] in m && m[[]].Dir?
    && forall p {:trigger HasParentDir(m, p)} :: p in m && p != [] ==> HasParentDir(m, p)
  }

  ghost predicate HasParentDir(m: FsMap, p: Path) {
    Init(p) in m && m[Init(p)].Dir?
  }

  /** Nothing has an empty name, so every node can be reached by a path. */
  ghost predicate AllReachable(m: FsMap) {
    forall p :: p in m ==> AreSegments(p)
  }

  ghost predicate HasChildren(m: FsMap, p: Path) {
    exists q :: q in m && p < q
  }

  /** Every prefix of a stored path is stored, as a directory if proper. */
  lemma {:induction false} PrefixStored(m: FsMap, p: Path, n: nat)
    requires WellFormed(m) && p in m && n <= |p|
    ensures p[..n] in m && (n < |p| ==> m[p[..n]].Dir?)
    decreases |p|
  {
    if n < |p| {
      assert HasParentDir(m, p);
      PrefixStored(m, Init(p), n);
      assert Init(p)[..n] == p[..n];
    } else {
      assert p[..n] == p;
    }
  }

  /** An ancestor of a stored path is stored, as a directory. */
  lemma AncestorStored(m: FsMap, p: Path, q: Path)
    requires WellFormed(m) && q in m
    ensures p <= q ==> p in m
    ensures p < q ==> p in m && m[p].Dir?
  {
    if p <= q {
      PrefixStored(m, q, |p|);
      assert q[..|p|] == p;
    }
  }

  lemma PrefixesComparable(a: Path, b: Path, c: Path)
    ensures a <= c && b <= c ==> a <= b || b <= a
  {
    if a <= c && b <= c {
      if |a| <= |b| { assert a == b[..|a|]; } else { assert b == a[..|b|]; }
    }
  }

  ghost predicate SameAt(a: FsMap, b: FsMap, q: Path) {
    (q in a <==> q in b) && (q in a ==> a[q] == b[q])
  }

  lemma SameEverywhere(a: FsMap, b: FsMap)
    requires forall q :: SameAt(a, b, q)
    ensures a == b
  {
    assert forall q :: SameAt(a, b, q) ==> (q in a <==> q in b) && (q in a ==> a[q] == b[q]);
  }

  // ---------------------------------------------------------------------------------------------
  // Lookups

  /** The lookup that walks from the root: through a file it is forbidden, past a missing name not found. */
  ghost function Resolve(m: FsMap, p: Path): FsResult<()>
    decreases |p|
  {
    if p == [] then Ok(())
    else
      var parent := Resolve(m, Init(p));
      if parent.Err? then parent
      else if Init(p) !in m || !m[Init(p)].Dir? then Err(Forbidden)
      else if p !in m then Err(NotFound)
      else Ok(())
  }

  lemma {:induction false} ResolvesIffStored(m: FsMap, p: Path)
    requires WellFormed(m)
    ensures Resolve(m, p).Ok? <==> p in m
    ensures Resolve(m, p).Err? ==> Resolve(m, p).error == NotFound || Resolve(m, p).error == Forbidden
    decreases |p|
  {
    if p != [] {
      ResolvesIffStored(m, Init(p));
      if p in m { assert HasParentDir(m, p); }
    }
  }

  /** A lookup that fails at a prefix fails in the same way for the whole path. */
  lemma {:induction false} ResolveFailsEarly(m: FsMap, p: Path, n: nat)
    requires n <= |p| && Resolve(m, p[..n]).Err?
    ensures Resolve(m, p) == Resolve(m, p[..n])
    decreases |p|
  {
    if n < |p| {
      assert Init(p)[..n] == p[..n];
      ResolveFailsEarly(m, Init(p), n);
    } else {
      assert p[..n] == p;
    }
  }

  /** One more segment of a lookup, and what a failure there means for the whole path. */
  lemma ResolveNext(m: FsMap, segs: Path, n: nat)
    requires n < |segs| && Resolve(m, segs[..n]).Ok?
    ensures var here, next := segs[..n], segs[..n + 1];
            && here + [segs[n]] == next
            && (here !in m || !m[here].Dir? ==> Resolve(m, segs) == Err(Forbidden))
            && (here in m && m[here].Dir? && next !in m ==> Resolve(m, segs) == Err(NotFound))
            && (here in m && m[here].Dir? && next in m ==> Resolve(m, next).Ok?)
  {
    assert Init(segs[..n + 1]) == segs[..n];
    if Resolve(m, segs[..n + 1]).Err? {
      ResolveFailsEarly(m, segs, n + 1);
    }
  }

  /** `lookup_parent`: the directory that holds, or would hold, the node at `p`. */
  ghost function ParentOf(m: FsMap, p: Path): FsResult<()> {
    var parent := Resolve(m, Init(p));
    if parent.Err? then parent
    else if Init(p) !in m || !m[Init(p)].Dir? then Err(Forbidden)
    else Ok(())
  }

  // ---------------------------------------------------------------------------------------------
  // Operations

  ghost function CreateDir(m: FsMap, p: Path): (FsResult<()>, FsMap) {
    var parent := ParentOf(m, p);
    if parent.Err? then (parent, m)
    else if Target(p) in m then (Err(Exists), m)
    else (Ok(()), m[Target(p) := NEW_DIR])
  }

  /** Opening a file, creating or truncating it if so asked. */
  ghost function Open(m: FsMap, p: Path, oo: OpenOptions): (FsResult<()>, FsMap) {
    var found := Resolve(m, p);
    if found.Ok? then
      if oo.createNew then (Err(Exists), m) else Opened(m, p, oo)
    else if found.error != NotFound then (found, m)
    else if !oo.create then (Err(NotFound), m)
    else
      var parent := ParentOf(m, p);
      if parent.Err? then (parent, m) else Opened(m[p := NEW_FILE], p, oo)
  }

  ghost function Opened(m: FsMap, p: Path, oo: OpenOptions): (FsResult<()>, FsMap) {
    if p !in m || m[p].Dir? then (Err(Forbidden), m)
    else (Ok(()), if oo.truncate then m[p := m[p].(data := [])] else m)
  }

  /** Removing a childless node; the same for files and directories. */
  ghost function Remove(m: FsMap, p: Path): (FsResult<()>, FsMap) {
    var parent := ParentOf(m, p);
    if parent.Err? then (parent, m)
    else if Resolve(m, p).Err? then (Resolve(m, p), m)
    else if p == [] || HasChildren(m, p) then (Err(Forbidden), m)
    else (Ok(()), m - {p})
  }

  /** The subtree at `from` re-rooted at `to`, and everything else as it is. */
  ghost function Moved(m: FsMap, from: Path, to: Path): (m': FsMap)
    requires !(from <= to) && !(to <= from) && forall q :: q in m ==> !(to <= q)
  {
    MovedInjective(from, to);
    map q | q in m :: Rebased(q, from, to) := m[q]
  }

  lemma MovedInjective(from: Path, to: Path)
    ensures forall q, r {:trigger Rebased(q, from, to), Rebased(r, from, to)} ::
              !(to <= q) && !(to <= r) && Rebased(q, from, to) == Rebased(r, from, to) ==> q == r
  {
    forall q, r | !(to <= q) && !(to <= r) && Rebased(q, from, to) == Rebased(r, from, to) ensures q == r {
      if from <= q && from <= r {
        assert q == from + q[|from|..] && r == from + r[|from|..];
        assert Rebased(q, from, to)[|to|..] == q[|from|..];
        assert Rebased(r, from, to)[|to|..] == r[|from|..];
      }
    }
  }

  ghost function WithoutTree(m: FsMap, p: Path): FsMap {
    map q | q in m && !(p <= q) :: m[q]
  }

  /** Why a rename is refused, in the order of the checks; `None` when it goes ahead. */
  ghost function RenameRefusal(m: FsMap, from: Path, to: Path): Option<FsError> {
    if Resolve(m, from).Err? then Some(Resolve(m, from).error)
    else if ParentOf(m, from).Err? then Some(ParentOf(m, from).error)
    else if ParentOf(m, to).Err? then Some(ParentOf(m, to).error)
    else if to in m && m[to].Dir? then Some(Exists)
    else if from == [] || from <= Init(to) then Some(Forbidden)
    else None
  }

  /** A rename that goes ahead goes to a place beside the moved subtree, unless a file is renamed to itself. */
  lemma RenameTargetIsBeside(m: FsMap, from: Path, to: Path)
    requires WellFormed(m) && RenameRefusal(m, from, to) == None
    ensures from in m && from != [] && to != [] && Target(to) == to && HasParentDir(m, to)
    ensures from != to ==> !(from <= to) && !(to <= from)
    ensures to in m ==> forall q :: q in m && to <= q ==> q == to
  {
    ResolvesIffStored(m, from);
    ResolvesIffStored(m, Init(to));
    if to in m {
      forall q | q in m && to <= q ensures q == to {
        AncestorStored(m, to, q);
      }
    }
    AncestorStored(m, to, from);
    assert from <= to && from != to ==> from <= Init(to);
  }

  ghost function Rename(m: FsMap, from: Path, to: Path): (FsResult<()>, FsMap)
    requires WellFormed(m) && (RenameRefusal(m, from, to) == None ==> from != to)
  {
    if RenameRefusal(m, from, to).Some? then (Err(RenameRefusal(m, from, to).value), m)
    else
      RenameTargetIsBeside(m, from, to);
      (Ok(()), Moved(WithoutTree(m, to), from, to))
  }

  ghost function CopyFile(m: FsMap, from: Path, to: Path): (FsResult<()>, FsMap) {
    if Resolve(m, from).Err? then (Resolve(m, from), m)
    else if from !in m || m[from].Dir? then (Err(Forbidden), m)
    else
      var (result, m') := Open(m, to, OpenOptions(false, false, true, false));
      if result.Err? || to !in m' || m'[to].Dir? then (result, m')
      else (Ok(()), m'[to := File(m[from].props, m[from].data)])
  }

  function Patched(props: Props, patch: seq<(bool, DavProp)>): Props {
    if patch == [] then props
    else
      var (set_, p) := patch[|patch| - 1];
      var before := Patched(props, patch[..|patch| - 1]);
      if set_ then before[PropKey(p) := p] else before - {PropKey(p)}
  }

  function WithProps(n: FsNode, props: Props): FsNode {
    n.(props := props)
  }

  // ---------------------------------------------------------------------------------------------
  // Every operation keeps the filesystem well formed

  lemma AddKeepsWellFormed(m: FsMap, p: Path, n: FsNode)
    requires WellFormed(m) && p != [] && HasParentDir(m, p)
    requires p in m ==> (m[p].Dir? ==> n.Dir?)
    requires p !in m || n.Dir? || !m[p].Dir?
    ensures WellFormed(m[p := n])
  {
    var m' := m[p := n];
    forall q | q in m' && q != [] ensures HasParentDir(m', q) {
      if q != p { assert HasParentDir(m, q); }
    }
  }

  /** `m` with other contents in the file at `p`. */
  ghost function WithData(m: FsMap, p: Path, data: FileData): FsMap
    requires p in m && m[p].File?
  {
    m[p := File(m[p].props, data)]
  }

  lemma WithDataKeepsWellFormed(m: FsMap, p: Path, data: FileData)
    requires WellFormed(m) && p in m && m[p].File?
    ensures p != [] && WellFormed(WithData(m, p, data))
  {
    assert HasParentDir(m, p);
    AddKeepsWellFormed(m, p, File(m[p].props, data));
  }

  lemma RemoveKeepsWellFormed(m: FsMap, p: Path)
    requires WellFormed(m) && p != [] && !HasChildren(m, p)
    ensures WellFormed(m - {p})
  {
    var m' := m - {p};
    forall q | q in m' && q != [] ensures HasParentDir(m', q) {
      assert HasParentDir(m, q);
      assert Init(q) < q;
    }
  }

  lemma MoveKeepsWellFormed(m: FsMap, from: Path, to: Path)
    requires WellFormed(m) && RenameRefusal(m, from, to) == None && from != to
    ensures WellFormed(Rename(m, from, to).1)
  {
    RenameTargetIsBeside(m, from, to);
    var w := WithoutTree(m, to);
    var m' := Moved(w, from, to);
    assert Rebased([], from, to) == [];
    assert [] in w;
    forall q' | q' in m' && q' != [] ensures HasParentDir(m', q') {
      var q :| q in w && Rebased(q, from, to) == q';
      MovedParent(m, from, to, q);
    }
  }

  lemma MovedParent(m: FsMap, from: Path, to: Path, q: Path)
    requires WellFormed(m) && RenameRefusal(m, from, to) == None && from != to
    requires q in m && !(to <= q) && Rebased(q, from, to) != []
    ensures HasParentDir(Rename(m, from, to).1, Rebased(q, from, to))
  {
    RenameTargetIsBeside(m, from, to);
    var w := WithoutTree(m, to);
    var m' := Moved(w, from, to);
    var q' := Rebased(q, from, to);
    if q == from {
      assert q' == to;
      assert Init(to) in w && Rebased(Init(to), from, to) == Init(to);
      MovedAt(w, from, to, Init(to));
    } else {
      assert q != [];
      assert HasParentDir(m, q);
      var r := Init(q);
      assert !(to <= r);
      assert Init(q') == Rebased(r, from, to);
      MovedAt(w, from, to, r);
    }
  }

  lemma MovedAt(m: FsMap, from: Path, to: Path, q: Path)
    requires !(from <= to) && !(to <= from) && forall r :: r in m ==> !(to <= r)
    requires q in m
    ensures Rebased(q, from, to) in Moved(m, from, to) && Moved(m, from, to)[Rebased(q, from, to)] == m[q]
  {
    MovedInjective(from, to);
  }

  lemma CreateDirKeepsWellFormed(m: FsMap, p: Path)
    requires WellFormed(m)
    ensures WellFormed(CreateDir(m, p).1)
  {
    if CreateDir(m, p).0.Ok? {
      ResolvesIffStored(m, Init(p));
      assert Init(Target(p)) == Init(p);
      assert HasParentDir(m, Target(p));
      AddKeepsWellFormed(m, Target(p), NEW_DIR);
    }
  }

  lemma OpenKeepsWellFormed(m: FsMap, p: Path, oo: OpenOptions)
    requires WellFormed(m)
    ensures WellFormed(Open(m, p, oo).1)
    ensures Open(m, p, oo).0.Ok? ==> p in Open(m, p, oo).1 && Open(m, p, oo).1[p].File? && p != []
  {
    var m1 := if p in m then m else m[p := NEW_FILE];
    ResolvesIffStored(m, p);
    if Open(m, p, oo).0.Ok? {
      if p !in m {
        ResolvesIffStored(m, Init(p));
        assert HasParentDir(m, p);
        AddKeepsWellFormed(m, p, NEW_FILE);
      } else {
        assert HasParentDir(m, p);
      }
      assert HasParentDir(m1, p);
      if oo.truncate {
        AddKeepsWellFormed(m1, p, m1[p].(data := []));
      }
    }
  }

  lemma RemoveStepKeepsWellFormed(m: FsMap, p: Path)
    requires WellFormed(m)
    ensures WellFormed(Remove(m, p).1)
  {
    if Remove(m, p).0.Ok? {
      RemoveKeepsWellFormed(m, p);
    }
  }

  lemma CopyFileKeepsWellFormed(m: FsMap, from: Path, to: Path)
    requires WellFormed(m)
    ensures WellFormed(CopyFile(m, from, to).1)
  {
    var oo := OpenOptions(false, false, true, false);
    OpenKeepsWellFormed(m, to, oo);
    ResolvesIffStored(m, from);
    if CopyFile(m, from, to).0.Ok? {
      var m1 := Open(m, to, oo).1;
      assert HasParentDir(m1, to);
      AddKeepsWellFormed(m1, to, File(m[from].props, m[from].data));
    }
  }

  // ---------------------------------------------------------------------------------------------
  // Every operation keeps each property under its own key

  ghost predicate Keyed(props: Props) {
    forall k :: k in props ==> PropKey(props[k]) == k
  }

  ghost predicate AllKeyed(m: FsMap) {
    forall p {:trigger m[p]} :: p in m ==> Keyed(m[p].props)
  }

  lemma {:induction false} PatchedIsKeyed(props: Props, patch: seq<(bool, DavProp)>)
    requires Keyed(props)
    ensures Keyed(Patched(props, patch))
    decreases |patch|
  {
    if patch != [] { PatchedIsKeyed(props, patch[..|patch| - 1]); }
  }

  lemma RenameKeepsKeyed(m: FsMap, from: Path, to: Path)
    requires WellFormed(m) && AllKeyed(m) && (RenameRefusal(m, from, to) == None ==> from != to)
    ensures AllKeyed(Rename(m, from, to).1)
  {
    if RenameRefusal(m, from, to) == None {
      RenameTargetIsBeside(m, from, to);
      var w, m' := WithoutTree(m, to), Rename(m, from, to).1;
      forall q' | q' in m' ensures Keyed(m'[q'].props) {
        var q := MovedFrom(w, from, to, q');
      }
    }
  }

  lemma SetKeepsKeyed(m: FsMap, p: Path, n: FsNode)
    requires AllKeyed(m) && Keyed(n.props)
    ensures AllKeyed(m[p := n])
  {}

  lemma CreateDirKeepsKeyed(m: FsMap, p: Path)
    requires AllKeyed(m)
    ensures AllKeyed(CreateDir(m, p).1)
  {
    SetKeepsKeyed(m, Target(p), NEW_DIR);
  }

  lemma OpenKeepsKeyed(m: FsMap, p: Path, oo: OpenOptions)
    requires AllKeyed(m)
    ensures AllKeyed(Open(m, p, oo).1)
  {
    var m1 := if Resolve(m, p).Ok? then m else m[p := NEW_FILE];
    SetKeepsKeyed(m, p, NEW_FILE);
    if p in m1 && m1[p].File? { SetKeepsKeyed(m1, p, m1[p].(data := [])); }
  }

  lemma RemovalKeepsKeyed(m: FsMap, p: Path)
    requires AllKeyed(m)
    ensures AllKeyed(Remove(m, p).1) && AllKeyed(WithoutTree(m, p))
  {}

  lemma CopyFileKeepsKeyed(m: FsMap, p: Path, q: Path)
    requires AllKeyed(m)
    ensures AllKeyed(CopyFile(m, p, q).1)
  {
    OpenKeepsKeyed(m, q, OpenOptions(false, false, true, false));
    if p in m && m[p].File? {
      SetKeepsKeyed(Open(m, q, OpenOptions(false, false, true, false)).1, q, File(m[p].props, m[p].data));
    }
  }

  // ---------------------------------------------------------------------------------------------
  // How the operations relate

  /** Creating a directory leaves every node reachable unless the path is the root itself. */
  lemma CreateDirReachableIff(m: FsMap, p: Path)
    requires WellFormed(m) && AllReachable(m) && (p == [] || AreSegments(p))
    ensures AllReachable(CreateDir(m, p).1) <==> p != []
  {
    if p == [] {
      assert Target(p) == [[]];
      assert !IsSegment(Target(p)[0]);
      assert Target(p) !in m;
      assert Target(p) in CreateDir(m, p).1;
    }
  }

  /** Such a node is there to stay: no path leads to it, and nothing that is removed or moved has it below. */
  ghost predicate RootHasNameless(m: FsMap) {
    [[]] in m
  }

  lemma RenameKeepsReachable(m: FsMap, from: Path, to: Path)
    requires WellFormed(m) && AllReachable(m) && RenameRefusal(m, from, to) == None && from != to && AreSegments(to)
    ensures AllReachable(Rename(m, from, to).1)
  {
    RenameTargetIsBeside(m, from, to);
    var w, m' := WithoutTree(m, to), Rename(m, from, to).1;
    forall q' | q' in m' ensures AreSegments(q') {
      var q := MovedFrom(w, from, to, q');
      assert AreSegments(q);
      forall n | 0 <= n < |q'| ensures IsSegment(q'[n]) {
        if from <= q && n < |to| {
          assert IsSegment(to[n]);
        } else if from <= q {
          assert q'[n] == q[n - |to| + |from|];
        }
      }
    }
  }

  lemma RenameKeepsNameless(m: FsMap, from: Path, to: Path)
    requires WellFormed(m) && RootHasNameless(m) && AreSegments(from) && AreSegments(to)
    requires RenameRefusal(m, from, to) == None && from != to
    ensures RootHasNameless(Rename(m, from, to).1)
  {
    RenameTargetIsBeside(m, from, to);
    assert IsSegment(from[0]) && IsSegment(to[0]);
    MovedAt(WithoutTree(m, to), from, to, [[]]);
  }

  /** Removing what was just created gives back the filesystem. */
  lemma RemoveUndoesCreateDir(m: FsMap, p: Path)
    requires WellFormed(m) && p != [] && CreateDir(m, p).0.Ok?
    ensures Remove(CreateDir(m, p).1, p) == (Ok(()), m)
  {
    var m' := CreateDir(m, p).1;
    CreateDirKeepsWellFormed(m, p);
    ResolvesIffStored(m', p);
    ResolvesIffStored(m', Init(p));
    assert HasParentDir(m', p);
    assert Target(p) == p;
    forall q | q in m ensures !(p <= q) {
      AncestorStored(m, p, q);
    }
    assert m' - {p} == m;
  }

  /** Renaming there and back gives back the filesystem, if nothing was replaced. */
  lemma RenameBack(m: FsMap, from: Path, to: Path)
    requires WellFormed(m) && RenameRefusal(m, from, to) == None && to !in m
    ensures from != to && WellFormed(Rename(m, from, to).1)
    ensures RenameRefusal(Rename(m, from, to).1, to, from) == None
    ensures Rename(Rename(m, from, to).1, to, from) == (Ok(()), m)
  {
    RenameTargetIsBeside(m, from, to);
    MoveKeepsWellFormed(m, from, to);
    var m' := Rename(m, from, to).1;
    NothingBelowAbsent(m, to);
    assert WithoutTree(m, to) == m;
    RenameBackAllowed(m, from, to);
    RenameTargetIsBeside(m', to, from);
    assert forall q :: q in m' ==> !(from <= q) by {
      forall q' | q' in m' ensures !(from <= q') {
        var q :| q in m && Rebased(q, from, to) == q';
        RebaseLeavesNothing(q, from, to);
      }
    }
    assert WithoutTree(m', from) == m';
    MovedBack(m, from, to);
  }

  lemma NothingBelowAbsent(m: FsMap, p: Path)
    requires WellFormed(m) && p !in m
    ensures forall q :: q in m ==> !(p <= q)
  {
    forall q | q in m ensures !(p <= q) {
      AncestorStored(m, p, q);
    }
  }

  lemma RebaseLeavesNothing(q: Path, from: Path, to: Path)
    requires !(from <= to) && !(to <= from)
    ensures !(from <= Rebased(q, from, to))
  {
    var q' := Rebased(q, from, to);
    PrefixesComparable(from, to, q');
    assert from <= q ==> to <= q';
  }

  lemma RenameBackAllowed(m: FsMap, from: Path, to: Path)
    requires WellFormed(m) && RenameRefusal(m, from, to) == None && to !in m
    requires !(from <= to) && !(to <= from) && WithoutTree(m, to) == m
    requires from != to && WellFormed(Rename(m, from, to).1)
    ensures RenameRefusal(Rename(m, from, to).1, to, from) == None
  {
    RenameTargetIsBeside(m, from, to);
    var m' := Rename(m, from, to).1;
    MovedAt(m, from, to, from);
    assert Rebased(from, from, to) == to;
    assert HasParentDir(m, from);
    assert Rebased(Init(from), from, to) == Init(from);
    MovedAt(m, from, to, Init(from));
    ResolvesIffStored(m', to);
    assert HasParentDir(m', to);
    ResolvesIffStored(m', Init(to));
    ResolvesIffStored(m', Init(from));
    assert from !in m' by {
      if from in m' {
        var q :| q in m && Rebased(q, from, to) == from;
        RebaseLeavesNothing(q, from, to);
      }
    }
    assert to <= Init(from) ==> to <= from;
  }

  lemma MovedFrom(m: FsMap, from: Path, to: Path, q': Path) returns (q: Path)
    requires !(from <= to) && !(to <= from) && forall r :: r in m ==> !(to <= r)
    requires q' in Moved(m, from, to)
    ensures q in m && Rebased(q, from, to) == q' && Moved(m, from, to)[q'] == m[q]
  {
    q :| q in m && Rebased(q, from, to) == q';
    MovedAt(m, from, to, q);
  }

  lemma MovedBackAt(m: FsMap, m': FsMap, from: Path, to: Path, q: Path)
    requires !(from <= to) && !(to <= from)
    requires forall r :: r in m ==> !(to <= r)
    requires m' == Moved(m, from, to) && forall r :: r in m' ==> !(from <= r)
    requires q in m
    ensures q in Moved(m', to, from) && Moved(m', to, from)[q] == m[q]
  {
    MovedAt(m, from, to, q);
    MovedAt(m', to, from, Rebased(q, from, to));
    RebasedBack(q, from, to);
  }

  lemma MovedBackFrom(m: FsMap, m': FsMap, from: Path, to: Path, r: Path)
    requires !(from <= to) && !(to <= from)
    requires forall q :: q in m ==> !(to <= q)
    requires m' == Moved(m, from, to) && forall q :: q in m' ==> !(from <= q)
    requires r in Moved(m', to, from)
    ensures r in m
  {
    var q' := MovedFrom(m', to, from, r);
    var q := MovedFrom(m, from, to, q');
    RebasedBack(q, from, to);
  }

  lemma MovedBack(m: FsMap, from: Path, to: Path)
    requires !(from <= to) && !(to <= from)
    requires forall q :: q in m ==> !(to <= q)
    requires forall q :: q in Moved(m, from, to) ==> !(from <= q)
    ensures Moved(Moved(m, from, to), to, from) == m
  {
    var m' := Moved(m, from, to);
    forall q ensures SameAt(Moved(m', to, from), m, q) {
      MovedBackSame(m, m', from, to, q);
    }
    SameEverywhere(Moved(m', to, from), m);
  }

  lemma MovedBackSame(m: FsMap, m': FsMap, from: Path, to: Path, q: Path)
    requires !(from <= to) && !(to <= from)
    requires forall r :: r in m ==> !(to <= r)
    requires m' == Moved(m, from, to) && forall r :: r in m' ==> !(from <= r)
    ensures SameAt(Moved(m', to, from), m, q)
  {
    if q in m {
      MovedBackAt(m, m', from, to, q);
    } else if q in Moved(m', to, from) {
      MovedBackFrom(m, m', from, to, q);
    }
  }

  lemma RebasedBack(q: Path, from: Path, to: Path)
    requires !(to <= q)
    ensures Rebased(Rebased(q, from, to), to, from) == q
  {
    if from <= q {
      assert (to + q[|from|..])[|to|..] == q[|from|..];
      assert from + q[|from|..] == q;
    }
  }

  /**
   When two properties share a key: exactly if the longer namespace goes on where the shorter one ends
   with letters that the name of the latter begins with. In particular no namespace and the empty one
   are the same to the store.
   */
  lemma PropKeysEqualIff(p: DavProp, q: DavProp)
    requires |Space(p)| <= |Space(q)|
    ensures PropKey(p) == PropKey(q) <==> exists s: string :: Space(q) == Space(p) + s && p.name == s + q.name
    ensures |Space(p)| == |Space(q)| ==> (PropKey(p) == PropKey(q) <==> Space(p) == Space(q) && p.name == q.name)
  {
    var n := |Space(p)|;
    if PropKey(p) == PropKey(q) {
      var s := Space(q)[n..];
      assert PropKey(p)[..n] == Space(p) && PropKey(q)[..n] == Space(q)[..n];
      assert PropKey(p)[n..] == p.name && PropKey(q)[n..] == s + q.name;
      assert Space(q) == Space(p) + s && p.name == s + q.name;
    }
    if s :| Space(q) == Space(p) + s && p.name == s + q.name {
      assert Space(p) + (s + q.name) == Space(p) + s + q.name;
    }
  }

  /** So no property is determined by its key: each has another one that the store takes for it. */
  lemma PropKeyCollides(p: DavProp) returns (q: DavProp)
    ensures (q.namespace != p.namespace || q.name != p.name) && PropKey(q) == PropKey(p)
    ensures p.namespace == None ==> q.namespace == Some("") && q.name == p.name
  {
    if p.namespace == None {
      q := p.(namespace := Some(""));
      PropKeysEqualIff(p, q);
    } else {
      q := p.(namespace := None, name := Space(p) + p.name);
      PropKeysEqualIff(q, p);
      assert Space(p) == Space(q) + Space(p);
    }
  }

  // ---------------------------------------------------------------------------------------------
  // When the operations succeed, and what they then do, in terms of what is stored

  lemma CreateDirMeans(m: FsMap, p: Path)
    requires WellFormed(m) && p != []
    ensures var (r, m') := CreateDir(m, p);
            && (r.Ok? <==> p !in m && Init(p) in m && m[Init(p)].Dir?)
            && m' == if r.Ok? then m[p := Dir(map[], false, false)] else m
  {
    ResolvesIffStored(m, Init(p));
    assert Target(p) == p;
  }

  lemma OpenMeans(m: FsMap, p: Path, oo: OpenOptions)
    requires WellFormed(m)
    ensures var (r, m') := Open(m, p, oo);
            && (r.Ok? <==> if p in m then m[p].File? && !oo.createNew
                           else oo.create && p != [] && Init(p) in m && m[Init(p)].Dir?)
            && m' == if r.Err? || (p in m && !oo.truncate) then m
                     else m[p := File(if p in m then m[p].props else map[], [])]
  {
    ResolvesIffStored(m, p);
    ResolvesIffStored(m, Init(p));
    if p !in m && Init(p) in m && m[Init(p)].Dir? { assert Resolve(m, p) == Err(NotFound); }
  }

  lemma RemoveMeans(m: FsMap, p: Path)
    requires WellFormed(m)
    ensures var (r, m') := Remove(m, p);
            && (r.Ok? <==> p in m && p != [] && forall q :: q in m ==> !(p < q))
            && forall q :: q in m' <==> q in m && !(r.Ok? && q == p)
    ensures forall q :: q in Remove(m, p).1 ==> Remove(m, p).1[q] == m[q]
  {
    ResolvesIffStored(m, p);
    ResolvesIffStored(m, Init(p));
    if p in m && p != [] { assert HasParentDir(m, p); }
  }

  /** A rename goes ahead exactly if there is something, other than the root, and a place beside it for a file. */
  lemma RenameMeans(m: FsMap, from: Path, to: Path)
    requires WellFormed(m)
    ensures RenameRefusal(m, from, to) == None <==>
              && from in m && from != [] && Init(to) in m && m[Init(to)].Dir?
              && (to in m ==> m[to].File?) && !(from <= Init(to))
  {
    ResolvesIffStored(m, from);
    ResolvesIffStored(m, Init(from));
    ResolvesIffStored(m, Init(to));
    if from in m && from != [] { assert HasParentDir(m, from); }
  }

  lemma RenamedElsewhere(m: FsMap, from: Path, to: Path, q: Path)
    requires WellFormed(m) && RenameRefusal(m, from, to) == None && from != to && !(from <= q) && !(to <= q)
    ensures SameAt(m, Rename(m, from, to).1, q)
  {
    RenameTargetIsBeside(m, from, to);
    var w := WithoutTree(m, to);
    if q in m {
      MovedAt(w, from, to, q);
      assert Rebased(q, from, to) == q;
    }
    if q in Rename(m, from, to).1 {
      var p := MovedFrom(w, from, to, q);
      assert from <= p ==> to <= q;
    }
  }

  lemma RenamedBelow(m: FsMap, from: Path, to: Path, t: Path)
    requires WellFormed(m) && RenameRefusal(m, from, to) == None && from != to
    ensures var m' := Rename(m, from, to).1;
            (to + t in m' <==> from + t in m) && (from + t in m ==> m'[to + t] == m[from + t])
  {
    RenameTargetIsBeside(m, from, to);
    var w, m' := WithoutTree(m, to), Rename(m, from, to).1;
    if from + t in m {
      assert !(to <= from + t) by { PrefixesComparable(to, from, from + t); }
      MovedAt(w, from, to, from + t);
      assert (from + t)[|from|..] == t;
    }
    if to + t in m' {
      var p := MovedFrom(w, from, to, to + t);
      assert from <= p;
      assert p == from + p[|from|..] && (to + t)[|to|..] == t && (to + p[|from|..])[|to|..] == p[|from|..];
    }
  }

  /** After a rename, at one path: what was at or below `from` is at or below `to`, and nothing else is there. */
  lemma RenamedAt(m: FsMap, from: Path, to: Path, q: Path)
    requires WellFormed(m) && RenameRefusal(m, from, to) == None && from != to
    ensures var m' := Rename(m, from, to).1;
            if to <= q then
              var before := from + q[|to|..];
              (q in m' <==> before in m) && (q in m' ==> m'[q] == m[before])
            else if from <= q then q !in m'
            else SameAt(m, m', q)
  {
    if to <= q {
      RenamedBelow(m, from, to, q[|to|..]);
      assert to + q[|to|..] == q;
    } else if from <= q {
      RenameTargetIsBeside(m, from, to);
      if q in Rename(m, from, to).1 {
        var p := MovedFrom(WithoutTree(m, to), from, to, q);
      }
    } else {
      RenamedElsewhere(m, from, to, q);
    }
  }

  lemma CopyFileMeans(m: FsMap, from: Path, to: Path)
    requires WellFormed(m)
    ensures var (r, m') := CopyFile(m, from, to);
            && (r.Ok? <==> && from in m && m[from].File?
                           && if to in m then m[to].File? else to != [] && Init(to) in m && m[Init(to)].Dir?)
            && m' == if r.Ok? then m[to := m[from]] else m
  {
    ResolvesIffStored(m, from);
    OpenMeans(m, to, OpenOptions(false, false, true, false));
  }

  /** Of all patches of one property the last decides, and properties that none is about stay. */
  lemma {:induction false} LastPatchDecides(props: Props, before: seq<(bool, DavProp)>, set_: bool, p: DavProp,
                                            after: seq<(bool, DavProp)>, k: string)
    requires forall n :: 0 <= n < |after| ==> PropKey(after[n].1) != PropKey(p)
    ensures var done := Patched(props, before + [(set_, p)] + after);
            if set_ then PropKey(p) in done && done[PropKey(p)] == p else PropKey(p) !in done
    ensures (forall n :: 0 <= n < |after| ==> PropKey(after[n].1) != k) ==>
              (k in Patched(props, after) <==> k in props) && (k in props ==> Patched(props, after)[k] == props[k])
    decreases |after|
  {
    var all := before + [(set_, p)] + after;
    if after == [] {
      assert all == before + [(set_, p)] && all[..|all| - 1] == before;
    } else {
      var init := after[..|after| - 1];
      assert all[..|all| - 1] == before + [(set_, p)] + init && all[|all| - 1] == after[|after| - 1];
      LastPatchDecides(props, before, set_, p, init, k);
    }
  }
}
