/**
 The in-memory lock system (src/memls.rs): locks stored in a tree of path segments, each at the node
 spelled by its own path. Every public method is shown to act on the set of stored locks as the flat
 state machine of `LockModel` does.
 */
module MemLocks {
  import opened Results
  import opened DavPaths
  import opened LockModel
  import opened Trees
  import opened TreeViews

  type LockEntries = Entries<Bytes, seq<DavLock>>

  // ---------------------------------------------------------------------------------------------
  // The stored locks, as seen through the tree's entries

  ghost function LocksOf(e: LockEntries): Locks {
    set i, l | i in e && l in e[i].data :: l
  }

  /** Each lock sits at the node spelled by its own path. */
  ghost predicate Placed(e: LockEntries) {
    forall i, l :: i in e && l in e[i].data ==> l.Place() == e[i].path
  }

  ghost predicate NoRepeats(locks: seq<DavLock>) {
    forall a, b :: 0 <= a < b < |locks| ==> locks[a].token != locks[b].token
  }

  ghost predicate TokensOnce(e: LockEntries) {
    && (forall i :: i in e ==> NoRepeats(e[i].data))
    && (forall i, j, l, m :: i in e && j in e && l in e[i].data && m in e[j].data && l.token == m.token ==> i == j)
  }

  /** The locks of a node are the stored locks placed at its path. */
  lemma NodeHoldsItsPlace(e: LockEntries, i: nat, l: DavLock)
    requires Placed(e) && PathsUnique(e) && i in e
    ensures l in e[i].data <==> l in LocksOf(e) && l.Place() == e[i].path
  {
    if l in LocksOf(e) {
      var j :| j in e && l in e[j].data;
    }
  }

  lemma NoRepeatsMeansDistinct(locks: seq<DavLock>, l: DavLock, m: DavLock)
    requires NoRepeats(locks) && l in locks && m in locks && l.token == m.token
    ensures l == m
  {
    var a :| 0 <= a < |locks| && locks[a] == l;
    var b :| 0 <= b < |locks| && locks[b] == m;
    assert a == b;
  }

  lemma TokensOnceMeansDistinct(e: LockEntries)
    requires TokensOnce(e)
    ensures DistinctTokens(LocksOf(e))
  {
    forall l, m | l in LocksOf(e) && m in LocksOf(e) && l.token == m.token ensures l == m {
      var i :| i in e && l in e[i].data;
      var j :| j in e && m in e[j].data;
      assert i == j;
      NoRepeatsMeansDistinct(e[i].data, l, m);
    }
  }

  ghost predicate AgreeAt(a: LockEntries, b: LockEntries, i: nat) {
    && (i in a <==> i in b)
    && (i in a ==> a[i] == b[i])
  }

  lemma AgreeingAreEqual(a: LockEntries, b: LockEntries)
    requires forall i :: AgreeAt(a, b, i)
    ensures a == b
  {
    assert forall i :: AgreeAt(a, b, i) ==> (i in a <==> i in b) && (i in a ==> a[i] == b[i]);
  }

  // ---------------------------------------------------------------------------------------------
  // Pruning

  /** `retain(|lock| !expired)` */
  function FilterLive(locks: seq<DavLock>, now: int): (kept: seq<DavLock>)
    ensures forall l :: l in kept <==> l in locks && !l.Expired(now)
  {
    if locks == [] then []
    else
      var init, last := locks[..|locks| - 1], locks[|locks| - 1];
      assert locks == init + [last];
      FilterLive(init, now) + (if last.Expired(now) then [] else [last])
  }

  lemma {:induction false} FilterKeepsNoRepeats(locks: seq<DavLock>, now: int)
    requires NoRepeats(locks)
    ensures NoRepeats(FilterLive(locks, now))
  {
    if locks != [] {
      var init, last := locks[..|locks| - 1], locks[|locks| - 1];
      FilterKeepsNoRepeats(init, now);
      forall l | l in init ensures l.token != last.token {
        var a :| 0 <= a < |init| && init[a] == l;
        assert locks[a].token != locks[|locks| - 1].token;
      }
    }
  }

  ghost predicate LiveAtOrBelow(e: LockEntries, path: seq<Bytes>, now: int) {
    exists i, l :: i in e && path <= e[i].path && l in e[i].data && !l.Expired(now)
  }

  /** At and below `path`: expired locks dropped, and nodes without a live lock at or below them. */
  ghost function PrunedUnder(e: LockEntries, path: seq<Bytes>, now: int): LockEntries {
    map i | i in e && (path <= e[i].path && i != ROOT_ID ==> LiveAtOrBelow(e, e[i].path, now)) ::
      if path <= e[i].path then Entry(e[i].path, FilterLive(e[i].data, now)) else e[i]
  }

  ghost predicate UnderFirst(e: LockEntries, children: seq<(Bytes, nat)>, n: nat, path: seq<Bytes>)
    requires n <= |children|
    requires forall m :: 0 <= m < n ==> children[m].1 in e
  {
    exists m :: 0 <= m < n && e[children[m].1].path <= path
  }

  /** The subtrees of the first `n` children pruned. */
  ghost function PrunedChildren(e: LockEntries, children: seq<(Bytes, nat)>, n: nat, now: int): LockEntries
    requires n <= |children|
    requires forall m :: 0 <= m < n ==> children[m].1 in e
  {
    map i | i in e && (UnderFirst(e, children, n, e[i].path) ==> LiveAtOrBelow(e, e[i].path, now)) ::
      if UnderFirst(e, children, n, e[i].path) then Entry(e[i].path, FilterLive(e[i].data, now)) else e[i]
  }

  ghost predicate HasLockAtOrBelow(e: LockEntries, i: nat)
    requires i in e
  {
    exists j :: j in e && e[i].path <= e[j].path && e[j].data != []
  }

  /** Every non-root node has a lock at or below it. */
  ghost predicate NormalForm(e: LockEntries) {
    forall i {:trigger HasLockAtOrBelow(e, i)} :: i in e && i != ROOT_ID ==> HasLockAtOrBelow(e, i)
  }

  lemma PrunedLocks(e: LockEntries, now: int)
    ensures LocksOf(PrunedUnder(e, [], now)) == Live(LocksOf(e), now)
  {
    var e' := PrunedUnder(e, [], now);
    forall l | l in Live(LocksOf(e), now) ensures l in LocksOf(e') {
      var i :| i in e && l in e[i].data;
      assert LiveAtOrBelow(e, e[i].path, now);
      assert i in e' && l in e'[i].data;
    }
  }

  lemma PrunedKeepsTokens(e: LockEntries, now: int)
    requires Placed(e) && TokensOnce(e)
    ensures Placed(PrunedUnder(e, [], now)) && TokensOnce(PrunedUnder(e, [], now))
  {
    forall i | i in e ensures NoRepeats(FilterLive(e[i].data, now)) {
      FilterKeepsNoRepeats(e[i].data, now);
    }
  }

  lemma PrunedIsNormal(e: LockEntries, now: int)
    ensures NormalForm(PrunedUnder(e, [], now))
  {
    var e' := PrunedUnder(e, [], now);
    forall i | i in e' && i != ROOT_ID ensures HasLockAtOrBelow(e', i) {
      var j, l :| j in e && e[i].path <= e[j].path && l in e[j].data && !l.Expired(now);
      assert LiveAtOrBelow(e, e[j].path, now);
      assert j in e' && l in e'[j].data;
    }
  }

  /** A node is under the pruned children exactly when it lies strictly below their parent. */
  lemma BelowIsUnderSomeChild(nodes: Nodes<Bytes, seq<DavLock>>, e: LockEntries, id: nat, children: seq<(Bytes, nat)>,
                              i: nat)
    requires Labels(nodes, e) && id in e && i in e && EnumeratesChildren(e, id, children)
    ensures UnderFirst(e, children, |children|, e[i].path) <==> e[id].path < e[i].path
  {
    if e[id].path < e[i].path {
      var k, c := ChildTowards(nodes, e, id, i);
      var m :| 0 <= m < |children| && children[m].1 == c;
      assert e[children[m].1].path <= e[i].path;
    }
    if m :| 0 <= m < |children| && e[children[m].1].path <= e[i].path {
      assert e[id].path < e[children[m].1].path;
    }
  }

  /** A path below one child is not below an earlier one. */
  lemma SiblingsDisjoint(e: LockEntries, id: nat, children: seq<(Bytes, nat)>, n: nat, q: seq<Bytes>)
    requires id in e && EnumeratesChildren(e, id, children) && n < |children|
    requires e[children[n].1].path <= q
    ensures !UnderFirst(e, children, n, q)
  {
    var depth := |e[id].path|;
    forall m | 0 <= m < n ensures !(e[children[m].1].path <= q) {
      assert e[children[n].1].path[depth] == children[n].0 == q[depth];
      assert e[children[m].1].path[depth] == children[m].0;
    }
  }

  lemma NextSubtreeUntouched(e: LockEntries, id: nat, children: seq<(Bytes, nat)>, n: nat, now: int, j: nat)
    requires id in e && EnumeratesChildren(e, id, children) && n < |children|
    requires j in e && e[children[n].1].path <= e[j].path
    ensures j in PrunedChildren(e, children, n, now) && PrunedChildren(e, children, n, now)[j] == e[j]
  {
    SiblingsDisjoint(e, id, children, n, e[j].path);
  }

  lemma NextLivenessUntouched(e: LockEntries, id: nat, children: seq<(Bytes, nat)>, n: nat, now: int, q: seq<Bytes>)
    requires id in e && EnumeratesChildren(e, id, children) && n < |children|
    requires e[children[n].1].path <= q
    ensures LiveAtOrBelow(PrunedChildren(e, children, n, now), q, now) <==> LiveAtOrBelow(e, q, now)
  {
    var before := PrunedChildren(e, children, n, now);
    if LiveAtOrBelow(e, q, now) {
      var j, l :| j in e && q <= e[j].path && l in e[j].data && !l.Expired(now);
      NextSubtreeUntouched(e, id, children, n, now, j);
      assert j in before && l in before[j].data;
    }
    if LiveAtOrBelow(before, q, now) {
      var j, l :| j in before && q <= before[j].path && l in before[j].data && !l.Expired(now);
      assert before[j].path == e[j].path;
      NextSubtreeUntouched(e, id, children, n, now, j);
      assert j in e && l in e[j].data;
    }
  }

  lemma UnderOneMore(e: LockEntries, children: seq<(Bytes, nat)>, n: nat, q: seq<Bytes>)
    requires n < |children| && forall m :: 0 <= m <= n ==> children[m].1 in e
    ensures UnderFirst(e, children, n + 1, q) <==> UnderFirst(e, children, n, q) || e[children[n].1].path <= q
  {
    if e[children[n].1].path <= q { assert UnderFirst(e, children, n + 1, q); }
  }

  lemma NextChildPrunedAt(e: LockEntries, id: nat, children: seq<(Bytes, nat)>, n: nat, now: int, i: nat)
    requires id in e && EnumeratesChildren(e, id, children) && n < |children|
    requires ROOT_ID in e && e[ROOT_ID].path == []
    requires i in e
    ensures var a, b := PrunedUnder(PrunedChildren(e, children, n, now), e[children[n].1].path, now),
                        PrunedChildren(e, children, n + 1, now);
            AgreeAt(a, b, i)
  {
    UnderOneMore(e, children, n, e[i].path);
    if e[children[n].1].path <= e[i].path {
      SiblingsDisjoint(e, id, children, n, e[i].path);
      NextSubtreeUntouched(e, id, children, n, now, i);
      NextLivenessUntouched(e, id, children, n, now, e[i].path);
    }
  }

  lemma NextChildPruned(e: LockEntries, id: nat, children: seq<(Bytes, nat)>, n: nat, now: int)
    requires id in e && EnumeratesChildren(e, id, children) && n < |children|
    requires ROOT_ID in e && e[ROOT_ID].path == []
    ensures children[n].1 in PrunedChildren(e, children, n, now)
    ensures PrunedChildren(e, children, n, now)[children[n].1] == e[children[n].1]
    ensures PrunedUnder(PrunedChildren(e, children, n, now), e[children[n].1].path, now)
            == PrunedChildren(e, children, n + 1, now)
    ensures SubtreeIds(PrunedChildren(e, children, n, now), children[n].1) < SubtreeIds(e, id)
  {
    var c := children[n].1;
    NextSubtreeUntouched(e, id, children, n, now, c);
    assert id in SubtreeIds(e, id) && id !in SubtreeIds(PrunedChildren(e, children, n, now), c);
    var a := PrunedUnder(PrunedChildren(e, children, n, now), e[c].path, now);
    var b := PrunedChildren(e, children, n + 1, now);
    forall i ensures AgreeAt(a, b, i) {
      if i in e {
        NextChildPrunedAt(e, id, children, n, now, i);
      }
    }
    AgreeingAreEqual(a, b);
  }

  /** The node's own entry once its children are pruned and its expired locks are dropped. */
  ghost function NodeRetained(e: LockEntries, id: nat, children: seq<(Bytes, nat)>, now: int): LockEntries
    requires id in e && EnumeratesChildren(e, id, children)
  {
    PrunedChildren(e, children, |children|, now)[id := Entry(e[id].path, FilterLive(e[id].data, now))]
  }

  lemma StaysIfLive(nodes: Nodes<Bytes, seq<DavLock>>, e: LockEntries, id: nat, children: seq<(Bytes, nat)>, now: int,
                    i: nat, l: DavLock)
    requires Labels(nodes, e) && id in e && EnumeratesChildren(e, id, children)
    requires i in e && e[id].path <= e[i].path && l in e[i].data && !l.Expired(now)
    requires FilterLive(e[id].data, now) == []
    ensures HasBelow(NodeRetained(e, id, children, now), id)
  {
    var e2 := NodeRetained(e, id, children, now);
    assert l !in FilterLive(e[id].data, now);
    if e[id].path == e[i].path { PathsInjective(nodes, e, i, id); }
    assert LiveAtOrBelow(e, e[i].path, now);
    assert i in e2 && e2[i].path == e[i].path && e2[id].path == e[id].path;
  }

  lemma LiveIfBelow(nodes: Nodes<Bytes, seq<DavLock>>, e: LockEntries, id: nat, children: seq<(Bytes, nat)>, now: int)
    requires Labels(nodes, e) && id in e && EnumeratesChildren(e, id, children)
    requires HasBelow(NodeRetained(e, id, children, now), id)
    ensures LiveAtOrBelow(e, e[id].path, now)
  {
    var path, e2 := e[id].path, NodeRetained(e, id, children, now);
    var i :| i in e2 && path < e2[i].path;
    BelowIsUnderSomeChild(nodes, e, id, children, i);
    assert LiveAtOrBelow(e, e[i].path, now);
  }

  lemma NodeDroppedIffNothingLive(nodes: Nodes<Bytes, seq<DavLock>>, e: LockEntries, id: nat,
                                  children: seq<(Bytes, nat)>, now: int)
    requires Labels(nodes, e) && id in e && EnumeratesChildren(e, id, children)
    ensures HasBelow(NodeRetained(e, id, children, now), id) || FilterLive(e[id].data, now) != []
            <==> LiveAtOrBelow(e, e[id].path, now)
  {
    if FilterLive(e[id].data, now) != [] {
      assert FilterLive(e[id].data, now)[0] in e[id].data;
    } else if LiveAtOrBelow(e, e[id].path, now) {
      var i, l :| i in e && e[id].path <= e[i].path && l in e[i].data && !l.Expired(now);
      StaysIfLive(nodes, e, id, children, now, i, l);
    } else if HasBelow(NodeRetained(e, id, children, now), id) {
      LiveIfBelow(nodes, e, id, children, now);
    }
  }

  lemma NodePrunedLastAt(nodes: Nodes<Bytes, seq<DavLock>>, e: LockEntries, id: nat, children: seq<(Bytes, nat)>,
                         now: int, i: nat)
    requires Labels(nodes, e) && id in e && i in e && i != id && EnumeratesChildren(e, id, children)
    ensures var a, b := PrunedUnder(e, e[id].path, now), NodeRetained(e, id, children, now);
            AgreeAt(a, b, i)
  {
    BelowIsUnderSomeChild(nodes, e, id, children, i);
    if e[id].path == e[i].path { PathsInjective(nodes, e, i, id); }
    RootIffEmptyPath(nodes, e, i);
  }

  /** What is left when the node itself is dealt with after its children. */
  ghost function NodePruned(e: LockEntries, id: nat, children: seq<(Bytes, nat)>, now: int): LockEntries
    requires id in e && EnumeratesChildren(e, id, children)
  {
    var e2 := NodeRetained(e, id, children, now);
    if FilterLive(e[id].data, now) == [] && id != ROOT_ID && !HasBelow(e2, id) then e2 - {id} else e2
  }

  lemma NodeItselfPruned(nodes: Nodes<Bytes, seq<DavLock>>, e: LockEntries, id: nat, children: seq<(Bytes, nat)>,
                         now: int)
    requires Labels(nodes, e) && id in e && EnumeratesChildren(e, id, children)
    ensures AgreeAt(PrunedUnder(e, e[id].path, now), NodePruned(e, id, children, now), id)
  {
    NodeDroppedIffNothingLive(nodes, e, id, children, now);
  }

  /** With the children pruned, pruning the node itself prunes its whole subtree. */
  lemma NodePrunedLast(nodes: Nodes<Bytes, seq<DavLock>>, e: LockEntries, id: nat, children: seq<(Bytes, nat)>,
                       now: int)
    requires Labels(nodes, e) && id in e && EnumeratesChildren(e, id, children)
    ensures id in PrunedChildren(e, children, |children|, now)
    ensures PrunedChildren(e, children, |children|, now)[id] == e[id]
    ensures var e2 := NodeRetained(e, id, children, now);
            PrunedUnder(e, e[id].path, now)
            == if FilterLive(e[id].data, now) == [] && id != ROOT_ID && !HasBelow(e2, id) then e2 - {id} else e2
  {
    BelowIsUnderSomeChild(nodes, e, id, children, id);
    var a, b := PrunedUnder(e, e[id].path, now), NodePruned(e, id, children, now);
    forall i ensures AgreeAt(a, b, i) {
      if i == id {
        NodeItselfPruned(nodes, e, id, children, now);
      } else if i in e {
        NodePrunedLastAt(nodes, e, id, children, now, i);
      }
    }
    AgreeingAreEqual(a, b);
  }

  ghost function NodePaths(e: LockEntries): set<seq<Bytes>> {
    set i | i in e :: e[i].path
  }

  /** The root, and every non-empty prefix of the path of a stored lock. */
  ghost function PrefixClosure(s: Locks): set<seq<Bytes>> {
    {[]} + set l, n | l in s && 0 < n <= |l.Place()| :: l.Place()[..n]
  }

  /** A pruned tree has no node too many: its paths are exactly the prefixes of stored lock paths. */
  lemma NormalFormIsPrefixClosure(nodes: Nodes<Bytes, seq<DavLock>>, e: LockEntries)
    requires Labels(nodes, e) && Placed(e)
    ensures NormalForm(e) <==> NodePaths(e) == PrefixClosure(LocksOf(e))
  {
    forall q | q in PrefixClosure(LocksOf(e)) ensures q in NodePaths(e) {
      if q == [] {
        assert e[ROOT_ID].path == q;
      } else {
        var l, n :| l in LocksOf(e) && 0 < n <= |l.Place()| && l.Place()[..n] == q;
        var i :| i in e && l in e[i].data;
        var a := AncestorExists(nodes, e, i, n);
      }
    }
    if NormalForm(e) {
      forall i | i in e ensures e[i].path in PrefixClosure(LocksOf(e)) {
        NormalNodeIsPrefix(nodes, e, i);
      }
    }
    if NodePaths(e) == PrefixClosure(LocksOf(e)) {
      forall i | i in e && i != ROOT_ID ensures HasLockAtOrBelow(e, i) {
        PrefixNodeHasLock(nodes, e, i);
      }
    }
  }

  lemma NormalNodeIsPrefix(nodes: Nodes<Bytes, seq<DavLock>>, e: LockEntries, i: nat)
    requires Labels(nodes, e) && Placed(e) && NormalForm(e) && i in e
    ensures e[i].path in PrefixClosure(LocksOf(e))
  {
    RootIffEmptyPath(nodes, e, i);
    if i != ROOT_ID {
      assert HasLockAtOrBelow(e, i);
      var j :| j in e && e[i].path <= e[j].path && e[j].data != [];
      var l := e[j].data[0];
      assert l in e[j].data && l in LocksOf(e);
      assert l.Place()[..|e[i].path|] == e[i].path;
    }
  }

  lemma PrefixNodeHasLock(nodes: Nodes<Bytes, seq<DavLock>>, e: LockEntries, i: nat)
    requires Labels(nodes, e) && Placed(e) && i in e && i != ROOT_ID
    requires e[i].path in PrefixClosure(LocksOf(e))
    ensures HasLockAtOrBelow(e, i)
  {
    RootIffEmptyPath(nodes, e, i);
    var l, n :| l in LocksOf(e) && 0 < n <= |l.Place()| && l.Place()[..n] == e[i].path;
    var j :| j in e && l in e[j].data;
    assert e[i].path <= e[j].path && e[j].data != [];
  }

  lemma {:induction false} InjectiveImageSize(e: LockEntries, ids: set<nat>)
    requires PathsUnique(e) && ids <= e.Keys
    ensures |set i | i in ids :: e[i].path| == |ids|
  {
    if ids != {} {
      var i :| i in ids;
      var image, rest := set j | j in ids :: e[j].path, set j | j in ids - {i} :: e[j].path;
      InjectiveImageSize(e, ids - {i});
      assert image == rest + {e[i].path} && e[i].path !in rest;
    }
  }

  /** The node count of a pruned tree is the number of distinct prefixes of its lock paths. */
  lemma PrunedTreeSize(nodes: Nodes<Bytes, seq<DavLock>>, e: LockEntries)
    requires Labels(nodes, e) && Placed(e) && NormalForm(e)
    ensures |e| == |PrefixClosure(LocksOf(e))|
  {
    NormalFormIsPrefixClosure(nodes, e);
    LabelledPathsUnique(nodes, e);
    InjectiveImageSize(e, e.Keys);
    assert NodePaths(e) == set i | i in e.Keys :: e[i].path;
  }

  function SegmentCount(locks: seq<DavLock>): nat {
    if locks == [] then 0 else |locks[0].Place()| + SegmentCount(locks[1..])
  }

  lemma {:induction false} PrefixCount(p: seq<Bytes>, n: nat)
    requires n <= |p|
    ensures |set k | 0 < k <= n :: p[..k]| <= n
  {
    var prefixes := set k | 0 < k <= n :: p[..k];
    if n > 0 {
      PrefixCount(p, n - 1);
      assert prefixes == (set k | 0 < k <= n - 1 :: p[..k]) + {p[..n]};
    } else {
      assert prefixes == {};
    }
  }

  lemma PrefixClosureSplit(s: Locks, l: DavLock)
    ensures PrefixClosure(s) <= PrefixClosure(s - {l}) + (set k | 0 < k <= |l.Place()| :: l.Place()[..k])
  {
    forall q | q in PrefixClosure(s) && q != []
      ensures q in PrefixClosure(s - {l}) || q in set k | 0 < k <= |l.Place()| :: l.Place()[..k]
    {
      var o, n :| o in s && 0 < n <= |o.Place()| && o.Place()[..n] == q;
      if o != l { assert o in s - {l}; }
    }
  }

  lemma {:induction false} PrefixClosureBound(s: Locks, locks: seq<DavLock>)
    requires forall l :: l in s ==> l in locks
    ensures |PrefixClosure(s)| <= 1 + SegmentCount(locks)
    decreases |locks|
  {
    if locks == [] {
      assert PrefixClosure(s) == {[]};
    } else {
      var first, rest := locks[0], s - {locks[0]};
      var p := first.Place();
      PrefixClosureBound(rest, locks[1..]);
      PrefixCount(p, |p|);
      var own := set k | 0 < k <= |p| :: p[..k];
      PrefixClosureSplit(s, first);
      SubsetSize(PrefixClosure(s), PrefixClosure(rest) + own);
    }
  }

  lemma SubsetSize<T>(a: set<T>, b: set<T>)
    requires a <= b
    ensures |a| <= |b|
  {
    assert b == a + (b - a);
  }

  /** However it came about, a pruned tree has at most one node plus the segments of its locks' paths together. */
  lemma PrunedTreeIsBounded(nodes: Nodes<Bytes, seq<DavLock>>, e: LockEntries, locks: seq<DavLock>)
    requires Labels(nodes, e) && Placed(e) && NormalForm(e) && forall l :: l in LocksOf(e) ==> l in locks
    ensures |e| <= 1 + SegmentCount(locks)
  {
    PrunedTreeSize(nodes, e);
    PrefixClosureBound(LocksOf(e), locks);
  }

  // ---------------------------------------------------------------------------------------------
  // Walking the segments of a path

  /** The covering locks placed at a depth less than `n`: those a walk has seen after `n` nodes. */
  ghost function CoveringAbove(s: Locks, p: seq<Bytes>, n: nat): Locks {
    set l | l in s && l.Covers(p) && |l.Place()| < n
  }

  /** The locks of a node that the walk considers: all of them at the end of the path, else the deep ones. */
  ghost function Considered(locks: seq<DavLock>, last: bool): Locks {
    set l | l in locks && (last || l.deep)
  }

  lemma WalkStep(e: LockEntries, id: nat, p: seq<Bytes>, n: nat)
    requires Placed(e) && PathsUnique(e) && id in e && n <= |p| && e[id].path == p[..n]
    ensures CoveringAbove(LocksOf(e), p, n + 1)
            == CoveringAbove(LocksOf(e), p, n) + Considered(e[id].data, n == |p|)
  {
    var a, b := CoveringAbove(LocksOf(e), p, n + 1), CoveringAbove(LocksOf(e), p, n) + Considered(e[id].data, n == |p|);
    forall l ensures l in a <==> l in b {
      NodeHoldsItsPlace(e, id, l);
      if l.Covers(p) && |l.Place()| == n {
        assert l.Place() == p[..n];
      }
      if l.Place() == p[..n] && n == |p| {
        assert p[..n] == p;
      }
    }
  }

  lemma WalkStops(nodes: Nodes<Bytes, seq<DavLock>>, e: LockEntries, p: seq<Bytes>, n: nat)
    requires Labels(nodes, e) && Placed(e) && n <= |p| && !PathTaken(e, p[..n])
    ensures CoveringAbove(LocksOf(e), p, n) == Covering(LocksOf(e), p)
  {
    NothingUnderUntaken(nodes, e, p[..n]);
    forall l | l in Covering(LocksOf(e), p) ensures |l.Place()| < n {
      var i :| i in e && l in e[i].data;
      assert !(p[..n] <= e[i].path);
    }
  }

  lemma NothingAbove(s: Locks, p: seq<Bytes>)
    ensures CoveringAbove(s, p, 0) == {}
  {}

  lemma WalkEnds(s: Locks, p: seq<Bytes>)
    ensures CoveringAbove(s, p, |p| + 1) == Covering(s, p)
  {
    forall l | l in Covering(s, p) ensures |l.Place()| < |p| + 1 {
      assert l.Place() <= p;
    }
  }

  /** `path_to_segs`: with the root as an empty first segment if it is to be included. */
  function PathToSegs(path: Bytes, includeRoot: bool): seq<Bytes> {
    if includeRoot then [[]] + Segs(path) else Segs(path)
  }

  /** Appending the segment at position `i` of the walk leads from depth `i - 1` to depth `i`. */
  lemma SegAt(path: Bytes, i: nat, parent: seq<Bytes>)
    requires i <= |Segs(path)|
    requires parent == Segs(path)[..if i == 0 then 0 else i - 1]
    ensures PathToSegs(path, true)[i] == [] <==> i == 0
    ensures parent + (if i == 0 then [] else [PathToSegs(path, true)[i]]) == Segs(path)[..i]
  {
    SegsAreSegments(path);
    if i > 0 { assert IsSegment(Segs(path)[i - 1]); }
  }

  /** What the walk remembers about the locks it has considered. */
  ghost predicate WalkState(seen: Locks, holdsLock: bool, firstLockSeen: Option<DavLock>,
                            tokens: seq<Token>, principal: Option<string>, ignorePrincipal: bool, sharedOk: bool)
  {
    && (forall l {:trigger l.Held(tokens, principal, ignorePrincipal)} :: l in seen ==>
          l.Held(tokens, principal, ignorePrincipal) || l.shared)
    && (holdsLock <==>
          exists l {:trigger l.Held(tokens, principal, ignorePrincipal)} ::
            l in seen && l.Held(tokens, principal, ignorePrincipal))
    && (sharedOk ==> firstLockSeen == None)
    && (!sharedOk ==> (firstLockSeen == None <==> AllHeld(seen, tokens, principal, ignorePrincipal)))
    && (firstLockSeen.Some? ==>
          firstLockSeen.value in seen && !firstLockSeen.value.Held(tokens, principal, ignorePrincipal))
  }

  lemma WalkDecides(c: Locks, holdsLock: bool, first: Option<DavLock>,
                    tokens: seq<Token>, principal: Option<string>, ignorePrincipal: bool, sharedOk: bool)
    requires WalkState(c, holdsLock, first, tokens, principal, ignorePrincipal, sharedOk)
    ensures PathAllows(c, tokens, principal, ignorePrincipal, sharedOk) <==> holdsLock || first == None
  {}

  lemma ExclusiveBlocks(c: Locks, l: DavLock, tokens: seq<Token>, principal: Option<string>, ignorePrincipal: bool,
                        sharedOk: bool)
    requires l in c && !l.shared && !l.Held(tokens, principal, ignorePrincipal)
    ensures !PathAllows(c, tokens, principal, ignorePrincipal, sharedOk)
  {}

  lemma WalkSees(seen: Locks, holdsLock: bool, first: Option<DavLock>, nl: DavLock,
                 tokens: seq<Token>, principal: Option<string>, ignorePrincipal: bool, sharedOk: bool)
    requires WalkState(seen, holdsLock, first, tokens, principal, ignorePrincipal, sharedOk)
    ensures var held := nl.Held(tokens, principal, ignorePrincipal);
            held || nl.shared ==>
              WalkState(seen + {nl}, holdsLock || held, if !held && !sharedOk && first == None then Some(nl) else first,
                        tokens, principal, ignorePrincipal, sharedOk)
  {}

  lemma NothingSeen(tokens: seq<Token>, principal: Option<string>, ignorePrincipal: bool, sharedOk: bool)
    ensures WalkState({}, false, None, tokens, principal, ignorePrincipal, sharedOk)
  {}

  lemma OneMoreConsidered(locks: seq<DavLock>, n: nat, last: bool)
    requires n < |locks|
    ensures Considered(locks[..n + 1], last)
            == Considered(locks[..n], last) + (if last || locks[n].deep then {locks[n]} else {})
  {
    assert locks[..n + 1] == locks[..n] + [locks[n]];
  }

  /** The inner loop of `check_locks_to_path`, over the locks of one node. */
  method CheckNodeLocks(nodeLocks: seq<DavLock>, last: bool, tokens: seq<Token>, principal: Option<string>,
                        ignorePrincipal: bool, sharedOk: bool, holdsLock: bool, firstLockSeen: Option<DavLock>,
                        ghost seen: Locks)
    returns (r: Result<(bool, Option<DavLock>), DavLock>)
    requires WalkState(seen, holdsLock, firstLockSeen, tokens, principal, ignorePrincipal, sharedOk)
    ensures r.Ok? ==> WalkState(seen + Considered(nodeLocks, last), r.value.0, r.value.1,
                                tokens, principal, ignorePrincipal, sharedOk)
    ensures r.Err? ==> r.error in Considered(nodeLocks, last) && !r.error.shared
                       && !r.error.Held(tokens, principal, ignorePrincipal)
  {
    var holds, first := holdsLock, firstLockSeen;
    ghost var now := seen;
    for n := 0 to |nodeLocks|
      invariant now == seen + Considered(nodeLocks[..n], last)
      invariant WalkState(now, holds, first, tokens, principal, ignorePrincipal, sharedOk)
    {
      var nl := nodeLocks[n];
      OneMoreConsidered(nodeLocks, n, last);
      if last || nl.deep {
        WalkSees(now, holds, first, nl, tokens, principal, ignorePrincipal, sharedOk);
        now := now + {nl};
        if nl.Held(tokens, principal, ignorePrincipal) {
          holds := true;
        } else {
          if !nl.shared {
            return Err(nl);
          }
          if !sharedOk && first == None {
            first := Some(nl);
          }
        }
      }
    }
    assert nodeLocks[..|nodeLocks|] == nodeLocks;
    r := Ok((holds, first));
  }

  // ---------------------------------------------------------------------------------------------
  // Downward

  lemma ChildSubtreeSmaller(e: LockEntries, id: nat, children: seq<(Bytes, nat)>, n: nat)
    requires id in e && EnumeratesChildren(e, id, children) && n < |children|
    ensures SubtreeIds(e, children[n].1) < SubtreeIds(e, id)
  {
    assert id in SubtreeIds(e, id) && id !in SubtreeIds(e, children[n].1);
  }

  ghost predicate BelowSomeChild(e: LockEntries, children: seq<(Bytes, nat)>, l: DavLock)
    requires forall m :: 0 <= m < |children| ==> children[m].1 in e
  {
    exists m :: 0 <= m < |children| && l in AtOrBelow(LocksOf(e), e[children[m].1].path)
  }

  lemma BelowIsHereOrUnderChild(nodes: Nodes<Bytes, seq<DavLock>>, e: LockEntries, id: nat,
                                children: seq<(Bytes, nat)>, l: DavLock)
    requires Labels(nodes, e) && Placed(e) && id in e && EnumeratesChildren(e, id, children)
    requires l in AtOrBelow(LocksOf(e), e[id].path) && l.Place() != e[id].path
    ensures BelowSomeChild(e, children, l)
  {
    var i :| i in e && l in e[i].data;
    BelowIsUnderSomeChild(nodes, e, id, children, i);
    var m :| 0 <= m < |children| && e[children[m].1].path <= e[i].path;
    assert l in AtOrBelow(LocksOf(e), e[children[m].1].path);
  }

  lemma UnderChildIsBelow(e: LockEntries, id: nat, children: seq<(Bytes, nat)>, l: DavLock)
    requires id in e && EnumeratesChildren(e, id, children) && BelowSomeChild(e, children, l)
    ensures l in AtOrBelow(LocksOf(e), e[id].path)
  {
    var m :| 0 <= m < |children| && l in AtOrBelow(LocksOf(e), e[children[m].1].path);
    assert e[id].path <= e[children[m].1].path;
  }

  /** The locks at or below a node are its own and those at or below its children. */
  lemma BelowSplits(nodes: Nodes<Bytes, seq<DavLock>>, e: LockEntries, id: nat, children: seq<(Bytes, nat)>, l: DavLock)
    requires Labels(nodes, e) && Placed(e) && id in e && EnumeratesChildren(e, id, children)
    ensures l in AtOrBelow(LocksOf(e), e[id].path) <==> l in e[id].data || BelowSomeChild(e, children, l)
  {
    LabelledPathsUnique(nodes, e);
    NodeHoldsItsPlace(e, id, l);
    if BelowSomeChild(e, children, l) {
      UnderChildIsBelow(e, id, children, l);
    } else if l in AtOrBelow(LocksOf(e), e[id].path) && l.Place() != e[id].path {
      BelowIsHereOrUnderChild(nodes, e, id, children, l);
    }
  }

  /** The locks under the first `n` children allow the request. */
  ghost predicate ChildrenAllow(e: LockEntries, children: seq<(Bytes, nat)>, n: nat,
                                tokens: seq<Token>, principal: Option<string>, ignorePrincipal: bool, sharedOk: bool)
    requires n <= |children| && forall m :: 0 <= m < |children| ==> children[m].1 in e
  {
    forall m :: 0 <= m < n ==>
      BelowAllows(AtOrBelow(LocksOf(e), e[children[m].1].path), tokens, principal, ignorePrincipal, sharedOk)
  }

  lemma OneMoreChildAllows(e: LockEntries, children: seq<(Bytes, nat)>, n: nat,
                           tokens: seq<Token>, principal: Option<string>, ignorePrincipal: bool, sharedOk: bool)
    requires n < |children| && forall m :: 0 <= m < |children| ==> children[m].1 in e
    requires ChildrenAllow(e, children, n, tokens, principal, ignorePrincipal, sharedOk)
    requires BelowAllows(AtOrBelow(LocksOf(e), e[children[n].1].path), tokens, principal, ignorePrincipal, sharedOk)
    ensures ChildrenAllow(e, children, n + 1, tokens, principal, ignorePrincipal, sharedOk)
  {}

  lemma OneChildObjects(e: LockEntries, children: seq<(Bytes, nat)>, n: nat, l: DavLock)
    requires n < |children| && forall m :: 0 <= m < |children| ==> children[m].1 in e
    requires l in AtOrBelow(LocksOf(e), e[children[n].1].path)
    ensures BelowSomeChild(e, children, l)
  {}

  lemma BelowAllowsSplits(nodes: Nodes<Bytes, seq<DavLock>>, e: LockEntries, id: nat, children: seq<(Bytes, nat)>,
                          tokens: seq<Token>, principal: Option<string>, ignorePrincipal: bool, sharedOk: bool)
    requires Labels(nodes, e) && Placed(e) && id in e && EnumeratesChildren(e, id, children)
    requires forall l :: l in e[id].data ==> l.Held(tokens, principal, ignorePrincipal) || (sharedOk && l.shared)
    requires ChildrenAllow(e, children, |children|, tokens, principal, ignorePrincipal, sharedOk)
    ensures BelowAllows(AtOrBelow(LocksOf(e), e[id].path), tokens, principal, ignorePrincipal, sharedOk)
  {
    forall l | l in AtOrBelow(LocksOf(e), e[id].path)
      ensures l.Held(tokens, principal, ignorePrincipal) || (sharedOk && l.shared)
    {
      BelowSplits(nodes, e, id, children, l);
    }
  }

  // ---------------------------------------------------------------------------------------------
  // Changing one node's locks

  /** `f` has all entries of `e` and otherwise only lock-free ones. */
  ghost predicate GrownEmpty(e: LockEntries, f: LockEntries) {
    && (forall i :: i in e ==> i in f && f[i] == e[i])
    && (forall i :: i in f && i !in e ==> f[i].data == [])
  }

  lemma GrowthContinues(e: LockEntries, f: LockEntries, g: LockEntries)
    requires GrownEmpty(e, f) && GrownEmpty(f, g)
    ensures GrownEmpty(e, g)
  {}

  lemma GrowthKeepsLocks(e: LockEntries, f: LockEntries)
    requires GrownEmpty(e, f)
    ensures LocksOf(f) == LocksOf(e)
    ensures Placed(e) ==> Placed(f)
    ensures TokensOnce(e) ==> TokensOnce(f)
  {
    forall l ensures l in LocksOf(f) <==> l in LocksOf(e) {
      if l in LocksOf(e) {
        var i :| i in e && l in e[i].data;
        assert i in f && l in f[i].data;
      }
    }
  }

  ghost function WithNodeLocks(e: LockEntries, id: nat, locks: seq<DavLock>): LockEntries
    requires id in e
  {
    e[id := Entry(e[id].path, locks)]
  }

  /** Replacing the locks of one node by locks placed there replaces exactly those in the stored set. */
  lemma NodeLocksReplaced(e: LockEntries, id: nat, locks: seq<DavLock>)
    requires Placed(e) && PathsUnique(e) && id in e
    requires forall l :: l in locks ==> l.Place() == e[id].path
    ensures Placed(WithNodeLocks(e, id, locks))
    ensures forall l :: l in LocksOf(WithNodeLocks(e, id, locks))
                        <==> if l.Place() == e[id].path then l in locks else l in LocksOf(e)
  {
    var f := WithNodeLocks(e, id, locks);
    forall l ensures l in LocksOf(f) <==> if l.Place() == e[id].path then l in locks else l in LocksOf(e) {
      if l in LocksOf(f) {
        var i :| i in f && l in f[i].data;
      }
      if l in locks { assert l in f[id].data; }
      if l in LocksOf(e) && l.Place() != e[id].path {
        var i :| i in e && l in e[i].data;
        assert i in f && l in f[i].data;
      }
    }
  }

  /** Tokens stay unique if the node's new tokens are unique and each its own old one or fresh. */
  lemma NodeTokensReplaced(e: LockEntries, id: nat, locks: seq<DavLock>)
    requires TokensOnce(e) && id in e && NoRepeats(locks)
    requires forall l :: l in locks ==>
               || (exists m :: m in e[id].data && m.token == l.token)
               || (forall m :: m in LocksOf(e) ==> m.token != l.token)
    ensures TokensOnce(WithNodeLocks(e, id, locks))
  {
    var f := WithNodeLocks(e, id, locks);
    forall l, j, k | l in locks && j in e && j != id && k in e[j].data ensures l.token != k.token {
      assert k in LocksOf(e);
      if m :| m in e[id].data && m.token == l.token {
        assert m.token == k.token ==> id == j;
      }
    }
  }

  /** At most one stored lock carries a given token: the one found is all that is named. */
  lemma FoundIsNamed(e: LockEntries, l: DavLock, p: seq<Bytes>)
    requires TokensOnce(e) && l in LocksOf(e) && l.Place() <= p
    ensures Named(LocksOf(e), p, l.token) == {l}
  {
    TokensOnceMeansDistinct(e);
  }

  lemma NoConflictIffChecksPass(s: Locks, p: seq<Bytes>, shared: bool, deep: bool)
    ensures Conflicts(s, p, shared, deep) == {}
            <==> && PathAllows(Covering(s, p), [], None, true, shared)
                 && (deep ==> BelowAllows(AtOrBelow(s, p), [], None, true, shared))
  {
    var c := Conflicts(s, p, shared, deep);
    forall l | l in Covering(s, p) ensures (l in c <==> !(shared && l.shared)) && !l.Held([], None, true) {}
    if deep {
      forall l | l in AtOrBelow(s, p) ensures (l in c <==> !(shared && l.shared)) && !l.Held([], None, true) {}
    }
    if c != {} {
      var l :| l in c;
      assert !l.Held([], None, true);
    }
  }

  // ---------------------------------------------------------------------------------------------
  // Finding and listing

  function HasToken(locks: seq<DavLock>, token: Token): (found: bool)
    ensures found <==> exists l :: l in locks && l.token == token
  {
    if locks == [] then false
    else
      assert locks == [locks[0]] + locks[1..];
      locks[0].token == token || HasToken(locks[1..], token)
  }

  /** Where the walk breaks off, no named lock can be placed any deeper. */
  lemma NamedNotDeeper(nodes: Nodes<Bytes, seq<DavLock>>, e: LockEntries, p: seq<Bytes>, n: nat, token: Token)
    requires Labels(nodes, e) && Placed(e) && n <= |p| && !PathTaken(e, p[..n])
    ensures forall l :: l in Named(LocksOf(e), p, token) ==> |l.Place()| < n
  {
    NothingUnderUntaken(nodes, e, p[..n]);
    forall l | l in Named(LocksOf(e), p, token) ensures |l.Place()| < n {
      var i :| i in e && l in e[i].data;
      assert l.Place() == p[..|l.Place()|];
      assert p[..n] <= l.Place() <==> n <= |l.Place()|;
    }
  }

  lemma NamedNotHere(e: LockEntries, id: nat, p: seq<Bytes>, n: nat, token: Token)
    requires Placed(e) && PathsUnique(e) && id in e && n <= |p| && e[id].path == p[..n]
    requires forall l :: l in e[id].data ==> l.token != token
    requires forall l :: l in Named(LocksOf(e), p, token) ==> |l.Place()| >= n
    ensures forall l :: l in Named(LocksOf(e), p, token) ==> |l.Place()| >= n + 1
  {
    forall l | l in Named(LocksOf(e), p, token) ensures |l.Place()| >= n + 1 {
      NodeHoldsItsPlace(e, id, l);
      assert l.Place() == p[..|l.Place()|];
    }
  }

  /** The inner loop of `list_locks`. */
  method SelectConsidered(nodeLocks: seq<DavLock>, last: bool) returns (listed: seq<DavLock>)
    ensures forall l :: l in listed <==> l in Considered(nodeLocks, last)
    ensures NoRepeats(nodeLocks) ==> NoRepeats(listed)
  {
    listed := [];
    for n := 0 to |nodeLocks|
      invariant forall l :: l in listed <==> l in Considered(nodeLocks[..n], last)
      invariant NoRepeats(nodeLocks) ==> NoRepeats(listed)
    {
      var lock := nodeLocks[n];
      assert nodeLocks[..n + 1] == nodeLocks[..n] + [lock];
      if last || lock.deep {
        if NoRepeats(nodeLocks) {
          forall l | l in listed ensures l.token != lock.token {
            var a :| 0 <= a < n && nodeLocks[a] == l;
            assert nodeLocks[a].token != nodeLocks[n].token;
          }
        }
        listed := listed + [lock];
      }
    }
    assert nodeLocks[..|nodeLocks|] == nodeLocks;
  }

  /** The locks listed at one node are none of those listed above it. */
  lemma ListedApart(e: LockEntries, id: nat, p: seq<Bytes>, n: nat, above: seq<DavLock>, listed: seq<DavLock>)
    requires Placed(e) && TokensOnce(e) && id in e && n <= |p| && e[id].path == p[..n]
    requires NoRepeats(above) && NoRepeats(listed)
    requires forall l :: l in above <==> l in CoveringAbove(LocksOf(e), p, n)
    requires forall l :: l in listed ==> l in e[id].data
    ensures NoRepeats(above + listed)
  {
    forall l, m | l in above && m in listed ensures l.token != m.token {
      assert l in CoveringAbove(LocksOf(e), p, n);
      var i :| i in e && l in e[i].data;
      assert |e[i].path| < n;
    }
  }

  function PositionOf(locks: seq<DavLock>, token: Token): (idx: nat)
    requires exists l :: l in locks && l.token == token
    ensures idx < |locks| && locks[idx].token == token
  {
    if locks[0].token == token then 0
    else
      assert locks == [locks[0]] + locks[1..];
      1 + PositionOf(locks[1..], token)
  }

  lemma RemovedAt(locks: seq<DavLock>, idx: nat)
    requires NoRepeats(locks) && idx < |locks|
    ensures var kept := locks[..idx] + locks[idx + 1..];
            && NoRepeats(kept)
            && forall l :: l in kept <==> l in locks && l != locks[idx]
  {
    var kept := locks[..idx] + locks[idx + 1..];
    forall l ensures l in kept <==> l in locks && l != locks[idx] {
      if l in locks && l != locks[idx] {
        var a :| 0 <= a < |locks| && locks[a] == l;
        assert a < idx ==> locks[..idx][a] == l;
        assert a > idx ==> locks[idx + 1..][a - idx - 1] == l;
      }
    }
  }

  lemma ReplacedAt(locks: seq<DavLock>, idx: nat, lock: DavLock)
    requires NoRepeats(locks) && idx < |locks| && lock.token == locks[idx].token
    ensures NoRepeats(locks[idx := lock])
    ensures forall l :: l in locks[idx := lock] <==> l == lock || (l in locks && l != locks[idx])
  {
    forall l ensures l in locks[idx := lock] <==> l == lock || (l in locks && l != locks[idx]) {
      assert locks[idx := lock][idx] == lock;
      if l in locks && l != locks[idx] {
        var a :| 0 <= a < |locks| && locks[a] == l;
        assert locks[idx := lock][a] == l;
      }
    }
  }

  lemma UnheldIsConflict(s: Locks, p: seq<Bytes>, shared: bool, deep: bool, l: DavLock)
    requires l in Covering(s, p) && !(shared && l.shared)
    ensures l in Conflicts(s, p, shared, deep)
  {}

  /** Deleting a subtree deletes the locks below its root, and those at its root unless that is the root of all. */
  lemma SubtreeLocksDeleted(e: LockEntries, id: nat)
    requires Placed(e) && TokensOnce(e) && id in e && ROOT_ID in e && e[ROOT_ID].path == []
    requires forall i :: i in e && e[i].path == [] ==> i == ROOT_ID
    ensures var f := WithoutSubtree(e, id);
            && Placed(f) && TokensOnce(f)
            && LocksOf(f) == LocksOf(e) - Deleted(LocksOf(e), e[id].path)
  {
    var f := WithoutSubtree(e, id);
    forall l ensures l in LocksOf(f) <==> l in LocksOf(e) - Deleted(LocksOf(e), e[id].path) {
      if l in LocksOf(e) {
        var i :| i in e && l in e[i].data;
        if l !in Deleted(LocksOf(e), e[id].path) {
          assert i in f && l in f[i].data;
        }
        if l in LocksOf(f) {
          var j :| j in f && l in f[j].data;
          assert i == j;
        }
      }
    }
  }

  // ---------------------------------------------------------------------------------------------
  // The three changes of the stored set

  lemma LockStored(e: LockEntries, id: nat, lock: DavLock)
    requires Placed(e) && TokensOnce(e) && PathsUnique(e)
    requires id in e && e[id].path == lock.Place()
    requires forall l :: l in LocksOf(e) ==> l.token != lock.token
    ensures var f := WithNodeLocks(e, id, e[id].data + [lock]);
            Placed(f) && TokensOnce(f) && LocksOf(f) == LocksOf(e) + {lock}
  {
    LockStoredInSet(e, id, lock);
    LockStoredTokens(e, id, lock);
  }

  lemma LockStoredInSet(e: LockEntries, id: nat, lock: DavLock)
    requires Placed(e) && PathsUnique(e)
    requires id in e && e[id].path == lock.Place()
    ensures var f := WithNodeLocks(e, id, e[id].data + [lock]);
            Placed(f) && LocksOf(f) == LocksOf(e) + {lock}
  {
    var locks := e[id].data + [lock];
    NodeLocksReplaced(e, id, locks);
    forall l ensures l in LocksOf(WithNodeLocks(e, id, locks)) <==> l in LocksOf(e) + {lock} {
      NodeHoldsItsPlace(e, id, l);
    }
  }

  lemma LockStoredTokens(e: LockEntries, id: nat, lock: DavLock)
    requires TokensOnce(e) && id in e
    requires forall l :: l in LocksOf(e) ==> l.token != lock.token
    ensures TokensOnce(WithNodeLocks(e, id, e[id].data + [lock]))
  {
    forall l | l in e[id].data ensures l.token != lock.token {
      assert l in LocksOf(e);
    }
    NodeTokensReplaced(e, id, e[id].data + [lock]);
  }

  lemma LockRemoved(e: LockEntries, id: nat, idx: nat, p: seq<Bytes>)
    requires Placed(e) && TokensOnce(e) && PathsUnique(e)
    requires id in e && idx < |e[id].data| && e[id].path <= p
    ensures var f := WithNodeLocks(e, id, e[id].data[..idx] + e[id].data[idx + 1..]);
            && Placed(f) && TokensOnce(f)
            && LocksOf(f) == Unlocked(LocksOf(e), p, e[id].data[idx].token)
            && Named(LocksOf(e), p, e[id].data[idx].token) == {e[id].data[idx]}
  {
    var locks, gone := e[id].data[..idx] + e[id].data[idx + 1..], e[id].data[idx];
    assert gone in e[id].data;
    assert gone in LocksOf(e);
    FoundIsNamed(e, gone, p);
    RemovedAt(e[id].data, idx);
    NodeLocksReplaced(e, id, locks);
    NodeTokensReplaced(e, id, locks);
    forall l ensures l in LocksOf(WithNodeLocks(e, id, locks)) <==> l in LocksOf(e) - {gone} {
      NodeHoldsItsPlace(e, id, l);
    }
  }

  lemma LockRefreshedInSet(e: LockEntries, id: nat, idx: nat, timeout: Option<nat>, stamp: int)
    requires Placed(e) && PathsUnique(e) && id in e && idx < |e[id].data| && NoRepeats(e[id].data)
    ensures var before, after := e[id].data[idx], Refreshed(e[id].data[idx], timeout, stamp);
            var f := WithNodeLocks(e, id, e[id].data[idx := after]);
            Placed(f) && LocksOf(f) == (LocksOf(e) - {before}) + {after}
  {
    var before, after := e[id].data[idx], Refreshed(e[id].data[idx], timeout, stamp);
    var locks := e[id].data[idx := after];
    ReplacedAt(e[id].data, idx, after);
    assert before in e[id].data;
    assert after.Place() == before.Place() == e[id].path;
    NodeLocksReplaced(e, id, locks);
    forall l ensures l in LocksOf(WithNodeLocks(e, id, locks)) <==> l in (LocksOf(e) - {before}) + {after} {
      NodeHoldsItsPlace(e, id, l);
    }
  }

  lemma LockRefreshedTokens(e: LockEntries, id: nat, idx: nat, timeout: Option<nat>, stamp: int)
    requires TokensOnce(e) && id in e && idx < |e[id].data|
    ensures TokensOnce(WithNodeLocks(e, id, e[id].data[idx := Refreshed(e[id].data[idx], timeout, stamp)]))
  {
    var after := Refreshed(e[id].data[idx], timeout, stamp);
    ReplacedAt(e[id].data, idx, after);
    assert e[id].data[idx] in e[id].data;
    NodeTokensReplaced(e, id, e[id].data[idx := after]);
  }

  lemma LockRefreshed(e: LockEntries, id: nat, idx: nat, p: seq<Bytes>, timeout: Option<nat>, stamp: int)
    requires Placed(e) && TokensOnce(e) && PathsUnique(e)
    requires id in e && idx < |e[id].data| && e[id].path <= p
    ensures var f := WithNodeLocks(e, id, e[id].data[idx := Refreshed(e[id].data[idx], timeout, stamp)]);
            && Placed(f) && TokensOnce(f)
            && LocksOf(f) == LocksRefreshed(LocksOf(e), p, e[id].data[idx].token, timeout, stamp)
            && Named(LocksOf(e), p, e[id].data[idx].token) == {e[id].data[idx]}
  {
    var before := e[id].data[idx];
    assert before in e[id].data;
    assert before in LocksOf(e);
    FoundIsNamed(e, before, p);
    LockRefreshedInSet(e, id, idx, timeout, stamp);
    LockRefreshedTokens(e, id, idx, timeout, stamp);
    RefreshedSingleton(LocksOf(e), p, before, timeout, stamp);
  }

  lemma RefreshedSingleton(s: Locks, p: seq<Bytes>, l: DavLock, timeout: Option<nat>, stamp: int)
    requires Named(s, p, l.token) == {l}
    ensures LocksRefreshed(s, p, l.token, timeout, stamp) == (s - {l}) + {Refreshed(l, timeout, stamp)}
  {}

  // ---------------------------------------------------------------------------------------------
  // The lock system

  class MemLs {
    const tree: Tree<Bytes, seq<DavLock>>

    ghost predicate Valid()
      reads this, tree
    {
      tree.Valid() && Placed(tree.entries) && TokensOnce(tree.entries)
    }

    ghost function Stored(): Locks
      reads this, tree
    {
      LocksOf(tree.entries)
    }

    constructor ()
      ensures Valid() && fresh(tree)
      ensures Stored() == {}
    {
      tree := new Tree([]);
    }

    /** Drop expired locks, and nodes left without locks at or below them. */
    method PruneExpiredAt(nodeId: nat, now: int)
      requires tree.Valid()
      modifies tree
      ensures tree.Valid()
      ensures tree.entries == if nodeId in old(tree.entries)
                              then PrunedUnder(old(tree.entries), old(tree.entries)[nodeId].path, now)
                              else old(tree.entries)
      decreases SubtreeIds(tree.entries, nodeId), 1
    {
      var found := tree.GetChildren(nodeId);
      if found.Err? {
        return;
      }
      ghost var n0, e0 := tree.nodes, tree.entries;
      PruneChildren(nodeId, found.value, now);
      NodePrunedLast(n0, e0, nodeId, found.value, now);
      RetainLive(nodeId, now);
    }

    /** The loop of `prune_expired_at` over the children found. */
    method PruneChildren(ghost nodeId: nat, children: seq<(Bytes, nat)>, now: int)
      requires tree.Valid()
      requires nodeId in tree.entries && EnumeratesChildren(tree.entries, nodeId, children)
      modifies tree
      ensures tree.Valid()
      ensures tree.entries == PrunedChildren(old(tree.entries), children, |children|, now)
      decreases SubtreeIds(tree.entries, nodeId), 0
    {
      ghost var e0 := tree.entries;
      for n := 0 to |children|
        invariant tree.Valid()
        invariant tree.entries == PrunedChildren(e0, children, n, now)
      {
        NextChildPruned(e0, nodeId, children, n, now);
        PruneExpiredAt(children[n].1, now);
      }
    }

    /** The second half of `prune_expired_at`: the node's own locks, and then the node. */
    method RetainLive(nodeId: nat, now: int)
      requires tree.Valid() && nodeId in tree.entries
      modifies tree
      ensures tree.Valid()
      ensures var e := old(tree.entries);
              var kept := FilterLive(e[nodeId].data, now);
              var e2 := e[nodeId := Entry(e[nodeId].path, kept)];
              tree.entries == if kept == [] && nodeId != ROOT_ID && !HasBelow(e2, nodeId) then e2 - {nodeId} else e2
    {
      var node := tree.GetNode(nodeId);
      var kept := FilterLive(node.value, now);
      var stored := tree.SetNode(nodeId, kept);
      if kept == [] {
        var dropped := tree.DeleteNode(nodeId);
      }
    }

    method PruneExpiredLocks(now: int)
      requires Valid()
      modifies tree
      ensures Valid()
      ensures Stored() == Live(old(Stored()), now)
      ensures NormalForm(tree.entries)
    {
      PruneExpiredAt(ROOT_ID, now);
      PrunedLocks(old(tree.entries), now);
      PrunedKeepsTokens(old(tree.entries), now);
      PrunedIsNormal(old(tree.entries), now);
    }

    /** `get_child` of memls.rs: the empty segment stands for the node itself. */
    method GetChildOrSelf(nodeId: nat, seg: Bytes) returns (r: FsResult<nat>)
      requires tree.Valid() && nodeId in tree.entries
      ensures r.Ok? ==> r.value in tree.entries
                        && tree.entries[r.value].path == tree.entries[nodeId].path + (if seg == [] then [] else [seg])
      ensures r.Err? ==> seg != [] && !PathTaken(tree.entries, tree.entries[nodeId].path + [seg])
    {
      if seg == [] {
        return Ok(nodeId);
      }
      r := tree.GetChild(nodeId, seg);
    }

    /**
     One step of the walks: the child under the `i`-th segment and its locks, or `None` if the walk
     breaks off there, in which case every covering lock has been seen.
     */
    method WalkOn(path: Bytes, nodeId: nat, i: nat) returns (r: Option<(nat, seq<DavLock>)>)
      requires Valid()
      requires i <= |Segs(path)|
      requires nodeId in tree.entries && tree.entries[nodeId].path == Segs(path)[..if i == 0 then 0 else i - 1]
      ensures r.Some? ==>
                && r.value.0 in tree.entries && tree.entries[r.value.0].path == Segs(path)[..i]
                && tree.entries[r.value.0].data == r.value.1
                && CoveringAbove(Stored(), Segs(path), i + 1)
                   == CoveringAbove(Stored(), Segs(path), i) + Considered(r.value.1, i == |Segs(path)|)
      ensures r.None? ==> CoveringAbove(Stored(), Segs(path), i) == Covering(Stored(), Segs(path))
    {
      ghost var e := tree.entries;
      SegAt(path, i, e[nodeId].path);
      var child := GetChildOrSelf(nodeId, PathToSegs(path, true)[i]);
      if child.Err? {
        WalkStops(tree.nodes, e, Segs(path), i);
        return None;
      }
      LabelledPathsUnique(tree.nodes, e);
      WalkStep(e, child.value, Segs(path), i);
      var node := tree.GetNode(child.value);
      if node.Err? {
        return None;
      }
      r := Some((child.value, node.value));
    }

    /** The walk of `check_locks_to_path` over the nodes on the path. */
    method CheckNodesOnPath(path: Bytes, principal: Option<string>, ignorePrincipal: bool, tokens: seq<Token>,
                            sharedOk: bool)
      returns (r: Result<(bool, Option<DavLock>), DavLock>)
      requires Valid()
      ensures r.Ok? ==> WalkState(Covering(Stored(), Segs(path)), r.value.0, r.value.1,
                                  tokens, principal, ignorePrincipal, sharedOk)
      ensures r.Err? ==> r.error in Covering(Stored(), Segs(path)) && !r.error.shared
                         && !r.error.Held(tokens, principal, ignorePrincipal)
    {
      ghost var p := Segs(path);
      var lastSeg := |PathToSegs(path, true)| - 1;
      var holdsLock := false;
      var firstLockSeen := None;
      var nodeId := ROOT_ID;
      var i := 0;
      ghost var seen := {};
      NothingAbove(Stored(), p);
      NothingSeen(tokens, principal, ignorePrincipal, sharedOk);
      while i <= lastSeg
        invariant 0 <= i <= lastSeg + 1
        invariant nodeId in tree.entries && tree.entries[nodeId].path == p[..if i == 0 then 0 else i - 1]
        invariant seen == CoveringAbove(Stored(), p, i)
        invariant WalkState(seen, holdsLock, firstLockSeen, tokens, principal, ignorePrincipal, sharedOk)
      {
        var step := WalkOn(path, nodeId, i);
        if step.None? {
          break;
        }
        nodeId := step.value.0;
        var scanned := CheckNodeLocks(step.value.1, i == lastSeg, tokens, principal, ignorePrincipal, sharedOk,
                                      holdsLock, firstLockSeen, seen);
        if scanned.Err? {
          return Err(scanned.error);
        }
        holdsLock, firstLockSeen := scanned.value.0, scanned.value.1;
        seen := seen + Considered(step.value.1, i == lastSeg);
        i := i + 1;
      }
      WalkEnds(Stored(), p);
      assert seen == Covering(Stored(), p);
      r := Ok((holdsLock, firstLockSeen));
    }

    /** Is writing at `path` compatible with the locks covering it? If not, yields a lock in the way. */
    method CheckLocksToPath(path: Bytes, principal: Option<string>, ignorePrincipal: bool, tokens: seq<Token>,
                            sharedOk: bool)
      returns (r: Result<(), DavLock>)
      requires Valid()
      ensures r.Ok? <==> PathAllows(Covering(Stored(), Segs(path)), tokens, principal, ignorePrincipal, sharedOk)
      ensures r.Err? ==> r.error in Covering(Stored(), Segs(path)) && !r.error.Held(tokens, principal, ignorePrincipal)
                         && !(sharedOk && r.error.shared)
    {
      var walked := CheckNodesOnPath(path, principal, ignorePrincipal, tokens, sharedOk);
      ghost var c := Covering(Stored(), Segs(path));
      if walked.Err? {
        ExclusiveBlocks(c, walked.error, tokens, principal, ignorePrincipal, sharedOk);
        return Err(walked.error);
      }
      var (holdsLock, firstLockSeen) := walked.value;
      WalkDecides(c, holdsLock, firstLockSeen, tokens, principal, ignorePrincipal, sharedOk);
      if !holdsLock && firstLockSeen.Some? {
        return Err(firstLockSeen.value);
      }
      r := Ok(());
    }

    /** Find the node spelled by the path. */
    method LookupNode(path: Bytes) returns (r: Option<nat>)
      requires tree.Valid()
      ensures r.Some? ==> r.value in tree.entries && tree.entries[r.value].path == Segs(path)
      ensures r.None? ==> !PathTaken(tree.entries, Segs(path))
    {
      var segs := PathToSegs(path, false);
      var nodeId := ROOT_ID;
      for i := 0 to |segs|
        invariant nodeId in tree.entries && tree.entries[nodeId].path == segs[..i]
      {
        var child := tree.GetChild(nodeId, segs[i]);
        assert segs[..i] + [segs[i]] == segs[..i + 1];
        if child.Err? {
          PrefixTaken(tree.nodes, tree.entries, segs, i + 1);
          return None;
        }
        nodeId := child.value;
      }
      assert segs[..|segs|] == segs;
      r := Some(nodeId);
    }

    /** Are all locks at this node and below compatible with a deep request? If not, yields one that is not. */
    method CheckLocksFromNode(nodeId: nat, principal: Option<string>, ignorePrincipal: bool, tokens: seq<Token>,
                              sharedOk: bool)
      returns (r: Result<(), DavLock>)
      requires Valid() && nodeId in tree.entries
      ensures r.Ok? <==>
        BelowAllows(AtOrBelow(Stored(), tree.entries[nodeId].path), tokens, principal, ignorePrincipal, sharedOk)
      ensures r.Err? ==> r.error in AtOrBelow(Stored(), tree.entries[nodeId].path)
                         && !r.error.Held(tokens, principal, ignorePrincipal) && !(sharedOk && r.error.shared)
      decreases SubtreeIds(tree.entries, nodeId), 1
    {
      ghost var e := tree.entries;
      var nodeLocks := tree.GetNode(nodeId);
      var found := tree.GetChildren(nodeId);
      r := CheckLocksHere(nodeLocks.value, principal, ignorePrincipal, tokens, sharedOk);
      if r.Err? {
        BelowSplits(tree.nodes, e, nodeId, found.value, r.error);
        return;
      }
      r := CheckChildren(nodeId, found.value, principal, ignorePrincipal, tokens, sharedOk);
      if r.Err? {
        BelowSplits(tree.nodes, e, nodeId, found.value, r.error);
        return;
      }
      BelowAllowsSplits(tree.nodes, e, nodeId, found.value, tokens, principal, ignorePrincipal, sharedOk);
    }

    /** The second loop of `check_locks_from_node`. */
    method CheckChildren(ghost nodeId: nat, children: seq<(Bytes, nat)>, principal: Option<string>,
                         ignorePrincipal: bool, tokens: seq<Token>, sharedOk: bool)
      returns (r: Result<(), DavLock>)
      requires Valid() && nodeId in tree.entries && EnumeratesChildren(tree.entries, nodeId, children)
      ensures r.Ok? ==> ChildrenAllow(tree.entries, children, |children|, tokens, principal, ignorePrincipal, sharedOk)
      ensures r.Err? ==>
                && BelowSomeChild(tree.entries, children, r.error)
                && !r.error.Held(tokens, principal, ignorePrincipal) && !(sharedOk && r.error.shared)
      decreases SubtreeIds(tree.entries, nodeId), 0
    {
      ghost var e := tree.entries;
      for n := 0 to |children|
        invariant ChildrenAllow(e, children, n, tokens, principal, ignorePrincipal, sharedOk)
      {
        ChildSubtreeSmaller(e, nodeId, children, n);
        r := CheckLocksFromNode(children[n].1, principal, ignorePrincipal, tokens, sharedOk);
        if r.Err? {
          OneChildObjects(e, children, n, r.error);
          return;
        }
        OneMoreChildAllows(e, children, n, tokens, principal, ignorePrincipal, sharedOk);
      }
      r := Ok(());
    }

    /** The first loop of `check_locks_from_node`. */
    static method CheckLocksHere(nodeLocks: seq<DavLock>, principal: Option<string>, ignorePrincipal: bool,
                                 tokens: seq<Token>, sharedOk: bool)
      returns (r: Result<(), DavLock>)
      ensures r.Ok? ==> forall l :: l in nodeLocks ==>
                l.Held(tokens, principal, ignorePrincipal) || (sharedOk && l.shared)
      ensures r.Err? ==> r.error in nodeLocks
                         && !r.error.Held(tokens, principal, ignorePrincipal) && !(sharedOk && r.error.shared)
    {
      for n := 0 to |nodeLocks|
        invariant forall l :: l in nodeLocks[..n] ==>
          l.Held(tokens, principal, ignorePrincipal) || (sharedOk && l.shared)
      {
        var nl := nodeLocks[n];
        if (!nl.shared || !sharedOk) && (nl.token !in tokens || (!ignorePrincipal && principal != nl.principal)) {
          return Err(nl);
        }
        assert nodeLocks[..n + 1] == nodeLocks[..n] + [nl];
      }
      assert nodeLocks[..|nodeLocks|] == nodeLocks;
      r := Ok(());
    }

    method CheckLocksFromPath(path: Bytes, principal: Option<string>, ignorePrincipal: bool, tokens: seq<Token>,
                              sharedOk: bool)
      returns (r: Result<(), DavLock>)
      requires Valid()
      ensures r.Ok? <==> BelowAllows(AtOrBelow(Stored(), Segs(path)), tokens, principal, ignorePrincipal, sharedOk)
      ensures r.Err? ==> r.error in AtOrBelow(Stored(), Segs(path))
                         && !r.error.Held(tokens, principal, ignorePrincipal) && !(sharedOk && r.error.shared)
    {
      var node := LookupNode(path);
      if node.None? {
        NothingUnderUntaken(tree.nodes, tree.entries, Segs(path));
        assert AtOrBelow(Stored(), Segs(path)) == {};
        return Ok(());
      }
      r := CheckLocksFromNode(node.value, principal, ignorePrincipal, tokens, sharedOk);
    }

    /** Find the node spelled by the path, creating lock-free nodes where there are none. */
    method GetOrCreatePathNode(path: Bytes) returns (nodeId: nat)
      requires tree.Valid()
      modifies tree
      ensures tree.Valid() && GrownEmpty(old(tree.entries), tree.entries)
      ensures nodeId in tree.entries && tree.entries[nodeId].path == Segs(path)
    {
      var segs := PathToSegs(path, false);
      nodeId := ROOT_ID;
      for i := 0 to |segs|
        invariant tree.Valid() && GrownEmpty(old(tree.entries), tree.entries)
        invariant nodeId in tree.entries && tree.entries[nodeId].path == segs[..i]
      {
        ghost var e := tree.entries;
        nodeId := GetOrAddChild(nodeId, segs[i]);
        GrowthContinues(old(tree.entries), e, tree.entries);
        assert segs[..i] + [segs[i]] == segs[..i + 1];
      }
      assert segs[..|segs|] == segs;
    }

    method GetOrAddChild(nodeId: nat, seg: Bytes) returns (childId: nat)
      requires tree.Valid() && nodeId in tree.entries
      modifies tree
      ensures tree.Valid() && GrownEmpty(old(tree.entries), tree.entries)
      ensures childId in tree.entries && tree.entries[childId].path == old(tree.entries)[nodeId].path + [seg]
    {
      ghost var path := tree.entries[nodeId].path + [seg];
      var child := tree.GetChild(nodeId, seg);
      if child.Err? {
        NothingUnderUntaken(tree.nodes, tree.entries, path);
        assert WithoutPath(tree.entries, path) == tree.entries;
        child := tree.AddChild(nodeId, seg, [], false);
      }
      childId := child.value;
    }

    /** Find a node on the path, at any depth, that holds a lock with this token. */
    method LookupLock(path: Bytes, token: Token) returns (r: Option<nat>)
      requires Valid()
      ensures r.Some? ==> r.value in tree.entries && tree.entries[r.value].path <= Segs(path)
                          && exists l :: l in tree.entries[r.value].data && l.token == token
      ensures r.None? ==> Named(Stored(), Segs(path), token) == {}
    {
      ghost var p, e := Segs(path), tree.entries;
      LabelledPathsUnique(tree.nodes, e);
      var segs := PathToSegs(path, true);
      var nodeId := ROOT_ID;
      for i := 0 to |segs|
        invariant nodeId in e && e[nodeId].path == p[..if i == 0 then 0 else i - 1]
        invariant forall l :: l in Named(Stored(), p, token) ==> |l.Place()| >= i
      {
        SegAt(path, i, e[nodeId].path);
        var child := GetChildOrSelf(nodeId, segs[i]);
        if child.Err? {
          NamedNotDeeper(tree.nodes, e, p, i, token);
          return None;
        }
        nodeId := child.value;
        var node := tree.GetNode(nodeId);
        if HasToken(node.value, token) {
          return Some(nodeId);
        }
        NamedNotHere(e, nodeId, p, i, token);
      }
      assert forall l :: l in Named(Stored(), p, token) ==> l.Place() <= p;
      r := None;
    }

    /** Locks on the request path, plus Depth: infinity locks on ancestors. */
    method ListLocks(path: Bytes) returns (locks: seq<DavLock>)
      requires Valid()
      ensures NoRepeats(locks)
      ensures forall l :: l in locks <==> l in Covering(Stored(), Segs(path))
    {
      ghost var p := Segs(path);
      var lastSeg := |PathToSegs(path, true)| - 1;
      locks := [];
      var nodeId := ROOT_ID;
      var i := 0;
      while i <= lastSeg
        invariant 0 <= i <= lastSeg + 1
        invariant nodeId in tree.entries && tree.entries[nodeId].path == p[..if i == 0 then 0 else i - 1]
        invariant NoRepeats(locks)
        invariant forall l :: l in locks <==> l in CoveringAbove(Stored(), p, i)
      {
        var step := WalkOn(path, nodeId, i);
        if step.None? {
          return;
        }
        nodeId := step.value.0;
        var listed := SelectConsidered(step.value.1, i == lastSeg);
        ListedApart(tree.entries, nodeId, p, i, locks, listed);
        locks := locks + listed;
        i := i + 1;
      }
      WalkEnds(Stored(), p);
    }

    /** LOCK. On refusal, yields a conflicting lock. */
    method Lock(path: Bytes, principal: Option<string>, owner: Option<string>, timeout: Option<nat>,
                shared: bool, deep: bool, now: int, stamp: int, newToken: Token)
      returns (r: Result<DavLock, DavLock>)
      requires Valid()
      requires Admissible(Stored(), Op.Lock(path, principal, owner, timeout, shared, deep, now, stamp, newToken))
      modifies tree
      ensures Valid()
      ensures Stored() == Locked(Live(old(Stored()), now),
                                 Op.Lock(path, principal, owner, timeout, shared, deep, now, stamp, newToken))
      ensures r.Ok? <==> Conflicts(Live(old(Stored()), now), Segs(path), shared, deep) == {}
      ensures r.Ok? ==> r.value == NewLock(Op.Lock(path, principal, owner, timeout, shared, deep, now, stamp, newToken))
      ensures r.Ok? ==>
        && IsLockOf(r.value, Op.Lock(path, principal, owner, timeout, shared, deep, now, stamp, newToken),
                    if timeout.None? then None else Some(stamp + timeout.value))
        && r.value.timeout == timeout
      ensures r.Err? ==> r.error in Conflicts(Live(old(Stored()), now), Segs(path), shared, deep)
    {
      PruneExpiredLocks(now);
      var blocked := FindConflict(path, shared, deep);
      if blocked.Some? {
        return Err(blocked.value);
      }
      var lock := DavLock(newToken, path, principal, owner, Deadline(timeout, stamp), timeout, shared, deep);
      StoreLock(lock);
      r := Ok(lock);
    }

    /** The two checks of `lock`: with no tokens submitted, upwards, and downwards if deep. */
    method FindConflict(path: Bytes, shared: bool, deep: bool) returns (r: Option<DavLock>)
      requires Valid()
      ensures r.None? <==> Conflicts(Stored(), Segs(path), shared, deep) == {}
      ensures r.Some? ==> r.value in Conflicts(Stored(), Segs(path), shared, deep)
    {
      NoConflictIffChecksPass(Stored(), Segs(path), shared, deep);
      var upward := CheckLocksToPath(path, None, true, [], shared);
      if upward.Err? {
        UnheldIsConflict(Stored(), Segs(path), shared, deep, upward.error);
        return Some(upward.error);
      }
      if deep {
        var downward := CheckLocksFromPath(path, None, true, [], shared);
        if downward.Err? {
          return Some(downward.error);
        }
      }
      r := None;
    }

    /** The end of `lock`: push the lock at the node of its path. */
    method StoreLock(lock: DavLock)
      requires Valid() && forall l :: l in Stored() ==> l.token != lock.token
      modifies tree
      ensures Valid() && Stored() == old(Stored()) + {lock}
    {
      var nodeId := GetOrCreatePathNode(lock.path);
      ghost var e := tree.entries;
      GrowthKeepsLocks(old(tree.entries), e);
      LabelledPathsUnique(tree.nodes, e);
      var node := tree.GetNode(nodeId);
      LockStored(e, nodeId, lock);
      var stored := tree.SetNode(nodeId, node.value + [lock]);
    }

    method Unlock(path: Bytes, token: Token, now: int) returns (r: Result<(), ()>)
      requires Valid()
      modifies tree
      ensures Valid()
      ensures Stored() == Unlocked(Live(old(Stored()), now), Segs(path), token)
      ensures r.Ok? <==> Named(Live(old(Stored()), now), Segs(path), token) != {}
    {
      PruneExpiredLocks(now);
      var found := LookupLock(path, token);
      if found.None? {
        return Err(());
      }
      var nodeId := found.value;
      ghost var e := tree.entries;
      LabelledPathsUnique(tree.nodes, e);
      var node := tree.GetNode(nodeId);
      var idx := PositionOf(node.value, token);
      var kept := node.value[..idx] + node.value[idx + 1..];
      LockRemoved(e, nodeId, idx, Segs(path));
      var stored := tree.SetNode(nodeId, kept);
      if |kept| == 0 {
        DropEmptyNode(nodeId);
      }
      r := Ok(());
    }

    /** `tree.delete_node(node_id).ok()` on a node without locks. */
    method DropEmptyNode(nodeId: nat)
      requires Valid() && nodeId in tree.entries && tree.entries[nodeId].data == []
      modifies tree
      ensures Valid() && Stored() == old(Stored())
    {
      ghost var e := tree.entries;
      var dropped := tree.DeleteNode(nodeId);
      GrowthKeepsLocks(tree.entries, e);
    }

    method Refresh(path: Bytes, token: Token, timeout: Option<nat>, now: int, stamp: int)
      returns (r: Result<DavLock, ()>)
      requires Valid()
      modifies tree
      ensures Valid()
      ensures Stored() == LocksRefreshed(Live(old(Stored()), now), Segs(path), token, timeout, stamp)
      ensures r.Ok? <==> Named(Live(old(Stored()), now), Segs(path), token) != {}
      ensures r.Ok? ==>
        exists l :: l in Named(Live(old(Stored()), now), Segs(path), token) && r.value == Refreshed(l, timeout, stamp)
    {
      PruneExpiredLocks(now);
      var found := LookupLock(path, token);
      if found.None? {
        return Err(());
      }
      var nodeId := found.value;
      ghost var e := tree.entries;
      LabelledPathsUnique(tree.nodes, e);
      var node := tree.GetNode(nodeId);
      var idx := PositionOf(node.value, token);
      var lock := Refreshed(node.value[idx], timeout, stamp);
      var kept := node.value[idx := lock];
      LockRefreshed(e, nodeId, idx, Segs(path), timeout, stamp);
      var stored := tree.SetNode(nodeId, kept);
      r := Ok(lock);
    }

    /** May a request submitting `tokens` write at `path` (and, if deep, below)? If not, yields a lock in the way. */
    method Check(path: Bytes, principal: Option<string>, ignorePrincipal: bool, deep: bool, tokens: seq<Token>,
                 now: int)
      returns (r: Result<(), DavLock>)
      requires Valid()
      modifies tree
      ensures Valid()
      ensures Stored() == Live(old(Stored()), now)
      ensures r.Ok? <==>
                && PathAllows(Covering(Stored(), Segs(path)), tokens, principal, ignorePrincipal, false)
                && (deep ==> AllHeld(AtOrBelow(Stored(), Segs(path)), tokens, principal, ignorePrincipal))
      ensures r.Err? ==> r.error in Stored() && !r.error.Held(tokens, principal, ignorePrincipal)
    {
      PruneExpiredLocks(now);
      r := CheckLocksToPath(path, principal, ignorePrincipal, tokens, false);
      if r.Err? {
        return;
      }
      if deep {
        r := CheckLocksFromPath(path, principal, ignorePrincipal, tokens, false);
      }
    }

    method Discover(path: Bytes, now: int) returns (locks: seq<DavLock>)
      requires Valid()
      modifies tree
      ensures Valid()
      ensures Stored() == Live(old(Stored()), now)
      ensures NoRepeats(locks)
      ensures forall l :: l in locks <==> l in Covering(Stored(), Segs(path))
    {
      PruneExpiredLocks(now);
      locks := ListLocks(path);
    }

    method Delete(path: Bytes)
      requires Valid()
      modifies tree
      ensures Valid()
      ensures Stored() == old(Stored()) - Deleted(old(Stored()), Segs(path))
    {
      ghost var e := tree.entries;
      var node := LookupNode(path);
      if node.Some? {
        forall i | i in e ensures i == ROOT_ID <==> e[i].path == [] {
          RootIffEmptyPath(tree.nodes, e, i);
        }
        var deleted := tree.DeleteSubtree(node.value);
        SubtreeLocksDeleted(e, node.value);
      } else {
        NothingUnderUntaken(tree.nodes, e, Segs(path));
        assert Deleted(Stored(), Segs(path)) == {};
      }
    }
  }

  // ---------------------------------------------------------------------------------------------
  // Runs of the real thing

  /** One call; the stored locks change as the state machine says. */
  method Perform(ls: MemLs, op: Op)
    requires ls.Valid() && Admissible(ls.Stored(), op)
    modifies ls.tree
    ensures ls.Valid() && ls.Stored() == Apply(old(ls.Stored()), op)
  {
    match op {
      case Lock(path, principal, owner, timeout, shared, deep, now, stamp, newToken) =>
        var r := ls.Lock(path, principal, owner, timeout, shared, deep, now, stamp, newToken);
      case Unlock(path, token, now) =>
        var r := ls.Unlock(path, token, now);
      case Refresh(path, token, timeout, now, stamp) =>
        var r := ls.Refresh(path, token, timeout, now, stamp);
      case Check(now) =>
        var r := ls.Check([SLASH], None, true, false, [], now);
      case Discover(now) =>
        var r := ls.Discover([SLASH], now);
      case Delete(path) =>
        ls.Delete(path);
    }
  }

  /**
   Any sequence of calls on a new lock system: the tree always stands for the locks of the run, which are
   compatible.
   */
  method PerformAll(ops: seq<Op>) returns (ls: MemLs)
    requires AdmissibleRun(ops)
    ensures fresh(ls) && ls.Valid() && ls.Stored() == Run(ops)
    ensures Compatible(ls.Stored()) && DistinctTokens(ls.Stored())
  {
    ls := new MemLs();
    for n := 0 to |ops|
      invariant fresh(ls) && fresh(ls.tree) && ls.Valid() && ls.Stored() == Run(ops[..n])
    {
      assert ops[..n + 1][..n] == ops[..n];
      Perform(ls, ops[n]);
    }
    assert ops[..|ops|] == ops;
    EveryRunIsCompatible(ops);
  }
}
