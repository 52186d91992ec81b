/**
 The fake lock system (src/fakels.rs): a flat table of locks by token, with the byte-level covering
 test. It serves as the simple form that the tree walks of the real lock system are compared with.
 */
module FakeLocks {
  import opened Results
  import opened DavPaths
  import opened LockModel
  import opened MemLocks

  const MAX_TIMEOUT: nat := 120

  /** `tm_limit`: at most two minutes, also for locks asked to last forever. */
  function TimeoutLimit(d: Option<nat>): (r: nat)
    ensures r <= MAX_TIMEOUT && (d.Some? && d.value <= MAX_TIMEOUT ==> r == d.value)
  {
    match d
    case None => MAX_TIMEOUT
    case Some(t) => if t > MAX_TIMEOUT then MAX_TIMEOUT else t
  }

  /** The byte-level test of `delete`: same key, everything for the root, or a proper descendant. */
  predicate DeletesBytes(delPath: Bytes, lockPath: Bytes) {
    var delKey, lockKey := Key(delPath), Key(lockPath);
    || lockKey == delKey
    || delKey == [SLASH]
    || (|delKey| < |lockKey| && lockKey[..|delKey|] == delKey && lockKey[|delKey|] == SLASH)
  }

  lemma DeleteTestIsSegmentPrefix(delPath: Bytes, lockPath: Bytes)
    requires Normal(delPath) && Normal(lockPath)
    ensures DeletesBytes(delPath, lockPath) <==> Segs(delPath) <= Segs(lockPath)
  {
    KeysEqualIffSegsEqual(delPath, lockPath);
    KeyOfNormal(delPath);
    if Segs(delPath) != [] {
      ByteAncestorIsSegmentPrefix(delPath, lockPath);
      SegsAreSegments(delPath);
      RenderEndsInSegment(Segs(delPath));
    }
  }

  ghost predicate NormalPaths(s: Locks) {
    forall l :: l in s ==> Normal(l.path)
  }

  /** Filtering a flat set by the byte test selects exactly the covering locks. */
  lemma FlatFilterIsCovering(s: Locks, path: Bytes)
    requires NormalPaths(s) && Normal(path)
    ensures (set l | l in s && CoversBytes(l.deep, l.path, path)) == Covering(s, Segs(path))
  {
    forall l | l in s ensures CoversBytes(l.deep, l.path, path) <==> l.Covers(Segs(path)) {
      CoveringTestIsSegmentCovering(l.deep, l.path, path);
    }
  }

  class FakeLs {
    var locks: map<Token, DavLock>

    ghost predicate Valid()
      reads this
    {
      forall t :: t in locks ==> locks[t].token == t
    }

    ghost function Stored(): Locks
      reads this
    {
      locks.Values
    }

    constructor ()
      ensures Valid() && Stored() == {}
    {
      locks := map[];
    }

    method Lock(path: Bytes, principal: Option<string>, owner: Option<string>, timeout: Option<nat>,
                shared: bool, deep: bool, now: int, newToken: Token)
      returns (r: Result<DavLock, DavLock>)
      requires Valid() && newToken !in locks
      modifies this
      ensures Valid()
      ensures r.Ok? && Stored() == old(Stored()) + {r.value}
      ensures r.value == NewLock(Op.Lock(path, principal, owner, Some(TimeoutLimit(timeout)), shared, deep, now, now,
                                         newToken))
      ensures IsLockOf(r.value, Op.Lock(path, principal, owner, timeout, shared, deep, now, now, newToken),
                       Some(now + if timeout.Some? && timeout.value <= 120 then timeout.value else 120))
    {
      var limit := TimeoutLimit(timeout);
      var lock := DavLock(newToken, path, principal, owner, Some(now + limit), Some(limit), shared, deep);
      ghost var before := locks;
      locks := locks[newToken := lock];
      forall l ensures l in locks.Values <==> l in before.Values + {lock} {
        if l in before.Values { var t :| t in before && before[t] == l; assert locks[t] == l; }
        if l == lock { assert locks[newToken] == lock; }
      }
      r := Ok(lock);
    }

    method Unlock(path: Bytes, token: Token) returns (r: Result<(), ()>)
      requires Valid()
      modifies this
      ensures Valid() && r.Ok?
      ensures Stored() == set l | l in old(Stored()) && l.token != token
    {
      ghost var before := locks;
      locks := locks - {token};
      forall l | l in before.Values && l.token != token ensures l in locks.Values {
        var t :| t in before && before[t] == l;
        assert locks[t] == l;
      }
      r := Ok(());
    }

    method Check() returns (r: Result<(), DavLock>)
      ensures r.Ok?
    {
      r := Ok(());
    }

    /** The stored locks covering the path, in some order. */
    method Discover(path: Bytes) returns (found: seq<DavLock>)
      requires Valid()
      ensures NoRepeats(found)
      ensures forall l :: l in found <==> l in Stored() && CoversBytes(l.deep, l.path, path)
    {
      found := [];
      var left := locks.Keys;
      while left != {}
        invariant left <= locks.Keys
        invariant NoRepeats(found)
        invariant forall l :: l in found <==> l in Stored() && l.token !in left && CoversBytes(l.deep, l.path, path)
        decreases left
      {
        var t :| t in left;
        assert forall l :: l in Stored() && l.token == t ==> l == locks[t];
        assert locks[t] in Stored();
        left := left - {t};
        if CoversBytes(locks[t].deep, locks[t].path, path) {
          found := found + [locks[t]];
        }
      }
    }

    method Delete(path: Bytes)
      requires Valid()
      modifies this
      ensures Valid()
      ensures Stored() == set l | l in old(Stored()) && !DeletesBytes(path, l.path)
    {
      ghost var before := locks;
      locks := map t | t in locks && !DeletesBytes(path, locks[t].path) :: locks[t];
      forall l | l in before.Values && !DeletesBytes(path, l.path) ensures l in locks.Values {
        var t :| t in before && before[t] == l;
        assert locks[t] == l;
      }
    }
  }

  /**
   On the same stored locks, with normal paths, the tree walk of `MemLs::discover` and the flat
   filter of `FakeLs::discover` list the same locks, each once.
   */
  method DiscoverAgrees(mem: MemLs, fake: FakeLs, path: Bytes, now: int) returns (a: seq<DavLock>, b: seq<DavLock>)
    requires mem.Valid() && fake.Valid() && Normal(path)
    requires Live(mem.Stored(), now) == fake.Stored() && NormalPaths(fake.Stored())
    modifies mem.tree
    ensures NoRepeats(a) && NoRepeats(b) && multiset(a) == multiset(b)
  {
    FlatFilterIsCovering(fake.Stored(), path);
    b := fake.Discover(path);
    a := mem.Discover(path, now);
    SameElementsOnce(a, b);
  }

  lemma SameElementsOnce(a: seq<DavLock>, b: seq<DavLock>)
    requires NoRepeats(a) && NoRepeats(b)
    requires forall l :: l in a <==> l in b
    ensures multiset(a) == multiset(b)
  {
    forall l ensures multiset(a)[l] == multiset(b)[l] {
      AtMostOnce(a, l);
      AtMostOnce(b, l);
      assert l in multiset(a) <==> l in a;
      assert l in multiset(b) <==> l in b;
    }
  }

  lemma {:induction false} AtMostOnce(a: seq<DavLock>, l: DavLock)
    requires NoRepeats(a)
    ensures multiset(a)[l] <= 1
  {
    if a != [] {
      assert a == [a[0]] + a[1..];
      AtMostOnce(a[1..], l);
      if l == a[0] {
        forall n | 0 <= n < |a[1..]| ensures a[1..][n] != l { assert a[0].token != a[n + 1].token; }
        assert l !in a[1..];
      }
    }
  }

  /** The two `delete`s differ only in locks on the root when the root itself is deleted. */
  lemma DeletesDifferOnlyAtRoot(s: Locks, path: Bytes)
    requires NormalPaths(s) && Normal(path)
    ensures (set l | l in s && !DeletesBytes(path, l.path)) == s - AtOrBelow(s, Segs(path))
    ensures (set l | l in s && !DeletesBytes(path, l.path)) == s - Deleted(s, Segs(path))
            <==> Segs(path) != [] || forall l :: l in s ==> l.Place() != []
  {
    forall l | l in s ensures DeletesBytes(path, l.path) <==> Segs(path) <= l.Place() {
      DeleteTestIsSegmentPrefix(path, l.path);
    }
    DeleteIsCompleteIff(s, Segs(path));
  }
}
