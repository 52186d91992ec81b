/**
 The lock semantics on a flat set of locks: sections 6 and 7 of RFC 4918, as src/memls.rs realises
 them, which is without the part of section 7.4 that has a collection's locks guard its members (see
 `MembershipGuardedIff`). The tree-based lock manager is proved to act on its stored locks exactly like `Apply`.
 */
module LockModel {
  import opened Results
  import opened DavPaths

  type Token = Bytes

  datatype DavLock = DavLock(
    token: Token,
    path: Bytes,
    principal: Option<string>,
    owner: Option<string>,
    timeoutAt: Option<int>,
    timeout: Option<nat>,
    shared: bool,
    deep: bool)
  {
    function Place(): seq<Bytes> { Segs(path) }

    /** The resource itself, or one below it if the lock has Depth: infinity. */
    predicate Covers(p: seq<Bytes>) { CoversSegs(deep, Place(), p) }

    predicate Expired(now: int) { timeoutAt.Some? && timeoutAt.value <= now }

    /** The request names the lock's token and comes from its principal. */
    predicate Held(tokens: seq<Token>, principal: Option<string>, ignorePrincipal: bool) {
      token in tokens && (ignorePrincipal || principal == this.principal)
    }
  }

  type Locks = set<DavLock>

  ghost function Live(s: Locks, now: int): Locks {
    set l | l in s && !l.Expired(now)
  }

  ghost function Covering(s: Locks, p: seq<Bytes>): Locks {
    set l | l in s && l.Covers(p)
  }

  ghost function AtOrBelow(s: Locks, p: seq<Bytes>): Locks {
    set l | l in s && p <= l.Place()
  }

  /** The locks that a LOCK request at `p` conflicts with. */
  ghost function Conflicts(s: Locks, p: seq<Bytes>, shared: bool, deep: bool): Locks {
    set l | l in Covering(s, p) + (if deep then AtOrBelow(s, p) else {}) && !(shared && l.shared)
  }

  /** The locks that UNLOCK and refresh find: the token, at the path or at any ancestor of it. */
  ghost function Named(s: Locks, p: seq<Bytes>, token: Token): Locks {
    set l | l in s && l.token == token && l.Place() <= p
  }

  /** What `delete` drops: the locks at or below `p`, except that locks on the root itself stay. */
  ghost function Deleted(s: Locks, p: seq<Bytes>): Locks {
    set l | l in AtOrBelow(s, p) && l.Place() != []
  }

  function Deadline(timeout: Option<nat>, now: int): Option<int> {
    if timeout.Some? then Some(now + timeout.value) else None
  }

  function Refreshed(l: DavLock, timeout: Option<nat>, now: int): DavLock {
    l.(timeout := timeout, timeoutAt := Deadline(timeout, now))
  }

  // ---------------------------------------------------------------------------------------------
  // The lock manager as a state machine

  /** One call. `now` is the clock reading used for pruning, `stamp` the later one used for a new deadline. */
  datatype Op =
    | Lock(path: Bytes, principal: Option<string>, owner: Option<string>, timeout: Option<nat>,
           shared: bool, deep: bool, now: int, stamp: int, newToken: Token)
    | Unlock(path: Bytes, token: Token, now: int)
    | Refresh(path: Bytes, token: Token, timeout: Option<nat>, now: int, stamp: int)
    | Check(now: int)
    | Discover(now: int)
    | Delete(path: Bytes)

  function NewLock(op: Op): DavLock
    requires op.Lock?
  {
    DavLock(op.newToken, op.path, op.principal, op.owner, Deadline(op.timeout, op.stamp), op.timeout, op.shared,
            op.deep)
  }

  ghost function Locked(s: Locks, op: Op): Locks
    requires op.Lock?
  {
    if Conflicts(s, Segs(op.path), op.shared, op.deep) == {} then s + {NewLock(op)} else s
  }

  ghost function Unlocked(s: Locks, p: seq<Bytes>, token: Token): Locks {
    s - Named(s, p, token)
  }

  ghost function LocksRefreshed(s: Locks, p: seq<Bytes>, token: Token, timeout: Option<nat>, stamp: int): Locks {
    (s - Named(s, p, token)) + (set l | l in Named(s, p, token) :: Refreshed(l, timeout, stamp))
  }

  ghost function Apply(s: Locks, op: Op): Locks {
    match op
    case Lock(_, _, _, _, _, _, now, _, _) => Locked(Live(s, now), op)
    case Unlock(path, token, now) => Unlocked(Live(s, now), Segs(path), token)
    case Refresh(path, token, timeout, now, stamp) => LocksRefreshed(Live(s, now), Segs(path), token, timeout, stamp)
    case Check(now) => Live(s, now)
    case Discover(now) => Live(s, now)
    case Delete(path) => s - Deleted(s, Segs(path))
  }

  /** Two locks of which one covers the other's path are both shared. */
  ghost predicate Compatible(s: Locks) {
    forall l, m :: l in s && m in s && l != m && l.Covers(m.Place()) ==> l.shared && m.shared
  }

  ghost predicate DistinctTokens(s: Locks) {
    forall l, m :: l in s && m in s && l.token == m.token ==> l == m
  }

  /** New tokens are fresh, which random UUIDs are taken to provide. */
  ghost predicate Admissible(s: Locks, op: Op) {
    op.Lock? ==> forall l :: l in s ==> l.token != op.newToken
  }

  lemma SubsetKeepsInvariants(s: Locks, t: Locks)
    requires t <= s && Compatible(s) && DistinctTokens(s)
    ensures Compatible(t) && DistinctTokens(t)
  {}

  lemma LockKeepsCompatible(s: Locks, op: Op)
    requires op.Lock? && Compatible(s)
    requires Conflicts(s, Segs(op.path), op.shared, op.deep) == {}
    ensures Compatible(s + {NewLock(op)})
  {
    var n := NewLock(op);
    var p := Segs(op.path);
    forall l | l in s && (l.Covers(p) || n.Covers(l.Place())) ensures l.shared && n.shared {
      assert l in Covering(s, p) + (if op.deep then AtOrBelow(s, p) else {});
      assert l in Conflicts(s, p, op.shared, op.deep) <==> !(op.shared && l.shared);
    }
  }

  lemma RefreshedFrom(s: Locks, p: seq<Bytes>, token: Token, timeout: Option<nat>, stamp: int, m: DavLock)
    returns (l: DavLock)
    requires m in LocksRefreshed(s, p, token, timeout, stamp)
    ensures l in s && m == if l in Named(s, p, token) then Refreshed(l, timeout, stamp) else l
  {
    if m in s - Named(s, p, token) {
      l := m;
    } else {
      l :| l in Named(s, p, token) && m == Refreshed(l, timeout, stamp);
    }
  }

  lemma RefreshKeepsInvariants(s: Locks, p: seq<Bytes>, token: Token, timeout: Option<nat>, stamp: int)
    requires Compatible(s) && DistinctTokens(s)
    ensures Compatible(LocksRefreshed(s, p, token, timeout, stamp))
    ensures DistinctTokens(LocksRefreshed(s, p, token, timeout, stamp))
  {
    var t := LocksRefreshed(s, p, token, timeout, stamp);
    forall l, m | l in t && m in t
      ensures l != m && l.Covers(m.Place()) ==> l.shared && m.shared
      ensures l.token == m.token ==> l == m
    {
      var a := RefreshedFrom(s, p, token, timeout, stamp, l);
      var b := RefreshedFrom(s, p, token, timeout, stamp, m);
    }
  }

  lemma StepKeepsInvariants(s: Locks, op: Op)
    requires Compatible(s) && DistinctTokens(s) && Admissible(s, op)
    ensures Compatible(Apply(s, op)) && DistinctTokens(Apply(s, op))
  {
    if !op.Delete? { SubsetKeepsInvariants(s, Live(s, op.now)); }
    match op
    case Lock(path, _, _, _, shared, deep, now, _, _) =>
      if Conflicts(Live(s, now), Segs(path), shared, deep) == {} {
        LockKeepsCompatible(Live(s, now), op);
      }
    case Unlock(path, token, now) =>
      SubsetKeepsInvariants(s, Apply(s, op));
    case Refresh(path, token, timeout, now, stamp) =>
      RefreshKeepsInvariants(Live(s, now), Segs(path), token, timeout, stamp);
    case Check(_) =>
    case Discover(_) =>
    case Delete(path) =>
      SubsetKeepsInvariants(s, Apply(s, op));
  }

  /** The stored locks after a sequence of calls on a new lock manager. */
  ghost function Run(ops: seq<Op>): Locks {
    if ops == [] then {} else Apply(Run(ops[..|ops| - 1]), ops[|ops| - 1])
  }

  ghost predicate AdmissibleRun(ops: seq<Op>) {
    forall n :: 0 <= n < |ops| ==> Admissible(Run(ops[..n]), ops[n])
  }

  /** In every run, whatever the clock does, overlapping locks are shared and tokens are unique. */
  lemma {:induction false} EveryRunIsCompatible(ops: seq<Op>)
    requires AdmissibleRun(ops)
    ensures Compatible(Run(ops)) && DistinctTokens(Run(ops))
  {
    if ops != [] {
      var init := ops[..|ops| - 1];
      assert forall n :: 0 <= n < |init| ==> init[..n] == ops[..n] && init[n] == ops[n];
      EveryRunIsCompatible(init);
      StepKeepsInvariants(Run(init), ops[|ops| - 1]);
    }
  }

  // ---------------------------------------------------------------------------------------------
  // The write gate

  /**
   What the walk from the root to the path decides about the covering locks `c`: an exclusive lock
   that is not held is fatal; shared ones that are not held are fatal only if none is held.
   */
  ghost predicate PathAllows(c: Locks, tokens: seq<Token>, principal: Option<string>, ignorePrincipal: bool,
                             sharedOk: bool) {
    && (forall l {:trigger l.Held(tokens, principal, ignorePrincipal)} :: l in c ==>
          l.Held(tokens, principal, ignorePrincipal) || l.shared)
    && (|| sharedOk
        || (exists l {:trigger l.Held(tokens, principal, ignorePrincipal)} ::
              l in c && l.Held(tokens, principal, ignorePrincipal))
        || (forall l {:trigger l.Held(tokens, principal, ignorePrincipal)} :: l in c ==>
              l.Held(tokens, principal, ignorePrincipal)))
  }

  ghost predicate AllHeld(c: Locks, tokens: seq<Token>, principal: Option<string>, ignorePrincipal: bool) {
    forall l {:trigger l.Held(tokens, principal, ignorePrincipal)} :: l in c ==>
      l.Held(tokens, principal, ignorePrincipal)
  }

  /** The downward check of deep requests: each lock is held, or it and the request are shared. */
  ghost predicate BelowAllows(c: Locks, tokens: seq<Token>, principal: Option<string>, ignorePrincipal: bool,
                              sharedOk: bool) {
    forall l {:trigger l.Held(tokens, principal, ignorePrincipal)} :: l in c ==>
      l.Held(tokens, principal, ignorePrincipal) || (sharedOk && l.shared)
  }

  /** Two locks covering the same path overlap. */
  lemma CoveringLocksOverlap(l: DavLock, m: DavLock, p: seq<Bytes>)
    requires l.Covers(p) && m.Covers(p)
    ensures l.Covers(m.Place()) || m.Covers(l.Place())
  {
    if |l.Place()| <= |m.Place()| {
      assert l.Place() == p[..|l.Place()|] && m.Place() == p[..|m.Place()|];
      assert l.Place() == m.Place()[..|l.Place()|];
    } else {
      assert m.Place() == p[..|m.Place()|] && l.Place() == p[..|l.Place()|];
      assert m.Place() == l.Place()[..|m.Place()|];
    }
  }

  /** In a compatible state the walk lets a write through iff nothing covers it or a covering lock is held. */
  lemma GateIsHoldingOne(s: Locks, p: seq<Bytes>, tokens: seq<Token>, principal: Option<string>, ignorePrincipal: bool)
    requires Compatible(s)
    ensures PathAllows(Covering(s, p), tokens, principal, ignorePrincipal, false)
            <==> Covering(s, p) == {} || exists l :: l in Covering(s, p) && l.Held(tokens, principal, ignorePrincipal)
  {
    var c := Covering(s, p);
    if h :| h in c && h.Held(tokens, principal, ignorePrincipal) {
      forall l | l in c && !l.Held(tokens, principal, ignorePrincipal) ensures l.shared {
        CoveringLocksOverlap(h, l, p);
      }
    } else if c != {} {
      var l :| l in c;
    }
  }

  /** An exclusive covering lock is the only covering lock. */
  lemma ExclusiveCoversAlone(s: Locks, p: seq<Bytes>, l: DavLock)
    requires Compatible(s) && l in Covering(s, p) && !l.shared
    ensures Covering(s, p) == {l}
  {
    forall m | m in Covering(s, p) ensures m == l {
      CoveringLocksOverlap(l, m, p);
    }
  }

  /** The same for every state a run can reach, at any clock reading. */
  lemma WriteGateInEveryRun(ops: seq<Op>, now: int, p: seq<Bytes>, tokens: seq<Token>, principal: Option<string>,
                            ignorePrincipal: bool)
    requires AdmissibleRun(ops)
    ensures var s := Live(Run(ops), now);
            PathAllows(Covering(s, p), tokens, principal, ignorePrincipal, false)
            <==> Covering(s, p) == {} || exists l :: l in Covering(s, p) && l.Held(tokens, principal, ignorePrincipal)
  {
    EveryRunIsCompatible(ops);
    SubsetKeepsInvariants(Run(ops), Live(Run(ops), now));
    GateIsHoldingOne(Live(Run(ops), now), p, tokens, principal, ignorePrincipal);
  }

  // ---------------------------------------------------------------------------------------------
  // Members of a locked collection

  /** Some lock in `c` is held. */
  ghost predicate SomeHeld(c: Locks, tokens: seq<Token>, principal: Option<string>, ignorePrincipal: bool) {
    exists l {:trigger l.Held(tokens, principal, ignorePrincipal)} ::
      l in c && l.Held(tokens, principal, ignorePrincipal)
  }

  ghost function LocksOn(s: Locks, p: seq<Bytes>): Locks {
    set l | l in s && l.Place() == p
  }

  /**
   Section 7.4 of RFC 4918 has the locks of a collection, with Depth 0 too, guard the adding and removing of its
   members; the code asks at the member alone. It lets through what the collection's locks would not exactly
   if none of those is held, and the member is covered by none of them, which all have Depth 0 then, or is
   itself locked by the request.
   */
  lemma MembershipGuardedIff(s: Locks, dir: seq<Bytes>, name: Bytes, tokens: seq<Token>, principal: Option<string>,
                             ignorePrincipal: bool)
    requires Compatible(s)
    ensures var member := dir + [name];
            && PathAllows(Covering(s, member), tokens, principal, ignorePrincipal, false)
            && !PathAllows(Covering(s, dir), tokens, principal, ignorePrincipal, false)
            <==> && !SomeHeld(Covering(s, dir), tokens, principal, ignorePrincipal)
                 && (|| (Covering(s, member) == {} && exists l :: l in LocksOn(s, dir) && !l.deep)
                     || (Covering(s, dir) != {}
                         && SomeHeld(LocksOn(s, member), tokens, principal, ignorePrincipal)))
  {
    var member := dir + [name];
    GateIsHoldingOne(s, dir, tokens, principal, ignorePrincipal);
    GateIsHoldingOne(s, member, tokens, principal, ignorePrincipal);
    forall l | l in s ensures l.Covers(member) <==> l in LocksOn(s, member) || (l.deep && l.Covers(dir)) {
      MemberCovered(l, dir, name);
    }
    if Covering(s, member) == {} && Covering(s, dir) != {} {
      var l :| l in Covering(s, dir);
      assert l.Covers(member) ==> l in Covering(s, member);
      assert l in LocksOn(s, dir) && !l.deep;
    }
    if l :| l in LocksOn(s, dir) && !l.deep { assert l in Covering(s, dir); }
  }

  lemma MemberCovered(l: DavLock, dir: seq<Bytes>, name: Bytes)
    ensures l.Covers(dir + [name]) <==> l.Place() == dir + [name] || (l.deep && l.Covers(dir))
  {
    var member, q := dir + [name], l.Place();
    if q <= member && q != member {
      assert |q| <= |dir| && member[..|q|] == dir[..|q|];
    }
    if q <= dir { assert member[..|q|] == dir[..|q|]; }
  }

  /** Another's exclusive Depth-0 lock on a collection: a write of a new member needs no token. */
  lemma DepthZeroLockLetsMembersIn(l: DavLock, name: Bytes, principal: Option<string>)
    requires !l.deep && !l.shared
    ensures PathAllows(Covering({l}, l.Place() + [name]), [], principal, false, false)
    ensures !PathAllows(Covering({l}, l.Place()), [], principal, false, false)
  {
    MemberCovered(l, l.Place(), name);
    assert l in Covering({l}, l.Place()) && !l.Held([], principal, false);
  }

  // ---------------------------------------------------------------------------------------------
  // What a granted lock is, from the calls alone

  /** Is a path within what a LOCK request asks to be locked? */
  ghost predicate Within(op: Op, q: seq<Bytes>)
    requires op.Lock?
  {
    q == Segs(op.path) || (op.deep && Segs(op.path) <= q)
  }

  lemma PathInCommon(l: DavLock, op: Op)
    requires op.Lock?
    ensures (exists q :: l.Covers(q) && Within(op, q))
            <==> l.Covers(Segs(op.path)) || (op.deep && Segs(op.path) <= l.Place())
  {
    var p := Segs(op.path);
    if q :| l.Covers(q) && Within(op, q) {
      assert p == q[..|p|] && l.Place() == q[..|l.Place()|];
      assert |p| <= |l.Place()| ==> p == l.Place()[..|p|];
      assert |p| > |l.Place()| ==> l.Place() == p[..|l.Place()|];
    }
    if l.Covers(p) {
      assert l.Covers(p) && Within(op, p);
    } else if op.deep && p <= l.Place() {
      assert l.Covers(l.Place()) && Within(op, l.Place());
    }
  }

  /** A lock is granted exactly if whatever has a path in common with it is shared, and so is it. */
  lemma GrantedIffNothingOverlaps(s: Locks, op: Op)
    requires op.Lock?
    ensures Conflicts(s, Segs(op.path), op.shared, op.deep) == {} <==>
              forall l, q :: l in s && l.Covers(q) && Within(op, q) ==> l.shared && op.shared
  {
    var c := Conflicts(s, Segs(op.path), op.shared, op.deep);
    forall l | l in s
      ensures l in c <==> (exists q :: l.Covers(q) && Within(op, q)) && !(l.shared && op.shared)
    {
      PathInCommon(l, op);
      assert l in AtOrBelow(s, Segs(op.path)) <==> Segs(op.path) <= l.Place();
    }
    if c == {} {
      forall l, q | l in s && l.Covers(q) && Within(op, q) ensures l.shared && op.shared { assert l !in c; }
    } else {
      var l :| l in c;
      assert l in Covering(s, Segs(op.path)) + (if op.deep then AtOrBelow(s, Segs(op.path)) else {});
      assert l in s;
    }
  }

  /** What has become of a lock: gone, or standing until its deadline. */
  datatype Fate = Gone | Standing(deadline: Option<int>)

  /** One call later, for a lock on `place`. A deadline that a call finds passed is the end of the lock. */
  function FateAfter(fate: Fate, place: seq<Bytes>, token: Token, op: Op): Fate {
    if fate == Gone then Gone
    else if op.Delete? then if place != [] && Segs(op.path) <= place then Gone else fate
    else if fate.deadline.Some? && fate.deadline.value <= op.now then Gone
    else if op.Unlock? && op.token == token && place <= Segs(op.path) then Gone
    else if op.Refresh? && op.token == token && place <= Segs(op.path) then
      Standing(if op.timeout.None? then None else Some(op.stamp + op.timeout.value))
    else fate
  }

  /** The fate, after the run, of the lock granted by call `k`. */
  function FateIn(ops: seq<Op>, k: nat): Fate
    requires k < |ops| && ops[k].Lock?
    decreases |ops|
  {
    var op := ops[k];
    if k == |ops| - 1 then Standing(if op.timeout.None? then None else Some(op.stamp + op.timeout.value))
    else FateAfter(FateIn(ops[..|ops| - 1], k), Segs(op.path), op.newToken, ops[|ops| - 1])
  }

  /** The stored lock that answers to this LOCK request and fate, or none if it is gone. */
  ghost predicate Traced(s: Locks, op: Op, fate: Fate)
    requires op.Lock?
  {
    match fate
    case Gone => forall l :: l in s ==> l.token != op.newToken
    case Standing(deadline) =>
      exists l :: l in s && IsLockOf(l, op, deadline)
  }

  ghost predicate IsLockOf(l: DavLock, op: Op, deadline: Option<int>)
    requires op.Lock?
  {
    && l.token == op.newToken && l.path == op.path && l.principal == op.principal && l.owner == op.owner
    && l.shared == op.shared && l.deep == op.deep && l.timeoutAt == deadline
  }

  lemma StepTraces(s: Locks, op: Op, fate: Fate, next: Op)
    requires op.Lock? && DistinctTokens(s) && Traced(s, op, fate)
    requires next.Lock? ==> next.newToken != op.newToken
    ensures Traced(Apply(s, next), op, FateAfter(fate, Segs(op.path), op.newToken, next))
  {
    if fate == Gone {
      GoneStaysGone(s, op, next);
    } else {
      var l :| l in s && IsLockOf(l, op, fate.deadline);
      LockTraced(s, op, l, next);
    }
  }

  lemma GoneStaysGone(s: Locks, op: Op, next: Op)
    requires op.Lock? && Traced(s, op, Gone) && (next.Lock? ==> next.newToken != op.newToken)
    ensures Traced(Apply(s, next), op, Gone)
  {
    if next.Refresh? {
      forall m | m in Apply(s, next) ensures m.token != op.newToken {
        var l := RefreshedFrom(Live(s, next.now), Segs(next.path), next.token, next.timeout, next.stamp, m);
      }
    }
  }

  lemma LockTraced(s: Locks, op: Op, l: DavLock, next: Op)
    requires op.Lock? && DistinctTokens(s) && l in s && IsLockOf(l, op, l.timeoutAt)
    requires next.Lock? ==> next.newToken != op.newToken
    ensures Traced(Apply(s, next), op, FateAfter(Standing(l.timeoutAt), Segs(op.path), op.newToken, next))
  {
    var fate, s' := FateAfter(Standing(l.timeoutAt), Segs(op.path), op.newToken, next), Apply(s, next);
    if next.Refresh? {
      var live := Live(s, next.now);
      var named := Named(live, Segs(next.path), next.token);
      forall m | m in s' ensures exists o :: o in live && m == if o in named then
                                   Refreshed(o, next.timeout, next.stamp) else o
      {
        var o := RefreshedFrom(live, Segs(next.path), next.token, next.timeout, next.stamp, m);
      }
      if l in named {
        var m := Refreshed(l, next.timeout, next.stamp);
        assert m in s' && IsLockOf(m, op, m.timeoutAt);
      } else if l in live {
        assert l in s';
      }
    } else if fate.Standing? {
      assert l in s';
    }
  }

  /** In every run in which no token is given out twice, a granted lock is what its calls say. */
  lemma {:induction false} RunTraces(ops: seq<Op>, k: nat)
    requires AdmissibleRun(ops) && k < |ops| && ops[k].Lock?
    requires forall n :: 0 <= n < |ops| && n != k && ops[n].Lock? ==> ops[n].newToken != ops[k].newToken
    requires Conflicts(Live(Run(ops[..k]), ops[k].now), Segs(ops[k].path), ops[k].shared, ops[k].deep) == {}
    ensures Traced(Run(ops), ops[k], FateIn(ops, k))
    decreases |ops|
  {
    var init, last := ops[..|ops| - 1], ops[|ops| - 1];
    if k == |ops| - 1 {
      assert NewLock(last) in Run(ops);
      assert IsLockOf(NewLock(last), last, NewLock(last).timeoutAt);
    } else {
      assert forall n :: 0 <= n < |init| ==> init[..n] == ops[..n] && init[n] == ops[n];
      RunTraces(init, k);
      EveryRunIsCompatible(init);
      StepTraces(Run(init), ops[k], FateIn(init, k), last);
    }
  }

  /** The lock stands at this clock reading: it is not gone, and its deadline has not come. */
  predicate StandsAt(fate: Fate, at: int) {
    fate.Standing? && (fate.deadline.None? || at < fate.deadline.value)
  }

  /**
   What a granted LOCK gives, at any time in any run, from the arguments of the calls: while the lock stands it
   covers exactly the paths within the request. Whoever passes the gate at one of those under an exclusive lock
   has its token and is its principal, and whoever has and is passes under any; and no lock that is not to be
   shared is granted there.
   */
  lemma GrantedLockGuards(ops: seq<Op>, k: nat, at: int, q: seq<Bytes>, tokens: seq<Token>, principal: Option<string>)
    requires AdmissibleRun(ops) && k < |ops| && ops[k].Lock?
    requires forall n :: 0 <= n < |ops| && n != k && ops[n].Lock? ==> ops[n].newToken != ops[k].newToken
    requires Conflicts(Live(Run(ops[..k]), ops[k].now), Segs(ops[k].path), ops[k].shared, ops[k].deep) == {}
    ensures var op, live := ops[k], Live(Run(ops), at);
            var guarded := StandsAt(FateIn(ops, k), at) && Within(op, q);
            var mine := op.newToken in tokens && principal == op.principal;
            && (guarded <==> exists l :: l in Covering(live, q) && l.token == op.newToken)
            && (guarded && mine ==> PathAllows(Covering(live, q), tokens, principal, false, false))
            && (guarded && !mine && !op.shared ==> !PathAllows(Covering(live, q), tokens, principal, false, false))
            && (guarded ==> forall shared, deep :: !(shared && op.shared) ==> Conflicts(live, q, shared, deep) != {})
  {
    var op, live := ops[k], Live(Run(ops), at);
    RunTraces(ops, k);
    EveryRunIsCompatible(ops);
    SubsetKeepsInvariants(Run(ops), live);
    if FateIn(ops, k).Standing? {
      var l :| l in Run(ops) && IsLockOf(l, op, FateIn(ops, k).deadline);
      assert l in live <==> StandsAt(FateIn(ops, k), at);
      assert l.Covers(q) <==> Within(op, q);
      assert forall o :: o in Run(ops) && o.token == op.newToken ==> o == l;
      if l in live && l.Covers(q) {
        assert l in Covering(live, q);
        GateIsHoldingOne(live, q, tokens, principal, false);
        if !op.shared { ExclusiveCoversAlone(live, q, l); }
        forall shared, deep | !(shared && op.shared) ensures Conflicts(live, q, shared, deep) != {} {
          assert l in Conflicts(live, q, shared, deep);
        }
      }
    }
  }

  // ---------------------------------------------------------------------------------------------
  // How the operations relate

  /** UNLOCK with the token just issued undoes the LOCK. */
  lemma UnlockUndoesLock(s: Locks, op: Op)
    requires op.Lock? && Admissible(s, op)
    requires Conflicts(s, Segs(op.path), op.shared, op.deep) == {}
    ensures Unlocked(Locked(s, op), Segs(op.path), op.newToken) == s
  {
    assert NewLock(op) in Named(Locked(s, op), Segs(op.path), op.newToken);
  }

  /** A granted exclusive lock keeps every later LOCK out that would overlap it: below it, or deep from above. */
  lemma ExclusiveLockExcludes(s: Locks, l: DavLock, p: seq<Bytes>, shared: bool, deep: bool)
    requires l in s && !l.shared && (l.Covers(p) || (deep && p <= l.Place()))
    ensures l in Conflicts(s, p, shared, deep)
  {
    assert l in Covering(s, p) || l in AtOrBelow(s, p);
  }

  /**
   `delete` is documented to drop all locks at the path and below. It does so exactly when the path
   is not the root or nothing is locked on the root itself.
   */
  lemma DeleteIsCompleteIff(s: Locks, p: seq<Bytes>)
    ensures s - Deleted(s, p) == s - AtOrBelow(s, p) <==> p != [] || forall l :: l in s ==> l.Place() != []
  {
    if p == [] {
      if l :| l in s && l.Place() == [] {
        assert l in AtOrBelow(s, p) && l in s - Deleted(s, p);
      }
    } else {
      forall l | l in AtOrBelow(s, p) ensures l in Deleted(s, p) {}
    }
  }
}
