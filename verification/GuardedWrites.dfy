/**
 PUT, DELETE, COPY and MOVE behind the write gate, with the lock system beside the filesystem: nobody writes
 where another's exclusive lock is, and what was removed leaves no lock behind (src/handle_put.rs,
 src/handle_delete.rs and src/handle_copymove.rs). The gate changes nothing but to drop expired locks, so it
 is asked ahead of the handler's own checks here, which decide first all the same.
 */
module GuardedWrites {
  import opened Results
  import opened DavPaths
  import opened Trees
  import opened PathValues
  import opened LockModel
  import opened MemLocks
  import IfHeader
  import opened IfEvaluation
  import opened FsModel
  import opened MemFiles
  import opened Deletion
  import opened Copying
  import opened CopyMoves
  import opened TypedPuts

  function StatusOf(r: IfEvaluation.Refusal): nat {
    match r
    case PreconditionFailed => PRECONDITION_FAILED
    case NotModified => 304
    case Locked => LOCKED
  }

  /** A name on the path is hidden by the configured filters. */
  ghost predicate Hidden(hides: Bytes -> bool, p: Path) {
    exists n :: 0 <= n < |p| && hides(p[n])
  }

  ghost predicate Separate(fs: MemFs, ls: MemLs) {
    (fs.tree as object) != (ls.tree as object)
  }

  /** The conditions hold, and the locks let the request write at `p`, and, if deep, below it. */
  ghost predicate Passes(live: Locks, c: Conditions, meta: Option<Meta>, path: Bytes, deep: bool, site: Site) {
    && HttpRefusal(c.http, false, meta) == None && IfHolds(live, c, path, site)
    && Allowed(live, Segs(path), TokensOf(c), c.principal, deep)
  }

  /** Some lock stands in the way: an exclusive one over the path, or, for a whole subtree, any in it, of another. */
  ghost predicate ShutOut(live: Locks, c: Conditions, p: seq<Bytes>, deep: bool) {
    exists l :: l in live && !Owns(c, l) && ((l.Covers(p) && !l.shared) || (deep && p <= l.Place()))
  }

  lemma ShutOutIsNotAllowed(live: Locks, c: Conditions, p: seq<Bytes>, deep: bool)
    requires ShutOut(live, c, p, deep)
    ensures !Allowed(live, p, TokensOf(c), c.principal, deep)
  {
    var l :| l in live && !Owns(c, l) && ((l.Covers(p) && !l.shared) || (deep && p <= l.Place()));
    if Allowed(live, p, TokensOf(c), c.principal, deep) {
      if l.Covers(p) && !l.shared {
        GateNamesExclusiveLock(live, c, p, deep, l);
      } else {
        DeepGateNamesEveryLockBelow(live, c, p, l);
      }
    }
  }

  /**
   In every run the gate lets a request through exactly if its HTTP conditions hold, some list of its If header
   does if it has one, and it owns a lock over the path or there is none, and every lock in a whole subtree.
   */
  lemma PassesIff(ops: seq<Op>, now: int, c: Conditions, meta: Option<Meta>, path: Bytes, deep: bool, site: Site)
    requires AdmissibleRun(ops)
    ensures var live, p := Live(Run(ops), now), Segs(path);
            Passes(live, c, meta, path, deep, site) <==>
              && HttpRefusal(c.http, false, meta) == None
              && (c.header.Some? ==> HeaderHolds(live, c.header.value, path, site))
              && ((forall l :: l in live ==> !l.Covers(p)) || exists l :: l in live && l.Covers(p) && Owns(c, l))
              && (deep ==> forall l :: l in live && p <= l.Place() ==> Owns(c, l))
  {
    AllowedIff(ops, now, c, Segs(path), deep);
  }

  lemma RefusedIsNotAccepted(m: FsMap, hides: Bytes -> bool, req: PutRequest, refused: Option<nat>,
                             frames: seq<Frame>, p: Path, room: Room, validFor: (CollectionKind, Bytes) -> bool)
    requires req.refused == None
    ensures var asked := req.(refused := refused);
            && (Accepts(m, hides, asked, frames, p, room, validFor) <==>
                  refused.None? && Accepts(m, hides, req, frames, p, room, validFor))
            && (refused.Some? || Hidden(hides, p) ==> PutRefusal(m, hides, asked, p).Some?)
  {
    if refused.None? { assert req.(refused := refused) == req; }
  }

  /** PUT and PATCH: the request is carried out exactly if it passes the gate and the handler accepts it. */
  method GuardedPut(fs: MemFs, ls: MemLs, hides: Bytes -> bool, req: PutRequest, c: Conditions, meta: Option<Meta>,
                    frames: seq<Frame>, path: DavPath, room: Room, validFor: (CollectionKind, Bytes) -> bool,
                    site: Site, now: int) returns (r: Result<Plan, nat>)
    requires fs.Valid() && ls.Valid() && Separate(fs, ls) && path.Valid() && IsPrefix(path.Prefix())
    requires req.refused == None && (meta.Some? <==> path.Places() in fs.View())
    requires req.ifMatchStar == (c.http.ifMatch == Some(AnyEntity))
    requires req.ifNoneMatchStar == (c.http.ifNoneMatch == Some(AnyEntity))
    requires ExistingLength(fs.View(), path.Places()) <= room.capacity
    modifies fs.tree, ls.tree
    ensures fs.Valid() && ls.Valid() && Live(ls.Stored(), now) == Live(old(ls.Stored()), now)
    ensures OnlyChanged(old(fs.View()), path.Places(), fs.View())
    ensures r.Ok? <==>
              && Passes(Live(old(ls.Stored()), now), c, meta, path.AsBytes(), false, site)
              && Accepts(old(fs.View()), hides, req, frames, path.Places(), room, validFor)
    ensures r.Ok? ==> PutEffect(old(fs.View()), path.Places(), r.value, frames, validFor, fs.View(), true)
    ensures Hidden(hides, path.Places()) ==> r.Err? && fs.View() == old(fs.View())
    ensures ShutOut(Live(old(ls.Stored()), now), c, path.Places(), false) ==> r.Err? && fs.View() == old(fs.View())
  {
    ghost var live, m := Live(ls.Stored(), now), fs.View();
    if ShutOut(live, c, path.Places(), false) { ShutOutIsNotAllowed(live, c, path.Places(), false); }
    var gate := GuardWrite(ls, c, meta, path.AsBytes(), false, site, now);
    var refused := if gate.Ok? then None else Some(StatusOf(gate.error));
    RefusedIsNotAccepted(m, hides, req, refused, frames, path.Places(), room, validFor);
    r := HandlePut(fs, hides, req.(refused := refused), frames, path, room, validFor);
  }

  // ---------------------------------------------------------------------------------------------
  // Removing and moving take the locks along

  lemma LiveWithoutDeleted(s: Locks, p: seq<Bytes>, now: int)
    ensures Live(s - LockModel.Deleted(s, p), now) == Live(s, now) - LockModel.Deleted(Live(s, now), p)
  {}

  /** After a removal at `p` no lock is left at or below it, and every other lock is. */
  ghost predicate LocksGone(live: Locks, p: seq<Bytes>, live': Locks) {
    forall l :: l in live' <==> l in live && !(p <= l.Place())
  }

  /** `locksystem.delete`, for a place that is not the root. */
  method DropLocks(ls: MemLs, path: Bytes, ghost now: int)
    requires ls.Valid() && Segs(path) != []
    modifies ls.tree
    ensures ls.Valid() && LocksGone(Live(old(ls.Stored()), now), Segs(path), Live(ls.Stored(), now))
  {
    LiveWithoutDeleted(ls.Stored(), Segs(path), now);
    ls.Delete(path);
  }

  /** The path of a request, which for a directory ends in a slash. */
  ghost function BytesWithSlash(m: FsMap, path: DavPath): Bytes
    requires path.Valid() && IsPrefix(path.Prefix())
  {
    AddSlashKeepsPlaces(path);
    if path.Places() in m && m[path.Places()].Dir? then path.AddSlash().AsBytes() else path.AsBytes()
  }

  /** Why a DELETE is refused; the locks are asked last. */
  ghost function DeleteRefusal(m: FsMap, hides: Bytes -> bool, p: Path): Option<nat> {
    if !Shown(hides, p) then Some(NOT_FOUND)
    else if p !in m then Some(if Resolve(m, p) == Err(NotFound) then NOT_FOUND else FORBIDDEN)
    else None
  }

  /** What a DELETE that is carried out does. */
  ghost predicate DeleteEffect(m: FsMap, f: Faults, depthZero: bool, p: Path, m': FsMap, ok: bool, reports: seq<Path>)
    requires p in m
  {
    if depthZero && m[p].Dir? then
      && ok == (p != [] && !f.remove(p) && !HasChildren(m, p))
      && m' == (if ok then m - {p} else m) && reports == (if ok then [] else [p])
    else Outcome(m, f, p, m', ok, reports)
  }

  /** A DELETE is not refused exactly if something is stored there and no name on the way is hidden. */
  lemma DeletableIff(m: FsMap, hides: Bytes -> bool, p: Path)
    ensures DeleteRefusal(m, hides, p) == None <==> p in m && !Hidden(hides, p)
    ensures Hidden(hides, p) ==> DeleteRefusal(m, hides, p) == Some(404)
  {}

  /** With Depth 0 a collection goes only if it is empty, and nothing else is touched. */
  lemma DepthZeroDeletesNoMembers(m: FsMap, f: Faults, p: Path, m': FsMap, ok: bool, reports: seq<Path>)
    requires p in m && m[p].Dir? && DeleteEffect(m, f, true, p, m', ok, reports)
    ensures ok ==> forall q :: q in m ==> !(p < q)
    ensures forall q :: q in m' <==> q in m && !(ok && q == p)
    ensures !ok ==> m' == m && reports == [p]
  {}

  /** Delete, and drop the locks of what is gone. */
  method DeleteWithLocks(fs: MemFs, ls: MemLs, f: Faults, depthZero: bool, isDir: bool, path: DavPath, ghost now: int)
    returns (ok: bool, reports: seq<Path>)
    requires fs.Valid() && AllReachable(fs.View()) && ls.Valid() && Separate(fs, ls)
    requires path.Valid() && IsPrefix(path.Prefix())
    requires path.Places() in fs.View() && isDir == fs.View()[path.Places()].Dir?
    modifies fs.tree, ls.tree
    ensures fs.Valid() && ls.Valid()
    ensures DeleteEffect(old(fs.View()), f, depthZero, path.Places(), fs.View(), ok, reports)
    ensures ok ==> LocksGone(Live(old(ls.Stored()), now), path.Places(), Live(ls.Stored(), now))
    ensures !ok ==> ls.Stored() == old(ls.Stored())
  {
    ghost var m := fs.View();
    ok, reports := DeleteItems(fs, f, depthZero, isDir, path);
    if ok {
      RootSurvives(m, f, path.Places(), fs.View(), ok, reports);
      DropLocks(ls, path.AsBytes(), now);
    }
  }

  /** `handle_delete` */
  method GuardedDelete(fs: MemFs, ls: MemLs, hides: Bytes -> bool, f: Faults, depthZero: bool, c: Conditions,
                       meta: Option<Meta>, source: DavPath, site: Site, now: int)
    returns (r: Result<(bool, seq<Path>), nat>)
    requires fs.Valid() && AllReachable(fs.View()) && ls.Valid() && Separate(fs, ls)
    requires source.Valid() && IsPrefix(source.Prefix())
    modifies fs.tree, ls.tree
    ensures fs.Valid() && ls.Valid()
    ensures r.Err? ==> fs.View() == old(fs.View()) && Live(ls.Stored(), now) == Live(old(ls.Stored()), now)
    ensures DeleteRefusal(old(fs.View()), hides, source.Places()).Some? ==>
              r == Err(DeleteRefusal(old(fs.View()), hides, source.Places()).value)
    ensures r.Ok? <==>
              && DeleteRefusal(old(fs.View()), hides, source.Places()) == None
              && Passes(Live(old(ls.Stored()), now), c, meta, BytesWithSlash(old(fs.View()), source), true, site)
    ensures ShutOut(Live(old(ls.Stored()), now), c, source.Places(), true) ==> r.Err?
    ensures Hidden(hides, source.Places()) ==> r == Err(404) && fs.View() == old(fs.View())
    ensures r.Ok? ==> source.Places() in old(fs.View())
                      && DeleteEffect(old(fs.View()), f, depthZero, source.Places(), fs.View(), r.value.0, r.value.1)
    ensures r.Ok? && r.value.0 ==>
              LocksGone(Live(old(ls.Stored()), now), source.Places(), Live(ls.Stored(), now))
    ensures r.Ok? && !r.value.0 ==> Live(ls.Stored(), now) == Live(old(ls.Stored()), now)
  {
    ghost var live, m, p := Live(ls.Stored(), now), fs.View(), source.Places();
    if !Shown(hides, Segs(source.AsBytes())) {
      return Err(NOT_FOUND);
    }
    ResolvesIffStored(m, p);
    var found := fs.Metadata(source.AsBytes());
    if found.Err? {
      return Err(if found.error == NotFound then NOT_FOUND else FORBIDDEN);
    }
    AddSlashKeepsPlaces(source);
    var path := if found.value.isDir then source.AddSlash() else source;
    if ShutOut(live, c, p, true) { ShutOutIsNotAllowed(live, c, p, true); }
    var gate := GuardWrite(ls, c, meta, path.AsBytes(), true, site, now);
    if gate.Err? {
      return Err(StatusOf(gate.error));
    }
    var ok, reports := DeleteWithLocks(fs, ls, f, depthZero, found.value.isDir, path, now);
    r := Ok((ok, reports));
  }

  lemma RootSurvives(m: FsMap, f: Faults, p: Path, m': FsMap, ok: bool, reports: seq<Path>)
    requires WellFormed(m) && WellFormed(m') && p in m
    ensures Outcome(m, f, p, m', ok, reports) && ok ==> p != []
  {
    if Outcome(m, f, p, m', ok, reports) && ok {
      SuccessMeansGone(m, f, p, m', ok, reports, p);
    }
  }

  /** A DELETE of everything: success leaves nothing at or below the path, and without a failing step it succeeds. */
  lemma DeleteMeans(m: FsMap, f: Faults, p: Path, m': FsMap, ok: bool, reports: seq<Path>, q: Path)
    requires WellFormed(m) && p in m && DeleteEffect(m, f, false, p, m', ok, reports)
    ensures ok ==> (q in m' <==> q in m && !(p <= q))
    ensures !(p <= q) ==> SameAt(m, m', q)
    ensures p != [] && (forall d :: p <= d && d in m ==> !f.remove(d) && !f.list(d) && !f.entry(d) && !f.stray(d)) ==>
              ok && reports == []
  {
    SuccessMeansGone(m, f, p, m', ok, reports, q);
    if p != [] && forall d :: p <= d && d in m ==> !f.remove(d) && !f.list(d) && !f.entry(d) && !f.stray(d) {
      NoFaultsNoSurvivors(m, f, p, m', ok, reports);
    }
  }

  /** What is gone or was moved away is free for new locks; a lock elsewhere stays, and none appears. */
  lemma FollowedLocksMean(live: Locks, replaced: bool, d: Path, moved: bool, s: Path, live': Locks)
    ensures LocksFollow(live, replaced, d, moved, s, live') ==>
              && (replaced ==> AtOrBelow(live', d) == {}) && (moved ==> AtOrBelow(live', s) == {})
              && live' <= live && forall l :: l in live && !(d <= l.Place()) && !(s <= l.Place()) ==> l in live'
    ensures LocksFollow(live, replaced, d, moved, s, live') && !replaced && !moved ==> live' == live
    ensures LocksGone(live, d, live') ==> live' == live - AtOrBelow(live, d)
  {
    assert LocksGone(live, d, live') ==> forall l :: l in live' <==> l in live - AtOrBelow(live, d);
  }

  // ---------------------------------------------------------------------------------------------
  // COPY and MOVE

  /** A COPY must be allowed at its destination, a MOVE at its source as well, each time for the whole subtree. */
  ghost predicate PassesTwice(live: Locks, c: Conditions, meta: Option<Meta>, path: Bytes, move: bool, d: Path,
                              site: Site) {
    && HttpRefusal(c.http, false, meta) == None && IfHolds(live, c, path, site)
    && (move ==> Allowed(live, Segs(path), TokensOf(c), c.principal, true))
    && Allowed(live, d, TokensOf(c), c.principal, true)
  }

  /** The conditions and the lock checks of `handle_copymove`: a status, and whether a lock is in the way. */
  method GateTwice(ls: MemLs, c: Conditions, meta: Option<Meta>, path: Bytes, move: bool, dest: Bytes, site: Site,
                   now: int)
    returns (conditionsFail: Option<nat>, locked: bool)
    requires ls.Valid()
    modifies ls.tree
    ensures ls.Valid() && Live(ls.Stored(), now) == Live(old(ls.Stored()), now)
    ensures conditionsFail.None? && !locked <==>
              PassesTwice(Live(old(ls.Stored()), now), c, meta, path, move, Segs(dest), site)
  {
    ghost var live := Live(ls.Stored(), now);
    var tokens := IfMatchGetTokens(ls, c, meta, path, site, now);
    if tokens.Err? {
      return Some(StatusOf(tokens.error)), false;
    }
    var free := true;
    if move {
      free := CheckSubtree(ls, path, c.principal, tokens.value, now);
    }
    if free {
      free := CheckSubtree(ls, dest, c.principal, tokens.value, now);
    }
    conditionsFail, locked := None, !free;
  }

  /** `check` for a whole subtree. */
  method CheckSubtree(ls: MemLs, path: Bytes, principal: Option<string>, tokens: seq<Token>, now: int)
    returns (ok: bool)
    requires ls.Valid()
    modifies ls.tree
    ensures ls.Valid() && Live(ls.Stored(), now) == Live(old(ls.Stored()), now)
    ensures ok == Allowed(Live(old(ls.Stored()), now), Segs(path), tokens, principal, true)
  {
    LiveTwice(ls.Stored(), now);
    var checked := ls.Check(path, principal, false, true, tokens, now);
    ok := checked.Ok?;
  }

  /** COPY and MOVE ask about the whole subtree at the destination, and MOVE at the source too. */
  lemma PassesTwiceIff(ops: seq<Op>, now: int, c: Conditions, meta: Option<Meta>, path: Bytes, move: bool, d: Path,
                       site: Site)
    requires AdmissibleRun(ops)
    ensures var live, s := Live(Run(ops), now), Segs(path);
            PassesTwice(live, c, meta, path, move, d, site) <==>
              && HttpRefusal(c.http, false, meta) == None
              && (c.header.Some? ==> HeaderHolds(live, c.header.value, path, site))
              && ((forall l :: l in live ==> !l.Covers(d)) || exists l :: l in live && l.Covers(d) && Owns(c, l))
              && (forall l :: l in live && d <= l.Place() ==> Owns(c, l))
              && (move ==>
                    && ((forall l :: l in live ==> !l.Covers(s)) || exists l :: l in live && l.Covers(s) && Owns(c, l))
                    && (forall l :: l in live && s <= l.Place() ==> Owns(c, l)))
  {
    AllowedIff(ops, now, c, d, true);
    AllowedIff(ops, now, c, Segs(path), true);
  }

  /** The flags add to why a request is refused, and nothing to what it does. */
  lemma FlagsOnlyRefuse(m: FsMap, hides: Bytes -> bool, req: Request, fail: Option<nat>, locked: bool, s: Path, d: Path)
    requires req.conditionsFail == None && !req.locked
    ensures CopyMoves.Refusal(m, hides, req.(conditionsFail := fail, locked := locked), s, d) == None <==>
              fail.None? && !locked && CopyMoves.Refusal(m, hides, req, s, d) == None
  {}

  lemma FlagsDoNothing(m: FsMap, hides: Bytes -> bool, f: Faults, req: Request, fail: Option<nat>, locked: bool,
                       s: Path, d: Path, m': FsMap, ok: bool, reports: seq<Path>)
    requires Effect(m, hides, f, req.(conditionsFail := fail, locked := locked), s, d, m', ok, reports)
    ensures Effect(m, hides, f, req, s, d, m', ok, reports)
  {}

  /** Where what was there was replaced or moved away no lock is left, and every other lock is. */
  ghost predicate LocksFollow(live: Locks, replaced: bool, d: Path, moved: bool, s: Path, live': Locks) {
    forall l :: l in live' <==> l in live && !(replaced && d <= l.Place()) && !(moved && s <= l.Place())
  }

  method FollowLocks(ls: MemLs, replaced: bool, dest: Bytes, moved: bool, path: Bytes, ghost now: int)
    requires ls.Valid() && Segs(dest) != [] && Segs(path) != []
    modifies ls.tree
    ensures ls.Valid()
    ensures LocksFollow(Live(old(ls.Stored()), now), replaced, Segs(dest), moved, Segs(path), Live(ls.Stored(), now))
  {
    if replaced {
      DropLocks(ls, dest, now);
    }
    if moved {
      DropLocks(ls, path, now);
    }
  }

  /** Exactly the requests that are carried out. */
  ghost predicate Granted(m: FsMap, live: Locks, hides: Bytes -> bool, req: Request, c: Conditions, meta: Option<Meta>,
                          source: DavPath, dest: DavPath, site: Site)
    requires source.Valid() && dest.Valid() && IsPrefix(source.Prefix())
  {
    && PassesTwice(live, c, meta, BytesWithSlash(m, source), !req.copy, dest.Places(), site)
    && CopyMoves.Refusal(m, hides, req, source.Places(), dest.Places()) == None
  }

  /** `handle_copymove` with the lock system beside it. */
  method GuardedCopyMove(fs: MemFs, ls: MemLs, hides: Bytes -> bool, f: Faults, req: Request, c: Conditions,
                         meta: Option<Meta>, source: DavPath, dest: DavPath, site: Site, now: int)
    returns (r: Result<(bool, seq<Path>), nat>)
    requires GoodFs(fs) && ls.Valid() && Separate(fs, ls)
    requires source.Valid() && dest.Valid() && dest.Prefix() == source.Prefix() && IsPrefix(source.Prefix())
    requires req.conditionsFail == None && !req.locked
    modifies fs.tree, ls.tree
    ensures GoodFs(fs) && ls.Valid()
    ensures r.Ok? <==> Granted(old(fs.View()), Live(old(ls.Stored()), now), hides, req, c, meta, source, dest, site)
    ensures ShutOut(Live(old(ls.Stored()), now), c, dest.Places(), true) ==> r.Err?
    ensures !req.copy && ShutOut(Live(old(ls.Stored()), now), c, source.Places(), true) ==> r.Err?
    ensures Hidden(hides, source.Places()) || Hidden(hides, dest.Places()) ==> r.Err? && fs.View() == old(fs.View())
    ensures r.Err? || !r.value.0 ==> Live(ls.Stored(), now) == Live(old(ls.Stored()), now)
    ensures r.Err? ==> fs.View() == old(fs.View())
    ensures r.Ok? ==>
              Effect(old(fs.View()), hides, f, req, source.Places(), dest.Places(), fs.View(), r.value.0, r.value.1)
    ensures r.Ok? && r.value.0 ==>
              LocksFollow(Live(old(ls.Stored()), now), Replaces(old(fs.View()), req, dest.Places()), dest.Places(),
                          !req.copy, source.Places(), Live(ls.Stored(), now))
  {
    ghost var live, m, s, d := Live(ls.Stored(), now), fs.View(), source.Places(), dest.Places();
    ShutOutIsNotGranted(m, live, hides, req, c, meta, source, dest, site);
    HiddenIsNotGranted(m, live, hides, req, c, meta, source, dest, site);
    var path := WithSlash(fs, source);
    var replaced := FindReplaced(fs, req, dest);
    var fail, locked := GateTwice(ls, c, meta, path, !req.copy, dest.AsBytes(), site, now);
    FlagsOnlyRefuse(m, hides, req, fail, locked, s, d);
    r := HandleCopyMove(fs, hides, f, req.(conditionsFail := fail, locked := locked), source, dest);
    if r.Ok? {
      FlagsDoNothing(m, hides, f, req, fail, locked, s, d, fs.View(), r.value.0, r.value.1);
      GrantedIsBelowRoot(m, live, hides, req, c, meta, source, dest, site);
      if r.value.0 {
        FollowLocks(ls, replaced, dest.AsBytes(), !req.copy, path, now);
      }
    }
  }

  lemma ShutOutIsNotGranted(m: FsMap, live: Locks, hides: Bytes -> bool, req: Request, c: Conditions,
                            meta: Option<Meta>, source: DavPath, dest: DavPath, site: Site)
    requires source.Valid() && dest.Valid() && IsPrefix(source.Prefix())
    ensures ShutOut(live, c, dest.Places(), true) || (!req.copy && ShutOut(live, c, source.Places(), true)) ==>
              !Granted(m, live, hides, req, c, meta, source, dest, site)
  {
    AddSlashKeepsPlaces(source);
    assert Segs(BytesWithSlash(m, source)) == source.Places();
    if ShutOut(live, c, dest.Places(), true) { ShutOutIsNotAllowed(live, c, dest.Places(), true); }
    if ShutOut(live, c, source.Places(), true) { ShutOutIsNotAllowed(live, c, source.Places(), true); }
  }

  lemma HiddenIsNotGranted(m: FsMap, live: Locks, hides: Bytes -> bool, req: Request, c: Conditions,
                           meta: Option<Meta>, source: DavPath, dest: DavPath, site: Site)
    requires source.Valid() && dest.Valid() && IsPrefix(source.Prefix())
    ensures Hidden(hides, source.Places()) || Hidden(hides, dest.Places()) ==>
              !Granted(m, live, hides, req, c, meta, source, dest, site)
  {}

  lemma GrantedIsBelowRoot(m: FsMap, live: Locks, hides: Bytes -> bool, req: Request, c: Conditions, meta: Option<Meta>,
                           source: DavPath, dest: DavPath, site: Site)
    requires source.Valid() && dest.Valid() && IsPrefix(source.Prefix())
    requires Granted(m, live, hides, req, c, meta, source, dest, site)
    ensures source.Places() != [] && dest.Places() != []
  {
    assert Apart(source.Places(), dest.Places());
  }

  /** The source's path as the locks are asked for it. */
  method WithSlash(fs: MemFs, source: DavPath) returns (path: Bytes)
    requires fs.Valid() && source.Valid() && IsPrefix(source.Prefix())
    ensures path == BytesWithSlash(fs.View(), source) && Segs(path) == source.Places()
  {
    ResolvesIffStored(fs.View(), source.Places());
    AddSlashKeepsPlaces(source);
    var found := fs.Metadata(source.AsBytes());
    if found.Ok? && found.value.isDir {
      path := source.AddSlash().AsBytes();
    } else {
      path := source.AsBytes();
    }
  }

  /** Is there something at the destination that is to be replaced? */
  method FindReplaced(fs: MemFs, req: Request, dest: DavPath) returns (replaced: bool)
    requires fs.Valid() && dest.Valid()
    ensures replaced == Replaces(fs.View(), req, dest.Places())
  {
    ResolvesIffStored(fs.View(), dest.Places());
    var there := fs.Metadata(dest.AsBytes());
    replaced := there.Ok? && (!req.depthZero || !there.value.isDir);
  }
}
