/**
 Evaluating the If header against the lock system, and the gate that write requests pass
 (src/conditional.rs, and the common steps of the write handlers).
 */
module IfEvaluation {
  import opened Results
  import opened DavPaths
  import opened LockModel
  import opened IfHeader
  import opened MemLocks

  const DAV_PREFIX: Bytes := [68, 65, 86, 58]    // "DAV:"

  /** `starts_with("DAV:")`: tokens in this namespace never name a lock. */
  predicate InDavNamespace(token: Bytes) {
    DAV_PREFIX <= token
  }

  /**
   What the evaluation asks of its surroundings: the path a resource tag denotes on this server, if
   any, and the entity tag of a path, if it exists and has one.
   */
  datatype Site = Site(locate: Bytes -> Option<Bytes>, etagOf: Bytes -> Option<ETag>)

  /** The resource a list is about, or `None` if its tag denotes none here. */
  function Subject(list: IfList, path: Bytes, site: Site): Option<Bytes> {
    if list.resourceTag.Some? then site.locate(list.resourceTag.value) else Some(path)
  }

  /** Is the condition's item true of the resource? A state token is, if it names a lock covering it. */
  ghost predicate ItemHolds(live: Locks, item: IfItem, subject: Option<Bytes>, site: Site) {
    subject.Some? &&
    match item
    case StateToken(t) =>
      !InDavNamespace(t)
      && exists l ::
           l in Covering(live, Segs(subject.value)) && l.token == t && CoversBytes(l.deep, l.path, subject.value)
    case EntityTag(tag) =>
      site.etagOf(subject.value).Some? && tag.StrongEq(site.etagOf(subject.value).value)
  }

  ghost predicate ConditionHolds(live: Locks, c: IfCondition, subject: Option<Bytes>, site: Site) {
    ItemHolds(live, c.item, subject, site) != c.negated
  }

  /** All conditions, of which there is at least one. */
  ghost predicate ListHolds(live: Locks, list: IfList, path: Bytes, site: Site) {
    && list.conditions != []
    && forall n :: 0 <= n < |list.conditions| ==>
         ConditionHolds(live, list.conditions[n], Subject(list, path, site), site)
  }

  /** At least one list. */
  ghost predicate HeaderHolds(live: Locks, lists: seq<IfList>, path: Bytes, site: Site) {
    exists n :: 0 <= n < |lists| && ListHolds(live, lists[n], path, site)
  }

  function TokensIn(conditions: seq<IfCondition>): seq<Token> {
    if conditions == [] then []
    else
      TokensIn(conditions[..|conditions| - 1])
      + match conditions[|conditions| - 1].item
        case StateToken(t) => [t]
        case EntityTag(_) => []
  }

  /** All state tokens of the header, negated or not, of true lists or not. */
  function SubmittedTokens(lists: seq<IfList>): seq<Token> {
    if lists == [] then [] else SubmittedTokens(lists[..|lists| - 1]) + TokensIn(lists[|lists| - 1].conditions)
  }

  ghost predicate NamesToken(lists: seq<IfList>, t: Token) {
    exists n, k :: 0 <= n < |lists| && 0 <= k < |lists[n].conditions| && lists[n].conditions[k].item == StateToken(t)
  }

  lemma {:induction false} TokensInAreNamed(conditions: seq<IfCondition>, t: Token)
    ensures t in TokensIn(conditions) <==> exists k :: 0 <= k < |conditions| && conditions[k].item == StateToken(t)
  {
    if conditions != [] {
      var init := conditions[..|conditions| - 1];
      TokensInAreNamed(init, t);
      if k :| 0 <= k < |conditions| && conditions[k].item == StateToken(t) {
        if k < |init| { assert init[k].item == StateToken(t); }
      }
      if k :| 0 <= k < |init| && init[k].item == StateToken(t) {
        assert conditions[k].item == StateToken(t);
      }
    }
  }

  /** The submitted tokens are those that occur in the header. */
  lemma {:induction false} SubmittedAreNamed(lists: seq<IfList>, t: Token)
    ensures t in SubmittedTokens(lists) <==> NamesToken(lists, t)
  {
    if lists != [] {
      var init, last := lists[..|lists| - 1], lists[|lists| - 1];
      SubmittedAreNamed(init, t);
      TokensInAreNamed(last.conditions, t);
      if n, k :| 0 <= n < |lists| && 0 <= k < |lists[n].conditions| && lists[n].conditions[k].item == StateToken(t) {
        if n < |init| { assert init[n].conditions[k].item == StateToken(t); }
      }
      if n, k :| 0 <= n < |init| && 0 <= k < |init[n].conditions| && init[n].conditions[k].item == StateToken(t) {
        assert lists[n].conditions[k].item == StateToken(t);
      }
      if k :| 0 <= k < |last.conditions| && last.conditions[k].item == StateToken(t) {
        assert lists[|lists| - 1].conditions[k].item == StateToken(t);
      }
    }
  }

  /** Pruning twice at the same reading is pruning once. */
  lemma LiveTwice(s: Locks, now: int)
    ensures Live(Live(s, now), now) == Live(s, now)
  {}

  /** `discover(p).iter().any(..)` */
  function AnyNames(locks: seq<DavLock>, t: Token, p: Bytes): (found: bool)
    ensures found <==> exists l :: l in locks && l.token == t && CoversBytes(l.deep, l.path, p)
  {
    if locks == [] then false
    else
      assert locks == [locks[0]] + locks[1..];
      (locks[0].token == t && CoversBytes(locks[0].deep, locks[0].path, p)) || AnyNames(locks[1..], t, p)
  }

  /** One condition of one list. Looking for locks prunes the expired ones, which changes nothing else. */
  method CheckItem(ls: MemLs, item: IfItem, subject: Option<Bytes>, site: Site, now: int) returns (ok: bool)
    requires ls.Valid()
    modifies ls.tree
    ensures ls.Valid() && Live(ls.Stored(), now) == Live(old(ls.Stored()), now)
    ensures ok <==> ItemHolds(Live(old(ls.Stored()), now), item, subject, site)
  {
    match item {
      case StateToken(t) =>
        if subject.None? || InDavNamespace(t) {
          return false;
        }
        LiveTwice(ls.Stored(), now);
        var locks := ls.Discover(subject.value, now);
        ok := AnyNames(locks, t, subject.value);
      case EntityTag(tag) =>
        if subject.None? {
          return false;
        }
        var current := site.etagOf(subject.value);
        ok := current.Some? && tag.StrongEq(current.value);
    }
  }

  /** The inner loop of `dav_if_match`: do all conditions of the list hold, and is there one? */
  method CheckList(ls: MemLs, list: IfList, path: Bytes, site: Site, now: int) returns (listOk: bool)
    requires ls.Valid()
    modifies ls.tree
    ensures ls.Valid() && Live(ls.Stored(), now) == Live(old(ls.Stored()), now)
    ensures listOk <==> ListHolds(Live(old(ls.Stored()), now), list, path, site)
  {
    ghost var live := Live(ls.Stored(), now);
    var subject := Subject(list, path, site);
    listOk := false;
    for n := 0 to |list.conditions|
      invariant ls.Valid() && Live(ls.Stored(), now) == live
      invariant listOk <==> n > 0
      invariant forall k :: 0 <= k < n ==> ConditionHolds(live, list.conditions[k], subject, site)
    {
      var cond := list.conditions[n];
      var condOk := CheckItem(ls, cond.item, subject, site, now);
      if condOk == cond.negated {
        assert !ConditionHolds(live, list.conditions[n], subject, site);
        return false;
      }
      listOk := true;
    }
  }

  /**
   `dav_if_match`: does the header, if there is one, hold, and which state tokens does it submit?
   */
  method DavIfMatch(ls: MemLs, header: Option<seq<IfList>>, path: Bytes, site: Site, now: int)
    returns (ok: bool, tokens: seq<Token>)
    requires ls.Valid()
    modifies ls.tree
    ensures ls.Valid() && Live(ls.Stored(), now) == Live(old(ls.Stored()), now)
    ensures header.None? ==> ok && tokens == []
    ensures header.Some? ==> (ok <==> HeaderHolds(Live(old(ls.Stored()), now), header.value, path, site))
    ensures header.Some? ==> tokens == SubmittedTokens(header.value)
  {
    if header.None? {
      return true, [];
    }
    ghost var live := Live(ls.Stored(), now);
    var lists := header.value;
    tokens := [];
    ok := false;
    for n := 0 to |lists|
      invariant ls.Valid() && Live(ls.Stored(), now) == live
      invariant tokens == SubmittedTokens(lists[..n])
      invariant ok <==> exists k :: 0 <= k < n && ListHolds(live, lists[k], path, site)
    {
      assert lists[..n + 1][..n] == lists[..n];
      tokens := tokens + TokensIn(lists[n].conditions);
      if ok {
        continue;
      }
      var listOk := CheckList(ls, lists[n], path, site, now);
      if listOk {
        ok := true;
      }
    }
    assert lists[..|lists|] == lists;
  }

  // ---------------------------------------------------------------------------------------------
  // The preconditions of RFC 7232

  datatype EntityTags = AnyEntity | Tags(tags: seq<ETag>)

  /** If-Match, If-Unmodified-Since, If-None-Match and If-Modified-Since; times are in nanoseconds. */
  datatype HttpConditions = HttpConditions(
    ifMatch: Option<EntityTags>, ifUnmodifiedSince: Option<int>,
    ifNoneMatch: Option<EntityTags>, ifModifiedSince: Option<int>)

  /** What is known of a resource that exists. */
  datatype Meta = Meta(etag: Option<ETag>, modified: Option<int>)

  const SECOND: int := 1_000_000_000

  /** `round_time`: HTTP dates are in whole seconds. */
  function RoundTime(t: int): int {
    if t >= 0 then t / SECOND * SECOND else t
  }

  function ETagOf(meta: Option<Meta>): Option<ETag> {
    if meta.Some? then meta.value.etag else None
  }

  function ModifiedOf(meta: Option<Meta>): Option<int> {
    if meta.Some? then meta.value.modified else None
  }

  /** `etaglist_match` */
  predicate Matches(tags: EntityTags, meta: Option<Meta>, weak: bool) {
    match tags
    case AnyEntity => meta.Some?
    case Tags(ts) =>
      ETagOf(meta).Some?
      && exists t :: t in ts && if weak then t.WeakEq(ETagOf(meta).value) else t.StrongEq(ETagOf(meta).value)
  }

  datatype Refusal = PreconditionFailed | NotModified | Locked

  /** `http_if_match`; `readOnly` says that the request is a GET or a HEAD. */
  method HttpIfMatch(c: HttpConditions, readOnly: bool, meta: Option<Meta>) returns (r: Option<Refusal>)
    ensures r == HttpRefusal(c, readOnly, meta)
  {
    var modified := ModifiedOf(meta);
    if c.ifMatch.Some? {
      if !Matches(c.ifMatch.value, meta, false) {
        return Some(PreconditionFailed);
      }
    } else if c.ifUnmodifiedSince.Some? {
      if modified.None? || RoundTime(modified.value) > RoundTime(c.ifUnmodifiedSince.value) {
        return Some(PreconditionFailed);
      }
    }
    if c.ifNoneMatch.Some? {
      if Matches(c.ifNoneMatch.value, meta, true) {
        return Some(if readOnly then NotModified else PreconditionFailed);
      }
    } else if c.ifModifiedSince.Some? && readOnly && modified.Some?
              && RoundTime(modified.value) <= RoundTime(c.ifModifiedSince.value) {
      return Some(NotModified);
    }
    r := None;
  }

  /** The resource is as the client requires it: the right entity, or else not modified since. */
  ghost predicate AsRequired(c: HttpConditions, meta: Option<Meta>) {
    if c.ifMatch.Some? then Matches(c.ifMatch.value, meta, false)
    else c.ifUnmodifiedSince.Some? ==>
           ModifiedOf(meta).Some? && RoundTime(ModifiedOf(meta).value) <= RoundTime(c.ifUnmodifiedSince.value)
  }

  /** The client has the resource already. */
  ghost predicate Known(c: HttpConditions, readOnly: bool, meta: Option<Meta>) {
    if c.ifNoneMatch.Some? then Matches(c.ifNoneMatch.value, meta, true)
    else && readOnly && c.ifModifiedSince.Some? && ModifiedOf(meta).Some?
         && RoundTime(ModifiedOf(meta).value) <= RoundTime(c.ifModifiedSince.value)
  }

  ghost function HttpRefusal(c: HttpConditions, readOnly: bool, meta: Option<Meta>): Option<Refusal> {
    if !AsRequired(c, meta) then Some(PreconditionFailed)
    else if Known(c, readOnly, meta) then Some(if readOnly then NotModified else PreconditionFailed)
    else None
  }

  /** With `If-Match: *` nothing is written where nothing is, and with `If-None-Match: *` nothing where something is. */
  lemma StarsDecide(c: HttpConditions, meta: Option<Meta>)
    ensures c.ifMatch == Some(AnyEntity) && meta.None? ==> HttpRefusal(c, false, meta) == Some(PreconditionFailed)
    ensures c.ifNoneMatch == Some(AnyEntity) && meta.Some? ==> HttpRefusal(c, false, meta) == Some(PreconditionFailed)
    ensures c == HttpConditions(None, None, Some(AnyEntity), c.ifModifiedSince) && meta.None? ==>
              HttpRefusal(c, false, meta) == None
  {}

  /**
   A listed entity tag: If-Match wants one that is strongly the resource's own, and If-None-Match none that is
   weakly so.
   */
  lemma TagsDecide(ts: seq<ETag>, date: Option<int>, readOnly: bool, meta: Option<Meta>)
    ensures HttpRefusal(HttpConditions(Some(Tags(ts)), date, None, None), readOnly, meta) == None <==>
              && meta.Some? && meta.value.etag.Some? && !meta.value.etag.value.weak
              && ETag(meta.value.etag.value.tag, false) in ts
    ensures HttpRefusal(HttpConditions(None, None, Some(Tags(ts)), date), readOnly, meta) == None <==>
              !(&& meta.Some? && meta.value.etag.Some?
                && exists weak :: ETag(meta.value.etag.value.tag, weak) in ts)
  {
    if meta.Some? && meta.value.etag.Some? {
      var own := meta.value.etag.value;
      forall t | t in ts ensures t == ETag(t.tag, t.weak) {}
      if weak :| ETag(own.tag, weak) in ts { assert ETag(own.tag, weak).WeakEq(own); }
      if ETag(own.tag, false) in ts && !own.weak { assert ETag(own.tag, false).StrongEq(own); }
    }
  }

  /** A date stands for the whole second it is in. */
  predicate NotAfter(modified: int, date: int) {
    if date >= 0 then modified < date - date % 1_000_000_000 + 1_000_000_000 else modified <= date
  }

  lemma RoundedNotAfter(modified: int, date: int)
    ensures RoundTime(modified) <= RoundTime(date) <==> NotAfter(modified, date)
  {
    if date >= 0 && modified >= 0 {
      var a, b := modified / 1_000_000_000, date / 1_000_000_000;
      assert modified == a * 1_000_000_000 + modified % 1_000_000_000;
      assert date == b * 1_000_000_000 + date % 1_000_000_000;
    }
  }

  /** Dates alone: not written if modified since, not sent again unless modified since. */
  lemma DatesDecide(date: int, readOnly: bool, meta: Option<Meta>)
    ensures HttpRefusal(HttpConditions(None, Some(date), None, None), readOnly, meta)
            == if meta.Some? && meta.value.modified.Some? && NotAfter(meta.value.modified.value, date) then None
               else Some(PreconditionFailed)
    ensures HttpRefusal(HttpConditions(None, None, None, Some(date)), readOnly, meta)
            == if readOnly && meta.Some? && meta.value.modified.Some? && NotAfter(meta.value.modified.value, date) then
                 Some(NotModified)
               else None
  {
    if meta.Some? && meta.value.modified.Some? { RoundedNotAfter(meta.value.modified.value, date); }
  }

  /** All headers together: an entity tag makes the date beside it void, and the first pair is looked at first. */
  lemma HeadersTogether(c: HttpConditions, readOnly: bool, meta: Option<Meta>)
    ensures c.ifMatch.Some? ==>
              HttpRefusal(c, readOnly, meta) == HttpRefusal(c.(ifUnmodifiedSince := None), readOnly, meta)
    ensures c.ifNoneMatch.Some? ==>
              HttpRefusal(c, readOnly, meta) == HttpRefusal(c.(ifModifiedSince := None), readOnly, meta)
    ensures var required := HttpRefusal(c.(ifNoneMatch := None, ifModifiedSince := None), readOnly, meta);
            var known := HttpRefusal(c.(ifMatch := None, ifUnmodifiedSince := None), readOnly, meta);
            && HttpRefusal(c, readOnly, meta) == (if required.Some? then required else known)
            && (required == None || required == Some(PreconditionFailed))
            && (known == None || known == Some(if readOnly then NotModified else PreconditionFailed))
    ensures HttpRefusal(HttpConditions(None, None, None, None), readOnly, meta) == None
  {}

  // ---------------------------------------------------------------------------------------------
  // The gate

  /** The conditions that a request makes, in the order in which they are looked at, and who makes it. */
  datatype Conditions = Conditions(http: HttpConditions, header: Option<seq<IfList>>, principal: Option<string>)

  /** The state tokens a request submits. */
  ghost function TokensOf(c: Conditions): seq<Token> {
    if c.header.Some? then SubmittedTokens(c.header.value) else []
  }

  ghost predicate IfHolds(live: Locks, c: Conditions, path: Bytes, site: Site) {
    c.header.None? || HeaderHolds(live, c.header.value, path, site)
  }

  /** `if_match_get_tokens`, for a request that writes. */
  method IfMatchGetTokens(ls: MemLs, c: Conditions, meta: Option<Meta>, path: Bytes, site: Site, now: int)
    returns (r: Result<seq<Token>, Refusal>)
    requires ls.Valid()
    modifies ls.tree
    ensures ls.Valid() && Live(ls.Stored(), now) == Live(old(ls.Stored()), now)
    ensures r == if HttpRefusal(c.http, false, meta).Some? then Err(HttpRefusal(c.http, false, meta).value)
                 else if !IfHolds(Live(old(ls.Stored()), now), c, path, site) then Err(PreconditionFailed)
                 else Ok(TokensOf(c))
  {
    var refused := HttpIfMatch(c.http, false, meta);
    if refused.Some? {
      return Err(refused.value);
    }
    var ok, tokens := DavIfMatch(ls, c.header, path, site, now);
    r := if ok then Ok(tokens) else Err(PreconditionFailed);
  }

  /** The live locks let a request with these tokens write at `p`, and, if deep, below it. */
  ghost predicate Allowed(live: Locks, p: seq<Bytes>, tokens: seq<Token>, principal: Option<string>, deep: bool) {
    && PathAllows(Covering(live, p), tokens, principal, false, false)
    && (deep ==> AllHeld(AtOrBelow(live, p), tokens, principal, false))
  }

  /**
   The steps that every write handler takes before it changes anything: evaluate the conditions, then
   check the locks with the tokens submitted.
   */
  method GuardWrite(ls: MemLs, c: Conditions, meta: Option<Meta>, path: Bytes, deep: bool, site: Site, now: int)
    returns (r: Result<(), Refusal>)
    requires ls.Valid()
    modifies ls.tree
    ensures ls.Valid() && Live(ls.Stored(), now) == Live(old(ls.Stored()), now)
    ensures r == if HttpRefusal(c.http, false, meta).Some? then Err(HttpRefusal(c.http, false, meta).value)
                 else if !IfHolds(Live(old(ls.Stored()), now), c, path, site) then Err(PreconditionFailed)
                 else if !Allowed(Live(old(ls.Stored()), now), Segs(path), TokensOf(c), c.principal, deep) then
                   Err(Locked)
                 else Ok(())
  {
    ghost var live := Live(ls.Stored(), now);
    var tokens := IfMatchGetTokens(ls, c, meta, path, site, now);
    if tokens.Err? {
      return Err(tokens.error);
    }
    LiveTwice(ls.Stored(), now);
    var checked := ls.Check(path, c.principal, false, deep, tokens.value, now);
    assert ls.Stored() == live;
    r := if checked.Ok? then Ok(()) else Err(Locked);
  }

  /** The request names the lock's token in its If header and comes from the lock's principal. */
  ghost predicate Owns(c: Conditions, l: DavLock) {
    c.header.Some? && NamesToken(c.header.value, l.token) && l.principal == c.principal
  }

  lemma HeldIsOwned(c: Conditions, l: DavLock)
    ensures l.Held(TokensOf(c), c.principal, false) <==> Owns(c, l)
  {
    if c.header.Some? { SubmittedAreNamed(c.header.value, l.token); }
  }

  /** The write gate: where an exclusive lock covers the path, only its owner gets past. */
  lemma GateNamesExclusiveLock(s: Locks, c: Conditions, p: seq<Bytes>, deep: bool, l: DavLock)
    requires Allowed(s, p, TokensOf(c), c.principal, deep) && l in Covering(s, p) && !l.shared
    ensures Owns(c, l)
  {
    HeldIsOwned(c, l);
  }

  /** A request for a whole subtree gets past only if it owns every lock at or below the path, shared ones too. */
  lemma DeepGateNamesEveryLockBelow(s: Locks, c: Conditions, p: seq<Bytes>, l: DavLock)
    requires Allowed(s, p, TokensOf(c), c.principal, true) && l in AtOrBelow(s, p)
    ensures Owns(c, l)
  {
    HeldIsOwned(c, l);
  }

  /** In every run: what may be written is what no lock covers or some covering lock of the request's own does. */
  lemma AllowedIff(ops: seq<Op>, now: int, c: Conditions, p: seq<Bytes>, deep: bool)
    requires AdmissibleRun(ops)
    ensures var live := Live(Run(ops), now);
            Allowed(live, p, TokensOf(c), c.principal, deep) <==>
              && ((forall l :: l in live ==> !l.Covers(p)) || exists l :: l in live && l.Covers(p) && Owns(c, l))
              && (deep ==> forall l :: l in live && p <= l.Place() ==> Owns(c, l))
  {
    var live := Live(Run(ops), now);
    WriteGateInEveryRun(ops, now, p, TokensOf(c), c.principal, false);
    forall l: DavLock ensures l.Held(TokensOf(c), c.principal, false) <==> Owns(c, l) { HeldIsOwned(c, l); }
  }

  /** Without an If header, only what no lock covers may be written. */
  lemma NoHeaderNoLocks(ops: seq<Op>, now: int, p: seq<Bytes>, principal: Option<string>)
    requires AdmissibleRun(ops)
    ensures PathAllows(Covering(Live(Run(ops), now), p), [], principal, false, false) <==>
              Covering(Live(Run(ops), now), p) == {}
  {
    WriteGateInEveryRun(ops, now, p, [], principal, false);
  }

  /**
   On normal paths the byte-level covering test adds nothing to the lookup: a state token is true of
   a resource exactly if it names a lock covering the resource's segments.
   */
  lemma StateTokenMeansCoveringLock(live: Locks, t: Token, p: Bytes, site: Site)
    requires Normal(p) && forall l :: l in live ==> Normal(l.path)
    ensures ItemHolds(live, StateToken(t), Some(p), site)
            <==> !InDavNamespace(t) && exists l :: l in Covering(live, Segs(p)) && l.token == t
  {
    forall l | l in Covering(live, Segs(p)) ensures CoversBytes(l.deep, l.path, p) {
      CoveringTestIsSegmentCovering(l.deep, l.path, p);
    }
  }

  // ---------------------------------------------------------------------------------------------
  // What an If header means (sections 10.4.3 to 10.4.8 of RFC 4918)

  /** Of two headers that differ in the `Not` of their one condition exactly one holds, whatever the resource. */
  lemma NotNegates(live: Locks, tag: Option<Bytes>, item: IfItem, path: Bytes, site: Site)
    ensures HeaderHolds(live, [IfList(tag, [IfCondition(true, item)])], path, site)
            <==> !HeaderHolds(live, [IfList(tag, [IfCondition(false, item)])], path, site)
  {
    OneCondition(live, tag, IfCondition(true, item), path, site);
    OneCondition(live, tag, IfCondition(false, item), path, site);
  }

  lemma OneCondition(live: Locks, tag: Option<Bytes>, c: IfCondition, path: Bytes, site: Site)
    ensures HeaderHolds(live, [IfList(tag, [c])], path, site)
            <==> ConditionHolds(live, c, Subject(IfList(tag, [c]), path, site), site)
  {
    var list := IfList(tag, [c]);
    assert [list][0] == list && list.conditions[0] == c;
    if ConditionHolds(live, c, Subject(list, path, site), site) {
      assert ListHolds(live, [list][0], path, site);
    }
  }

  /** A header with a list of nothing but `Not <DAV:...>` holds whatever is locked. */
  lemma NoLockListHolds(live: Locks, lists: seq<IfList>, n: nat, path: Bytes, site: Site)
    requires n < |lists| && lists[n].conditions != []
    requires forall c :: c in lists[n].conditions ==>
               c.negated && c.item.StateToken? && [68, 65, 86, 58] <= c.item.token
    ensures HeaderHolds(live, lists, path, site)
  {
    var list := lists[n];
    forall k | 0 <= k < |list.conditions|
      ensures ConditionHolds(live, list.conditions[k], Subject(list, path, site), site)
    {
      assert list.conditions[k] in list.conditions;
    }
    assert ListHolds(live, lists[n], path, site);
  }

  /** `(<t>)` holds exactly if `t` names a live lock on the resource, or a deep one above it; `(Not <t>)` if not. */
  lemma TokenHoldsIff(live: Locks, negated: bool, t: Token, p: Bytes, site: Site)
    requires Normal(p) && forall l :: l in live ==> Normal(l.path)
    ensures HeaderHolds(live, [IfList(None, [IfCondition(negated, StateToken(t))])], p, site)
            <==> negated != (&& !([68, 65, 86, 58] <= t)
                             && exists l :: l in live && l.token == t && l.Covers(Segs(p)))
  {
    OneCondition(live, None, IfCondition(negated, StateToken(t)), p, site);
    StateTokenMeansCoveringLock(live, t, p, site);
  }

  /** `(["tag"])` holds exactly if the resource exists with this entity tag, and neither is weak. */
  lemma EntityTagHoldsIff(live: Locks, negated: bool, tag: ETag, p: Bytes, site: Site)
    ensures HeaderHolds(live, [IfList(None, [IfCondition(negated, EntityTag(tag))])], p, site)
            <==> negated != (site.etagOf(p) == Some(ETag(tag.tag, false)) && !tag.weak)
  {
    OneCondition(live, None, IfCondition(negated, EntityTag(tag)), p, site);
  }

  /** The conditions of a list are a conjunction, and the lists of a header a disjunction. */
  lemma ListsAndConditions(live: Locks, tag: Option<Bytes>, a: seq<IfCondition>, b: seq<IfCondition>, x: seq<IfList>,
                           y: seq<IfList>, path: Bytes, site: Site)
    ensures a != [] && b != [] ==>
              (HeaderHolds(live, [IfList(tag, a + b)], path, site) <==>
                 HeaderHolds(live, [IfList(tag, a)], path, site) && HeaderHolds(live, [IfList(tag, b)], path, site))
    ensures HeaderHolds(live, x + y, path, site) <==>
              HeaderHolds(live, x, path, site) || HeaderHolds(live, y, path, site)
    ensures !HeaderHolds(live, [], path, site)
  {
    if a != [] && b != [] { ConditionsJoin(live, tag, a, b, path, site); }
    ListsJoin(live, x, y, path, site);
  }

  lemma ConditionsJoin(live: Locks, tag: Option<Bytes>, a: seq<IfCondition>, b: seq<IfCondition>, path: Bytes,
                       site: Site)
    requires a != [] && b != []
    ensures HeaderHolds(live, [IfList(tag, a + b)], path, site) <==>
              HeaderHolds(live, [IfList(tag, a)], path, site) && HeaderHolds(live, [IfList(tag, b)], path, site)
  {
    SingleList(live, IfList(tag, a + b), path, site);
    SingleList(live, IfList(tag, a), path, site);
    SingleList(live, IfList(tag, b), path, site);
    var subject := Subject(IfList(tag, a), path, site);
    forall n | 0 <= n < |a| ensures (a + b)[n] == a[n] {}
    forall n | 0 <= n < |b| ensures (a + b)[|a| + n] == b[n] {}
    if ListHolds(live, IfList(tag, a + b), path, site) {
      forall n | 0 <= n < |a| ensures ConditionHolds(live, a[n], subject, site) {
        assert ConditionHolds(live, (a + b)[n], subject, site);
      }
      forall n | 0 <= n < |b| ensures ConditionHolds(live, b[n], subject, site) {
        assert ConditionHolds(live, (a + b)[|a| + n], subject, site);
      }
    }
  }

  lemma SingleList(live: Locks, list: IfList, path: Bytes, site: Site)
    ensures HeaderHolds(live, [list], path, site) <==> ListHolds(live, list, path, site)
  {
    if ListHolds(live, list, path, site) { assert ListHolds(live, [list][0], path, site); }
  }

  lemma ListsJoin(live: Locks, x: seq<IfList>, y: seq<IfList>, path: Bytes, site: Site)
    ensures HeaderHolds(live, x + y, path, site) <==>
              HeaderHolds(live, x, path, site) || HeaderHolds(live, y, path, site)
  {
    if n :| 0 <= n < |x| && ListHolds(live, x[n], path, site) { assert ListHolds(live, (x + y)[n], path, site); }
    if n :| 0 <= n < |y| && ListHolds(live, y[n], path, site) {
      assert (x + y)[|x| + n] == y[n];
      assert ListHolds(live, (x + y)[|x| + n], path, site);
    }
    if n :| 0 <= n < |x + y| && ListHolds(live, (x + y)[n], path, site) {
      if n < |x| {
        assert ListHolds(live, x[n], path, site);
      } else {
        assert ListHolds(live, y[n - |x|], path, site);
      }
    }
  }

  /** A list with a resource tag is about that resource; where the tag leads nowhere only `Not` holds. */
  lemma TaggedIsElsewhere(live: Locks, tag: Bytes, cs: seq<IfCondition>, c: IfCondition, path: Bytes, site: Site)
    ensures site.locate(tag).Some? ==>
              (HeaderHolds(live, [IfList(Some(tag), cs)], path, site)
               <==> HeaderHolds(live, [IfList(None, cs)], site.locate(tag).value, site))
    ensures site.locate(tag).None? ==> (HeaderHolds(live, [IfList(Some(tag), [c])], path, site) <==> c.negated)
  {
    SingleList(live, IfList(Some(tag), cs), path, site);
    if site.locate(tag).Some? {
      SingleList(live, IfList(None, cs), site.locate(tag).value, site);
    }
    OneCondition(live, Some(tag), c, path, site);
  }
}
