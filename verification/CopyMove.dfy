/**
 The COPY and MOVE handler (src/handle_copymove.rs, `handle_copymove`): its guards, the deletion of what
 is overwritten, and the copy or the rename itself, over the in-memory filesystem. Failing steps are
 possible in the deletion.
 */
module CopyMoves {
  import opened Results
  import opened DavPaths
  import opened Trees
  import opened PathValues
  import opened FsModel
  import opened FileContents
  import opened MemFiles
  import opened Deletion
  import opened Copying

  const MAX_RESOURCE_SIZE: nat := 1024 * 1024

  const BAD_REQUEST: nat := 400
  const FORBIDDEN: nat := 403
  const NOT_FOUND: nat := 404
  const CONFLICT: nat := 409
  const PRECONDITION_FAILED: nat := 412
  const LOCKED: nat := 423

  /** The parts of a request that the handler decides on, and the verdicts of the checks it asks others for. */
  datatype Request = Request(
    copy: bool, overwrite: bool, depthZero: bool,
    conditionsFail: Option<nat>,                      // status of a failed If or If-* header
    locked: bool,                                     // a lock check fails
    validFor: (CollectionKind, Bytes) -> bool)        // calendar or vCard syntax

  /** The object may go into a collection of this kind. */
  ghost predicate FitsInto(n: FsNode, kind: CollectionKind, validFor: (CollectionKind, Bytes) -> bool) {
    kind == Plain || (n.File? && |n.data| <= MAX_RESOURCE_SIZE && validFor(kind, n.data))
  }

  /** Why the request is refused before anything is changed, in the order of the checks. */
  ghost function Refusal(m: FsMap, hides: Bytes -> bool, req: Request, s: Path, d: Path): Option<nat> {
    if !req.copy && req.depthZero then Some(BAD_REQUEST)
    else if !Shown(hides, s) || !Shown(hides, d) then Some(NOT_FOUND)
    else if s !in m then Some(if Resolve(m, s) == Err(NotFound) then NOT_FOUND else FORBIDDEN)
    else GuardsOnDest(m, req, s, d)
  }

  /** What is there is replaced, rather than kept and given new properties. */
  ghost predicate Replaces(m: FsMap, req: Request, d: Path) {
    d in m && (!req.depthZero || m[d].File?)
  }

  /** The copy or the rename itself, once what was to be replaced is gone. */
  ghost predicate Transferred(m: FsMap, hides: Bytes -> bool, req: Request, s: Path, d: Path, m': FsMap,
                              reports: seq<Path>) {
    if req.copy then
      if d !in m then reports == [] && Copied(m, s, d, hides, !req.depthZero, m')
      else if s in m && m[s].Dir? then reports == [] && m' == PropertiesCopied(m, s, d).1
      else reports == [s] && m' == m
    else
      reports == [] && WellFormed(m) && RenameRefusal(m, s, d) == None && s != d && m' == Rename(m, s, d).1
  }

  /** The effect of a request that is not refused, and the paths reported as failed, if any. */
  ghost predicate Effect(m: FsMap, hides: Bytes -> bool, f: Faults, req: Request, s: Path, d: Path, m': FsMap,
                         ok: bool, reports: seq<Path>) {
    && (ok <==> reports == [])
    && if Replaces(m, req, d) && Survives(m, f, d, d) then !ok && Outcome(m, f, d, m', ok, reports)
       else Transferred(if Replaces(m, req, d) then WithoutTree(m, d) else m, hides, req, s, d, m', reports)
  }

  /** `read_file_to_end`: read until nothing comes or `len` bytes are there. */
  method ReadFileToEnd(file: MemFsFile, len: nat) returns (r: FsResult<Bytes>)
    requires file.tree.Valid() && file.OnFile() && file.pos == 0 && len <= USIZE_MAX
    modifies file`pos
    ensures r == Ok(ReadAt(file.tree.entries[file.nodeId].data.data, 0, len))
  {
    ghost var content := file.tree.entries[file.nodeId].data.data;
    var data := [];
    while |data| < len
      invariant file.pos == |data| <= |content| && |data| <= len
      invariant data == content[..|data|]
      decreases |content| - |data|
    {
      var chunk := file.ReadBytes(len - |data|);
      if chunk.Err? {
        return chunk;
      }
      if chunk.value == [] {
        break;
      }
      data := data + chunk.value;
    }
    r := Ok(data);
  }

  /** `validate_copy_destination` */
  method ValidateDestination(fs: MemFs, source: DavPath, parent: DavPath, validFor: (CollectionKind, Bytes) -> bool)
    returns (ok: bool)
    requires fs.Valid() && source.Valid() && parent.Valid()
    requires source.Places() in fs.View() && parent.Places() in fs.View()
    modifies fs.tree
    ensures fs.Valid() && fs.View() == old(fs.View())
    ensures ok == FitsInto(fs.View()[source.Places()], KindOf(fs.View()[parent.Places()]), validFor)
  {
    ghost var m := fs.View();
    ResolvesIffStored(m, source.Places());
    ResolvesIffStored(m, parent.Places());
    var parentMeta := fs.Metadata(parent.AsBytes());
    var kind := CollectionKindAt(fs, parent, parentMeta.value);
    if kind == Plain {
      return true;
    }
    var meta := fs.Metadata(source.AsBytes());
    if meta.value.isDir || meta.value.size > MAX_RESOURCE_SIZE {
      return false;
    }
    var data := ReadAtMost(fs, source, MAX_RESOURCE_SIZE + 1);
    ReadWhole(m[source.Places()].data, MAX_RESOURCE_SIZE + 1);
    ok := |data| <= MAX_RESOURCE_SIZE && validFor(kind, data);
  }

  /** Open an object and read it, but no more than `max` bytes of it. */
  method ReadAtMost(fs: MemFs, path: DavPath, max: nat) returns (data: Bytes)
    requires fs.Valid() && path.Valid() && path.Places() in fs.View() && fs.View()[path.Places()].File?
    requires max <= USIZE_MAX
    modifies fs.tree
    ensures fs.Valid() && fs.View() == old(fs.View())
    ensures data == ReadAt(fs.View()[path.Places()].data, 0, max)
  {
    ResolvesIffStored(fs.View(), path.Places());
    var file := fs.DoOpen(path.AsBytes(), OpenOptions(false, false, false, false));
    TreeViews.LabelledPathsUnique(fs.tree.nodes, fs.tree.entries);
    NodeShown(fs.tree.entries, file.value.nodeId);
    var content := ReadFileToEnd(file.value, max);
    data := content.value;
  }

  /** The checks that come after those on the paths. */
  ghost function GuardsLeft(m: FsMap, req: Request, s: Path, d: Path): Option<nat>
    requires s in m && Init(d) in m
  {
    if req.conditionsFail.Some? then req.conditionsFail
    else if req.locked then Some(LOCKED)
    else if req.copy && req.depthZero && m[s].Dir? && d in m && m[d].Dir? && KindOf(m[s]) != KindOf(m[d]) then
      Some(FORBIDDEN)
    else if !FitsInto(m[s], KindOf(m[Init(d)]), req.validFor) then Some(FORBIDDEN)
    else None
  }

  /** The checks that come after those on the source. */
  ghost function GuardsOnDest(m: FsMap, req: Request, s: Path, d: Path): Option<nat>
    requires s in m
  {
    if Init(d) !in m || !m[Init(d)].Dir? then Some(CONFLICT)
    else if !req.overwrite && d in m then Some(PRECONDITION_FAILED)
    else if !Apart(s, d) then Some(FORBIDDEN)
    else GuardsLeft(m, req, s, d)
  }

  lemma NestedIffNotApart(path: DavPath, dest: DavPath)
    requires path.Valid() && dest.Valid() && dest.Prefix() == path.Prefix() && IsPrefix(path.Prefix())
    ensures path.Equals(dest) || dest.IsInCollection(path) || path.IsInCollection(dest) <==>
              !Apart(path.Places(), dest.Places())
  {
    EqualsIffSamePlaces(path, dest);
    InCollectionIsProperPrefix(path, dest);
    InCollectionIsProperPrefix(dest, path);
    var s, d := path.Places(), dest.Places();
    assert s <= d && !(s < d) ==> s == d;
    assert d <= s && !(d < s) ==> s == d;
  }

  /** The checks on the request and on the source. */
  method CheckSource(fs: MemFs, hides: Bytes -> bool, req: Request, source: DavPath, dest: DavPath)
    returns (r: Result<DirEntry, nat>)
    requires fs.Valid() && source.Valid() && dest.Valid()
    ensures var m, s, d := fs.View(), source.Places(), dest.Places();
            && (r.Err? ==> Refusal(m, hides, req, s, d) == Some(r.error))
            && (r.Ok? ==> s in m && r.value == Dirent(m[s], r.value.name)
                          && Refusal(m, hides, req, s, d) == GuardsOnDest(m, req, s, d))
  {
    if !req.copy && req.depthZero {
      return Err(BAD_REQUEST);
    }
    if !Shown(hides, Segs(source.AsBytes())) || !Shown(hides, Segs(dest.AsBytes())) {
      return Err(NOT_FOUND);
    }
    ResolvesIffStored(fs.View(), source.Places());
    var meta := fs.Metadata(source.AsBytes());
    if meta.Err? {
      return Err(if meta.error == NotFound then NOT_FOUND else FORBIDDEN);
    }
    r := Ok(meta.value);
  }

  /** The checks on where the destination lies. */
  method CheckDest(fs: MemFs, req: Request, path: DavPath, dest: DavPath) returns (r: Result<FsResult<DirEntry>, nat>)
    requires fs.Valid() && path.Valid() && dest.Valid() && dest.Prefix() == path.Prefix() && IsPrefix(path.Prefix())
    requires path.Places() in fs.View()
    ensures var m, s, d := fs.View(), path.Places(), dest.Places();
            && (r.Err? ==> GuardsOnDest(m, req, s, d) == Some(r.error))
            && (r.Ok? ==>
                  && Apart(s, d) && Init(d) in m && m[Init(d)].Dir? && (d in m ==> req.overwrite)
                  && (r.value.Ok? <==> d in m) && (r.value.Ok? ==> r.value.value == Dirent(m[d], r.value.value.name))
                  && GuardsOnDest(m, req, s, d) == GuardsLeft(m, req, s, d))
  {
    ghost var m, d := fs.View(), dest.Places();
    ParentDropsOneSegment(dest);
    ResolvesIffStored(m, Init(d));
    var parentMeta := fs.Metadata(dest.Parent().AsBytes());
    if parentMeta.Err? || !parentMeta.value.isDir {
      return Err(CONFLICT);
    }
    ResolvesIffStored(m, d);
    var destMeta := fs.Metadata(dest.AsBytes());
    if !req.overwrite && destMeta.Ok? {
      return Err(PRECONDITION_FAILED);
    }
    NestedIffNotApart(path, dest);
    if path.Equals(dest) || dest.IsInCollection(path) || path.IsInCollection(dest) {
      return Err(FORBIDDEN);
    }
    r := Ok(destMeta);
  }

  /** After the destination has been cleared, if it had to be, the way is free for the copy or the rename. */
  lemma WayIsFree(m: FsMap, req: Request, s: Path, d: Path)
    requires WellFormed(m) && AllReachable(m) && AllKeyed(m) && s in m && Apart(s, d) && Init(d) in m && m[Init(d)].Dir?
    ensures var free := if Replaces(m, req, d) then WithoutTree(m, d) else m;
            && WellFormed(free) && AllReachable(free) && AllKeyed(free) && s in free && free[s] == m[s] && d != []
            && (d !in free ==> Ready(free, s, d) && RenameRefusal(free, s, d) == None && s != d)
            && (d in free ==> free == m && req.depthZero && m[d].Dir?)
  {
    RemovalKeepsKeyed(m, d);
    var free := if Replaces(m, req, d) then WithoutTree(m, d) else m;
    WithoutTreeKeepsWellFormed(m, d);
    assert HasParentDir(free, d);
    if d !in free {
      ResolvesIffStored(free, s);
      ResolvesIffStored(free, Init(s));
      assert HasParentDir(free, s);
      ResolvesIffStored(free, Init(d));
      assert s <= Init(d) ==> s <= d;
    }
  }

  lemma WithoutTreeKeepsWellFormed(m: FsMap, d: Path)
    requires WellFormed(m) && d != []
    ensures WellFormed(WithoutTree(m, d))
  {
    var free := WithoutTree(m, d);
    forall q | q in free && q != [] ensures HasParentDir(free, q) {
      assert HasParentDir(m, q);
      assert d <= Init(q) ==> d <= q;
    }
  }

  /** Delete the destination if it is to be replaced, and then copy or rename. */
  method Perform(fs: MemFs, hides: Bytes -> bool, f: Faults, req: Request, path: DavPath, dest: DavPath,
                 destMeta: FsResult<DirEntry>)
    returns (ok: bool, reports: seq<Path>)
    requires GoodFs(fs) && path.Valid() && dest.Valid() && dest.Prefix() == path.Prefix() && IsPrefix(path.Prefix())
    requires path.Places() in fs.View() && Apart(path.Places(), dest.Places())
    requires Init(dest.Places()) in fs.View() && fs.View()[Init(dest.Places())].Dir?
    requires dest.Places() in fs.View() ==> req.overwrite
    requires destMeta.Ok? <==> dest.Places() in fs.View()
    requires destMeta.Ok? ==> destMeta.value == Dirent(fs.View()[dest.Places()], destMeta.value.name)
    requires !req.copy ==> !req.depthZero
    modifies fs.tree
    ensures GoodFs(fs)
    ensures Effect(old(fs.View()), hides, f, req, path.Places(), dest.Places(), fs.View(), ok, reports)
  {
    ghost var m, s, d := fs.View(), path.Places(), dest.Places();
    WayIsFree(m, req, s, d);
    if req.overwrite && destMeta.Ok? && (!req.depthZero || !destMeta.value.isDir) {
      ok, reports := Clear(fs, f, dest, destMeta.value.isDir);
      if !ok {
        return;
      }
    }
    ok, reports := Transfer(fs, hides, req, path, dest);
  }

  /** Delete what is at the destination. */
  method Clear(fs: MemFs, f: Faults, dest: DavPath, isDir: bool) returns (ok: bool, reports: seq<Path>)
    requires GoodFs(fs) && dest.Valid() && IsPrefix(dest.Prefix())
    requires dest.Places() in fs.View() && isDir == fs.View()[dest.Places()].Dir?
    modifies fs.tree
    ensures GoodFs(fs)
    ensures ok == !Survives(old(fs.View()), f, dest.Places(), dest.Places())
    ensures ok ==> fs.View() == WithoutTree(old(fs.View()), dest.Places())
    ensures !ok ==> reports != [] && Outcome(old(fs.View()), f, dest.Places(), fs.View(), ok, reports)
  {
    ghost var m, d := fs.View(), dest.Places();
    ok, reports := DeleteItems(fs, f, false, isDir, dest);
    SuccessMeansGone(m, f, d, fs.View(), ok, reports, d);
    DeletedKeepsKeyed(m, f, d, fs.View());
    if !ok {
      SurvivorsExplained(m, f, d, fs.View(), ok, reports, d);
    }
  }

  /** Copy or rename to a place that is free, or copy a collection's properties onto one that is not. */
  method Transfer(fs: MemFs, hides: Bytes -> bool, req: Request, path: DavPath, dest: DavPath)
    returns (ok: bool, reports: seq<Path>)
    requires GoodFs(fs) && path.Valid() && dest.Valid() && dest.Prefix() == path.Prefix() && IsPrefix(path.Prefix())
    requires path.Places() in fs.View() && Apart(path.Places(), dest.Places())
    requires dest.Places() !in fs.View() ==>
               && Ready(fs.View(), path.Places(), dest.Places())
               && RenameRefusal(fs.View(), path.Places(), dest.Places()) == None
    requires dest.Places() in fs.View() ==> req.copy && req.depthZero && fs.View()[dest.Places()].Dir?
    modifies fs.tree
    ensures GoodFs(fs)
    ensures Transferred(old(fs.View()), hides, req, path.Places(), dest.Places(), fs.View(), reports)
    ensures ok <==> reports == []
  {
    ghost var m, s, d := fs.View(), path.Places(), dest.Places();
    if req.copy {
      var r;
      r, reports := DoCopy(fs, hides, path, dest, dest, req.depthZero);
      ok := r.Ok?;
    } else {
      RenameKeepsKeyed(m, s, d);
      SegsAreSegments(dest.AsBytes());
      RenameKeepsReachable(m, s, d);
      var place := Segs(path.AsBytes());
      var r := fs.Rename(path.AsBytes(), dest.AsBytes());
      ok, reports := r.Ok?, if r.Ok? then [] else [place];
    }
  }

  lemma DeletedKeepsKeyed(m: FsMap, f: Faults, top: Path, m': FsMap)
    requires Deletion.Deleted(m, f, top, m') && AllKeyed(m)
    ensures AllKeyed(m')
  {
    forall q | q in m' ensures Keyed(m'[q].props) {
      assert DeletedAt(m, f, top, m', q);
    }
  }

  /**
   COPY and MOVE: either refused without touching anything, or carried out as `Effect` says. In
   particular the source is never inside, above or equal to what is deleted first.
   */
  method HandleCopyMove(fs: MemFs, hides: Bytes -> bool, f: Faults, req: Request, source: DavPath, dest: DavPath)
    returns (r: Result<(bool, seq<Path>), nat>)
    requires GoodFs(fs) && source.Valid() && dest.Valid() && dest.Prefix() == source.Prefix()
    requires IsPrefix(source.Prefix())
    modifies fs.tree
    ensures GoodFs(fs)
    ensures r.Err? <==> Refusal(old(fs.View()), hides, req, source.Places(), dest.Places()).Some?
    ensures r.Err? ==> Refusal(old(fs.View()), hides, req, source.Places(), dest.Places()) == Some(r.error)
                       && fs.View() == old(fs.View())
    ensures r.Ok? ==>
              Effect(old(fs.View()), hides, f, req, source.Places(), dest.Places(), fs.View(), r.value.0, r.value.1)
  {
    var meta := CheckSource(fs, hides, req, source, dest);
    if meta.Err? {
      return Err(meta.error);
    }
    AddSlashKeepsPlaces(source);
    var path := if meta.value.isDir then source.AddSlash() else source;
    var destMeta := CheckDest(fs, req, path, dest);
    if destMeta.Err? {
      return Err(destMeta.error);
    }
    var verdict := CheckRest(fs, req, path, dest, meta.value, destMeta.value);
    if verdict.Some? {
      return Err(verdict.value);
    }
    var ok, reports := Perform(fs, hides, f, req, path, dest, destMeta.value);
    r := Ok((ok, reports));
  }

  /** Conditions, locks, and what the collections involved are for. */
  method CheckRest(fs: MemFs, req: Request, path: DavPath, dest: DavPath, meta: DirEntry, destMeta: FsResult<DirEntry>)
    returns (r: Option<nat>)
    requires GoodFs(fs) && path.Valid() && dest.Valid() && IsPrefix(dest.Prefix())
    requires path.Places() in fs.View() && meta == Dirent(fs.View()[path.Places()], meta.name)
    requires Init(dest.Places()) in fs.View() && fs.View()[Init(dest.Places())].Dir?
    requires destMeta.Ok? <==> dest.Places() in fs.View()
    requires destMeta.Ok? ==> destMeta.value == Dirent(fs.View()[dest.Places()], destMeta.value.name)
    modifies fs.tree
    ensures GoodFs(fs) && fs.View() == old(fs.View())
    ensures r == GuardsLeft(fs.View(), req, path.Places(), dest.Places())
  {
    if req.conditionsFail.Some? {
      return req.conditionsFail;
    }
    if req.locked {
      return Some(LOCKED);
    }
    if req.copy && req.depthZero && meta.isDir && destMeta.Ok? && destMeta.value.isDir {
      var kind := CollectionKindAt(fs, path, meta);
      var destKind := CollectionKindAt(fs, dest, destMeta.value);
      if kind != destKind {
        return Some(FORBIDDEN);
      }
    }
    ParentDropsOneSegment(dest);
    var valid := ValidateDestination(fs, path, dest.Parent(), req.validFor);
    r := if valid then None else Some(FORBIDDEN);
  }

  /** Whatever happens, nothing changes but what lies at or below the destination and, for a move, the source. */
  lemma OthersAreSpared(m: FsMap, hides: Bytes -> bool, f: Faults, req: Request, s: Path, d: Path, m': FsMap, ok: bool,
                        reports: seq<Path>, q: Path)
    requires WellFormed(m) && Refusal(m, hides, req, s, d) == None && Effect(m, hides, f, req, s, d, m', ok, reports)
    requires !(d <= q) && (s <= q ==> req.copy || !ok)
    ensures SameAt(m, m', q)
  {
    if Replaces(m, req, d) && Survives(m, f, d, d) {
      assert DeletedAt(m, f, d, m', q);
    } else {
      var free := if Replaces(m, req, d) then WithoutTree(m, d) else m;
      assert SameAt(m, free, q);
      if req.copy {
        if d !in free {
          assert CopiedAt(free, s, d, hides, !req.depthZero, m', q);
        }
      } else {
        RenamedElsewhere(free, s, d, q);
      }
    }
  }

  /**
   A successful COPY of a whole collection to a free or replaced place: same names, bytes, properties and
   kinds, as far as visible.
   */
  lemma CopyIsComplete(m: FsMap, hides: Bytes -> bool, f: Faults, req: Request, s: Path, d: Path, m': FsMap, ok: bool,
                       reports: seq<Path>, t: Path)
    requires WellFormed(m) && Refusal(m, hides, req, s, d) == None && Effect(m, hides, f, req, s, d, m', ok, reports)
    requires req.copy && !req.depthZero && ok
    ensures d + t in m' <==> s + t in m && Shown(hides, s + t)
    ensures d + t in m' ==>
              && m'[d + t].Dir? == m[s + t].Dir? && m'[d + t].props == m[s + t].props
              && KindOf(m'[d + t]) == KindOf(m[s + t])
              && (m[s + t].File? ==> m'[d + t] == m[s + t])
    ensures SameAt(m, m', s + t)
  {
    var free := if Replaces(m, req, d) then WithoutTree(m, d) else m;
    ApartBelow(s, d, t);
    assert d !in free;
    assert CopiedAt(free, s, d, hides, true, m', d + t) && CopiedAt(free, s, d, hides, true, m', s + t);
    assert (d + t)[|d|..] == t;
    assert t == [] ==> s + t == s;
    if s + t in m { CopiedNodeIsSame(m[s + t]); }
  }

  /**
   A request that is not refused, and whose destination could be cleared if it had to be, succeeds unless
   it copies a file with Depth 0 onto a collection: that is not replaced, whatever Overwrite says.
   */
  lemma SucceedsIff(m: FsMap, hides: Bytes -> bool, f: Faults, req: Request, s: Path, d: Path, m': FsMap, ok: bool,
                    reports: seq<Path>)
    requires Refusal(m, hides, req, s, d) == None && Effect(m, hides, f, req, s, d, m', ok, reports)
    requires Replaces(m, req, d) ==> !Survives(m, f, d, d)
    ensures ok <==> !(req.copy && req.depthZero && m[s].File? && d in m && m[d].Dir?)
    ensures !ok ==> m' == m && reports == [s]
  {}

  /** Exactly the requests that are carried out: what each of the checks lets through. */
  lemma CarriedOutIff(m: FsMap, hides: Bytes -> bool, req: Request, s: Path, d: Path)
    ensures Refusal(m, hides, req, s, d) == None <==>
              && (req.copy || !req.depthZero)
              && (forall n :: 0 <= n < |s| ==> !hides(s[n])) && (forall n :: 0 <= n < |d| ==> !hides(d[n]))
              && s in m && Init(d) in m && m[Init(d)].Dir? && (req.overwrite || d !in m)
              && !(s <= d) && !(d <= s) && req.conditionsFail == None && !req.locked
              && (req.depthZero && m[s].Dir? && d in m && m[d].Dir? ==> KindOf(m[s]) == KindOf(m[d]))
              && (KindOf(m[Init(d)]) != Plain ==>
                    m[s].File? && |m[s].data| <= 1_048_576 && req.validFor(KindOf(m[Init(d)]), m[s].data))
  {}

  /**
   What a calendar or address book admits: after a successful COPY or MOVE into one there is a file at the
   destination, of at most 1 MiB, that is valid for this kind of collection.
   */
  lemma AdmittedIsValid(m: FsMap, hides: Bytes -> bool, f: Faults, req: Request, s: Path, d: Path, m': FsMap, ok: bool,
                        reports: seq<Path>)
    requires WellFormed(m) && Refusal(m, hides, req, s, d) == None && Effect(m, hides, f, req, s, d, m', ok, reports)
    requires ok && KindOf(m[Init(d)]) != Plain
    ensures d in m' && m'[d].File? && |m'[d].data| <= 1_048_576 && req.validFor(KindOf(m[Init(d)]), m'[d].data)
    ensures m'[d] == m[s] && SameAt(m, m', Init(d))
  {
    assert d != [] by { assert Apart(s, d); }
    assert !(d <= Init(d)) && (s <= Init(d) ==> s <= d);
    OthersAreSpared(m, hides, f, req, s, d, m', ok, reports, Init(d));
    var free := if Replaces(m, req, d) then WithoutTree(m, d) else m;
    if req.copy {
      if d !in free {
        assert CopiedAt(free, s, d, hides, !req.depthZero, m', d);
        assert d[|d|..] == [] && s + [] == s;
      }
    } else {
      RenamedBelow(free, s, d, []);
      assert s + [] == s && d + [] == d;
    }
  }

  /** A COPY with Depth 0 onto a collection leaves it the kind it has, and takes over the properties. */
  lemma DepthZeroKeepsKind(m: FsMap, hides: Bytes -> bool, f: Faults, req: Request, s: Path, d: Path, m': FsMap,
                           ok: bool, reports: seq<Path>)
    requires Refusal(m, hides, req, s, d) == None && Effect(m, hides, f, req, s, d, m', ok, reports)
    requires req.copy && req.depthZero && d in m && m[d].Dir?
    ensures d in m' && m'[d].Dir? && KindOf(m'[d]) == KindOf(m[d])
    ensures ok <==> m[s].Dir?
    ensures ok ==> m'[d].props == m[s].props && KindOf(m[s]) == KindOf(m[d])
  {
    if m[s].Dir? {
      SameKindStays(m, s, d);
      KindCopiedIff(m, s, d);
    }
  }

  /** A successful MOVE: everything at or below the source is at the destination as it was, and gone from the source. */
  lemma MoveIsComplete(m: FsMap, hides: Bytes -> bool, f: Faults, req: Request, s: Path, d: Path, m': FsMap, ok: bool,
                       reports: seq<Path>, t: Path)
    requires WellFormed(m) && Refusal(m, hides, req, s, d) == None && Effect(m, hides, f, req, s, d, m', ok, reports)
    requires !req.copy && ok
    ensures d + t in m' <==> s + t in m
    ensures d + t in m' ==> m'[d + t] == m[s + t]
    ensures s + t !in m'
  {
    var free := if Replaces(m, req, d) then WithoutTree(m, d) else m;
    ApartBelow(s, d, t);
    RenamedBelow(free, s, d, t);
    RenamedAt(free, s, d, s + t);
    assert SameAt(m, free, s + t);
  }
}
