/**
 Open files over whole runs (src/memfs.rs): operations on paths interleaved with reads, writes and seeks
 through any number of handles. In the machine below a handle knows its file by the place it has by now;
 the real handle, which knows only the id of its node, is proved to do the same in every run.
 */
module FileHandles {
  import opened Results
  import opened DavPaths
  import opened Trees
  import opened TreeViews
  import opened FsModel
  import opened FileContents
  import opened MemFiles

  type Count = n: nat | n <= USIZE_MAX
  type Chunks = c: seq<Bytes> | |Concat(c)| <= USIZE_MAX witness []

  /** One call on the filesystem, or on the handle with number `h`. */
  datatype FsOp =
    | OpenFile(path: Bytes, options: OpenOptions)
    | MakeDir(path: Bytes)
    | RemoveNode(path: Bytes)
    | Move(from: Bytes, to: Bytes)
    | CopyNode(from: Bytes, to: Bytes)
    | Patch(path: Bytes, patch: seq<(bool, DavProp)>)
    | MarkDir(path: Bytes, calendar: bool)
    | Read(h: nat, count: Count)
    | Write(h: nat, buf: FileData, allocOk: bool)
    | WriteChunks(h: nat, chunks: Chunks, allocOk: bool)
    | SeekTo(h: nat, target: SeekFrom)

  datatype Reply = Done(result: FsResult<()>) | Got(bytes: FsResult<Bytes>) | At(position: FsResult<nat>)

  /** An open file: where its file stands now, if it still exists, and the position in it. */
  datatype Handle = Handle(place: Option<Path>, pos: nat, append: bool)

  datatype State = State(files: FsMap, handles: seq<Handle>)

  // ---------------------------------------------------------------------------------------------
  // One step

  ghost predicate OnFile(m: FsMap, h: Handle) {
    h.pos <= USIZE_MAX && (h.place.Some? ==> h.place.value in m && m[h.place.value].File?)
  }

  ghost predicate Sound(s: State) {
    && WellFormed(s.files)
    && forall h :: 0 <= h < |s.handles| ==> OnFile(s.files, s.handles[h])
  }

  /** The call names an open handle, and does not rename a file to itself, which breaks the tree. */
  ghost predicate CanDo(s: State, op: FsOp) {
    && (op.Read? || op.Write? || op.WriteChunks? || op.SeekTo? ==> op.h < |s.handles|)
    && (op.Move? && RenameRefusal(s.files, Segs(op.from), Segs(op.to)) == None ==> Segs(op.from) != Segs(op.to))
  }

  /** A handle on the file at `p` after this file was removed. */
  ghost function Left(h: Handle, p: Path): Handle {
    if h.place == Some(p) then h.(place := None) else h
  }

  /** A handle after a rename: a replaced file is gone, and what lay at or below `from` now lies below `to`. */
  ghost function Followed(h: Handle, from: Path, to: Path): Handle {
    if h.place.None? || h.place == Some(to) then h.(place := None)
    else h.(place := Some(Rebased(h.place.value, from, to)))
  }

  ghost function AllLeft(hs: seq<Handle>, p: Path): seq<Handle> {
    seq(|hs|, k requires 0 <= k < |hs| => Left(hs[k], p))
  }

  ghost function AllFollowed(hs: seq<Handle>, from: Path, to: Path): seq<Handle> {
    seq(|hs|, k requires 0 <= k < |hs| => Followed(hs[k], from, to))
  }

  ghost function PatchedFiles(m: FsMap, p: Path, patch: seq<(bool, DavProp)>): FsMap {
    if p in m then m[p := WithProps(m[p], Patched(m[p].props, patch))] else m
  }

  ghost function OpenStep(s: State, p: Path, oo: OpenOptions): (State, Reply) {
    var (r, m) := Open(s.files, p, oo);
    (State(m, if r.Ok? then s.handles + [Handle(Some(p), 0, oo.append)] else s.handles), Done(r))
  }

  ghost function RemoveStep(s: State, p: Path): (State, Reply) {
    var (r, m) := Remove(s.files, p);
    (State(m, if r.Ok? then AllLeft(s.handles, p) else s.handles), Done(r))
  }

  ghost function MoveStep(s: State, from: Path, to: Path): (State, Reply)
    requires Sound(s) && (RenameRefusal(s.files, from, to) == None ==> from != to)
  {
    var (r, m) := Rename(s.files, from, to);
    (State(m, if r.Ok? then AllFollowed(s.handles, from, to) else s.handles), Done(r))
  }

  ghost function ReadStep(s: State, h: nat, count: nat): (State, Reply)
    requires Sound(s) && h < |s.handles|
  {
    var hd := s.handles[h];
    if hd.place.None? then (s, Got(Err(NotFound)))
    else
      var bytes := ReadAt(s.files[hd.place.value].data, hd.pos, count);
      (s.(handles := s.handles[h := hd.(pos := hd.pos + |bytes|)]), Got(Ok(bytes)))
  }

  ghost function WriteStep(s: State, h: nat, buf: Bytes, allocOk: bool): (State, Reply)
    requires Sound(s) && h < |s.handles|
  {
    var hd := s.handles[h];
    if hd.place.None? then (s, Done(Err(NotFound)))
    else
      var p := hd.place.value;
      var (r, data, pos) := WriteAt(s.files[p].data, hd.pos, hd.append, buf, allocOk);
      (State(WithData(s.files, p, data), s.handles[h := hd.(pos := pos)]), Done(r))
  }

  ghost function SeekStep(s: State, h: nat, target: SeekFrom): (State, Reply)
    requires Sound(s) && h < |s.handles|
  {
    var hd := s.handles[h];
    if hd.place.None? && target.End? then (s, At(Err(NotFound)))
    else
      var r := SeekTarget(target, hd.pos, if hd.place.Some? then |s.files[hd.place.value].data| else 0);
      (if r.Ok? then s.(handles := s.handles[h := hd.(pos := r.value)]) else s, At(r))
  }

  ghost function Step(s: State, op: FsOp): (State, Reply)
    requires Sound(s) && CanDo(s, op)
  {
    var (m, hs) := (s.files, s.handles);
    match op
    case OpenFile(path, options) => OpenStep(s, Segs(path), options)
    case MakeDir(path) =>
      var (r, m') := CreateDir(m, Segs(path));
      (State(m', hs), Done(r))
    case RemoveNode(path) => RemoveStep(s, Segs(path))
    case Move(from, to) => MoveStep(s, Segs(from), Segs(to))
    case CopyNode(from, to) =>
      var (r, m') := CopyFile(m, Segs(from), Segs(to));
      (State(m', hs), Done(r))
    case Patch(path, patch) =>
      (State(PatchedFiles(m, Segs(path), patch), hs), Done(Resolve(m, Segs(path))))
    case MarkDir(path, calendar) =>
      var (r, m') := Marked(m, Segs(path), calendar);
      (State(m', hs), Done(r))
    case Read(h, count) => ReadStep(s, h, count)
    case Write(h, buf, allocOk) => WriteStep(s, h, buf, allocOk)
    case WriteChunks(h, chunks, allocOk) => WriteStep(s, h, Concat(chunks), allocOk)
    case SeekTo(h, target) => SeekStep(s, h, target)
  }

  /** The step replaces the bytes of the file at `q` by naming this path. */
  ghost predicate Overwrites(op: FsOp, q: Path) {
    match op
    case OpenFile(path, options) => options.truncate && Segs(path) == q
    case CopyNode(_, to) => Segs(to) == q
    case _ => false
  }

  /** The step may change the bytes of handle `h`'s file: by its current path, or through a handle on the same file. */
  ghost predicate Touches(s: State, op: FsOp, h: nat)
    requires CanDo(s, op) && h < |s.handles|
  {
    var place := s.handles[h].place;
    || (place.Some? && Overwrites(op, place.value))
    || ((op.Write? || op.WriteChunks?) && s.handles[op.h].place == place)
  }

  // ---------------------------------------------------------------------------------------------
  // What a step does to a handle's file

  ghost predicate FileKept(m: FsMap, m': FsMap, op: FsOp, q: Path)
    requires q in m && m[q].File?
  {
    q in m' && m'[q].File? && (!Overwrites(op, q) ==> m'[q].data == m[q].data)
  }

  /** Operations that remove and rename nothing. */
  ghost predicate Additive(op: FsOp) {
    op.OpenFile? || op.MakeDir? || op.CopyNode? || op.Patch? || op.MarkDir?
  }

  lemma AdditiveKeepsFile(s: State, op: FsOp, q: Path)
    requires Sound(s) && CanDo(s, op) && Additive(op) && q in s.files && s.files[q].File?
    ensures FileKept(s.files, Step(s, op).0.files, op, q)
    ensures s.handles <= Step(s, op).0.handles
  {
    if op.OpenFile? { OpenKeepsFile(s.files, Segs(op.path), op.options, q); }
    if op.CopyNode? { CopyKeepsFile(s.files, Segs(op.from), Segs(op.to), q); }
  }

  lemma OpenKeepsFile(m: FsMap, p: Path, oo: OpenOptions, q: Path)
    requires WellFormed(m) && q in m && m[q].File?
    ensures q in Open(m, p, oo).1 && Open(m, p, oo).1[q].File?
    ensures Open(m, p, oo).1[q] == m[q] || (p == q && oo.truncate)
  {
    ResolvesIffStored(m, p);
  }

  lemma CopyKeepsFile(m: FsMap, from: Path, to: Path, q: Path)
    requires WellFormed(m) && q in m && m[q].File?
    ensures q in CopyFile(m, from, to).1 && CopyFile(m, from, to).1[q].File?
    ensures CopyFile(m, from, to).1[q] == m[q] || to == q
  {
    OpenKeepsFile(m, to, OpenOptions(false, false, true, false), q);
  }

  ghost predicate Carried(m: FsMap, q: Path, m': FsMap, q': Path)
    requires q in m && m[q].File?
  {
    q' in m' && m'[q'].File? && m'[q'].data == m[q].data
  }

  lemma RenameCarriesFile(m: FsMap, from: Path, to: Path, q: Path)
    requires WellFormed(m) && RenameRefusal(m, from, to) == None && from != to
    requires q in m && m[q].File? && q != to
    ensures Carried(m, q, Rename(m, from, to).1, Rebased(q, from, to))
    ensures !(to <= q)
  {
    RenameTargetIsBeside(m, from, to);
    AncestorStored(m, to, q);
    MovedAt(WithoutTree(m, to), from, to, q);
  }

  /** Where the file of a handle is after a step: elsewhere after a rename, gone after its removal or replacement. */
  ghost function PlaceAfter(s: State, op: FsOp, h: Handle): Option<Path>
    requires Sound(s) && CanDo(s, op)
  {
    if Step(s, op).1 != Done(Ok(())) then h.place
    else match op
      case RemoveNode(path) => Left(h, Segs(path)).place
      case Move(from, to) => Followed(h, Segs(from), Segs(to)).place
      case _ => h.place
  }

  /**
   Every step leaves a handle on its file, wherever this is now. The bytes of the file change only if
   the step names its path or goes through a handle on the same file.
   */
  lemma StepFollowsFile(s: State, op: FsOp, h: nat)
    requires Sound(s) && CanDo(s, op) && h < |s.handles|
    ensures h < |Step(s, op).0.handles|
    ensures Step(s, op).0.handles[h].append == s.handles[h].append
    ensures Step(s, op).0.handles[h].place == PlaceAfter(s, op, s.handles[h])
    ensures OnFile(Step(s, op).0.files, Step(s, op).0.handles[h])
    ensures KeepsBytes(s, Step(s, op).0, h) || Touches(s, op, h)
  {
    assert OnFile(s.files, s.handles[h]);
    if Additive(op) {
      if s.handles[h].place.Some? {
        AdditiveKeepsFile(s, op, s.handles[h].place.value);
      }
    } else if op.Move? {
      MoveFollowsFile(s, op, h);
    } else if !op.RemoveNode? {
      ThroughHandleFollowsFile(s, op, h);
    }
  }

  /** Unless it is gone, handle `h`'s file has the bytes it had. */
  ghost predicate KeepsBytes(s: State, s': State, h: nat)
    requires h < |s.handles| && h < |s'.handles| && OnFile(s.files, s.handles[h]) && OnFile(s'.files, s'.handles[h])
  {
    s'.handles[h].place.Some? ==>
      s.handles[h].place.Some?
      && Carried(s.files, s.handles[h].place.value, s'.files, s'.handles[h].place.value)
  }

  lemma MoveFollowsFile(s: State, op: FsOp, h: nat)
    requires Sound(s) && CanDo(s, op) && op.Move? && h < |s.handles| && OnFile(s.files, s.handles[h])
    ensures h < |Step(s, op).0.handles|
    ensures OnFile(Step(s, op).0.files, Step(s, op).0.handles[h]) && KeepsBytes(s, Step(s, op).0, h)
  {
    var hd := s.handles[h];
    if hd.place.Some? && Step(s, op).1 == Done(Ok(())) && hd.place != Some(Segs(op.to)) {
      RenameCarriesFile(s.files, Segs(op.from), Segs(op.to), hd.place.value);
    }
  }

  lemma ThroughHandleFollowsFile(s: State, op: FsOp, h: nat)
    requires Sound(s) && CanDo(s, op) && (op.Read? || op.Write? || op.WriteChunks? || op.SeekTo?)
    requires h < |s.handles| && OnFile(s.files, s.handles[h])
    ensures h < |Step(s, op).0.handles|
    ensures Step(s, op).0.handles[h].(pos := 0) == s.handles[h].(pos := 0)
    ensures OnFile(Step(s, op).0.files, Step(s, op).0.handles[h])
    ensures KeepsBytes(s, Step(s, op).0, h) || Touches(s, op, h)
  {
    assert OnFile(s.files, s.handles[op.h]);
  }

  lemma StepKeepsWellFormed(s: State, op: FsOp)
    requires Sound(s) && CanDo(s, op)
    ensures WellFormed(Step(s, op).0.files)
  {
    var m := s.files;
    match op {
      case OpenFile(path, options) => OpenKeepsWellFormed(m, Segs(path), options);
      case MakeDir(path) => CreateDirKeepsWellFormed(m, Segs(path));
      case RemoveNode(path) => RemoveStepKeepsWellFormed(m, Segs(path));
      case Move(from, to) =>
        if RenameRefusal(m, Segs(from), Segs(to)) == None {
          MoveKeepsWellFormed(m, Segs(from), Segs(to));
        }
      case CopyNode(from, to) => CopyFileKeepsWellFormed(m, Segs(from), Segs(to));
      case Patch(path, patch) =>
        if Segs(path) in m {
          WithPropsKeepsWellFormed(m, Segs(path), Patched(m[Segs(path)].props, patch));
        }
      case MarkDir(path, calendar) => MarkKeepsWellFormed(m, Segs(path), calendar);
      case Read(_, _) =>
      case Write(h, buf, allocOk) => WriteKeepsWellFormed(s, h, buf, allocOk);
      case WriteChunks(h, chunks, allocOk) => WriteKeepsWellFormed(s, h, Concat(chunks), allocOk);
      case SeekTo(_, _) =>
    }
  }

  lemma WriteKeepsWellFormed(s: State, h: nat, buf: Bytes, allocOk: bool)
    requires Sound(s) && h < |s.handles|
    ensures WellFormed(WriteStep(s, h, buf, allocOk).0.files)
  {
    var hd := s.handles[h];
    assert OnFile(s.files, hd);
    if hd.place.Some? {
      var p := hd.place.value;
      WithDataKeepsWellFormed(s.files, p, WriteAt(s.files[p].data, hd.pos, hd.append, buf, allocOk).1);
    }
  }

  lemma StepKeepsSound(s: State, op: FsOp)
    requires Sound(s) && CanDo(s, op)
    ensures Sound(Step(s, op).0)
  {
    var s' := Step(s, op).0;
    StepKeepsWellFormed(s, op);
    forall h | 0 <= h < |s'.handles| ensures OnFile(s'.files, s'.handles[h]) {
      if h < |s.handles| {
        StepFollowsFile(s, op, h);
      } else {
        OpenKeepsWellFormed(s.files, Segs(op.path), op.options);
      }
    }
  }

  /** Handles on one file stay on one file, and handles on different files never meet. */
  lemma StepKeepsApart(s: State, op: FsOp, a: nat, b: nat)
    requires Sound(s) && CanDo(s, op) && a < |s.handles| && b < |s.handles|
    ensures |s.handles| <= |Step(s, op).0.handles|
    ensures var hs, hs' := s.handles, Step(s, op).0.handles;
            hs'[a].place.Some? && hs'[b].place.Some? ==> (hs[a].place == hs[b].place <==> hs'[a].place == hs'[b].place)
  {
    StepFollowsFile(s, op, a);
    StepFollowsFile(s, op, b);
    assert OnFile(s.files, s.handles[a]) && OnFile(s.files, s.handles[b]);
    var hs' := Step(s, op).0.handles;
    if op.Move? && Step(s, op).1 == Done(Ok(())) && hs'[a].place.Some? && hs'[b].place.Some? {
      MovedInjective(Segs(op.from), Segs(op.to));
      RenameCarriesFile(s.files, Segs(op.from), Segs(op.to), s.handles[a].place.value);
      RenameCarriesFile(s.files, Segs(op.from), Segs(op.to), s.handles[b].place.value);
    }
  }

  // ---------------------------------------------------------------------------------------------
  // Runs

  ghost predicate CanDoAll(s: State, ops: seq<FsOp>)
    requires Sound(s)
    decreases |ops|
  {
    ops == [] || (CanDo(s, ops[0]) && (StepKeepsSound(s, ops[0]); CanDoAll(Step(s, ops[0]).0, ops[1..])))
  }

  ghost function Run(s: State, ops: seq<FsOp>): (r: (State, seq<Reply>))
    requires Sound(s) && CanDoAll(s, ops)
    ensures |r.1| == |ops|
    decreases |ops|
  {
    if ops == [] then (s, [])
    else
      StepKeepsSound(s, ops[0]);
      var (s', reply) := Step(s, ops[0]);
      var (s'', replies) := Run(s', ops[1..]);
      (s'', [reply] + replies)
  }

  lemma {:induction false} RunKeepsSound(s: State, ops: seq<FsOp>)
    requires Sound(s) && CanDoAll(s, ops)
    ensures Sound(Run(s, ops).0) && |s.handles| <= |Run(s, ops).0.handles|
    decreases |ops|
  {
    if ops != [] {
      StepKeepsSound(s, ops[0]);
      RunKeepsSound(Step(s, ops[0]).0, ops[1..]);
    }
  }

  /** If the call needs the file of handle `h`, it says that there is none. */
  ghost predicate NotFoundThrough(op: FsOp, h: nat, reply: Reply) {
    && (op.Read? && op.h == h ==> reply == Got(Err(NotFound)))
    && ((op.Write? || op.WriteChunks?) && op.h == h ==> reply == Done(Err(NotFound)))
    && (op.SeekTo? && op.h == h && op.target.End? ==> reply == At(Err(NotFound)))
  }

  /** A file that is gone is gone for good, and reading or writing its handles does nothing but fail. */
  lemma {:induction false} GoneStaysGone(s: State, ops: seq<FsOp>, h: nat)
    requires Sound(s) && CanDoAll(s, ops) && h < |s.handles| && s.handles[h].place == None
    ensures h < |Run(s, ops).0.handles| && Run(s, ops).0.handles[h].place == None
    ensures forall n :: 0 <= n < |ops| ==> NotFoundThrough(ops[n], h, Run(s, ops).1[n])
    decreases |ops|
  {
    if ops != [] {
      StepKeepsSound(s, ops[0]);
      StepFollowsFile(s, ops[0], h);
      GoneStaysGone(Step(s, ops[0]).0, ops[1..], h);
    }
  }

  /** Handles on one file stay so, and handles on different files never meet, over any run. */
  lemma {:induction false} RunKeepsApart(s: State, ops: seq<FsOp>, a: nat, b: nat)
    requires Sound(s) && CanDoAll(s, ops) && a < |s.handles| && b < |s.handles|
    ensures |s.handles| <= |Run(s, ops).0.handles|
    ensures var hs, hs' := s.handles, Run(s, ops).0.handles;
            hs'[a].place.Some? && hs'[b].place.Some? ==> (hs[a].place == hs[b].place <==> hs'[a].place == hs'[b].place)
    decreases |ops|
  {
    RunKeepsSound(s, ops);
    if ops != [] {
      StepKeepsSound(s, ops[0]);
      StepKeepsApart(s, ops[0], a, b);
      var s' := Step(s, ops[0]).0;
      RunKeepsApart(s', ops[1..], a, b);
      if s'.handles[a].place.None? { GoneStaysGone(s', ops[1..], a); }
      if s'.handles[b].place.None? { GoneStaysGone(s', ops[1..], b); }
    }
  }

  /** No step of the run touches the bytes of handle `h`'s file. */
  ghost predicate Quiet(s: State, ops: seq<FsOp>, h: nat)
    requires Sound(s) && CanDoAll(s, ops) && h < |s.handles|
    decreases |ops|
  {
    ops == [] ||
    (StepKeepsSound(s, ops[0]); StepFollowsFile(s, ops[0], h);
     !Touches(s, ops[0], h) && Quiet(Step(s, ops[0]).0, ops[1..], h))
  }

  /**
   Whatever else happens, renames of the file and of the directories above it included, the bytes behind a
   handle change only by a step that names the file's current path or goes through a handle on it.
   */
  lemma {:induction false} RunKeepsBytes(s: State, ops: seq<FsOp>, h: nat)
    requires Sound(s) && CanDoAll(s, ops) && h < |s.handles| && Quiet(s, ops, h)
    ensures h < |Run(s, ops).0.handles|
    ensures var hd, hd' := s.handles[h], Run(s, ops).0.handles[h];
            hd'.place.Some? ==>
              && OnFile(s.files, hd) && OnFile(Run(s, ops).0.files, hd')
              && hd.place.Some? && Run(s, ops).0.files[hd'.place.value].data == s.files[hd.place.value].data
    decreases |ops|
  {
    RunKeepsSound(s, ops);
    assert OnFile(s.files, s.handles[h]);
    if ops != [] {
      StepKeepsSound(s, ops[0]);
      StepFollowsFile(s, ops[0], h);
      RunKeepsBytes(Step(s, ops[0]).0, ops[1..], h);
    }
  }

  // ---------------------------------------------------------------------------------------------
  // What copying and deleting trees asks of a filesystem holds in every run

  /** `create_dir` at the root, which makes a child of it without a name. */
  predicate MakesNameless(op: FsOp) {
    op.MakeDir? && Segs(op.path) == []
  }

  lemma StepKeepsKeyed(s: State, op: FsOp)
    requires Sound(s) && CanDo(s, op) && AllKeyed(s.files)
    ensures AllKeyed(Step(s, op).0.files)
  {
    var m := s.files;
    match op {
      case OpenFile(path, options) => OpenKeepsKeyed(m, Segs(path), options);
      case MakeDir(path) => CreateDirKeepsKeyed(m, Segs(path));
      case RemoveNode(path) => RemovalKeepsKeyed(m, Segs(path));
      case Move(from, to) => RenameKeepsKeyed(m, Segs(from), Segs(to));
      case CopyNode(from, to) => CopyFileKeepsKeyed(m, Segs(from), Segs(to));
      case Patch(path, patch) =>
        if Segs(path) in m {
          PatchedIsKeyed(m[Segs(path)].props, patch);
          SetKeepsKeyed(m, Segs(path), WithProps(m[Segs(path)], Patched(m[Segs(path)].props, patch)));
        }
      case _ =>
    }
  }

  lemma StepKeepsReachable(s: State, op: FsOp)
    requires Sound(s) && CanDo(s, op) && AllReachable(s.files) && !MakesNameless(op)
    ensures AllReachable(Step(s, op).0.files)
  {
    var m := s.files;
    match op {
      case OpenFile(path, _) => SegsAreSegments(path);
      case MakeDir(path) =>
        SegsAreSegments(path);
        CreateDirReachableIff(m, Segs(path));
      case Move(from, to) =>
        SegsAreSegments(to);
        if RenameRefusal(m, Segs(from), Segs(to)) == None { RenameKeepsReachable(m, Segs(from), Segs(to)); }
      case CopyNode(_, to) => SegsAreSegments(to);
      case _ =>
    }
  }

  lemma StepMakesNameless(s: State, op: FsOp)
    requires Sound(s) && CanDo(s, op) && MakesNameless(op)
    ensures RootHasNameless(Step(s, op).0.files)
  {
    assert Target([]) == [[]];
  }

  /** A child of the root without a name is never removed or moved again. */
  lemma StepKeepsNameless(s: State, op: FsOp)
    requires Sound(s) && CanDo(s, op) && RootHasNameless(s.files)
    ensures RootHasNameless(Step(s, op).0.files)
  {
    if op.RemoveNode? {
      SegsAreSegments(op.path);
      assert Segs(op.path) != [] ==> IsSegment(Segs(op.path)[0]);
    } else if op.Move? && RenameRefusal(s.files, Segs(op.from), Segs(op.to)) == None {
      SegsAreSegments(op.from);
      SegsAreSegments(op.to);
      RenameKeepsNameless(s.files, Segs(op.from), Segs(op.to));
    }
  }

  lemma {:induction false} RunKeepsNameless(s: State, ops: seq<FsOp>)
    requires Sound(s) && CanDoAll(s, ops) && RootHasNameless(s.files)
    ensures RootHasNameless(Run(s, ops).0.files)
    decreases |ops|
  {
    if ops != [] {
      StepKeepsSound(s, ops[0]);
      StepKeepsNameless(s, ops[0]);
      RunKeepsNameless(Step(s, ops[0]).0, ops[1..]);
    }
  }

  lemma {:induction false} RunKeepsKeyed(s: State, ops: seq<FsOp>)
    requires Sound(s) && CanDoAll(s, ops) && AllKeyed(s.files)
    ensures AllKeyed(Run(s, ops).0.files)
    decreases |ops|
  {
    if ops != [] {
      StepKeepsSound(s, ops[0]);
      StepKeepsKeyed(s, ops[0]);
      RunKeepsKeyed(Step(s, ops[0]).0, ops[1..]);
    }
  }

  /**
   Every run keeps each property under its own key, and leaves every node reachable exactly if it has no call
   of `create_dir` at the root.
   */
  lemma {:induction false} RunKeepsGood(s: State, ops: seq<FsOp>)
    requires Sound(s) && CanDoAll(s, ops) && AllKeyed(s.files) && AllReachable(s.files)
    ensures WellFormed(Run(s, ops).0.files) && AllKeyed(Run(s, ops).0.files)
    ensures AllReachable(Run(s, ops).0.files) <==> forall n :: 0 <= n < |ops| ==> !MakesNameless(ops[n])
    decreases |ops|
  {
    RunKeepsSound(s, ops);
    if ops != [] {
      StepKeepsSound(s, ops[0]);
      StepKeepsKeyed(s, ops[0]);
      var s' := Step(s, ops[0]).0;
      if MakesNameless(ops[0]) {
        StepMakesNameless(s, ops[0]);
        RunKeepsNameless(s', ops[1..]);
        assert !IsSegment([[]][0]);
        RunKeepsKeyed(s', ops[1..]);
      } else {
        StepKeepsReachable(s, ops[0]);
        RunKeepsGood(s', ops[1..]);
        assert forall n :: 0 < n < |ops| ==> ops[n] == ops[1..][n - 1];
      }
    }
  }

  /**
   Bytes written through one handle are what a handle on the same file reads there, however quiet steps moved
   the file since.
   */
  lemma ReadSeesLastWrite(s: State, w: nat, buf: FileData, allocOk: bool, ops: seq<FsOp>, h: nat)
    requires Sound(s) && w < |s.handles| && h < |s.handles| && s.handles[h].place == s.handles[w].place
    requires WriteStep(s, w, buf, allocOk).1 == Done(Ok(()))
    ensures var s' := WriteStep(s, w, buf, allocOk).0;
            && Sound(s') && s'.handles[w].pos >= |buf|
            && (CanDoAll(s', ops) && h < |s'.handles| && Quiet(s', ops, h) ==>
                  && var s'' := Run(s', ops).0;
                  && Sound(s'') && h < |s''.handles|
                  && (s''.handles[h].place.Some? && s''.handles[h].pos == s'.handles[w].pos - |buf| ==>
                        ReadStep(s'', h, |buf|).1 == Got(Ok(buf))))
  {
    var op := FsOp.Write(w, buf, allocOk);
    StepKeepsSound(s, op);
    var s' := WriteStep(s, w, buf, allocOk).0;
    assert Step(s, op).0 == s';
    var hd := s.handles[w];
    assert OnFile(s.files, hd);
    var data := s.files[hd.place.value].data;
    ReadAfterWrite(data, if hd.append then |data| else hd.pos, buf);
    if CanDoAll(s', ops) && Quiet(s', ops, h) {
      RunKeepsSound(s', ops);
      RunKeepsBytes(s', ops, h);
    }
  }

  // ---------------------------------------------------------------------------------------------
  // The real handles

  /** What a `MemFsFile` holds: the id of its node, and the position. */
  datatype Held = Held(nodeId: nat, pos: nat, append: bool)

  ghost function HeldBy(f: MemFsFile): Held
    reads f
  {
    Held(f.nodeId, f.pos, f.append)
  }

  /** The id stands for the node at the handle's place, or never stands for anything again. */
  ghost predicate StandsFor(e: FsEntries, n: nat, f: Held, h: Handle) {
    && f.nodeId < n && f.pos == h.pos && f.append == h.append
    && match h.place
       case None => f.nodeId !in e
       case Some(p) => f.nodeId in e && e[f.nodeId].path == p && e[f.nodeId].data.File?
  }

  ghost predicate Represents(e: FsEntries, n: nat, fs: seq<Held>, hs: seq<Handle>) {
    |fs| == |hs| && forall k :: 0 <= k < |fs| ==> StandsFor(e, n, fs[k], hs[k])
  }

  lemma TouchesKeepsHandles(e: FsEntries, n: nat, e': FsEntries, n': nat, p: Path, fs: seq<Held>, hs: seq<Handle>)
    requires Represents(e, n, fs, hs) && TouchesOnly(e, n, e', n', p)
    ensures Represents(e', n', fs, hs)
  {
    forall k | 0 <= k < |fs| ensures StandsFor(e', n', fs[k], hs[k]) {
      assert StandsFor(e, n, fs[k], hs[k]);
      if fs[k].nodeId in e {
        assert KeptBut(e, e', fs[k].nodeId, p);
      } else {
        assert fs[k].nodeId in e' ==> NewOnlyAt(e, n, e', fs[k].nodeId, p);
      }
    }
  }

  lemma RemovalLeavesHandles(e: FsEntries, n: nat, p: Path, fs: seq<Held>, hs: seq<Handle>)
    requires Represents(e, n, fs, hs) && PathsUnique(e) && !HasChildren(ViewOf(e), p)
    ensures Represents(WithoutPath(e, p), n, fs, AllLeft(hs, p))
  {
    var e' := WithoutPath(e, p);
    forall k | 0 <= k < |fs| ensures StandsFor(e', n, fs[k], Left(hs[k], p)) {
      assert StandsFor(e, n, fs[k], hs[k]);
      if fs[k].nodeId in e {
        NodeShown(e, fs[k].nodeId);
        assert p <= e[fs[k].nodeId].path <==> p == e[fs[k].nodeId].path;
      }
    }
  }

  lemma RenameCarriesHandles(e: FsEntries, n: nat, e': FsEntries, from: Path, to: Path, fs: seq<Held>, hs: seq<Handle>)
    requires Represents(e, n, fs, hs) && FollowsRename(e, from, to, e')
    ensures Represents(e', n, fs, AllFollowed(hs, from, to))
  {
    forall k | 0 <= k < |fs| ensures StandsFor(e', n, fs[k], Followed(hs[k], from, to)) {
      assert StandsFor(e, n, fs[k], hs[k]);
      assert FollowsAt(e, from, to, e', fs[k].nodeId);
    }
  }

  /** A write through handle `h` changes the data of its own node and the position of this one handle. */
  lemma WriteKeepsHandles(e: FsEntries, n: nat, fs: seq<Held>, hs: seq<Handle>, h: nat, data: FileData, pos: nat)
    requires Represents(e, n, fs, hs) && PathsUnique(e) && h < |hs| && hs[h].place.Some?
    ensures StandsFor(e, n, fs[h], hs[h])
    ensures var id := fs[h].nodeId;
            var e' := e[id := Entry(e[id].path, File(e[id].data.props, data))];
            && Represents(e', n, fs[h := fs[h].(pos := pos)], hs[h := hs[h].(pos := pos)])
            && hs[h].place.value in ViewOf(e) && ViewOf(e)[hs[h].place.value] == e[id].data
            && ViewOf(e') == WithData(ViewOf(e), hs[h].place.value, data)
  {
    assert StandsFor(e, n, fs[h], hs[h]);
    var id := fs[h].nodeId;
    var e' := e[id := Entry(e[id].path, File(e[id].data.props, data))];
    NodeShown(e, id);
    SetIsShown(e, id, File(e[id].data.props, data));
    var fs', hs' := fs[h := fs[h].(pos := pos)], hs[h := hs[h].(pos := pos)];
    forall k | 0 <= k < |fs'| ensures StandsFor(e', n, fs'[k], hs'[k]) {
      assert StandsFor(e, n, fs[k], hs[k]);
    }
  }

  lemma SeekKeepsHandles(e: FsEntries, n: nat, fs: seq<Held>, hs: seq<Handle>, h: nat, pos: nat)
    requires Represents(e, n, fs, hs) && h < |hs|
    ensures Represents(e, n, fs[h := fs[h].(pos := pos)], hs[h := hs[h].(pos := pos)])
  {
    assert StandsFor(e, n, fs[h], hs[h]);
  }

  /** The tree, seen through what the handles hold, stands for the state `s`. */
  ghost predicate Stands(e: FsEntries, n: nat, fs: seq<Held>, s: State) {
    ViewOf(e) == s.files && Sound(s) && Represents(e, n, fs, s.handles)
  }

  lemma TouchesStands(e: FsEntries, n: nat, e': FsEntries, n': nat, p: Path, fs: seq<Held>, s: State, s': State)
    requires Stands(e, n, fs, s) && TouchesOnly(e, n, e', n', p)
    requires ViewOf(e') == s'.files && Sound(s') && s'.handles == s.handles
    ensures Stands(e', n', fs, s')
  {
    TouchesKeepsHandles(e, n, e', n', p, fs, s.handles);
  }

  lemma OpenStands(e: FsEntries, n: nat, e': FsEntries, n': nat, p: Path, fs: seq<Held>, s: State, oo: OpenOptions,
                   id: nat)
    requires Stands(e, n, fs, s) && TouchesOnly(e, n, e', n', p)
    requires ViewOf(e') == Open(s.files, p, oo).1 && Sound(OpenStep(s, p, oo).0)
    requires Open(s.files, p, oo).0.Ok? ==> id in e' && id < n' && e'[id].path == p && e'[id].data.File?
    ensures Stands(e', n', if Open(s.files, p, oo).0.Ok? then fs + [Held(id, 0, oo.append)] else fs,
                   OpenStep(s, p, oo).0)
  {
    TouchesKeepsHandles(e, n, e', n', p, fs, s.handles);
  }

  lemma RemovalStands(e: FsEntries, n: nat, fs: seq<Held>, s: State, p: Path)
    requires Stands(e, n, fs, s) && PathsUnique(e) && Sound(RemoveStep(s, p).0)
    ensures ViewOf(WithoutPath(e, p)) == RemoveStep(s, p).0.files && Remove(s.files, p).0.Ok? ==>
              Stands(WithoutPath(e, p), n, fs, RemoveStep(s, p).0)
  {
    if Remove(s.files, p).0.Ok? {
      RemovalLeavesHandles(e, n, p, fs, s.handles);
    }
  }

  lemma RenameStands(e: FsEntries, n: nat, e': FsEntries, fs: seq<Held>, s: State, from: Path, to: Path)
    requires Stands(e, n, fs, s) && RenameRefusal(s.files, from, to) == None && from != to
    requires Sound(MoveStep(s, from, to).0)
    requires FollowsRename(e, from, to, e') && ViewOf(e') == FsModel.Rename(s.files, from, to).1
    ensures Stands(e', n, fs, MoveStep(s, from, to).0)
  {
    RenameCarriesHandles(e, n, e', from, to, fs, s.handles);
  }

  lemma ReadStands(e: FsEntries, n: nat, fs: seq<Held>, s: State, h: nat, count: nat)
    requires Stands(e, n, fs, s) && PathsUnique(e) && h < |s.handles| && Sound(ReadStep(s, h, count).0)
    ensures StandsFor(e, n, fs[h], s.handles[h])
    ensures fs[h].nodeId in e ==>
              && e[fs[h].nodeId].data.File?
              && var bytes := ReadAt(e[fs[h].nodeId].data.data, fs[h].pos, count);
                 && ReadStep(s, h, count).1 == Got(Ok(bytes))
                 && Stands(e, n, fs[h := fs[h].(pos := fs[h].pos + |bytes|)], ReadStep(s, h, count).0)
    ensures fs[h].nodeId !in e ==> ReadStep(s, h, count) == (s, Got(Err(NotFound)))
  {
    assert StandsFor(e, n, fs[h], s.handles[h]);
    if fs[h].nodeId in e {
      NodeShown(e, fs[h].nodeId);
      SeekKeepsHandles(e, n, fs, s.handles, h, fs[h].pos + |ReadAt(e[fs[h].nodeId].data.data, fs[h].pos, count)|);
    }
  }

  lemma SeekStands(e: FsEntries, n: nat, fs: seq<Held>, s: State, h: nat, target: SeekFrom)
    requires Stands(e, n, fs, s) && PathsUnique(e) && h < |s.handles| && Sound(SeekStep(s, h, target).0)
    ensures StandsFor(e, n, fs[h], s.handles[h])
    ensures var onFile := fs[h].nodeId in e && e[fs[h].nodeId].data.File?;
            var r := SeekTarget(target, fs[h].pos, if onFile then |e[fs[h].nodeId].data.data| else 0);
            onFile || !target.End? ==>
              && SeekStep(s, h, target).1 == At(r)
              && Stands(e, n, fs[h := fs[h].(pos := if r.Ok? then r.value else fs[h].pos)], SeekStep(s, h, target).0)
    ensures fs[h].nodeId !in e && target.End? ==> SeekStep(s, h, target) == (s, At(Err(NotFound)))
  {
    assert StandsFor(e, n, fs[h], s.handles[h]);
    if fs[h].nodeId in e { NodeShown(e, fs[h].nodeId); }
    var r := SeekTarget(target, fs[h].pos, if fs[h].nodeId in e then |e[fs[h].nodeId].data.data| else 0);
    if r.Ok? {
      SeekKeepsHandles(e, n, fs, s.handles, h, r.value);
    } else {
      assert fs[h := fs[h].(pos := fs[h].pos)] == fs;
    }
  }

  lemma WriteStands(e: FsEntries, n: nat, fs: seq<Held>, s: State, h: nat, buf: Bytes, allocOk: bool)
    requires Stands(e, n, fs, s) && PathsUnique(e) && h < |s.handles| && Sound(WriteStep(s, h, buf, allocOk).0)
    ensures StandsFor(e, n, fs[h], s.handles[h])
    ensures fs[h].nodeId in e ==>
              && e[fs[h].nodeId].data.File?
              && var id := fs[h].nodeId;
                 var (r, data, pos) := WriteAt(e[id].data.data, fs[h].pos, fs[h].append, buf, allocOk);
                 && WriteStep(s, h, buf, allocOk).1 == Done(r)
                 && Stands(e[id := Entry(e[id].path, File(e[id].data.props, data))], n, fs[h := fs[h].(pos := pos)],
                           WriteStep(s, h, buf, allocOk).0)
    ensures fs[h].nodeId !in e ==> WriteStep(s, h, buf, allocOk) == (s, Done(Err(NotFound)))
  {
    assert StandsFor(e, n, fs[h], s.handles[h]);
    if fs[h].nodeId in e {
      NodeShown(e, fs[h].nodeId);
      var (r, data, pos) := WriteAt(e[fs[h].nodeId].data.data, fs[h].pos, fs[h].append, buf, allocOk);
      WriteKeepsHandles(e, n, fs, s.handles, h, data, pos);
    }
  }

  ghost function AllHeld(files: seq<MemFsFile>): seq<Held>
    reads files
  {
    seq(|files|, k requires 0 <= k < |files| reads files => HeldBy(files[k]))
  }

  /** Different handles, all on this tree. */
  ghost predicate OpenOn(tree: Tree<Bytes, FsNode>, files: seq<MemFsFile>) {
    && (forall j, k :: 0 <= j < k < |files| ==> files[j] != files[k])
    && (forall k :: 0 <= k < |files| ==> files[k].tree == tree)
  }

  /** The real filesystem with these open files stands for the state `s`. */
  ghost predicate Simulates(fs: MemFs, files: seq<MemFsFile>, s: State)
    reads fs, fs.tree, files
  {
    fs.Valid() && OpenOn(fs.tree, files) && Stands(fs.tree.entries, fs.tree.nodeId, AllHeld(files), s)
  }

  lemma OneMoreOpen(tree: Tree<Bytes, FsNode>, files: seq<MemFsFile>, file: MemFsFile)
    requires OpenOn(tree, files) && file !in files && file.tree == tree
    ensures OpenOn(tree, files + [file])
    ensures AllHeld(files + [file]) == AllHeld(files) + [HeldBy(file)]
  {}

  /** The position of one handle has changed. */
  lemma OneHeldMoved(tree: Tree<Bytes, FsNode>, files: seq<MemFsFile>, held: seq<Held>, h: nat)
    requires OpenOn(tree, files) && h < |files| && |held| == |files|
    requires held[h].nodeId == files[h].nodeId && held[h].append == files[h].append
    requires forall k :: 0 <= k < |files| && k != h ==> held[k] == HeldBy(files[k])
    ensures AllHeld(files) == held[h := held[h].(pos := files[h].pos)]
  {}

  /** One call on the real filesystem and its open files does what the machine does, and answers alike. */
  method Perform(fs: MemFs, files: seq<MemFsFile>, op: FsOp, ghost s: State)
    returns (files': seq<MemFsFile>, reply: Reply)
    requires Simulates(fs, files, s) && CanDo(s, op)
    modifies fs.tree, files
    ensures Simulates(fs, files', Step(s, op).0) && reply == Step(s, op).1
    ensures files <= files' && fresh(set f | f in files'[|files|..])
  {
    StepKeepsSound(s, op);
    if op.OpenFile? {
      var r;
      files', r := PerformOpen(fs, files, op.path, op.options, s);
      reply := Done(r);
    } else if op.Read? || op.Write? || op.WriteChunks? || op.SeekTo? {
      files' := files;
      reply := PerformThrough(fs, files, op, s);
    } else if op.RemoveNode? {
      files' := files;
      var r := PerformRemove(fs, files, op.path, s);
      reply := Done(r);
    } else if op.Move? {
      files' := files;
      var r := PerformMove(fs, files, op.from, op.to, s);
      reply := Done(r);
    } else {
      files' := files;
      reply := PerformAdditive(fs, files, op, s);
    }
  }

  method PerformOpen(fs: MemFs, files: seq<MemFsFile>, path: Bytes, options: OpenOptions, ghost s: State)
    returns (files': seq<MemFsFile>, r: FsResult<()>)
    requires Simulates(fs, files, s) && Sound(OpenStep(s, Segs(path), options).0)
    modifies fs.tree
    ensures Simulates(fs, files', OpenStep(s, Segs(path), options).0) && Done(r) == OpenStep(s, Segs(path), options).1
    ensures files <= files' && fresh(set f | f in files'[|files|..])
  {
    ghost var e, n, held := fs.tree.entries, fs.tree.nodeId, AllHeld(files);
    var file := fs.DoOpen(path, options);
    ghost var id := if file.Ok? then file.value.nodeId else 0;
    OpenStands(e, n, fs.tree.entries, fs.tree.nodeId, Segs(path), held, s, options, id);
    if file.Err? {
      return files, Err(file.error);
    }
    OneMoreOpen(fs.tree, files, file.value);
    files', r := files + [file.value], Ok(());
  }

  /** The calls that remove and rename nothing, but for opening: `p` is the one place they touch. */
  method CallAdditive(fs: MemFs, op: FsOp, ghost s: State) returns (r: FsResult<()>, ghost p: Path)
    requires fs.Valid() && Sound(s) && fs.View() == s.files && CanDo(s, op)
    requires op.MakeDir? || op.CopyNode? || op.Patch? || op.MarkDir?
    modifies fs.tree
    ensures fs.Valid() && fs.View() == Step(s, op).0.files && Done(r) == Step(s, op).1
    ensures Step(s, op).0.handles == s.handles
    ensures TouchesOnly(old(fs.tree.entries), old(fs.tree.nodeId), fs.tree.entries, fs.tree.nodeId, p)
  {
    match op {
      case MakeDir(path) =>
        r := fs.CreateDir(path);
        p := Target(Segs(path));
      case CopyNode(from, to) =>
        r := fs.Copy(from, to);
        p := Segs(to);
      case Patch(path, patch) =>
        ResolvesIffStored(s.files, Segs(path));
        var patched := fs.PatchProps(path, patch);
        r := if patched.Ok? then Ok(()) else Err(patched.error);
        p := Segs(path);
      case MarkDir(path, calendar) =>
        r := fs.Mark(path, calendar);
        p := Segs(path);
    }
  }

  method PerformAdditive(fs: MemFs, files: seq<MemFsFile>, op: FsOp, ghost s: State) returns (reply: Reply)
    requires Simulates(fs, files, s) && CanDo(s, op) && Sound(Step(s, op).0)
    requires op.MakeDir? || op.CopyNode? || op.Patch? || op.MarkDir?
    modifies fs.tree
    ensures Simulates(fs, files, Step(s, op).0) && reply == Step(s, op).1
  {
    ghost var e, n := fs.tree.entries, fs.tree.nodeId;
    var r;
    ghost var p;
    r, p := CallAdditive(fs, op, s);
    reply := Done(r);
    TouchesStands(e, n, fs.tree.entries, fs.tree.nodeId, p, AllHeld(files), s, Step(s, op).0);
  }

  method PerformRemove(fs: MemFs, files: seq<MemFsFile>, path: Bytes, ghost s: State) returns (r: FsResult<()>)
    requires Simulates(fs, files, s) && Sound(RemoveStep(s, Segs(path)).0)
    modifies fs.tree
    ensures Simulates(fs, files, RemoveStep(s, Segs(path)).0) && Done(r) == RemoveStep(s, Segs(path)).1
  {
    LabelledPathsUnique(fs.tree.nodes, fs.tree.entries);
    RemovalStands(fs.tree.entries, fs.tree.nodeId, AllHeld(files), s, Segs(path));
    r := fs.Remove(path);
  }

  method PerformMove(fs: MemFs, files: seq<MemFsFile>, from: Bytes, to: Bytes, ghost s: State) returns (r: FsResult<()>)
    requires Simulates(fs, files, s)
    requires RenameRefusal(s.files, Segs(from), Segs(to)) == None ==> Segs(from) != Segs(to)
    requires Sound(MoveStep(s, Segs(from), Segs(to)).0)
    modifies fs.tree
    ensures Simulates(fs, files, MoveStep(s, Segs(from), Segs(to)).0) && Done(r) == MoveStep(s, Segs(from), Segs(to)).1
  {
    ghost var e, n := fs.tree.entries, fs.tree.nodeId;
    r := fs.Rename(from, to);
    if r.Ok? {
      RenameStands(e, n, fs.tree.entries, AllHeld(files), s, Segs(from), Segs(to));
    }
  }

  method ReadThrough(fs: MemFs, files: seq<MemFsFile>, h: nat, count: Count, ghost s: State)
    returns (r: FsResult<Bytes>)
    requires Simulates(fs, files, s) && h < |s.handles| && Sound(ReadStep(s, h, count).0)
    modifies files
    ensures Simulates(fs, files, ReadStep(s, h, count).0) && Got(r) == ReadStep(s, h, count).1
  {
    ghost var e, held := fs.tree.entries, AllHeld(files);
    LabelledPathsUnique(fs.tree.nodes, e);
    ReadStands(e, fs.tree.nodeId, held, s, h, count);
    r := files[h].ReadBytes(count);
    OneHeldMoved(fs.tree, files, held, h);
  }

  method SeekThrough(fs: MemFs, files: seq<MemFsFile>, h: nat, target: SeekFrom, ghost s: State)
    returns (r: FsResult<nat>)
    requires Simulates(fs, files, s) && h < |s.handles| && Sound(SeekStep(s, h, target).0)
    modifies files
    ensures Simulates(fs, files, SeekStep(s, h, target).0) && At(r) == SeekStep(s, h, target).1
  {
    ghost var e, held := fs.tree.entries, AllHeld(files);
    LabelledPathsUnique(fs.tree.nodes, e);
    SeekStands(e, fs.tree.nodeId, held, s, h, target);
    r := files[h].Seek(target);
    OneHeldMoved(fs.tree, files, held, h);
  }

  method WriteThrough(fs: MemFs, files: seq<MemFsFile>, h: nat, buf: FileData, allocOk: bool, ghost s: State)
    returns (r: FsResult<()>)
    requires Simulates(fs, files, s) && h < |s.handles| && Sound(WriteStep(s, h, buf, allocOk).0)
    modifies fs.tree, files
    ensures Simulates(fs, files, WriteStep(s, h, buf, allocOk).0) && Done(r) == WriteStep(s, h, buf, allocOk).1
  {
    ghost var e, held := fs.tree.entries, AllHeld(files);
    LabelledPathsUnique(fs.tree.nodes, e);
    WriteStands(e, fs.tree.nodeId, held, s, h, buf, allocOk);
    r := files[h].WriteBytes(buf, allocOk);
    OneHeldMoved(fs.tree, files, held, h);
  }

  method WriteChunksThrough(fs: MemFs, files: seq<MemFsFile>, h: nat, chunks: Chunks, allocOk: bool, ghost s: State)
    returns (r: FsResult<()>)
    requires Simulates(fs, files, s) && h < |s.handles| && Sound(WriteStep(s, h, Concat(chunks), allocOk).0)
    modifies fs.tree, files
    ensures Simulates(fs, files, WriteStep(s, h, Concat(chunks), allocOk).0)
    ensures Done(r) == WriteStep(s, h, Concat(chunks), allocOk).1
  {
    ghost var e, held := fs.tree.entries, AllHeld(files);
    LabelledPathsUnique(fs.tree.nodes, e);
    WriteStands(e, fs.tree.nodeId, held, s, h, Concat(chunks), allocOk);
    r := files[h].WriteBuf(chunks, allocOk);
    OneHeldMoved(fs.tree, files, held, h);
  }

  method PerformThrough(fs: MemFs, files: seq<MemFsFile>, op: FsOp, ghost s: State) returns (reply: Reply)
    requires Simulates(fs, files, s) && CanDo(s, op) && Sound(Step(s, op).0)
    requires op.Read? || op.Write? || op.WriteChunks? || op.SeekTo?
    modifies fs.tree, files
    ensures Simulates(fs, files, Step(s, op).0) && reply == Step(s, op).1
  {
    match op {
      case Read(h, count) =>
        var r := ReadThrough(fs, files, h, count, s);
        reply := Got(r);
      case Write(h, buf, allocOk) =>
        var r := WriteThrough(fs, files, h, buf, allocOk, s);
        reply := Done(r);
      case WriteChunks(h, chunks, allocOk) =>
        var r := WriteChunksThrough(fs, files, h, chunks, allocOk, s);
        reply := Done(r);
      case SeekTo(h, target) =>
        var r := SeekThrough(fs, files, h, target, s);
        reply := At(r);
    }
  }

  /** Every run: the real filesystem with its handles stays in step with the machine, answer by answer. */
  method PerformAll(fs: MemFs, files: seq<MemFsFile>, ops: seq<FsOp>, ghost s: State)
    returns (files': seq<MemFsFile>, replies: seq<Reply>)
    requires Simulates(fs, files, s) && CanDoAll(s, ops)
    modifies fs.tree, files
    ensures Simulates(fs, files', Run(s, ops).0) && replies == Run(s, ops).1
    ensures files <= files' && fresh(set f | f in files'[|files|..])
    decreases |ops|
  {
    if ops == [] {
      return files, [];
    }
    StepKeepsSound(s, ops[0]);
    var reply;
    files', reply := Perform(fs, files, ops[0], s);
    files', replies := PerformAll(fs, files', ops[1..], Step(s, ops[0]).0);
    replies := [reply] + replies;
  }

  /** An empty root directory, and no open files. */
  ghost function NewState(): (s: State)
    ensures Sound(s) && AllKeyed(s.files) && AllReachable(s.files)
  {
    State(map[[] := NEW_DIR], [])
  }

  /** Every run on a new filesystem. */
  method PerformRun(ops: seq<FsOp>) returns (fs: MemFs, files: seq<MemFsFile>, replies: seq<Reply>)
    requires CanDoAll(NewState(), ops)
    ensures Simulates(fs, files, Run(NewState(), ops).0) && replies == Run(NewState(), ops).1
    ensures fs.Valid() && AllKeyed(fs.View())
    ensures AllReachable(fs.View()) <==> forall n :: 0 <= n < |ops| ==> !MakesNameless(ops[n])
  {
    fs := new MemFs();
    files, replies := PerformAll(fs, [], ops, NewState());
    RunKeepsGood(NewState(), ops);
  }
}
