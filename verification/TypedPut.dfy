/**
 PUT and PATCH (src/handle_put.rs) on the in-memory filesystem: range checks, size prediction, staging of
 objects for calendars and address books, the write loop, and putting the old object back on failure.
 */
module TypedPuts {
  import opened Results
  import opened DavPaths
  import opened PathValues
  import opened FsModel
  import opened FileContents
  import opened MemFiles
  import opened Copying
  import opened CopyMoves

  const BAD_REQUEST: nat := 400
  const METHOD_NOT_ALLOWED: nat := 405
  const LENGTH_REQUIRED: nat := 411
  const UNSUPPORTED_MEDIA_TYPE: nat := 415
  const RANGE_NOT_SATISFIABLE: nat := 416
  const SERVER_ERROR: nat := 500

  /** `X-Update-Range` */
  datatype UpdateRange = FromTo(b: U64, e: U64) | AllFrom(b: U64) | Last(n: U64) | AtEnd

  /** `Content-Range`; one that names no byte positions counts as absent. */
  datatype ContentRange = Absent | Positions(b: U64, e: U64) | Malformed

  /** What a PATCH says: does its Content-Type ask for the kind of patch there is, and its range, if it has one. */
  datatype Patch = Patch(supported: bool, range: Option<UpdateRange>)

  /** The parts of a request that decide what is written, and the verdict of its other conditions. */
  datatype PutRequest = PutRequest(
    badTimes: bool,                   // a time to be set is malformed
    patch: Option<Patch>,
    length: Option<U64>,
    contentRange: ContentRange,
    ifMatchStar: bool,
    ifNoneMatchStar: bool,
    refused: Option<nat>)             // status of a failed If or If-* header, or of a lock

  /** Where a body is to be written. */
  datatype Plan = Plan(start: nat, count: nat, haveCount: bool, doRange: bool, append: bool)

  /** A frame of the request body. */
  datatype Frame = Data(bytes: FileData) | Trailers | Broken

  type Capacity = n: nat | n <= ISIZE_MAX

  /**
   The vector that holds a file's bytes: what it was allocated for, which emptying it does not give back,
   and the sizes that the allocator would let it grow to.
   */
  datatype Room = Room(capacity: Capacity, grants: set<nat>) {
    predicate Has(end: nat) {
      end <= capacity || (end in grants && end <= ISIZE_MAX)
    }
  }

  // ---------------------------------------------------------------------------------------------
  // Ranges

  /** The PATCH part of the range checks; `len` is the length of the existing file, if there is one. */
  function PatchPlan(req: PutRequest, len: Option<nat>): Result<Plan, nat> {
    var count := if req.length.Some? then req.length.value else 0;
    if req.patch.None? then Ok(Plan(0, count, req.length.Some?, false, false))
    else if !req.patch.value.supported then Err(UNSUPPORTED_MEDIA_TYPE)
    else if req.length.None? then Err(LENGTH_REQUIRED)
    else if req.patch.value.range.None? then Err(BAD_REQUEST)
    else match req.patch.value.range.value
      case FromTo(b, e) =>
        if e < b || e - b + 1 > U64_MAX || e - b + 1 != count then Err(RANGE_NOT_SATISFIABLE)
        else Ok(Plan(b, count, true, true, false))
      case AllFrom(b) => Ok(Plan(b, count, true, true, false))
      case Last(n) =>
        if len.None? || n > len.value then Err(RANGE_NOT_SATISFIABLE)
        else Ok(Plan(len.value - n, count, true, true, false))
      case AtEnd => Ok(Plan(0, count, true, true, true))
  }

  /** The Content-Range part. */
  function RangePlan(req: PutRequest, p: Plan): Result<Plan, nat> {
    match req.contentRange
    case Absent => Ok(p)
    case Malformed => Err(BAD_REQUEST)
    case Positions(b, e) =>
      if e < b || e - b + 1 > U64_MAX then Err(RANGE_NOT_SATISFIABLE)
      else if p.haveCount && e - b + 1 != p.count then Err(RANGE_NOT_SATISFIABLE)
      else Ok(p.(start := b, count := e - b + 1, haveCount := true, doRange := true))
  }

  /** All range checks: the end must fit, and no hole may be left in an existing file. */
  function PlanOf(req: PutRequest, len: Option<nat>): Result<Plan, nat> {
    var first := PatchPlan(req, len);
    if first.Err? then first
    else
      var plan := RangePlan(req, first.value);
      if plan.Err? then plan
      else if plan.value.doRange && !plan.value.append && plan.value.start + plan.value.count > U64_MAX then
        Err(RANGE_NOT_SATISFIABLE)
      else if plan.value.doRange && !plan.value.append && len.Some? && plan.value.start > len.value then
        Err(RANGE_NOT_SATISFIABLE)
      else plan
  }

  predicate AppendAsked(req: PutRequest) {
    req.patch.Some? && req.patch.value.range == Some(AtEnd)
  }

  /** A range write is always of known length, fits, and leaves no hole in an existing file. */
  lemma PlansAreSafe(req: PutRequest, len: Option<nat>)
    requires PlanOf(req, len).Ok? && (len.Some? ==> len.value <= ISIZE_MAX)
    ensures var p := PlanOf(req, len).value;
            && p.start <= U64_MAX && p.count <= U64_MAX
            && (p.doRange ==> p.haveCount)
            && (p.doRange && !p.append ==> p.start + p.count <= U64_MAX && (len.Some? ==> p.start <= len.value))
            && (p.append <==> AppendAsked(req))
            && (!p.doRange <==> req.patch == None && req.contentRange == Absent)
  {
    var first := PatchPlan(req, len).value;
    assert first.start <= U64_MAX && first.count <= U64_MAX by {
      if req.patch.Some? {
        match req.patch.value.range.value {
          case Last(n) => assert first.start == len.value - n;
          case _ =>
        }
      }
    }
    if req.contentRange.Positions? {
      var b: U64 := req.contentRange.b;
      assert b <= U64_MAX;
    }
  }

  /** Without a range the whole file is meant: there is always a plan. */
  lemma PlainPlan(req: PutRequest, len: Option<nat>)
    requires req.patch == None && req.contentRange == Absent
    ensures PlanOf(req, len)
            == Ok(Plan(0, if req.length.Some? then req.length.value else 0, req.length.Some?, false, false))
  {}

  /**
   A Content-Range alone is accepted exactly if it is one, agrees with the announced length, ends where a file
   can end, and leaves no hole.
   */
  lemma ContentRangePlanIff(req: PutRequest, len: Option<nat>)
    requires req.patch == None && req.contentRange.Positions?
    ensures var (b, e) := (req.contentRange.b, req.contentRange.e);
            && (PlanOf(req, len).Ok? <==>
                  && b <= e && (req.length.Some? ==> req.length.value == e - b + 1)
                  && e < U64_MAX && (len.Some? ==> b <= len.value))
            && (PlanOf(req, len).Ok? ==> PlanOf(req, len).value == Plan(b, e - b + 1, true, true, false))
            && (PlanOf(req, len).Err? ==> PlanOf(req, len).error == 416)
  {}

  /** What a PATCH must have, whatever its range. */
  ghost predicate HasPatchHeaders(req: PutRequest) {
    req.patch.Some? && req.patch.value.supported && req.length.Some? && req.patch.value.range.Some?
  }

  /** A PATCH without a Content-Range is accepted exactly if it has its headers and this holds of its range. */
  lemma PatchPlanIff(req: PutRequest, len: Option<nat>)
    requires req.patch.Some? && req.contentRange == Absent
    ensures PlanOf(req, len).Ok? <==>
              && HasPatchHeaders(req)
              && var n := req.length.value;
                 match req.patch.value.range.value
                 case FromTo(b, e) => b <= e && n == e - b + 1 && e < U64_MAX && (len.Some? ==> b <= len.value)
                 case AllFrom(b) => b + n <= U64_MAX && (len.Some? ==> b <= len.value)
                 case Last(k) => len.Some? && k <= len.value && len.value - k + n <= U64_MAX
                 case AtEnd => true
  {}

  /** With a Content-Range as well, both must agree with the length; for an append nothing else matters. */
  lemma BothRangesPlanIff(req: PutRequest, len: Option<nat>)
    requires req.patch.Some? && req.contentRange.Positions?
    ensures PlanOf(req, len).Ok? <==>
              && HasPatchHeaders(req)
              && var (b, e, n) := (req.contentRange.b, req.contentRange.e, req.length.value);
                 && b <= e && n == e - b + 1
                 && match req.patch.value.range.value
                    case FromTo(b', e') => b' <= e' && n == e' - b' + 1 && e < U64_MAX && (len.Some? ==> b <= len.value)
                    case AllFrom(_) => e < U64_MAX && (len.Some? ==> b <= len.value)
                    case Last(k) => len.Some? && k <= len.value && e < U64_MAX && b <= len.value
                    case AtEnd => true
  {}

  /** What a range that is refused is answered with. */
  lemma PlanRefusals(req: PutRequest, len: Option<nat>)
    requires PlanOf(req, len).Err?
    ensures req.patch.Some? && !req.patch.value.supported ==> PlanOf(req, len).error == 415
    ensures req.patch.Some? && req.patch.value.supported && req.length == None ==> PlanOf(req, len).error == 411
    ensures req.patch.Some? && req.patch.value.supported && req.length.Some? && req.patch.value.range == None ==>
              PlanOf(req, len).error == 400
    ensures req.patch == None && req.contentRange == Malformed ==> PlanOf(req, len).error == 400
    ensures req.contentRange != Malformed && (req.patch.Some? ==> HasPatchHeaders(req)) ==>
              PlanOf(req, len).error == 416
  {}

  /** `resulting_resource_size`, with its saturating additions. */
  function ResultingSize(doRange: bool, append: bool, existing: nat, start: nat, written: nat): nat {
    if doRange then
      if append then Smaller(existing + written, U64_MAX) else Larger(existing, Smaller(start + written, U64_MAX))
    else written
  }

  // ---------------------------------------------------------------------------------------------
  // What the body amounts to

  function Pieces(frames: seq<Frame>): seq<Bytes> {
    if frames == [] then []
    else
      var before := Pieces(frames[..|frames| - 1]);
      match frames[|frames| - 1]
      case Data(bytes) => before + [bytes]
      case _ => before
  }

  function Body(frames: seq<Frame>): Bytes {
    Concat(Pieces(frames))
  }

  lemma NextFrame(frames: seq<Frame>, n: nat)
    requires n < |frames|
    ensures Pieces(frames[..n + 1]) == match frames[n]
                                       case Data(bytes) => Pieces(frames[..n]) + [bytes]
                                       case _ => Pieces(frames[..n])
    ensures Body(frames[..n + 1]) == match frames[n]
                                     case Data(bytes) => Body(frames[..n]) + bytes
                                     case _ => Body(frames[..n])
  {
    assert frames[..n + 1][..n] == frames[..n];
    var before := Pieces(frames[..n]);
    match frames[n] {
      case Data(bytes) => assert (before + [bytes])[..|before|] == before;
      case _ =>
    }
  }

  predicate Unbroken(frames: seq<Frame>) {
    Broken !in frames
  }

  /** Every write of a data frame, the first of them at `base`, finds room up to its end. */
  ghost predicate RoomFor(room: Room, base: nat, frames: seq<Frame>) {
    forall n {:trigger RoomAt(room, base, frames, n)} :: 0 <= n < |frames| ==> RoomAt(room, base, frames, n)
  }

  ghost predicate RoomAt(room: Room, base: nat, frames: seq<Frame>, n: nat)
    requires n < |frames|
  {
    frames[n].Data? ==> room.Has(base + |Body(frames[..n + 1])|)
  }

  ghost predicate AsAnnounced(plan: Plan, frames: seq<Frame>) {
    plan.haveCount ==> |Body(frames)| == plan.count
  }

  lemma {:induction false} BodyGrows(frames: seq<Frame>, n: nat)
    requires n <= |frames|
    ensures |Body(frames[..n])| <= |Body(frames)|
    ensures Pieces(frames[..n]) != [] ==> Pieces(frames) != []
    decreases |frames| - n
  {
    if n == |frames| {
      assert frames[..n] == frames;
    } else {
      BodyGrows(frames, n + 1);
      NextFrame(frames, n);
    }
  }

  /** Where the first byte of the body goes. */
  function Base(plan: Plan, existing: nat): nat {
    if plan.append then existing else plan.start
  }

  /** `c` put into a file at `start` or at its end; `some` says that anything was written at all. */
  function Laid(data: Bytes, start: nat, append: bool, c: Bytes, some: bool): Bytes {
    if append then data + c else if some then Spliced(data, start, c) else data
  }

  /** The contents after the pieces of a body have been written to a file, one write each. */
  function Written(data: Bytes, start: nat, append: bool, pieces: seq<Bytes>): Bytes {
    Laid(data, start, append, Concat(pieces), pieces != [])
  }

  lemma LaidOneMore(data: Bytes, start: nat, append: bool, c: Bytes, some: bool, b: Bytes)
    requires some || c == []
    ensures Laid(data, start, append, c + b, true)
            == if append then Laid(data, start, append, c, some) + b
               else Spliced(Laid(data, start, append, c, some), start + |c|, b)
  {
    if append {
      Associative(data, c, b);
    } else if some {
      SplicedTwice(data, start, c, b);
    } else {
      assert c + b == b;
    }
  }

  lemma ConcatOneMore(pieces: seq<Bytes>, b: Bytes)
    ensures Concat(pieces + [b]) == Concat(pieces) + b
  {
    assert (pieces + [b])[..|pieces|] == pieces;
  }

  lemma Associative(a: Bytes, b: Bytes, c: Bytes)
    ensures a + (b + c) == (a + b) + c
  {}

  /** The predicted size is never less than what the file ends up with. */
  lemma PredictionNeverUnderestimates(data: Bytes, start: nat, append: bool, pieces: seq<Bytes>)
    requires |Written(data, start, append, pieces)| <= ISIZE_MAX
    ensures |Written(data, start, append, pieces)| <= ResultingSize(true, append, |data|, start, |Concat(pieces)|)
    ensures |Written([], 0, false, pieces)| == ResultingSize(false, false, |data|, start, |Concat(pieces)|)
  {
    assert pieces == [] ==> Concat(pieces) == [];
    if pieces != [] && !append {
      var z := ZeroExtended(data, start + |Concat(pieces)|);
      assert |Spliced(data, start, Concat(pieces))| == |z|;
    }
    assert pieces != [] ==> |Spliced([], 0, Concat(pieces))| == |Concat(pieces)|;
  }

  lemma SplicedInside(data: Bytes, start: nat, body: Bytes)
    requires start <= |data|
    ensures Spliced(data, start, body) == data[..start] + body + data[Smaller(start + |body|, |data|)..]
  {
    var left, right := Spliced(data, start, body), data[..start] + body + data[Smaller(start + |body|, |data|)..];
    assert |left| == |right|;
    forall k | 0 <= k < |left| ensures left[k] == right[k] {
      SplicedByte(data, start, body, k);
    }
  }

  /**
   What a range write to an existing file means: the body replaces the bytes from where it lands. A Content-Range
   decides where that is, whatever else is asked for, but for an append, which goes to the end all the same.
   */
  lemma RangeWriteMeans(req: PutRequest, data: FileData, frames: seq<Frame>)
    requires PlanOf(req, Some(|data|)).Ok? && PlanOf(req, Some(|data|)).value.doRange
    requires |Body(frames)| == PlanOf(req, Some(|data|)).value.count
    ensures var p, body := PlanOf(req, Some(|data|)).value, Body(frames);
            var landing := Base(p, |data|);
            && landing <= |data|
            && Written(data, p.start, p.append, Pieces(frames))
               == data[..landing] + body + data[Smaller(landing + |body|, |data|)..]
            && (p.append ==> landing == |data|)
            && (!p.append ==> landing == p.start)
            && (req.contentRange.Positions? ==>
                  && p.start == req.contentRange.b && p.start + |body| == req.contentRange.e + 1
                  && (landing == req.contentRange.b <==> !AppendAsked(req) || req.contentRange.b == |data|))
            && (!req.contentRange.Positions? ==>
                  && req.patch.Some? && req.patch.value.range.Some?
                  && StartsAsAsked(req.patch.value.range.value, p.start, p.append, |body|, |data|))
  {
    PlansAreSafe(req, Some(|data|));
    var p, body := PlanOf(req, Some(|data|)).value, Body(frames);
    if p.append {
      assert data + body == data[..|data|] + body + data[|data|..];
    } else {
      SplicedInside(data, p.start, body);
      if Pieces(frames) == [] {
        assert data == data[..p.start] + [] + data[p.start..];
      }
    }
  }

  /** A PATCH that appends, with a Content-Range for the start of the file: its bytes go to the end. */
  lemma AppendIgnoresContentRange(data: FileData, body: FileData)
    requires data != [] && body != []
    ensures var req := PutRequest(false, Some(Patch(true, Some(AtEnd))), Some(|body|), Positions(0, |body| - 1), false,
                                  false, None);
            && PlanOf(req, Some(|data|)).Ok?
            && var p := PlanOf(req, Some(|data|)).value;
               && p.start == 0 && p.count == |body|
               && Written(data, p.start, p.append, Pieces([Data(body)])) == data + body != Spliced(data, 0, body)
  {
    NextFrame([Data(body)], 0);
    assert [Data(body)][..1] == [Data(body)];
    ConcatOneMore([], body);
    assert [] + [body] == [body] && [] + body == body;
    assert |data + body| > |Spliced(data, 0, body)|;
  }

  /** A range write to a file that is not there yet: zeros up to where the range starts, if anything comes at all. */
  lemma RangeWriteToNewFile(req: PutRequest, frames: seq<Frame>)
    requires PlanOf(req, None).Ok? && PlanOf(req, None).value.doRange
    ensures var p, body := PlanOf(req, None).value, Body(frames);
            Written([], p.start, p.append, Pieces(frames))
            == if AppendAsked(req) || Pieces(frames) == [] then body else Zeros(p.start) + body
  {
    PlansAreSafe(req, None);
    assert [] + Body(frames) == Body(frames);
  }

  ghost predicate StartsAsAsked(range: UpdateRange, start: nat, append: bool, written: nat, len: nat) {
    match range
    case FromTo(b, e) => !append && start == b && start + written == e + 1
    case AllFrom(b) => !append && start == b
    case Last(n) => !append && start + n == len
    case AtEnd => append
  }

  // ---------------------------------------------------------------------------------------------
  // Writing

  /** `file` is open on the file at `p`. */
  ghost predicate Writing(fs: MemFs, file: MemFsFile, p: Path)
    reads fs, fs.tree, file, file.tree
  {
    && fs.Valid() && file.tree == fs.tree && file.OnFile() && file.pos <= USIZE_MAX
    && fs.tree.entries[file.nodeId].path == p
  }

  method WriteFrame(fs: MemFs, file: MemFsFile, ghost p: Path, buf: FileData, allocOk: bool) returns (r: FsResult<()>)
    requires Writing(fs, file, p)
    modifies fs.tree, file`pos
    ensures Writing(fs, file, p) && p in old(fs.View()) && old(fs.View())[p].File?
    ensures var m := old(fs.View());
            var (result, data', pos') := WriteAt(m[p].data, old(file.pos), file.append, buf, allocOk);
            r == result && file.pos == pos' && fs.View() == WithData(m, p, data')
  {
    ghost var e, data, pos := fs.tree.entries, fs.tree.entries[file.nodeId].data, file.pos;
    TreeViews.LabelledPathsUnique(fs.tree.nodes, e);
    NodeShown(e, file.nodeId);
    r := file.WriteBytes(buf, allocOk);
    ghost var data' := WriteAt(data.data, pos, file.append, buf, allocOk).1;
    SetIsShown(e, file.nodeId, File(data.props, data'));
    WithDataKeepsWellFormed(TreeViews.ViewOf(e), p, data');
  }

  /** These pieces of the body have been written to the file at `p`. */
  ghost predicate Contains(m: FsMap, p: Path, plan: Plan, pieces: seq<Bytes>, m': FsMap) {
    && p in m && m[p].File?
    && |Written(m[p].data, plan.start, plan.append, pieces)| <= ISIZE_MAX
    && m' == WithData(m, p, Written(m[p].data, plan.start, plan.append, pieces))
  }

  lemma NothingWritten(m: FsMap, p: Path, plan: Plan)
    requires p in m && m[p].File?
    ensures Contains(m, p, plan, [], m)
  {
    var data := m[p].data;
    assert data + [] == data;
    assert WithData(m, p, data) == m;
  }

  /** What one more write leaves in the file. */
  lemma LaidByWrite(data: Bytes, start: nat, append: bool, c: Bytes, some: bool, pos: nat, buf: FileData, allocOk: bool)
    requires |Laid(data, start, append, c, some)| <= ISIZE_MAX && (some || c == [])
    requires !append ==> pos == start + |c|
    ensures var current: FileData := Laid(data, start, append, c, some);
            var (r, data', pos') := WriteAt(current, pos, append, buf, allocOk);
            && data' == (if r.Ok? then Laid(data, start, append, c + buf, true) else current)
            && (r.Ok? && !append ==> pos' == pos + |buf|)
  {
    LaidOneMore(data, start, append, c, some, buf);
    if append { AppendIsConcat(Laid(data, start, append, c, some), buf); }
  }

  lemma PieceContained(m: FsMap, p: Path, plan: Plan, pieces: seq<Bytes>, mn: FsMap, pos: nat, buf: FileData,
                       allocOk: bool)
    requires Contains(m, p, plan, pieces, mn) && (!plan.append ==> pos == plan.start + |Concat(pieces)|)
    ensures p in mn && mn[p].File?
    ensures |Concat(pieces + [buf])| == |Concat(pieces)| + |buf|
    ensures var (r, data', pos') := WriteAt(mn[p].data, pos, plan.append, buf, allocOk);
            && Contains(m, p, plan, if r.Ok? then pieces + [buf] else pieces, WithData(mn, p, data'))
            && (r.Ok? && !plan.append ==> pos' == plan.start + |Concat(pieces + [buf])|)
  {
    var current: FileData := Written(m[p].data, plan.start, plan.append, pieces);
    ConcatOneMore(pieces, buf);
    LaidByWrite(m[p].data, plan.start, plan.append, Concat(pieces), pieces != [], pos, buf, allocOk);
    var data' := WriteAt(current, pos, plan.append, buf, allocOk).1;
    assert mn[p].data == current;
    assert WithData(mn, p, data') == WithData(m, p, data');
  }

  /** Would a body of this many bytes so far make the file too large? */
  predicate Exceeds(plan: Plan, limit: Option<nat>, existing: nat, total: nat) {
    limit.Some? && ResultingSize(plan.doRange, plan.append, existing, plan.start, total) > limit.value
  }

  /** `total` bytes of the body have been written in `pieces`, and the file is where that leaves it. */
  ghost predicate Progress(m: FsMap, p: Path, plan: Plan, pieces: seq<Bytes>, total: nat, m': FsMap, pos: nat) {
    Contains(m, p, plan, pieces, m') && total == |Concat(pieces)| && (!plan.append ==> pos == plan.start + total)
  }

  /** There was room for a file of length `len` and for what was written to it so far. */
  ghost predicate Roomy(room: Room, plan: Plan, len: nat, pieces: seq<Bytes>, total: nat) {
    len <= room.capacity && (pieces != [] ==> room.Has(Base(plan, len) + total))
  }

  lemma PieceProgresses(m: FsMap, p: Path, plan: Plan, pieces: seq<Bytes>, total: nat, mn: FsMap, pos: nat,
                        buf: FileData, allocOk: bool)
    requires Progress(m, p, plan, pieces, total, mn, pos)
    ensures p in mn && mn[p].File?
    ensures var (r, data', pos') := WriteAt(mn[p].data, pos, plan.append, buf, allocOk);
            if r.Ok? then Progress(m, p, plan, pieces + [buf], total + |buf|, WithData(mn, p, data'), pos')
            else Contains(m, p, plan, pieces, WithData(mn, p, data'))
  {
    PieceContained(m, p, plan, pieces, mn, pos, buf, allocOk);
  }

  /** Whether this write succeeds is a matter of room alone. */
  ghost predicate WriteDecided(data: FileData, pos: nat, append: bool, buf: Bytes, hasRoom: bool) {
    WriteAt(data, pos, append, buf, hasRoom).0.Ok? == hasRoom
  }

  /** The next write succeeds exactly if there is room for it. */
  lemma RoomDecides(m: FsMap, p: Path, plan: Plan, room: Room, pieces: seq<Bytes>, total: nat, mn: FsMap, pos: nat,
                    buf: FileData, end: nat)
    requires Progress(m, p, plan, pieces, total, mn, pos) && Roomy(room, plan, |m[p].data|, pieces, total)
    requires end == Base(plan, |m[p].data|) + (total + |buf|)
    ensures p in mn && mn[p].File?
    ensures WriteDecided(mn[p].data, pos, plan.append, buf, room.Has(end))
  {
    WrittenLength(m[p].data, plan.start, plan.append, pieces);
    EndDecides(mn[p].data, |m[p].data|, plan, room, pieces != [], total, pos, buf, end);
  }

  lemma EndDecides(data: FileData, existing: nat, plan: Plan, room: Room, some: bool, total: nat, pos: nat,
                   buf: FileData, end: nat)
    requires |data| == if plan.append then existing + total
                       else if some then Larger(existing, plan.start + total) else existing
    requires (some || total == 0) && (plan.append || pos == plan.start + total)
    requires existing <= room.capacity && (some ==> room.Has(Base(plan, existing) + total))
    requires end == Base(plan, existing) + (total + |buf|)
    ensures WriteDecided(data, pos, plan.append, buf, room.Has(end))
  {}

  lemma WrittenLength(data: Bytes, start: nat, append: bool, pieces: seq<Bytes>)
    ensures |Written(data, start, append, pieces)| ==
            if append then |data| + |Concat(pieces)|
            else if pieces == [] then |data|
            else Larger(|data|, start + |Concat(pieces)|)
  {
    if !append && pieces != [] {
      var z := ZeroExtended(data, start + |Concat(pieces)|);
      assert |Spliced(data, start, Concat(pieces))| == |z|;
    }
  }

  /** The checks of the write loop, for a body that has come to `total` bytes. */
  function PieceRefusal(plan: Plan, limit: Option<nat>, existing: nat, total: nat): Option<nat> {
    if Exceeds(plan, limit, existing, total) then Some(FORBIDDEN)
    else if plan.haveCount && total > plan.count then Some(BAD_REQUEST)
    else None
  }

  /** With its next frame, has the body come to a length that can be accepted? */
  ghost predicate PieceFits(plan: Plan, limit: Option<nat>, existing: nat, room: Room, total: nat) {
    PieceRefusal(plan, limit, existing, total) == None && room.Has(Base(plan, existing) + total)
  }

  /** One data frame of the write loop: the size limit, the announced length, and the write. */
  method WritePiece(fs: MemFs, file: MemFsFile, ghost p: Path, ghost m: FsMap, plan: Plan, limit: Option<nat>,
                    existing: nat,
                    room: Room, total: nat, ghost pieces: seq<Bytes>, buf: FileData, ghost next: seq<Bytes>)
    returns (r: Result<(), nat>)
    requires Writing(fs, file, p) && file.append == plan.append && next == pieces + [buf] && total >= |buf|
    requires Progress(m, p, plan, pieces, total - |buf|, fs.View(), file.pos)
    requires Roomy(room, plan, |m[p].data|, pieces, total - |buf|) && (plan.append ==> existing == |m[p].data|)
    modifies fs.tree, file`pos
    ensures Writing(fs, file, p)
    ensures r.Ok? == PieceFits(plan, limit, existing, room, total)
    ensures if r.Ok? then Progress(m, p, plan, next, total, fs.View(), file.pos)
            else Contains(m, p, plan, pieces, fs.View())
  {
    var refused := PieceRefusal(plan, limit, existing, total);
    if refused.Some? {
      return Err(refused.value);
    }
    var end := Base(plan, existing) + total;
    assert PieceFits(plan, limit, existing, room, total) == room.Has(end);
    var written := WriteNext(fs, file, p, m, plan, room, total, pieces, buf, end, next);
    r := if written.Ok? then Ok(()) else Err(SERVER_ERROR);
  }

  method WriteNext(fs: MemFs, file: MemFsFile, ghost p: Path, ghost m: FsMap, ghost plan: Plan, room: Room,
                   ghost total: nat, ghost pieces: seq<Bytes>, buf: FileData, end: nat, ghost next: seq<Bytes>)
    returns (r: FsResult<()>)
    requires Writing(fs, file, p) && file.append == plan.append && next == pieces + [buf] && total >= |buf|
    requires Progress(m, p, plan, pieces, total - |buf|, fs.View(), file.pos)
    requires Roomy(room, plan, |m[p].data|, pieces, total - |buf|) && end == Base(plan, |m[p].data|) + total
    modifies fs.tree, file`pos
    ensures Writing(fs, file, p) && r.Ok? == room.Has(end)
    ensures if r.Ok? then Progress(m, p, plan, next, total, fs.View(), file.pos)
            else Contains(m, p, plan, pieces, fs.View())
  {
    RoomDecides(m, p, plan, room, pieces, total - |buf|, fs.View(), file.pos, buf, end);
    PieceProgresses(m, p, plan, pieces, total - |buf|, fs.View(), file.pos, buf, room.Has(end));
    r := WriteFrame(fs, file, p, buf, room.Has(end));
  }

  lemma AllFrames(frames: seq<Frame>)
    ensures Pieces(frames[..0]) == [] && Pieces(frames[..|frames|]) == Pieces(frames)
  {
    assert frames[..0] == [] && frames[..|frames|] == frames;
  }

  /** When the write loop gets through. */
  ghost predicate BodyFits(frames: seq<Frame>, plan: Plan, limit: Option<nat>, existing: nat, base: nat, room: Room) {
    && Unbroken(frames) && AsAnnounced(plan, frames) && RoomFor(room, base, frames)
    && (Pieces(frames) != [] ==> !Exceeds(plan, limit, existing, |Body(frames)|))
  }

  lemma ExceedsMore(plan: Plan, limit: Option<nat>, existing: nat, a: nat, b: nat)
    requires a <= b && Exceeds(plan, limit, existing, a)
    ensures Exceeds(plan, limit, existing, b)
  {}

  /** A frame at which the loop gives up, for this very reason. */
  lemma FrameFails(frames: seq<Frame>, n: nat, plan: Plan, limit: Option<nat>, existing: nat, base: nat, room: Room)
    requires n < |frames|
    requires frames[n].Broken? ||
             (frames[n].Data? &&
              var total := |Body(frames[..n])| + |frames[n].bytes|;
              || Exceeds(plan, limit, existing, total) || (plan.haveCount && total > plan.count)
              || !room.Has(base + total))
    ensures !BodyFits(frames, plan, limit, existing, base, room)
  {
    if frames[n].Data? {
      assert RoomFor(room, base, frames) ==> RoomAt(room, base, frames, n);
      NextFrame(frames, n);
      BodyGrows(frames, n + 1);
      var total := |Body(frames[..n])| + |frames[n].bytes|;
      if Exceeds(plan, limit, existing, total) {
        ExceedsMore(plan, limit, existing, total, |Body(frames)|);
      }
    }
  }

  /** What the loop has seen of the first `n` frames. */
  ghost predicate SeenFit(frames: seq<Frame>, n: nat, plan: Plan, limit: Option<nat>, existing: nat, base: nat,
                          room: Room)
    requires n <= |frames|
  {
    && Unbroken(frames[..n]) && RoomFor(room, base, frames[..n])
    && (Pieces(frames[..n]) != [] ==> !Exceeds(plan, limit, existing, |Body(frames[..n])|))
  }

  lemma SeesNext(frames: seq<Frame>, n: nat, plan: Plan, limit: Option<nat>, existing: nat, base: nat, room: Room,
                 total: nat)
    requires n < |frames| && SeenFit(frames, n, plan, limit, existing, base, room) && !frames[n].Broken?
    requires frames[n].Data? ==>
               && total == |Body(frames[..n])| + |frames[n].bytes|
               && !Exceeds(plan, limit, existing, total) && room.Has(base + total)
    ensures SeenFit(frames, n + 1, plan, limit, existing, base, room)
  {
    NextFrame(frames, n);
    var now := frames[..n + 1];
    assert now[..n] == frames[..n];
    forall k | 0 <= k < |now| ensures RoomAt(room, base, now, k) {
      if k < n {
        assert RoomAt(room, base, frames[..n], k);
        assert frames[..n][k] == now[k];
        assert frames[..n][..k + 1] == now[..k + 1];
      } else {
        assert now[..k + 1] == now;
      }
    }
  }

  lemma SeenAll(frames: seq<Frame>, plan: Plan, limit: Option<nat>, existing: nat, base: nat, room: Room)
    requires SeenFit(frames, |frames|, plan, limit, existing, base, room)
    ensures BodyFits(frames, plan, limit, existing, base, room) <==> AsAnnounced(plan, frames)
  {
    assert frames[..|frames|] == frames;
  }

  /** Where the write loop stands before frame `n`. */
  ghost predicate AtFrame(m: FsMap, p: Path, frames: seq<Frame>, n: nat, plan: Plan, limit: Option<nat>, existing: nat,
                          room: Room, pieces: seq<Bytes>, total: nat, m': FsMap, pos: nat)
    requires n <= |frames|
  {
    && Progress(m, p, plan, pieces, total, m', pos) && Roomy(room, plan, |m[p].data|, pieces, total)
    && pieces == Pieces(frames[..n])
    && SeenFit(frames, n, plan, limit, existing, Base(plan, existing), room)
    && (plan.haveCount ==> total <= plan.count)
  }

  lemma AtStart(m: FsMap, p: Path, frames: seq<Frame>, plan: Plan, limit: Option<nat>, existing: nat, room: Room,
                pos: nat)
    requires p in m && m[p].File? && |m[p].data| <= room.capacity && (!plan.append ==> pos == plan.start)
    ensures AtFrame(m, p, frames, 0, plan, limit, existing, room, [], 0, m, pos)
  {
    AllFrames(frames);
    NothingWritten(m, p, plan);
  }

  lemma PastTrailers(m: FsMap, p: Path, frames: seq<Frame>, n: nat, plan: Plan, limit: Option<nat>, existing: nat,
                     room: Room, pieces: seq<Bytes>, total: nat, m': FsMap, pos: nat)
    requires n < |frames| && frames[n].Trailers?
    requires AtFrame(m, p, frames, n, plan, limit, existing, room, pieces, total, m', pos)
    ensures AtFrame(m, p, frames, n + 1, plan, limit, existing, room, pieces, total, m', pos)
  {
    NextFrame(frames, n);
    SeesNext(frames, n, plan, limit, existing, Base(plan, existing), room, total);
  }

  lemma PastData(m: FsMap, p: Path, frames: seq<Frame>, n: nat, plan: Plan, limit: Option<nat>, existing: nat,
                 room: Room, pieces: seq<Bytes>, total: nat, m1: FsMap, pos1: nat, next: seq<Bytes>, total': nat,
                 m2: FsMap, pos2: nat)
    requires n < |frames| && frames[n].Data?
    requires AtFrame(m, p, frames, n, plan, limit, existing, room, pieces, total, m1, pos1)
    requires next == pieces + [frames[n].bytes] && total' == total + |frames[n].bytes|
    requires PieceFits(plan, limit, existing, room, total') && (plan.append ==> existing == |m[p].data|)
    requires Progress(m, p, plan, next, total', m2, pos2)
    ensures AtFrame(m, p, frames, n + 1, plan, limit, existing, room, next, total', m2, pos2)
  {
    assert Body(frames[..n]) == Concat(pieces);
    DataSeen(frames, n, plan, limit, existing, Base(plan, existing), room, total');
    StaysRoomy(room, plan, limit, existing, |m[p].data|, pieces, total, next, total');
    assert next == Pieces(frames[..n + 1]);
  }

  lemma StaysRoomy(room: Room, plan: Plan, limit: Option<nat>, existing: nat, len: nat, pieces: seq<Bytes>, total: nat,
                   next: seq<Bytes>, total': nat)
    requires Roomy(room, plan, len, pieces, total) && (plan.append ==> existing == len)
    requires PieceFits(plan, limit, existing, room, total')
    ensures Roomy(room, plan, len, next, total')
  {
    assert Base(plan, existing) == Base(plan, len);
  }

  lemma DataSeen(frames: seq<Frame>, n: nat, plan: Plan, limit: Option<nat>, existing: nat, base: nat, room: Room,
                 total: nat)
    requires n < |frames| && frames[n].Data? && SeenFit(frames, n, plan, limit, existing, base, room)
    requires total == |Body(frames[..n])| + |frames[n].bytes|
    requires !Exceeds(plan, limit, existing, total) && room.Has(base + total)
    ensures SeenFit(frames, n + 1, plan, limit, existing, base, room)
    ensures Pieces(frames[..n + 1]) == Pieces(frames[..n]) + [frames[n].bytes]
  {
    NextFrame(frames, n);
    SeesNext(frames, n, plan, limit, existing, base, room, total);
  }

  lemma StopsAtData(m: FsMap, p: Path, frames: seq<Frame>, n: nat, plan: Plan, limit: Option<nat>, existing: nat,
                    room: Room, pieces: seq<Bytes>, total: nat, m1: FsMap, pos1: nat)
    requires n < |frames| && frames[n].Data?
    requires AtFrame(m, p, frames, n, plan, limit, existing, room, pieces, total, m1, pos1)
    requires !PieceFits(plan, limit, existing, room, total + |frames[n].bytes|)
    ensures !BodyFits(frames, plan, limit, existing, Base(plan, existing), room)
  {
    FrameFails(frames, n, plan, limit, existing, Base(plan, existing), room);
  }

  lemma AtLastFrame(m: FsMap, p: Path, frames: seq<Frame>, plan: Plan, limit: Option<nat>, existing: nat,
              room: Room, pieces: seq<Bytes>, total: nat, m': FsMap, pos: nat)
    requires AtFrame(m, p, frames, |frames|, plan, limit, existing, room, pieces, total, m', pos)
    ensures pieces == Pieces(frames) && Contains(m, p, plan, pieces, m')
    ensures BodyFits(frames, plan, limit, existing, Base(plan, existing), room) <==>
              !(plan.haveCount && total < plan.count)
  {
    AllFrames(frames);
    SeenAll(frames, plan, limit, existing, Base(plan, existing), room);
  }

  /** One round of the write loop. */
  method TakeFrame(fs: MemFs, file: MemFsFile, ghost p: Path, ghost m: FsMap, frames: seq<Frame>, n: nat, plan: Plan,
                   limit: Option<nat>, existing: nat, room: Room, total: nat, ghost pieces: seq<Bytes>)
    returns (r: Result<(), nat>, total': nat, ghost pieces': seq<Bytes>)
    requires Writing(fs, file, p) && file.append == plan.append && p in m && m[p].File? && n < |frames|
    requires plan.append ==> existing == |m[p].data|
    requires AtFrame(m, p, frames, n, plan, limit, existing, room, pieces, total, fs.View(), file.pos)
    modifies fs.tree, file`pos
    ensures Writing(fs, file, p)
    ensures r.Ok? ==> AtFrame(m, p, frames, n + 1, plan, limit, existing, room, pieces', total', fs.View(), file.pos)
    ensures r.Err? ==> Contains(m, p, plan, pieces', fs.View())
    ensures r.Err? ==> !BodyFits(frames, plan, limit, existing, Base(plan, existing), room)
  {
    match frames[n] {
      case Broken =>
        FrameFails(frames, n, plan, limit, existing, Base(plan, existing), room);
        r, total', pieces' := Err(SERVER_ERROR), total, pieces;
      case Trailers =>
        PastTrailers(m, p, frames, n, plan, limit, existing, room, pieces, total, fs.View(), file.pos);
        r, total', pieces' := Ok(()), total, pieces;
      case Data(_) =>
        r, total', pieces' := TakeData(fs, file, p, m, frames, n, plan, limit, existing, room, total, pieces);
    }
  }

  method TakeData(fs: MemFs, file: MemFsFile, ghost p: Path, ghost m: FsMap, frames: seq<Frame>, n: nat, plan: Plan,
                  limit: Option<nat>, existing: nat, room: Room, total: nat, ghost pieces: seq<Bytes>)
    returns (r: Result<(), nat>, total': nat, ghost pieces': seq<Bytes>)
    requires Writing(fs, file, p) && file.append == plan.append && p in m && m[p].File?
    requires n < |frames| && frames[n].Data? && (plan.append ==> existing == |m[p].data|)
    requires AtFrame(m, p, frames, n, plan, limit, existing, room, pieces, total, fs.View(), file.pos)
    modifies fs.tree, file`pos
    ensures Writing(fs, file, p)
    ensures r.Ok? ==> AtFrame(m, p, frames, n + 1, plan, limit, existing, room, pieces', total', fs.View(), file.pos)
    ensures r.Err? ==> Contains(m, p, plan, pieces', fs.View())
    ensures r.Err? ==> !BodyFits(frames, plan, limit, existing, Base(plan, existing), room)
  {
    ghost var m1, pos1 := fs.View(), file.pos;
    ghost var next := pieces + [frames[n].bytes];
    total' := total + |frames[n].bytes|;
    r := WritePiece(fs, file, p, m, plan, limit, existing, room, total', pieces, frames[n].bytes, next);
    if r.Ok? {
      PastData(m, p, frames, n, plan, limit, existing, room, pieces, total, m1, pos1, next, total', fs.View(),
               file.pos);
      pieces' := next;
    } else {
      StopsAtData(m, p, frames, n, plan, limit, existing, room, pieces, total, m1, pos1);
      pieces' := pieces;
    }
  }

  /**
   The write loop. `pieces` are the frames that were written: all of them on success. It succeeds exactly if
   the body comes in unbroken and as long as announced, within the limit, and there is room for every write.
   */
  method WriteBody(fs: MemFs, file: MemFsFile, ghost p: Path, frames: seq<Frame>, plan: Plan, limit: Option<nat>,
                   existing: nat, room: Room) returns (r: Result<(), nat>, ghost pieces: seq<Bytes>)
    requires Writing(fs, file, p) && file.append == plan.append && (!plan.append ==> file.pos == plan.start)
    requires p in fs.View() && fs.View()[p].File? && |fs.View()[p].data| <= room.capacity
    requires plan.append ==> existing == |fs.View()[p].data|
    modifies fs.tree, file`pos
    ensures Writing(fs, file, p) && Contains(old(fs.View()), p, plan, pieces, fs.View())
    ensures r.Ok? ==> pieces == Pieces(frames)
    ensures r.Ok? == BodyFits(frames, plan, limit, existing, Base(plan, existing), room)
  {
    ghost var m := fs.View();
    AtStart(m, p, frames, plan, limit, existing, room, file.pos);
    var total: nat := 0;
    pieces := [];
    for n := 0 to |frames|
      invariant Writing(fs, file, p)
      invariant AtFrame(m, p, frames, n, plan, limit, existing, room, pieces, total, fs.View(), file.pos)
    {
      r, total, pieces := TakeFrame(fs, file, p, m, frames, n, plan, limit, existing, room, total, pieces);
      if r.Err? {
        return;
      }
    }
    AtLastFrame(m, p, frames, plan, limit, existing, room, pieces, total, fs.View(), file.pos);
    if plan.haveCount && total < plan.count {
      return Err(BAD_REQUEST), pieces;
    }
    r := Ok(());
  }

  // ---------------------------------------------------------------------------------------------
  // Staging and restoring

  /** A whole object as it must come in: unbroken, bounded, as long as announced, and valid. */
  ghost predicate CanStage(frames: seq<Frame>, plan: Plan, kind: CollectionKind,
                           validFor: (CollectionKind, Bytes) -> bool) {
    && Unbroken(frames) && AsAnnounced(plan, frames)
    && |Body(frames)| <= MAX_RESOURCE_SIZE && validFor(kind, Body(frames))
  }

  /** Read a whole object before anything is opened. */
  method Stage(frames: seq<Frame>, plan: Plan, kind: CollectionKind, validFor: (CollectionKind, Bytes) -> bool)
    returns (r: Result<Bytes, nat>)
    ensures r.Ok? <==> CanStage(frames, plan, kind, validFor)
    ensures r.Ok? ==> r.value == Body(frames)
  {
    var bytes := [];
    assert frames[..0] == [];
    for n := 0 to |frames|
      invariant bytes == Body(frames[..n]) && |bytes| <= MAX_RESOURCE_SIZE
      invariant Unbroken(frames[..n])
    {
      NextFrame(frames, n);
      BodyGrows(frames, n + 1);
      match frames[n] {
        case Broken => return Err(SERVER_ERROR);
        case Trailers =>
        case Data(data) =>
          var total := |bytes| + |data|;
          if total > MAX_RESOURCE_SIZE {
            return Err(FORBIDDEN);
          }
          if plan.haveCount && total > plan.count {
            return Err(BAD_REQUEST);
          }
          bytes := bytes + data;
      }
    }
    assert frames[..|frames|] == frames;
    if plan.haveCount && |bytes| != plan.count {
      return Err(BAD_REQUEST);
    }
    if !validFor(kind, bytes) {
      return Err(FORBIDDEN);
    }
    r := Ok(bytes);
  }

  /** Opening for a write changes at most the file itself, and a failed open changes nothing. */
  lemma OpenedAt(m: FsMap, p: Path, oo: OpenOptions)
    requires WellFormed(m) && (p in m ==> m[p].File?)
    ensures var (r, m') := Open(m, p, oo);
            && (r.Err? ==> m' == m)
            && (r.Ok? ==>
                  && p in m' && m'[p].File? && OnlyChanged(m, p, m')
                  && m'[p].props == (if p in m then m[p].props else map[])
                  && m'[p].data == (if p in m && !oo.truncate then m[p].data else []))
  {
    ResolvesIffStored(m, p);
  }

  lemma WrittenWhole(b: Bytes)
    ensures Spliced([], 0, b) == b
  {
    AppendIsConcat([], b);
    assert [] + b == b;
  }

  /** `restore_resource_bytes`: put the old bytes back. The emptied vector still has the room for them. */
  method RestoreBytes(fs: MemFs, path: DavPath, bytes: FileData, room: Room)
    requires fs.Valid() && path.Valid() && path.Places() in fs.View() && fs.View()[path.Places()].File?
    requires |bytes| <= room.capacity
    modifies fs.tree
    ensures fs.Valid()
    ensures fs.View() == WithData(old(fs.View()), path.Places(), bytes)
  {
    ghost var m, p := fs.View(), path.Places();
    RestoreSteps(m, p, bytes);
    var file := fs.DoOpen(path.AsBytes(), OpenOptions(false, true, true, false));
    var written := WriteFrame(fs, file.value, p, bytes, room.Has(|bytes|));
  }

  lemma RestoreSteps(m: FsMap, p: Path, bytes: FileData)
    requires WellFormed(m) && p in m && m[p].File?
    ensures Open(m, p, OpenOptions(false, true, true, false)) == (Ok(()), WithData(m, p, []))
    ensures WriteAt([], 0, false, bytes, true).1 == bytes
    ensures forall d: FileData :: WithData(WithData(m, p, []), p, d) == WithData(m, p, d)
  {
    ResolvesIffStored(m, p);
    WrittenWhole(bytes);
    var m1 := WithData(m, p, []);
    forall d: FileData ensures WithData(m1, p, d) == WithData(m, p, d) {}
  }

  /** `restore_or_remove_typed`: back to the old bytes, or away with what was created. */
  method RestoreOrRemove(fs: MemFs, path: DavPath, restore: Option<FileData>, room: Room)
    requires fs.Valid() && path.Valid() && path.Places() in fs.View() && fs.View()[path.Places()].File?
    requires restore.Some? ==> |restore.value| <= room.capacity
    modifies fs.tree
    ensures fs.Valid()
    ensures fs.View() == match restore
                         case Some(bytes) => WithData(old(fs.View()), path.Places(), bytes)
                         case None => old(fs.View()) - {path.Places()}
  {
    match restore {
      case Some(bytes) => RestoreBytes(fs, path, bytes, room);
      case None =>
        ghost var m, p := fs.View(), path.Places();
        ResolvesIffStored(m, p);
        assert HasParentDir(m, p);
        ResolvesIffStored(m, Init(p));
        FileIsLeaf(m, p);
        var removed := fs.Remove(path.AsBytes());
    }
  }

  lemma FileIsLeaf(m: FsMap, p: Path)
    requires WellFormed(m) && p in m && m[p].File?
    ensures p != [] && !HasChildren(m, p)
  {
    forall q | q in m ensures !(p < q) { AncestorStored(m, p, q); }
  }

  // ---------------------------------------------------------------------------------------------
  // PUT and PATCH

  /** The kind of the collection that an object is in, if any. */
  ghost function ParentKind(m: FsMap, p: Path): CollectionKind {
    if Init(p) in m then KindOf(m[Init(p)]) else Plain
  }

  /** What a successful request leaves in the file. */
  ghost function Stored(m: FsMap, p: Path, plan: Plan, frames: seq<Frame>): Bytes {
    Written(if plan.doRange && p in m && m[p].File? then m[p].data else [], plan.start, plan.append, Pieces(frames))
  }

  /** What the request does to the filesystem. */
  ghost predicate PutEffect(m: FsMap, p: Path, plan: Plan, frames: seq<Frame>,
                            validFor: (CollectionKind, Bytes) -> bool, m': FsMap, ok: bool)
  {
    && OnlyChanged(m, p, m')
    && (ok ==> && p in m' && m'[p].File? && m'[p].data == Stored(m, p, plan, frames)
               && m'[p].props == if p in m then m[p].props else map[])
    && (ok && ParentKind(m, p) != Plain ==> FitsInto(m'[p], ParentKind(m, p), validFor))
    && (!ok && ParentKind(m, p) != Plain ==> m' == m)
  }

  /** The length of the file that is there already. */
  ghost function ExistingLength(m: FsMap, p: Path): nat {
    if p in m && m[p].File? then |m[p].data| else 0
  }

  /**
   A body that can be stored: complete, with room for it, and in a calendar or address book small enough and
   valid.
   */
  ghost predicate BodyAccepted(m: FsMap, p: Path, plan: Plan, frames: seq<Frame>, room: Room,
                               validFor: (CollectionKind, Bytes) -> bool)
  {
    var kind, existing := ParentKind(m, p), ExistingLength(m, p);
    && Unbroken(frames) && AsAnnounced(plan, frames)
    && (kind != Plain ==>
          && ResultingSize(plan.doRange, plan.append, existing, plan.start, |Body(frames)|) <= MAX_RESOURCE_SIZE
          && validFor(kind, Stored(m, p, plan, frames)))
    && (if kind != Plain && !plan.doRange then room.Has(|Body(frames)|)
        else RoomFor(room, Base(plan, existing), frames))
  }

  /** `m'` differs from `m` in the bytes of the file at `p`, or in having that file. */
  ghost predicate Restorable(m: FsMap, p: Path, m': FsMap) {
    && WellFormed(m) && p in m' && m'[p].File? && OnlyChanged(m, p, m')
    && (p in m ==> m[p].File? && m'[p].props == m[p].props)
  }

  lemma WrittenIsRestorable(m: FsMap, p: Path, oo: OpenOptions, plan: Plan, pieces: seq<Bytes>, m': FsMap)
    requires WellFormed(m) && (p in m ==> m[p].File?) && Open(m, p, oo).0.Ok?
    requires Contains(Open(m, p, oo).1, p, plan, pieces, m')
    ensures Restorable(m, p, m')
  {
    OpenedAt(m, p, oo);
    forall q | q != p ensures SameAt(m, m', q) { assert SameAt(m, Open(m, p, oo).1, q); }
  }

  /** Undo a write in a calendar or address book. */
  method Undo(fs: MemFs, path: DavPath, ghost m: FsMap, restore: Option<FileData>, room: Room)
    requires fs.Valid() && path.Valid() && Restorable(m, path.Places(), fs.View())
    requires var p := path.Places(); restore == if p in m then Some(m[p].data) else None
    requires restore.Some? ==> |restore.value| <= room.capacity
    modifies fs.tree
    ensures fs.Valid() && fs.View() == m
  {
    UndoneIsBefore(m, path.Places(), fs.View());
    RestoreOrRemove(fs, path, restore, room);
  }

  lemma UndoneIsBefore(m: FsMap, p: Path, m': FsMap)
    requires Restorable(m, p, m')
    ensures p in m ==> WithData(m', p, m[p].data) == m
    ensures p !in m ==> m' - {p} == m
  {
    forall q | q != p ensures (q in m <==> q in m') && (q in m ==> m[q] == m'[q]) { assert SameAt(m, m', q); }
    if p in m {
      assert m[p] == File(m[p].props, m[p].data);
    } else {
      assert m' - {p} == m;
    }
  }

  /** Open the file for writing and go to where the range starts. */
  method OpenForWrite(fs: MemFs, path: DavPath, req: PutRequest, plan: Plan) returns (r: Result<MemFsFile, nat>)
    requires fs.Valid() && path.Valid() && plan.start <= U64_MAX && (!plan.doRange ==> plan.start == 0)
    modifies fs.tree
    ensures fs.Valid()
    ensures fs.View() == Open(old(fs.View()), path.Places(), OptionsFor(req, plan)).1
    ensures r.Ok? <==> Open(old(fs.View()), path.Places(), OptionsFor(req, plan)).0.Ok?
    ensures r.Ok? ==>
              && fresh(r.value) && Writing(fs, r.value, path.Places())
              && r.value.append == plan.append && r.value.pos == plan.start
  {
    var opened_ := fs.DoOpen(path.AsBytes(), OptionsFor(req, plan));
    if opened_.Err? {
      return Err(if opened_.error != NotFound && opened_.error != Exists then FORBIDDEN
                 else if req.ifMatchStar || req.ifNoneMatchStar then PRECONDITION_FAILED
                 else CONFLICT);
    }
    var file := opened_.value;
    if plan.doRange {
      var sought := file.Seek(Start(plan.start));
    }
    r := Ok(file);
  }

  function OptionsFor(req: PutRequest, plan: Plan): OpenOptions {
    OpenOptions(plan.append, !plan.doRange, !req.ifMatchStar, req.ifNoneMatchStar)
  }

  /** Open the file and write the body; then check the object, and restore it if anything went wrong. */
  method Store(fs: MemFs, path: DavPath, req: PutRequest, plan: Plan, kind: CollectionKind, existing: nat,
               staged: Option<FileData>,
               restore: Option<FileData>, frames: seq<Frame>, room: Room, validFor: (CollectionKind, Bytes) -> bool)
    returns (r: Result<(), nat>)
    requires fs.Valid() && path.Valid()
    requires kind == ParentKind(fs.View(), path.Places())
    requires path.Places() in fs.View() ==> fs.View()[path.Places()].File?
    requires existing == ExistingLength(fs.View(), path.Places()) && existing <= room.capacity
    requires plan.start <= U64_MAX && (!plan.doRange ==> plan.start == 0 && !plan.append)
    requires plan.doRange ==> plan.haveCount
    requires staged.Some? <==> kind != Plain && !plan.doRange
    requires staged.Some? ==> staged.value == Body(frames) && CanStage(frames, plan, kind, validFor)
    requires kind != Plain ==>
               var m, p := fs.View(), path.Places();
               && restore == (if p in m then Some(m[p].data) else None)
               && (plan.doRange ==>
                     ResultingSize(true, plan.append, existing, plan.start, plan.count) <= MAX_RESOURCE_SIZE)
    modifies fs.tree
    ensures fs.Valid()
    ensures PutEffect(old(fs.View()), path.Places(), plan, frames, validFor, fs.View(), r.Ok?)
    ensures r.Ok? <==>
              && Open(old(fs.View()), path.Places(), OptionsFor(req, plan)).0.Ok?
              && BodyAccepted(old(fs.View()), path.Places(), plan, frames, room, validFor)
  {
    ghost var m, p := fs.View(), path.Places();
    OpenedAt(m, p, OptionsFor(req, plan));
    var file := OpenForWrite(fs, path, req, plan);
    if file.Err? {
      return Err(file.error);
    }
    ghost var m1, pieces := fs.View(), [];
    r, pieces := WriteObject(fs, file.value, p, frames, plan, staged, kind, existing, room);
    WrittenIsRestorable(m, p, OptionsFor(req, plan), plan, pieces, fs.View());
    WrittenIffAccepted(m, p, plan, frames, room, validFor);
    if r.Err? {
      if kind != Plain {
        Undo(fs, path, m, restore, room);
      }
      return;
    }
    ObjectStored(m, m1, p, plan, frames, pieces, fs.View());
    if plan.doRange && kind != Plain {
      r := CheckStored(fs, path, m, kind, restore, room, validFor);
    }
  }

  /**
   A body gets through the write loop exactly if it is accepted, but for the validity of what a range write
   leaves.
   */
  lemma WrittenIffAccepted(m: FsMap, p: Path, plan: Plan, frames: seq<Frame>, room: Room,
                           validFor: (CollectionKind, Bytes) -> bool)
    requires plan.doRange ==> plan.haveCount
    requires !plan.doRange ==> plan.start == 0 && !plan.append
    requires ParentKind(m, p) != Plain && plan.doRange ==>
               ResultingSize(true, plan.append, ExistingLength(m, p), plan.start, plan.count) <= MAX_RESOURCE_SIZE
    requires ParentKind(m, p) != Plain && !plan.doRange ==> CanStage(frames, plan, ParentKind(m, p), validFor)
    ensures var kind, existing := ParentKind(m, p), ExistingLength(m, p);
            var limit := if kind == Plain then None else Some(MAX_RESOURCE_SIZE);
            BodyAccepted(m, p, plan, frames, room, validFor) <==>
              && (if kind != Plain && !plan.doRange then room.Has(|Body(frames)|)
                  else BodyFits(frames, plan, limit, existing, Base(plan, existing), room))
              && (kind != Plain && plan.doRange ==> validFor(kind, Stored(m, p, plan, frames)))
  {
    if !plan.doRange {
      StagedIsWritten(Pieces(frames));
    }
  }

  /** After a range write: is the whole object valid? */
  method CheckStored(fs: MemFs, path: DavPath, ghost m: FsMap, kind: CollectionKind, restore: Option<FileData>,
                     room: Room, validFor: (CollectionKind, Bytes) -> bool) returns (r: Result<(), nat>)
    requires fs.Valid() && path.Valid() && Restorable(m, path.Places(), fs.View())
    requires var p := path.Places(); restore == if p in m then Some(m[p].data) else None
    requires restore.Some? ==> |restore.value| <= room.capacity
    requires |fs.View()[path.Places()].data| <= MAX_RESOURCE_SIZE
    modifies fs.tree
    ensures fs.Valid()
    ensures r.Ok? <==> validFor(kind, old(fs.View())[path.Places()].data)
    ensures fs.View() == if r.Ok? then old(fs.View()) else m
  {
    var body := ReadAtMost(fs, path, MAX_RESOURCE_SIZE);
    ReadWhole(fs.View()[path.Places()].data, MAX_RESOURCE_SIZE);
    if !validFor(kind, body) {
      Undo(fs, path, m, restore, room);
      return Err(FORBIDDEN);
    }
    r := Ok(());
  }

  /** The body has gone into the file that was opened. */
  lemma ObjectStored(m: FsMap, m1: FsMap, p: Path, plan: Plan, frames: seq<Frame>, pieces: seq<Bytes>, m': FsMap)
    requires Contains(m1, p, plan, pieces, m')
    requires m1[p].data == if plan.doRange && p in m && m[p].File? then m[p].data else []
    requires Written(m1[p].data, plan.start, plan.append, pieces)
             == Written(m1[p].data, plan.start, plan.append, Pieces(frames))
    requires plan.doRange ==> |Body(frames)| == plan.count
    requires !plan.doRange ==> plan.start == 0 && !plan.append
    ensures p in m' && m'[p].File? && m'[p].data == Stored(m, p, plan, frames)
    ensures plan.doRange ==> |m'[p].data| <= ResultingSize(true, plan.append, |m1[p].data|, plan.start, plan.count)
    ensures !plan.doRange ==> m'[p].data == Body(frames)
  {
    PredictionNeverUnderestimates(m1[p].data, plan.start, plan.append, Pieces(frames));
    if !plan.doRange {
      StagedIsWritten(Pieces(frames));
    }
  }

  lemma StagedIsWritten(pieces: seq<Bytes>)
    ensures Written([], 0, false, pieces) == Concat(pieces)
    ensures Written([], 0, false, [Concat(pieces)]) == Concat(pieces)
  {
    WrittenWhole(Concat(pieces));
    ConcatOneMore([], Concat(pieces));
    assert [] + [Concat(pieces)] == [Concat(pieces)] && [] + Concat(pieces) == Concat(pieces);
  }

  /** Write what was staged, or what comes in. */
  method WriteObject(fs: MemFs, file: MemFsFile, ghost p: Path, frames: seq<Frame>, plan: Plan,
                     staged: Option<FileData>, kind: CollectionKind, existing: nat, room: Room)
    returns (r: Result<(), nat>, ghost pieces: seq<Bytes>)
    requires Writing(fs, file, p) && file.append == plan.append && file.pos == plan.start
    requires p in fs.View() && fs.View()[p].File? && |fs.View()[p].data| <= room.capacity
    requires plan.append ==> existing == |fs.View()[p].data|
    requires staged.Some? ==> plan.start == 0 && !plan.append && staged.value == Body(frames) && fs.View()[p].data == []
    modifies fs.tree, file`pos
    ensures Writing(fs, file, p) && Contains(old(fs.View()), p, plan, pieces, fs.View())
    ensures r.Ok? ==>
              var data := old(fs.View())[p].data;
              Written(data, plan.start, plan.append, pieces) == Written(data, plan.start, plan.append, Pieces(frames))
    ensures r.Ok? <==>
              var limit := if kind == Plain then None else Some(MAX_RESOURCE_SIZE);
              if staged.Some? then room.Has(|Body(frames)|)
              else BodyFits(frames, plan, limit, existing, Base(plan, existing), room)
  {
    if staged.Some? {
      ghost var m := fs.View();
      NothingWritten(m, p, plan);
      StagedIsWritten(Pieces(frames));
      var size := |staged.value|;
      var written := WriteNext(fs, file, p, m, plan, room, size, [], staged.value, size, [staged.value]);
      pieces := if written.Ok? then [] + [staged.value] else [];
      r := if written.Ok? then Ok(()) else Err(SERVER_ERROR);
    } else {
      r, pieces := WriteBody(fs, file, p, frames, plan, if kind == Plain then None else Some(MAX_RESOURCE_SIZE),
                             existing, room);
    }
  }

  /** `typed_parent_collection` */
  method TypedParent(fs: MemFs, path: DavPath) returns (kind: CollectionKind)
    requires fs.Valid() && path.Valid() && IsPrefix(path.Prefix())
    ensures kind == ParentKind(fs.View(), path.Places())
  {
    ParentDropsOneSegment(path);
    ResolvesIffStored(fs.View(), Init(path.Places()));
    var parent := path.Parent();
    var meta := fs.Metadata(parent.AsBytes());
    if meta.Err? {
      return Plain;
    }
    kind := CollectionKindAt(fs, parent, meta.value);
  }

  /** Why a request is refused before its body is looked at; `None` when it is not. */
  ghost function PutRefusal(m: FsMap, hides: Bytes -> bool, req: PutRequest, p: Path): Option<nat> {
    if req.badTimes then Some(BAD_REQUEST)
    else if !Shown(hides, p) then Some(NOT_FOUND)
    else if p in m && m[p].Dir? then Some(METHOD_NOT_ALLOWED)
    else if PlanAt(m, req, p).Err? then Some(PlanAt(m, req, p).error)
    else if req.refused.Some? then req.refused
    else if AnnouncedTooLarge(m, PlanAt(m, req, p).value, p) then Some(FORBIDDEN)
    else None
  }

  /** The announced size alone would make an object of a calendar or address book too large. */
  ghost predicate AnnouncedTooLarge(m: FsMap, plan: Plan, p: Path) {
    && ParentKind(m, p) != Plain && plan.haveCount
    && ResultingSize(plan.doRange, plan.append, ExistingLength(m, p), plan.start, plan.count) > MAX_RESOURCE_SIZE
  }

  ghost function PlanAt(m: FsMap, req: PutRequest, p: Path): Result<Plan, nat> {
    PlanOf(req, if p in m && m[p].File? then Some(|m[p].data|) else None)
  }

  /** Everything that is checked before the body is looked at. */
  method CheckPut(fs: MemFs, hides: Bytes -> bool, req: PutRequest, path: DavPath)
    returns (r: Result<(Plan, Option<nat>, CollectionKind), nat>)
    requires fs.Valid() && path.Valid() && IsPrefix(path.Prefix())
    ensures r.Err? ==> PutRefusal(fs.View(), hides, req, path.Places()) == Some(r.error)
    ensures r.Ok? ==>
              var m, p := fs.View(), path.Places();
              && PutRefusal(m, hides, req, p) == None && (p in m ==> m[p].File?)
              && r.value.1 == (if p in m then Some(|m[p].data|) else None)
              && PlanAt(m, req, p) == Ok(r.value.0) && r.value.2 == ParentKind(m, p)
  {
    if req.badTimes {
      return Err(BAD_REQUEST);
    }
    if !Shown(hides, Segs(path.AsBytes())) {
      return Err(NOT_FOUND);
    }
    ResolvesIffStored(fs.View(), path.Places());
    var meta := fs.Metadata(path.AsBytes());
    if meta.Ok? && meta.value.isDir {
      return Err(METHOD_NOT_ALLOWED);
    }
    var len := if meta.Ok? then Some(meta.value.size) else None;
    var checked := PlanOf(req, len);
    if checked.Err? {
      return Err(checked.error);
    }
    if req.refused.Some? {
      return Err(req.refused.value);
    }
    var plan := checked.value;
    var kind := TypedParent(fs, path);
    var existing := if len.Some? then len.value else 0;
    var sized := ResultingSize(plan.doRange, plan.append, existing, plan.start, plan.count);
    if kind != Plain && plan.haveCount && sized > MAX_RESOURCE_SIZE {
      return Err(FORBIDDEN);
    }
    r := Ok((plan, len, kind));
  }

  /** Exactly the requests that are carried out. */
  ghost predicate Accepts(m: FsMap, hides: Bytes -> bool, req: PutRequest, frames: seq<Frame>, p: Path, room: Room,
                          validFor: (CollectionKind, Bytes) -> bool)
  {
    && PutRefusal(m, hides, req, p) == None
    && Open(m, p, OptionsFor(req, PlanAt(m, req, p).value)).0.Ok?
    && BodyAccepted(m, p, PlanAt(m, req, p).value, frames, room, validFor)
  }

  /**
   PUT and PATCH. Nothing but the target changes; success leaves exactly what the request says; and in a
   calendar or address book the object afterwards is either valid and within the limit, or as it was.
   */
  method HandlePut(fs: MemFs, hides: Bytes -> bool, req: PutRequest, frames: seq<Frame>, path: DavPath, room: Room,
                   validFor: (CollectionKind, Bytes) -> bool) returns (r: Result<Plan, nat>)
    requires fs.Valid() && path.Valid() && IsPrefix(path.Prefix())
    requires ExistingLength(fs.View(), path.Places()) <= room.capacity
    modifies fs.tree
    ensures fs.Valid() && OnlyChanged(old(fs.View()), path.Places(), fs.View())
    ensures r.Ok? <==> Accepts(old(fs.View()), hides, req, frames, path.Places(), room, validFor)
    ensures PutRefusal(old(fs.View()), hides, req, path.Places()).Some? ==>
              r == Err(PutRefusal(old(fs.View()), hides, req, path.Places()).value) && fs.View() == old(fs.View())
    ensures r.Err? && ParentKind(old(fs.View()), path.Places()) != Plain ==> fs.View() == old(fs.View())
    ensures r.Ok? ==>
              && PlanAt(old(fs.View()), req, path.Places()) == Ok(r.value)
              && PutEffect(old(fs.View()), path.Places(), r.value, frames, validFor, fs.View(), true)
  {
    ghost var m, p := fs.View(), path.Places();
    var checked := CheckPut(fs, hides, req, path);
    if checked.Err? {
      return Err(checked.error);
    }
    var (plan, len, kind) := checked.value;
    PlansAreSafe(req, len);
    PutIsUnranged(req, len);
    var existing := if len.Some? then len.value else 0;
    var staged := None;
    if kind != Plain && !plan.doRange {
      StagedIsWritten(Pieces(frames));
      var body := Stage(frames, plan, kind, validFor);
      if body.Err? {
        return Err(body.error);
      }
      staged := Some(body.value);
    }
    var restore := None;
    if kind != Plain && len.Some? {
      var before := ReadAtMost(fs, path, existing);
      ReadWhole(m[p].data, existing);
      restore := Some(before);
    }
    var stored := Store(fs, path, req, plan, kind, existing, staged, restore, frames, room, validFor);
    r := if stored.Ok? then Ok(plan) else Err(stored.error);
  }

  lemma PutIsUnranged(req: PutRequest, len: Option<nat>)
    requires PlanOf(req, len).Ok?
    ensures var p := PlanOf(req, len).value; !p.doRange ==> p.start == 0 && !p.append
  {}

  // ---------------------------------------------------------------------------------------------
  // Which requests are stored, from the request and what is there

  /** The place can hold a file that is created or replaced, as the stars in If-Match and If-None-Match allow. */
  ghost predicate CanHoldFile(m: FsMap, req: PutRequest, p: Path) {
    if p in m then m[p].File? && !req.ifNoneMatchStar
    else p != [] && Init(p) in m && m[Init(p)].Dir? && !req.ifMatchStar
  }

  /** Exactly the PUTs of a whole file that are stored; what is stored is the body. */
  lemma PlainPutAcceptedIff(m: FsMap, hides: Bytes -> bool, req: PutRequest, frames: seq<Frame>, p: Path, room: Room,
                            validFor: (CollectionKind, Bytes) -> bool)
    requires WellFormed(m) && req.patch == None && req.contentRange == Absent
    ensures var kind := if Init(p) in m then KindOf(m[Init(p)]) else Plain;
            Accepts(m, hides, req, frames, p, room, validFor) <==>
              && !req.badTimes && req.refused == None && (forall n :: 0 <= n < |p| ==> !hides(p[n]))
              && CanHoldFile(m, req, p)
              && Broken !in frames && (req.length.Some? ==> |Body(frames)| == req.length.value)
              && if kind == Plain then RoomFor(room, 0, frames)
                 else |Body(frames)| <= 1_048_576 && validFor(kind, Body(frames)) && room.Has(|Body(frames)|)
    ensures Stored(m, p, PlanAt(m, req, p).value, frames) == Body(frames)
  {
    PlainPlan(req, if p in m && m[p].File? then Some(|m[p].data|) else None);
    var plan := PlanAt(m, req, p).value;
    StagedIsWritten(Pieces(frames));
    OpenMeans(m, p, OptionsFor(req, plan));
  }

  /** In particular an unbroken PUT of any length to a visible place in a plain directory is stored. */
  lemma PlainPutIsStored(m: FsMap, hides: Bytes -> bool, length: Option<U64>, frames: seq<Frame>, p: Path, room: Room,
                         validFor: (CollectionKind, Bytes) -> bool)
    requires WellFormed(m) && p != [] && Init(p) in m && m[Init(p)].Dir? && KindOf(m[Init(p)]) == Plain
    requires (p in m ==> m[p].File?) && (forall n :: 0 <= n < |p| ==> !hides(p[n])) && Broken !in frames
    requires (length.Some? ==> |Body(frames)| == length.value) && |Body(frames)| <= room.capacity
    ensures Accepts(m, hides, PutRequest(false, None, length, Absent, false, false, None), frames, p, room, validFor)
  {
    var req := PutRequest(false, None, length, Absent, false, false, None);
    PlainPutAcceptedIff(m, hides, req, frames, p, room, validFor);
    forall n | 0 <= n < |frames| ensures RoomAt(room, 0, frames, n) { BodyGrows(frames, n + 1); }
  }

  /** An accepted range write to a file that is there replaces just the bytes from where it lands. */
  lemma AcceptedRangeIsStored(m: FsMap, hides: Bytes -> bool, req: PutRequest, frames: seq<Frame>, p: Path, room: Room,
                              validFor: (CollectionKind, Bytes) -> bool)
    requires Accepts(m, hides, req, frames, p, room, validFor) && p in m
    requires req.patch.Some? || req.contentRange.Positions?
    ensures m[p].File?
    ensures var body, plan := Body(frames), PlanAt(m, req, p).value;
            var landing := Base(plan, |m[p].data|);
            && landing <= |m[p].data|
            && Stored(m, p, plan, frames)
               == m[p].data[..landing] + body + m[p].data[Smaller(landing + |body|, |m[p].data|)..]
  {
    PlansAreSafe(req, Some(|m[p].data|));
    RangeWriteMeans(req, m[p].data, frames);
  }

  /** Exactly the range writes that are stored. */
  lemma RangePutAcceptedIff(m: FsMap, hides: Bytes -> bool, req: PutRequest, frames: seq<Frame>, p: Path, room: Room,
                            validFor: (CollectionKind, Bytes) -> bool)
    requires WellFormed(m) && (req.patch.Some? || req.contentRange.Positions?)
    requires p in m ==> m[p].File? && |m[p].data| <= ISIZE_MAX
    ensures var kind := if Init(p) in m then KindOf(m[Init(p)]) else Plain;
            var len := if p in m then |m[p].data| else 0;
            var planned, body := PlanOf(req, if p in m then Some(len) else None), Body(frames);
            Accepts(m, hides, req, frames, p, room, validFor) <==>
              && planned.Ok? && !req.badTimes && req.refused == None && (forall n :: 0 <= n < |p| ==> !hides(p[n]))
              && CanHoldFile(m, req, p) && Broken !in frames && |body| == planned.value.count
              && RoomFor(room, if AppendAsked(req) then len else planned.value.start, frames)
              && (kind != Plain ==>
                    && (if AppendAsked(req) then len + |body| else Larger(len, planned.value.start + |body|))
                       <= 1_048_576
                    && validFor(kind, Stored(m, p, planned.value, frames)))
  {
    var plan := PlanAt(m, req, p);
    if plan.Ok? {
      PlansAreSafe(req, if p in m then Some(|m[p].data|) else None);
      OpenMeans(m, p, OptionsFor(req, plan.value));
    }
  }

  /** What the filesystem is after a PUT of a whole file that was carried out, or a range write. */
  lemma PutLeaves(m: FsMap, hides: Bytes -> bool, req: PutRequest, frames: seq<Frame>, p: Path, room: Room,
                  validFor: (CollectionKind, Bytes) -> bool, m': FsMap)
    requires WellFormed(m) && Accepts(m, hides, req, frames, p, room, validFor)
    requires PutEffect(m, p, PlanAt(m, req, p).value, frames, validFor, m', true)
    ensures p in m' && m'[p].File? && m'[p].props == if p in m then m[p].props else map[]
    ensures req.patch == None && req.contentRange == Absent ==> m'[p].data == Body(frames)
    ensures (req.patch.Some? || req.contentRange.Positions?) && p in m && m[p].File? ==>
              var landing := Base(PlanAt(m, req, p).value, |m[p].data|);
              && landing <= |m[p].data|
              && m'[p].data == m[p].data[..landing] + Body(frames)
                               + m[p].data[Smaller(landing + |Body(frames)|, |m[p].data|)..]
    ensures forall q :: q != p ==> (q in m' <==> q in m) && (q in m' ==> m'[q] == m[q])
  {
    forall q | q != p ensures (q in m' <==> q in m) && (q in m' ==> m'[q] == m[q]) { assert SameAt(m, m', q); }
    if req.patch == None && req.contentRange == Absent {
      PlainPutAcceptedIff(m, hides, req, frames, p, room, validFor);
    } else if p in m && m[p].File? {
      AcceptedRangeIsStored(m, hides, req, frames, p, room, validFor);
    }
  }
}
