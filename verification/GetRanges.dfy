/**
 GET with byte ranges (src/handle_gethead.rs): which ranges are accepted, and the loop that reads a file in
 pieces of any size and sends them (section 2.1 of RFC 7233).
 */
module GetRanges {
  import opened Results
  import opened DavPaths
  import opened FileContents

  datatype Bound = Included(n: U64) | Excluded(n: U64) | Unbounded

  datatype Range = Range(start: nat, count: nat)

  // ---------------------------------------------------------------------------------------------
  // Clamping

  /** One requested range against a representation of `len` bytes; `None` if it cannot be satisfied. */
  function Clamped(spec: (Bound, Bound), len: nat): Option<Range> {
    match spec
    case (Included(s), Included(e)) => if e >= s && s < len then Some(Range(s, Smaller(e, len - 1) - s + 1)) else None
    case (Included(s), Unbounded) => if s < len then Some(Range(s, len - s)) else None
    case (Unbounded, Included(n)) => if 0 < n <= len then Some(Range(len - n, n)) else None
    case _ => None
  }

  /** Section 2.1 of RFC 7233: the positions a range asks for; a suffix longer than the whole asks for the whole. */
  ghost predicate Asks(spec: (Bound, Bound), len: nat, k: nat) {
    match spec
    case (Included(s), Included(e)) => s <= k <= e
    case (Included(s), Unbounded) => s <= k
    case (Unbounded, Included(n)) => len <= k + n
    case _ => false
  }

  /** A suffix of more bytes than there are, of a representation that is not empty. */
  predicate LongSuffix(spec: (Bound, Bound), len: nat) {
    spec.0 == Unbounded && spec.1.Included? && spec.1.n > len > 0
  }

  /**
   The accepted part is exactly the existing part of what was asked for; or nothing is accepted, and nothing of
   it exists.
   */
  ghost predicate SatisfiesRange(spec: (Bound, Bound), len: nat, r: Option<Range>) {
    match r
    case Some(range) =>
      && range.count > 0 && range.start + range.count <= len
      && forall k: nat :: range.start <= k < range.start + range.count <==> k < len && Asks(spec, len, k)
    case None => forall k: nat :: k < len ==> !Asks(spec, len, k)
  }

  /**
   An accepted range is never empty and lies inside the representation. The clamping does what the RFC
   says on exactly the ranges other than suffixes longer than the representation, which it refuses.
   */
  lemma ClampedIsExistingPart(spec: (Bound, Bound), len: nat)
    ensures Clamped(spec, len).Some? ==>
              var r := Clamped(spec, len).value; r.count > 0 && r.start + r.count <= len
    ensures SatisfiesRange(spec, len, Clamped(spec, len)) <==> !LongSuffix(spec, len)
    ensures LongSuffix(spec, len) ==> Clamped(spec, len) == None && Asks(spec, len, 0)
  {
    match spec {
      case (Included(s), Included(e)) => if e >= s && s < len { assert Asks(spec, len, s); }
      case (Included(s), Unbounded) => if s < len { assert Asks(spec, len, s); }
      case (Unbounded, Included(n)) =>
        if 0 < n <= len { assert Asks(spec, len, len - n); }
        if n > len > 0 { assert Asks(spec, len, 0); }
      case _ =>
    }
  }

  /** The loop over the requested ranges: one that cannot be satisfied refuses them all. */
  method ClampAll(specs: seq<(Bound, Bound)>, len: U64) returns (ok: bool, ranges: seq<Range>)
    ensures ok <==> forall n :: 0 <= n < |specs| ==> Clamped(specs[n], len).Some?
    ensures !ok ==> ranges == []
    ensures ok ==> |ranges| == |specs| && forall n :: 0 <= n < |specs| ==> Clamped(specs[n], len) == Some(ranges[n])
  {
    ranges := [];
    for n := 0 to |specs|
      invariant |ranges| == n
      invariant forall k :: 0 <= k < n ==> Clamped(specs[k], len) == Some(ranges[k])
    {
      var start, end, valid := 0, 0, false;
      match specs[n] {
        case (Included(s), Included(e)) =>
          if e >= s { start, end, valid := s, e, true; }
        case (Included(s), Unbounded) =>
          start, end, valid := s, U64_MAX, true;
        case (Unbounded, Included(m)) =>
          if m <= len { start, end, valid := len - m, U64_MAX, true; }
        case _ =>
      }
      if !valid || start >= len {
        return false, [];
      }
      end := Smaller(end, len - 1);
      ranges := ranges + [Range(start, end - start + 1)];
    }
    ok := true;
  }

  // ---------------------------------------------------------------------------------------------
  // Sending

  /**
   A file that is read in pieces: a read yields at least one byte if any is wanted and there is one, and
   how many otherwise is up to the file. `data` is what the file holds while it is being sent.
   */
  class Reader {
    const data: Bytes
    const pieces: nat -> nat
    var pos: nat
    var calls: nat

    constructor (data: Bytes, pieces: nat -> nat)
      ensures this.data == data && this.pieces == pieces && pos == 0
    {
      this.data, this.pieces := data, pieces;
      pos, calls := 0, 0;
    }

    method Seek(npos: nat)
      modifies this`pos
      ensures pos == npos
    {
      pos := npos;
    }

    method ReadBytes(want: nat) returns (buf: Bytes)
      modifies this
      ensures buf == ReadAt(data, old(pos), |buf|) && |buf| <= want && pos == old(pos) + |buf|
      ensures want > 0 && old(pos) < |data| ==> 0 < |buf| && pos <= |data|
      ensures want == 0 || old(pos) >= |data| ==> buf == []
    {
      var most := if pos < |data| then Smaller(want, |data| - pos) else 0;
      var n := if most == 0 then 0 else Larger(1, Smaller(pieces(calls), most));
      buf := if n == 0 then [] else data[pos..pos + n];
      calls := calls + 1;
      pos := pos + n;
    }
  }

  /**
   What the response is made of: the file, zero-filled if it has become shorter; nothing but zeros without a
   buffer.
   */
  function Served(data: Bytes, len: nat, bufSize: nat): Bytes {
    if bufSize == 0 then Zeros(len) else ZeroExtended(data, len)
  }

  /** The reader is where the code thinks it is; past the end of the file it does not matter. */
  ghost predicate InStep(pos: nat, curpos: nat, dataLen: nat, bufSize: nat) {
    bufSize > 0 ==> pos == curpos || (pos >= dataLen && curpos >= dataLen)
  }

  /** The next piece that is sent is the next piece of what is to be served. */
  lemma NextPiece(data: Bytes, len: nat, bufSize: nat, pos: nat, curpos: nat, count: nat, read: Bytes)
    requires curpos + count <= len && count > 0 && InStep(pos, curpos, |data|, bufSize)
    requires var want := Smaller(count, bufSize);
             && |read| <= want && read == ReadAt(data, pos, |read|)
             && (want > 0 && pos < |data| ==> 0 < |read| && pos + |read| <= |data|)
             && (want == 0 || pos >= |data| ==> read == [])
    ensures var buf := if read == [] then Zeros(Smaller(count, 4096)) else read;
            && 0 < |buf| <= count && curpos + |buf| <= |Served(data, len, bufSize)|
            && buf == Served(data, len, bufSize)[curpos..curpos + |buf|]
            && InStep(pos + |read|, curpos + |buf|, |data|, bufSize)
  {
    var buf := if read == [] then Zeros(Smaller(count, 4096)) else read;
    var served := Served(data, len, bufSize);
    assert |served| >= len;
    if read == [] {
      assert bufSize > 0 ==> pos >= |data| && curpos >= |data|;
    } else {
      assert pos == curpos;
    }
    forall k | 0 <= k < |buf| ensures buf[k] == served[curpos + k] {}
  }

  lemma OneMorePiece(served: Bytes, start: nat, curpos: nat, sent: Bytes, buf: Bytes)
    requires start <= curpos && curpos + |buf| <= |served|
    requires sent == served[start..curpos] && buf == served[curpos..curpos + |buf|]
    ensures sent + buf == served[start..curpos + |buf|]
  {}

  /** One turn of the loop: read a piece, or make up zeros if nothing comes. */
  method NextBuffer(file: Reader, ghost len: nat, curpos: nat, count: nat, bufSize: nat) returns (buf: Bytes)
    requires curpos + count <= len && count > 0 && InStep(file.pos, curpos, |file.data|, bufSize)
    modifies file
    ensures 0 < |buf| <= count && curpos + |buf| <= |Served(file.data, len, bufSize)|
    ensures buf == Served(file.data, len, bufSize)[curpos..curpos + |buf|]
    ensures InStep(file.pos, curpos + |buf|, |file.data|, bufSize)
  {
    ghost var pos := file.pos;
    buf := file.ReadBytes(Smaller(count, bufSize));
    NextPiece(file.data, len, bufSize, pos, curpos, count, buf);
    if buf == [] {
      buf := Zeros(Smaller(count, 4096));
    }
  }

  lemma ServedIsLongEnough(data: Bytes, len: nat, bufSize: nat)
    ensures |Served(data, len, bufSize)| >= len
  {}

  /** Send one range, from where the reader is. */
  method SendRange(file: Reader, ghost len: nat, range: Range, bufSize: nat) returns (sent: Bytes)
    requires range.start + range.count <= len && InStep(file.pos, range.start, |file.data|, bufSize)
    modifies file
    ensures |Served(file.data, len, bufSize)| >= len
    ensures sent == Served(file.data, len, bufSize)[range.start..range.start + range.count]
    ensures InStep(file.pos, range.start + range.count, |file.data|, bufSize)
  {
    sent := [];
    var count: nat, curpos: nat := range.count, range.start;
    ghost var served := Served(file.data, len, bufSize);
    ServedIsLongEnough(file.data, len, bufSize);
    while count > 0
      invariant count <= range.count && curpos == range.start + (range.count - count)
      invariant sent == served[range.start..curpos]
      invariant InStep(file.pos, curpos, |file.data|, bufSize)
      decreases count
    {
      var buf := NextBuffer(file, len, curpos, count, bufSize);
      OneMorePiece(served, range.start, curpos, sent, buf);
      count := count - |buf|;
      curpos := curpos + |buf|;
      sent := sent + buf;
    }
  }

  /**
   The send loop: for each range in order exactly its bytes. With a positive buffer size and a file that
   has not shrunk below the announced length those are the file's bytes, however short the reads.
   */
  method SendRanges(file: Reader, ghost len: nat, ranges: seq<Range>, bufSize: nat) returns (sent: seq<Bytes>)
    requires forall n :: 0 <= n < |ranges| ==> ranges[n].start + ranges[n].count <= len
    requires ranges != [] ==> file.pos == ranges[0].start
    modifies file
    ensures |Served(file.data, len, bufSize)| >= len && |sent| == |ranges|
    ensures forall n :: 0 <= n < |ranges| ==>
              sent[n] == Served(file.data, len, bufSize)[ranges[n].start..ranges[n].start + ranges[n].count]
    ensures bufSize > 0 && |file.data| >= len ==>
              forall n :: 0 <= n < |ranges| ==> sent[n] == file.data[ranges[n].start..ranges[n].start + ranges[n].count]
  {
    sent := [];
    var curpos: nat := if ranges == [] then 0 else ranges[0].start;
    for n := 0 to |ranges|
      invariant |sent| == n
      invariant n > 0 || ranges == [] || (file.pos == curpos && curpos == ranges[0].start)
      invariant InStep(file.pos, curpos, |file.data|, bufSize) || ranges == []
      invariant |Served(file.data, len, bufSize)| >= len
      invariant forall k :: 0 <= k < n ==>
                  sent[k] == Served(file.data, len, bufSize)[ranges[k].start..ranges[k].start + ranges[k].count]
    {
      var range := ranges[n];
      if curpos != range.start {
        file.Seek(range.start);
        curpos := range.start;
      }
      var section := SendRange(file, len, range, bufSize);
      sent := sent + [section];
      curpos := range.start + range.count;
    }
  }

  /** Byte by byte: the file's own where there is one, and a zero where it ends too early or there is no buffer. */
  lemma ServedByte(data: Bytes, len: nat, bufSize: nat, k: nat)
    requires k < len
    ensures |Served(data, len, bufSize)| >= len
    ensures Served(data, len, bufSize)[k] == if bufSize > 0 && k < |data| then data[k] else 0
  {}

  /**
   What is sent of a file that has not shrunk is the file's own part exactly if there is a buffer, or that part
   is zeros.
   */
  lemma ServedIsFileIff(data: Bytes, len: nat, bufSize: nat, start: nat, end: nat)
    requires start <= end <= len <= |data|
    ensures |Served(data, len, bufSize)| >= len
    ensures Served(data, len, bufSize)[start..end] == data[start..end]
            <==> bufSize > 0 || forall k :: start <= k < end ==> data[k] == 0
  {
    if bufSize == 0 {
      var sent, part := Served(data, len, bufSize)[start..end], data[start..end];
      if sent == part {
        forall k | start <= k < end ensures data[k] == 0 { assert part[k - start] == sent[k - start]; }
      }
    }
  }

  /** The body of a GET: the whole file, or the requested parts of it, or nothing if one of them cannot be satisfied. */
  method HandleGet(file: Reader, len: U64, specs: seq<(Bound, Bound)>, bufSize: nat) returns (r: Option<seq<Bytes>>)
    requires file.pos == 0
    modifies file
    ensures |Served(file.data, len, bufSize)| >= len
    ensures r.Some? <==> forall n :: 0 <= n < |specs| ==> Clamped(specs[n], len).Some?
    ensures specs == [] ==> r == Some([Served(file.data, len, bufSize)[..len]])
    ensures r.Some? && specs != [] ==>
              && |r.value| == |specs|
              && forall n :: 0 <= n < |specs| ==>
                   var c := Clamped(specs[n], len).value;
                   c.start + c.count <= len && r.value[n] == Served(file.data, len, bufSize)[c.start..c.start + c.count]
    ensures r.Some? && specs != [] && |file.data| >= len ==>
              forall n :: 0 <= n < |specs| ==>
                var c := Clamped(specs[n], len).value;
                && c.start + c.count <= len
                && (r.value[n] == file.data[c.start..c.start + c.count]
                    <==> bufSize > 0 || forall k :: c.start <= k < c.start + c.count ==> file.data[k] == 0)
  {
    var ok, ranges := ClampAll(specs, len);
    if !ok {
      return None;
    }
    forall n | 0 <= n < |specs| ensures ranges[n].start + ranges[n].count <= len {
      ClampedIsExistingPart(specs[n], len);
    }
    if ranges == [] {
      ranges := [Range(0, len)];
    } else {
      file.Seek(ranges[0].start);
    }
    var sent := SendRanges(file, len, ranges, bufSize);
    assert specs == [] ==> sent[0] == Served(file.data, len, bufSize)[..len] && sent == [sent[0]];
    if |file.data| >= len {
      forall n | 0 <= n < |ranges|
        ensures sent[n] == file.data[ranges[n].start..ranges[n].start + ranges[n].count]
                <==> bufSize > 0 || forall k :: ranges[n].start <= k < ranges[n].start + ranges[n].count ==>
                  file.data[k] == 0
      {
        ServedIsFileIff(file.data, len, bufSize, ranges[n].start, ranges[n].start + ranges[n].count);
      }
    }
    r := Some(sent);
  }
}
