/** What a write does to the bytes of a file (src/memfs.rs, `grow_to`, `write_bytes` and `write_buf`). */
module FileContents {
  import opened Results
  import opened DavPaths
  import opened FsModel

  function Larger(a: nat, b: nat): nat {
    if a < b then b else a
  }

  function Smaller(a: nat, b: nat): nat {
    if a < b then a else b
  }

  function Zeros(n: nat): Bytes {
    seq(n, i => 0)
  }

  function ZeroExtended(data: Bytes, end: nat): Bytes {
    if |data| < end then data + Zeros(end - |data|) else data
  }

  /** `buf` laid over `data` at `pos`, after zero-extending it to hold `buf` there. */
  function Spliced(data: Bytes, pos: nat, buf: Bytes): Bytes {
    var z := ZeroExtended(data, pos + |buf|);
    z[..pos] + buf + z[pos + |buf|..]
  }

  /** The bytes of a read of at most `count` bytes at `pos`. */
  function ReadAt(data: Bytes, pos: nat, count: nat): Bytes {
    data[Smaller(pos, |data|)..Smaller(pos + count, |data|)]
  }

  lemma ReadWhole(data: Bytes, count: nat)
    ensures |data| <= count ==> ReadAt(data, 0, count) == data
  {}

  /** Each byte after a write: the written one, the old one, or the zero of a hole. */
  lemma SplicedByte(data: Bytes, pos: nat, buf: Bytes, k: nat)
    requires k < |Spliced(data, pos, buf)|
    ensures |Spliced(data, pos, buf)| == Larger(|data|, pos + |buf|)
    ensures Spliced(data, pos, buf)[k] ==
            if pos <= k < pos + |buf| then buf[k - pos]
            else if k < |data| then data[k]
            else 0
  {}

  /** Reading back what was written gives it back. */
  lemma ReadAfterWrite(data: Bytes, pos: nat, buf: Bytes)
    ensures ReadAt(Spliced(data, pos, buf), pos, |buf|) == buf
  {
    var z := ZeroExtended(data, pos + |buf|);
    assert (z[..pos] + buf + z[pos + |buf|..])[pos..pos + |buf|] == buf;
  }

  lemma AppendIsConcat(data: Bytes, buf: Bytes)
    ensures Spliced(data, |data|, buf) == data + buf
  {
    var z := ZeroExtended(data, |data| + |buf|);
    assert |z| == |data| + |buf|;
    assert z[..|data|] == data && z[|data| + |buf|..] == [];
  }

  /** Writing in two consecutive pieces is writing the whole. */
  lemma SplicedTwice(data: Bytes, pos: nat, a: Bytes, b: Bytes)
    ensures Spliced(Spliced(data, pos, a), pos + |a|, b) == Spliced(data, pos, a + b)
  {
    var once := Spliced(data, pos, a);
    var left, right := Spliced(once, pos + |a|, b), Spliced(data, pos, a + b);
    assert |left| == |right| == Larger(|data|, pos + |a| + |b|);
    forall k | 0 <= k < |left| ensures left[k] == right[k] {
      SplicedByte(data, pos, a + b, k);
      SplicedByte(once, pos + |a|, b, k);
      if k < |once| { SplicedByte(data, pos, a, k); }
    }
  }

  /** Growing first and then overwriting in place, as the code does. */
  lemma GrownThenSpliced(data: Bytes, pos: nat, buf: Bytes)
    ensures Spliced(ZeroExtended(data, pos + |buf|), pos, buf) == Spliced(data, pos, buf)
  {
    assert ZeroExtended(ZeroExtended(data, pos + |buf|), pos + |buf|) == ZeroExtended(data, pos + |buf|);
  }

  /** Laying the next piece over data that is already large enough. */
  lemma SplicedPiece(grown: Bytes, start: nat, done: Bytes, b: Bytes)
    requires start + |done| + |b| <= |grown|
    ensures |Spliced(grown, start, done)| == |grown|
    ensures Spliced(grown, start, done)[..start + |done|] + b + Spliced(grown, start, done)[start + |done| + |b|..]
            == Spliced(grown, start, done + b)
  {
    SplicedTwice(grown, start, done, b);
  }

  lemma {:induction false} ConcatPrefixLength(chunks: seq<Bytes>, n: nat)
    requires n <= |chunks|
    ensures |Concat(chunks[..n])| <= |Concat(chunks)|
    decreases |chunks|
  {
    if n == |chunks| {
      assert chunks[..n] == chunks;
    } else {
      assert chunks[..|chunks| - 1][..n] == chunks[..n];
      ConcatPrefixLength(chunks[..|chunks| - 1], n);
    }
  }

  // ---------------------------------------------------------------------------------------------
  // Writing and seeking in an open file

  /** A write through a handle at `pos`: result, new contents, new position. */
  function WriteAt(data: FileData, pos: nat, append: bool, buf: Bytes, allocOk: bool): (FsResult<()>, FileData, nat) {
    var start := if append then |data| else pos;
    var end := start + |buf|;
    if end > USIZE_MAX then (Err(TooLarge), data, start)
    else if |data| < end && (!allocOk || end > ISIZE_MAX) then (Err(InsufficientStorage), data, start)
    else (Ok(()), Spliced(data, start, buf), end)
  }

  /** A write either leaves the bytes alone or has the written bytes at its start and keeps every other byte. */
  lemma WriteAllOrNothing(data: FileData, pos: nat, append: bool, buf: Bytes, allocOk: bool)
    ensures var (r, data', pos') := WriteAt(data, pos, append, buf, allocOk);
            var start := if append then |data| else pos;
            && (r.Err? ==> data' == data)
            && (r.Ok? ==> pos' == start + |buf| && ReadAt(data', start, |buf|) == buf
                          && |data'| == Larger(|data|, pos')
                          && forall k :: 0 <= k < |data| && !(start <= k < pos') ==> data'[k] == data[k])
  {
    var start := if append then |data| else pos;
    ReadAfterWrite(data, start, buf);
    forall k | 0 <= k < |Spliced(data, start, buf)|
      ensures |Spliced(data, start, buf)| == Larger(|data|, start + |buf|)
      ensures k < |data| && !(start <= k < start + |buf|) ==> Spliced(data, start, buf)[k] == data[k]
    {
      SplicedByte(data, start, buf, k);
    }
  }

  type Offset = o: int | -0x8000_0000_0000_0000 <= o <= 0x7FFF_FFFF_FFFF_FFFF
  const U64_MAX: nat := 0xFFFF_FFFF_FFFF_FFFF

  type U64 = n: int | 0 <= n <= U64_MAX

  datatype SeekFrom = Start(npos: U64) | Current(offset: Offset) | End(offset: Offset)

  /** Where a seek ends up, relative to the position or the length; outside the 64-bit range is an error. */
  function SeekTarget(from: SeekFrom, pos: nat, len: nat): FsResult<nat> {
    var target := match from
      case Start(npos) => npos
      case Current(offset) => pos + offset
      case End(offset) => len + offset;
    if 0 <= target <= USIZE_MAX then Ok(target) else Err(GeneralFailure)
  }

  /**
   A seek by nothing tells the position, one by an offset is undone by the opposite one, and one to so many
   bytes before the end leaves just these to be read.
   */
  lemma SeeksMean(pos: nat, data: Bytes, start: U64, offset: Offset, back: nat)
    requires pos <= USIZE_MAX && |data| <= ISIZE_MAX && back <= |data|
    ensures SeekTarget(Start(start), pos, |data|) == Ok(start)
    ensures SeekTarget(Current(0), pos, |data|) == Ok(pos)
    ensures SeekTarget(Current(offset), pos, |data|).Ok? <==> 0 <= pos + offset <= USIZE_MAX
    ensures SeekTarget(Current(offset), pos, |data|).Ok? && 0 - offset <= 0x7FFF_FFFF_FFFF_FFFF ==>
              SeekTarget(Current(0 - offset), SeekTarget(Current(offset), pos, |data|).value, |data|) == Ok(pos)
    ensures SeekTarget(End(0 - back), pos, |data|).Ok?
    ensures ReadAt(data, SeekTarget(End(0 - back), pos, |data|).value, |data|) == data[|data| - back..]
  {}
}
