/**
 Parsing and printing request paths: `normalize_path` and `encode_path` of src/davpath.rs, on
 targets without a Unicode requirement for paths.
 */
module PathParsing {
  import opened Results
  import opened DavPaths

  datatype ParseError = InvalidPath | PrefixMismatch | ForbiddenPath

  const QUESTION: byte := 63
  const HASH: byte := 35
  const DOTDOT: Bytes := [DOT, DOT]

  predicate IsPrintable(c: byte) {
    32 <= c <= 126
  }

  // ---------------------------------------------------------------------------------------------
  // Percent encoding

  function HexValue(c: byte): Option<byte> {
    if 48 <= c <= 57 then Some(c - 48)
    else if 65 <= c <= 70 then Some(c - 55)
    else if 97 <= c <= 102 then Some(c - 87)
    else None
  }

  function HexDigit(n: int): byte
    requires 0 <= n < 16
  {
    if n < 10 then 48 + n else 55 + n
  }

  lemma HexRoundTrip(n: int)
    requires 0 <= n < 16
    ensures HexValue(HexDigit(n)) == Some(n)
    ensures n >= 10 ==> HexValue(HexDigit(n) + 32) == Some(n)      // lower case
  {}

  predicate IsEscape(s: Bytes) {
    |s| >= 3 && s[0] == PERCENT && HexValue(s[1]).Some? && HexValue(s[2]).Some?
  }

  /** `percent_decode`: a percent sign without two hex digits after it stands for itself. */
  function PercentDecode(s: Bytes): Bytes {
    if s == [] then []
    else if IsEscape(s) then [HexValue(s[1]).value * 16 + HexValue(s[2]).value] + PercentDecode(s[3..])
    else [s[0]] + PercentDecode(s[1..])
  }

  /** The bytes that are not encoded: letters, digits, "-_.~" and the slash. */
  predicate IsUnreserved(c: byte) {
    || 48 <= c <= 57 || 65 <= c <= 90 || 97 <= c <= 122
    || c == 45 || c == 95 || c == DOT || c == 126 || c == SLASH
  }

  function EncodeByte(c: byte): (r: Bytes) {
    if IsUnreserved(c) then [c] else [PERCENT, HexDigit(c / 16), HexDigit(c % 16)]
  }

  function EncodePath(s: Bytes): Bytes {
    if s == [] then [] else EncodeByte(s[0]) + EncodePath(s[1..])
  }

  lemma DecodeEncodedByte(c: byte, rest: Bytes)
    ensures PercentDecode(EncodeByte(c) + rest) == [c] + PercentDecode(rest)
  {
    var s := EncodeByte(c) + rest;
    if IsUnreserved(c) {
      assert s[1..] == rest;
    } else {
      HexRoundTrip(c / 16);
      HexRoundTrip(c % 16);
      assert s[3..] == rest;
    }
  }

  lemma {:induction false} DecodeInvertsEncode(s: Bytes)
    ensures PercentDecode(EncodePath(s)) == s
  {
    if s != [] {
      DecodeEncodedByte(s[0], EncodePath(s[1..]));
      DecodeInvertsEncode(s[1..]);
    }
  }

  lemma {:induction false} EncodeAppend(a: Bytes, b: Bytes)
    ensures EncodePath(a + b) == EncodePath(a) + EncodePath(b)
  {
    if a == [] {
      assert a + b == b;
    } else {
      assert (a + b)[1..] == a[1..] + b;
      EncodeAppend(a[1..], b);
    }
  }

  /** Encoded text is printable ASCII without '?' and '#', and has slashes only where the original has. */
  lemma {:induction false} EncodedBytes(s: Bytes)
    ensures forall c :: c in EncodePath(s) ==> IsPrintable(c) && c != QUESTION && c != HASH
    ensures SlashFree(s) ==> SlashFree(EncodePath(s))
  {
    if s != [] {
      EncodedBytes(s[1..]);
      assert forall c :: c in EncodeByte(s[0]) ==>
                IsPrintable(c) && c != QUESTION && c != HASH && (c == SLASH ==> s[0] == SLASH);
      assert s[0] in s;
    }
  }

  // ---------------------------------------------------------------------------------------------
  // Splitting an encoded path

  function DecodeAll(parts: seq<Bytes>): seq<Bytes> {
    seq(|parts|, n requires 0 <= n < |parts| => PercentDecode(parts[n]))
  }

  lemma {:induction false} SplitEncoded(s: Bytes)
    ensures |Split(EncodePath(s))| == |Split(s)|
    ensures forall n :: 0 <= n < |Split(s)| ==> Split(EncodePath(s))[n] == EncodePath(Split(s)[n])
  {
    if s != [] {
      SplitEncoded(s[1..]);
      var rest, erest := Split(s[1..]), Split(EncodePath(s[1..]));
      if s[0] == SLASH {
        assert EncodePath(s) == [] + [SLASH] + EncodePath(s[1..]);
        SplitAppend([], EncodePath(s[1..]));
        assert Split(EncodePath(s)) == [[]] + erest;
        forall n | 0 <= n < |Split(s)| ensures Split(EncodePath(s))[n] == EncodePath(Split(s)[n]) {
          assert n > 0 ==> Split(s)[n] == rest[n - 1] && Split(EncodePath(s))[n] == erest[n - 1];
        }
      } else {
        SplitSlashFree([s[0]]);
        EncodedBytes([s[0]]);
        assert EncodePath([s[0]]) == EncodeByte(s[0]) by { assert [s[0]][1..] == []; }
        PrependToSplit(EncodeByte(s[0]), EncodePath(s[1..]));
        assert Split(s) == [[s[0]] + rest[0]] + rest[1..];
        assert Split(s)[0][1..] == rest[0];
        forall n | 0 <= n < |Split(s)| ensures Split(EncodePath(s))[n] == EncodePath(Split(s)[n]) {
          assert n > 0 ==> Split(s)[n] == rest[n] && Split(EncodePath(s))[n] == erest[n];
        }
      }
    }
  }

  /** Slash-free bytes in front go to the first part. */
  lemma {:induction false} PrependToSplit(a: Bytes, b: Bytes)
    requires SlashFree(a)
    ensures Split(a + b) == [a + Split(b)[0]] + Split(b)[1..]
  {
    if a == [] {
      assert a + b == b && a + Split(b)[0] == Split(b)[0];
    } else {
      assert (a + b)[1..] == a[1..] + b;
      PrependToSplit(a[1..], b);
      assert [a[0]] + (a[1..] + Split(b)[0]) == a + Split(b)[0];
    }
  }

  lemma DecodedSplitOfEncoded(s: Bytes)
    ensures DecodeAll(Split(EncodePath(s))) == Split(s)
  {
    SplitEncoded(s);
    forall n | 0 <= n < |Split(s)| ensures DecodeAll(Split(EncodePath(s)))[n] == Split(s)[n] {
      DecodeInvertsEncode(Split(s)[n]);
    }
  }

  // ---------------------------------------------------------------------------------------------
  // The stack of segments

  predicate HasForbiddenByte(segment: Bytes) {
    0 in segment || SLASH in segment
  }

  /** Folding the decoded segments onto a stack: "." and "" do nothing, ".." pops. */
  function StackFold(segments: seq<Bytes>): Result<seq<Bytes>, ParseError> {
    if segments == [] then Ok([])
    else
      var before := StackFold(segments[..|segments| - 1]);
      if before.Err? then before else Pushed(before.value, segments[|segments| - 1])
  }

  function Pushed(stack: seq<Bytes>, segment: Bytes): Result<seq<Bytes>, ParseError> {
    if segment == [DOT] || segment == [] then Ok(stack)
    else if segment == DOTDOT then
      if stack == [] then Err(ForbiddenPath) else Ok(stack[..|stack| - 1])
    else if HasForbiddenByte(segment) then Err(InvalidPath)
    else Ok(stack + [segment])
  }

  /** What `normalize_path` leaves on its stack: segments that name something. */
  ghost predicate IsName(s: Bytes) {
    s != [] && s != [DOT] && s != DOTDOT && !HasForbiddenByte(s)
  }

  ghost predicate AreNames(segs: seq<Bytes>) {
    forall n :: 0 <= n < |segs| ==> IsName(segs[n])
  }

  lemma {:induction false} FoldYieldsNames(segments: seq<Bytes>)
    ensures StackFold(segments).Ok? ==> AreNames(StackFold(segments).value)
  {
    if segments != [] { FoldYieldsNames(segments[..|segments| - 1]); }
  }

  lemma {:induction false} FoldOfNames(segments: seq<Bytes>)
    requires forall n :: 0 <= n < |segments| ==> segments[n] == [] || IsName(segments[n])
    ensures StackFold(segments) == Ok(NonEmpty(segments))
  {
    if segments != [] {
      var init, last := segments[..|segments| - 1], segments[|segments| - 1];
      assert forall n :: 0 <= n < |init| ==> init[n] == segments[n];
      FoldOfNames(init);
      assert segments == init + [last];
      NonEmptyAppend(init, [last]);
      assert NonEmpty(init) + [] == NonEmpty(init);
      assert NonEmpty([last]) == if last == [] then [] else [last] by { assert NonEmpty([last][1..]) == []; }
    }
  }

  /** The code's own stack: a slash in front of every segment. */
  ghost function Interleaved(stack: seq<Bytes>): seq<Bytes> {
    if stack == [] then [] else Interleaved(stack[..|stack| - 1]) + [[SLASH], stack[|stack| - 1]]
  }

  /** `join(b"")` */
  lemma {:induction false} InterleavedLength(stack: seq<Bytes>)
    ensures |Interleaved(stack)| == 2 * |stack|
  {
    if stack != [] { InterleavedLength(stack[..|stack| - 1]); }
  }

  lemma {:induction false} ConcatInterleaved(stack: seq<Bytes>)
    ensures Concat(Interleaved(stack)) == Render(stack)
  {
    if stack != [] {
      var init, last := stack[..|stack| - 1], stack[|stack| - 1];
      var v := Interleaved(stack);
      ConcatInterleaved(init);
      assert v[..|v| - 1] == Interleaved(init) + [[SLASH]];
      assert (Interleaved(init) + [[SLASH]])[..|Interleaved(init)|] == Interleaved(init);
    }
  }

  // ---------------------------------------------------------------------------------------------
  // normalize_path

  /** The position of the first '?' or '#'. */
  function QueryStart(s: Bytes): (n: nat)
    ensures n <= |s|
    ensures n < |s| ==> s[n] == QUESTION || s[n] == HASH
  {
    if s == [] || s[0] == QUESTION || s[0] == HASH then 0 else 1 + QueryStart(s[1..])
  }

  /** The path without its query, or the error that raw paths are refused with. */
  function RawPath(rp: Bytes): Result<Bytes, ParseError> {
    if exists n :: 0 <= n < |rp| && !IsPrintable(rp[n]) then Err(InvalidPath)
    else
      var pos := QueryStart(rp);
      if pos < |rp| && rp[pos] == HASH then Err(InvalidPath)
      else if pos == 0 || rp[0] != SLASH then Err(InvalidPath)
      else Ok(rp[..pos])
  }

  function Normalize(rp: Bytes): Result<Bytes, ParseError> {
    var raw := RawPath(rp);
    if raw.Err? then Err(raw.error)
    else
      var stack := StackFold(DecodeAll(Split(raw.value)));
      if stack.Err? then Err(stack.error)
      else
        var isDir := |raw.value| > 0 && raw.value[|raw.value| - 1] == SLASH;
        Ok(Render(stack.value) + (if isDir || stack.value == [] then [SLASH] else []))
  }

  method NormalizePath(rp: Bytes) returns (r: Result<Bytes, ParseError>)
    ensures r == Normalize(rp)
  {
    var raw := RawPath(rp);
    if raw.Err? {
      return Err(raw.error);
    }
    var rawPath := raw.value;
    var isDir := |rawPath| > 0 && rawPath[|rawPath| - 1] == SLASH;
    var folded := FoldSegments(DecodeAll(Split(rawPath)));
    if folded.Err? {
      return Err(folded.error);
    }
    ghost var stack := StackFold(DecodeAll(Split(rawPath))).value;
    var v := folded.value;
    InterleavedLength(stack);
    ConcatInterleaved(stack);
    if isDir || v == [] {
      assert (v + [[SLASH]])[..|v|] == v;
      v := v + [[SLASH]];
    } else {
      assert Render(stack) + [] == Render(stack);
    }
    r := Ok(Concat(v));
  }

  /** The loop of `normalize_path`. Its stack holds a slash in front of every segment. */
  method FoldSegments(segments: seq<Bytes>) returns (r: Result<seq<Bytes>, ParseError>)
    ensures r == match StackFold(segments)
                 case Ok(stack) => Ok(Interleaved(stack))
                 case Err(e) => Err(e)
  {
    var v := [];
    ghost var stack := [];
    for n := 0 to |segments|
      invariant StackFold(segments[..n]) == Ok(stack)
      invariant v == Interleaved(stack)
    {
      var segment := segments[n];
      assert segments[..n + 1][..n] == segments[..n];
      assert StackFold(segments[..n + 1]) == Pushed(stack, segment);
      InterleavedLength(stack);
      if segment == [DOT] || segment == [] {
      } else if segment == DOTDOT {
        if |v| < 2 {
          FoldErrPersists(segments, n + 1);
          return Err(ForbiddenPath);
        }
        v := v[..|v| - 1];
        v := v[..|v| - 1];
        stack := stack[..|stack| - 1];
      } else {
        if HasForbiddenByte(segment) {
          FoldErrPersists(segments, n + 1);
          return Err(InvalidPath);
        }
        v := v + [[SLASH]];
        v := v + [segment];
        assert (stack + [segment])[..|stack|] == stack;
        stack := stack + [segment];
      }
    }
    assert segments[..|segments|] == segments;
    r := Ok(v);
  }

  lemma {:induction false} FoldErrPersists(segments: seq<Bytes>, n: nat)
    requires n <= |segments| && StackFold(segments[..n]).Err?
    ensures StackFold(segments) == StackFold(segments[..n])
    decreases |segments|
  {
    if n == |segments| {
      assert segments[..n] == segments;
    } else {
      var init := segments[..|segments| - 1];
      assert init[..n] == segments[..n];
      FoldErrPersists(init, n);
    }
  }

  // ---------------------------------------------------------------------------------------------
  // What is normal, and the round trip

  /** The form of every successful result. */
  ghost predicate Normalized(q: Bytes) {
    Normal(q) && AreNames(Segs(q))
  }

  lemma NamesAreSegments(segs: seq<Bytes>)
    requires AreNames(segs)
    ensures AreSegments(segs)
  {
    forall n | 0 <= n < |segs| ensures IsSegment(segs[n]) {
      assert IsName(segs[n]);
    }
  }

  /**
   Every successful result is absolute, has no empty, "." or ".." segment and no NUL, and its
   segments are the fold of the decoded segments of the request.
   */
  lemma ResultsAreNormalized(rp: Bytes)
    requires Normalize(rp).Ok?
    ensures var q := Normalize(rp).value;
            && Normalized(q) && |q| > 0 && q[0] == SLASH && 0 !in q
            && StackFold(DecodeAll(Split(RawPath(rp).value))) == Ok(Segs(q))
  {
    var raw := RawPath(rp).value;
    var segments := DecodeAll(Split(raw));
    var stack := StackFold(segments).value;
    var q := Normalize(rp).value;
    FoldYieldsNames(segments);
    NamesAreSegments(stack);
    var isDir := (|raw| > 0 && raw[|raw| - 1] == SLASH) || stack == [];
    RenderedIsNormal(stack, isDir);
    assert q == Render(stack) + (if isDir then [SLASH] else []);
    if stack != [] { RenderStartsWithSlash(stack); }
    RenderHasNoNul(stack);
  }

  lemma {:induction false} RenderHasNoNul(stack: seq<Bytes>)
    requires AreNames(stack)
    ensures 0 !in Render(stack)
  {
    if stack != [] {
      var init := stack[..|stack| - 1];
      assert AreNames(init) by { forall n | 0 <= n < |init| ensures IsName(init[n]) { assert IsName(stack[n]); } }
      RenderHasNoNul(init);
      assert IsName(stack[|stack| - 1]);
    }
  }

  lemma {:induction false} NoQueryInEncoded(s: Bytes)
    requires forall c :: c in s ==> c != QUESTION && c != HASH
    ensures QueryStart(s) == |s|
  {
    if s != [] {
      assert s[0] in s && forall c :: c in s[1..] ==> c in s;
      NoQueryInEncoded(s[1..]);
    }
  }

  lemma EncodedIsRaw(q: Bytes)
    requires |q| > 0 && q[0] == SLASH
    ensures RawPath(EncodePath(q)) == Ok(EncodePath(q))
  {
    EncodedBytes(q);
    NoQueryInEncoded(EncodePath(q));
    assert EncodePath(q)[0] == SLASH;
    forall n | 0 <= n < |EncodePath(q)| ensures IsPrintable(EncodePath(q)[n]) {
      assert EncodePath(q)[n] in EncodePath(q);
    }
    assert EncodePath(q)[..|EncodePath(q)|] == EncodePath(q);
  }

  lemma EncodedEndsAlike(q: Bytes)
    requires |q| > 0
    ensures |EncodePath(q)| > 0
    ensures EncodePath(q)[|EncodePath(q)| - 1] == SLASH <==> q[|q| - 1] == SLASH
  {
    var init, last := q[..|q| - 1], q[|q| - 1];
    assert q == init + [last];
    EncodeAppend(init, [last]);
    assert EncodePath([last]) == EncodeByte(last) by { assert [last][1..] == []; }
    HexDigitIsNoSlash(last % 16);
  }

  lemma HexDigitIsNoSlash(n: int)
    requires 0 <= n < 16
    ensures HexDigit(n) != SLASH
  {}

  lemma FoldOfNormalized(q: Bytes)
    requires Normalized(q)
    ensures StackFold(Split(q)) == Ok(Segs(q))
  {
    NonEmptyKeeps(Split(q));
    forall n | 0 <= n < |Split(q)| ensures Split(q)[n] == [] || IsName(Split(q)[n]) {
      if Split(q)[n] != [] {
        assert Split(q)[n] in Segs(q);
      }
    }
    FoldOfNames(Split(q));
  }

  lemma NormalizedIsRendered(q: Bytes)
    requires Normalized(q)
    ensures |q| > 0 && q[0] == SLASH
    ensures q == Render(Segs(q)) + (if q[|q| - 1] == SLASH || Segs(q) == [] then [SLASH] else [])
  {
    var segs := Segs(q);
    NamesAreSegments(segs);
    if segs != [] {
      RenderStartsWithSlash(segs);
      RenderEndsInSegment(segs);
    }
    assert Render(segs) + [] == Render(segs);
  }

  /** Encoding a normalized path and parsing it again gives it back. */
  lemma RoundTrip(q: Bytes)
    requires Normalized(q)
    ensures Normalize(EncodePath(q)) == Ok(q)
  {
    NormalizedIsRendered(q);
    EncodedIsRaw(q);
    DecodedSplitOfEncoded(q);
    FoldOfNormalized(q);
    EncodedEndsAlike(q);
  }

  /** Parsing is idempotent through encoding: whatever is accepted denotes a path that denotes itself. */
  lemma NormalizeIsStable(rp: Bytes)
    requires Normalize(rp).Ok?
    ensures Normalize(EncodePath(Normalize(rp).value)) == Normalize(rp)
  {
    ResultsAreNormalized(rp);
    RoundTrip(Normalize(rp).value);
  }

  // ---------------------------------------------------------------------------------------------
  // What dots and empty segments do, and what is dropped or refused

  lemma FoldOneMore(x: seq<Bytes>, s: Bytes)
    ensures StackFold(x + [s]) == if StackFold(x).Err? then StackFold(x) else Pushed(StackFold(x).value, s)
  {
    assert (x + [s])[..|x|] == x;
  }

  /** What follows depends on what came before only by what this amounts to. */
  lemma {:induction false} FoldSameBefore(x: seq<Bytes>, x': seq<Bytes>, y: seq<Bytes>)
    requires StackFold(x) == StackFold(x')
    ensures StackFold(x + y) == StackFold(x' + y)
    decreases |y|
  {
    if y == [] {
      assert x + y == x && x' + y == x';
    } else {
      var init, last := y[..|y| - 1], y[|y| - 1];
      FoldSameBefore(x, x', init);
      FoldOneMore(x + init, last);
      FoldOneMore(x' + init, last);
      assert x + init + [last] == x + y && x' + init + [last] == x' + y;
    }
  }

  /** A name is put at the end, ".." takes it away again, and "." and nothing do nothing, wherever they stand. */
  lemma DotsAndNames(x: seq<Bytes>, s: Bytes, y: seq<Bytes>)
    requires IsName(s)
    ensures StackFold(x).Ok? ==> StackFold(x + [s]) == Ok(StackFold(x).value + [s])
    ensures StackFold(x + [s, DOTDOT] + y) == StackFold(x + y)
    ensures StackFold(x + [[DOT]] + y) == StackFold(x + y)
    ensures StackFold(x + [[]] + y) == StackFold(x + y)
  {
    FoldOneMore(x, s);
    FoldOneMore(x + [s], DOTDOT);
    assert x + [s] + [DOTDOT] == x + [s, DOTDOT];
    if StackFold(x).Ok? {
      var stack := StackFold(x).value;
      assert (stack + [s])[..|stack|] == stack;
    }
    FoldSameBefore(x + [s, DOTDOT], x, y);
    FoldOneMore(x, [DOT]);
    FoldSameBefore(x + [[DOT]], x, y);
    FoldOneMore(x, []);
    FoldSameBefore(x + [[]], x, y);
  }

  /** ".." above the root is forbidden, a NUL or a slash in a segment invalid, and the first of these decides. */
  lemma FirstErrorDecides(x: seq<Bytes>, s: Bytes, y: seq<Bytes>)
    requires StackFold(x).Ok?
    ensures StackFold(x).value == [] ==> StackFold(x + [DOTDOT] + y) == Err(ForbiddenPath)
    ensures 0 in s || SLASH in s ==> StackFold(x + [s] + y) == Err(InvalidPath)
  {
    FoldOneMore(x, DOTDOT);
    FoldOneMore(x, s);
    assert (x + [DOTDOT] + y)[..|x| + 1] == x + [DOTDOT] && (x + [s] + y)[..|x| + 1] == x + [s];
    if StackFold(x).value == [] { FoldErrPersists(x + [DOTDOT] + y, |x| + 1); }
    if 0 in s || SLASH in s {
      assert s != [DOT] && s != [] && s != DOTDOT;
      FoldErrPersists(x + [s] + y, |x| + 1);
    }
  }

  /** A request path without query and fragment: printable, and from the root. */
  ghost predicate IsPlain(s: Bytes) {
    s != [] && s[0] == SLASH && forall c :: c in s ==> IsPrintable(c) && c != QUESTION && c != HASH
  }

  lemma {:induction false} QueryStartAfter(s: Bytes, c: byte, q: Bytes)
    requires (forall b :: b in s ==> b != QUESTION && b != HASH) && (c == QUESTION || c == HASH)
    ensures QueryStart(s + [c] + q) == |s|
  {
    var t := s + [c] + q;
    if s != [] {
      assert t[0] == s[0] && s[0] in s;
      assert t[1..] == s[1..] + [c] + q;
      assert forall b :: b in s[1..] ==> b in s;
      QueryStartAfter(s[1..], c, q);
    }
  }

  lemma PlainIsRaw(s: Bytes)
    requires IsPlain(s)
    ensures RawPath(s) == Ok(s)
  {
    NoQueryInEncoded(s);
    forall n | 0 <= n < |s| ensures IsPrintable(s[n]) { assert s[n] in s; }
    assert s[..|s|] == s;
  }

  /**
   What follows a question mark is dropped, a fragment is refused, and so is what is not printable or does not
   start at the root; everything else is plain.
   */
  lemma QueryIsDropped(s: Bytes, q: Bytes)
    requires IsPlain(s) && forall c :: c in q ==> IsPrintable(c)
    ensures Normalize(s + [QUESTION] + q) == Normalize(s)
    ensures Normalize(s + [HASH] + q) == Err(InvalidPath)
  {
    PlainIsRaw(s);
    forall c: byte | c == QUESTION || c == HASH
      ensures QueryStart(s + [c] + q) == |s| && (s + [c] + q)[..|s|] == s
      ensures forall n :: 0 <= n < |s + [c] + q| ==> IsPrintable((s + [c] + q)[n])
    {
      QueryStartAfter(s, c, q);
      forall n | 0 <= n < |s + [c] + q| ensures IsPrintable((s + [c] + q)[n]) {
        assert (s + [c] + q)[n] in s || (s + [c] + q)[n] in q || n == |s|;
      }
    }
  }

  lemma UnfitIsRefused(rp: Bytes)
    ensures (exists c :: c in rp && !IsPrintable(c)) || rp == [] || rp[0] != SLASH ==> Normalize(rp) == Err(InvalidPath)
  {
    if c :| c in rp && !IsPrintable(c) {
      var n :| 0 <= n < |rp| && rp[n] == c;
    }
  }

  lemma {:induction false} DecodeAllAppend(a: seq<Bytes>, b: seq<Bytes>)
    ensures DecodeAll(a + b) == DecodeAll(a) + DecodeAll(b)
  {}

  /** One segment between two others. */
  lemma SplitThree(x: Bytes, s: Bytes, y: Bytes)
    requires SlashFree(s)
    ensures DecodeAll(Split(x + [SLASH] + s + [SLASH] + y))
            == DecodeAll(Split(x)) + [PercentDecode(s)] + DecodeAll(Split(y))
  {
    SplitAppend(x + [SLASH] + s, y);
    SplitAppend(x, s);
    SplitSlashFree(s);
    DecodeAllAppend(Split(x) + [s], Split(y));
    DecodeAllAppend(Split(x), [s]);
    assert DecodeAll([s]) == [PercentDecode(s)];
  }

  /** Two plain paths that end alike and whose segments amount to the same are the same path. */
  lemma SameFoldSamePath(a: Bytes, b: Bytes)
    requires IsPlain(a) && IsPlain(b) && (a[|a| - 1] == SLASH <==> b[|b| - 1] == SLASH)
    requires StackFold(DecodeAll(Split(a))) == StackFold(DecodeAll(Split(b)))
    ensures Normalize(a) == Normalize(b)
  {
    PlainIsRaw(a);
    PlainIsRaw(b);
  }

  lemma PlainWithout(x: Bytes, s: Bytes, y: Bytes)
    requires IsPlain(x + [SLASH] + s + [SLASH] + y)
    ensures IsPlain(x + [SLASH] + y)
    ensures var (a, b) := (x + [SLASH] + s + [SLASH] + y, x + [SLASH] + y);
            a[|a| - 1] == b[|b| - 1]
  {
    var a, b := x + [SLASH] + s + [SLASH] + y, x + [SLASH] + y;
    assert a[0] == b[0];
    forall c | c in b ensures c in a {
      assert c in x || c == SLASH || c in y;
    }
    if y == [] {
      assert a[|a| - 1] == SLASH && b[|b| - 1] == SLASH;
    } else {
      assert a[|a| - 1] == y[|y| - 1] && b[|b| - 1] == y[|y| - 1];
    }
  }

  /** In a request path "." and empty segments may be left out, encoded or not. */
  lemma DotIsNothing(x: Bytes, dot: Bytes, y: Bytes)
    requires SlashFree(dot) && (PercentDecode(dot) == [DOT] || dot == [])
    requires IsPlain(x + [SLASH] + dot + [SLASH] + y)
    ensures Normalize(x + [SLASH] + dot + [SLASH] + y) == Normalize(x + [SLASH] + y)
  {
    SplitThree(x, dot, y);
    SplitAppend(x, y);
    DecodeAllAppend(Split(x), Split(y));
    DotsAndNames(DecodeAll(Split(x)), [1], DecodeAll(Split(y)));
    PlainWithout(x, dot, y);
    SameFoldSamePath(x + [SLASH] + dot + [SLASH] + y, x + [SLASH] + y);
  }

  lemma FoldWithoutPair(x: Bytes, s: Bytes, up: Bytes, y: Bytes)
    requires SlashFree(s) && IsName(PercentDecode(s)) && SlashFree(up) && PercentDecode(up) == DOTDOT
    ensures StackFold(DecodeAll(Split(x + [SLASH] + s + [SLASH] + up + [SLASH] + y)))
            == StackFold(DecodeAll(Split(x)) + DecodeAll(Split(y)))
  {
    var xs, ys, name := DecodeAll(Split(x)), DecodeAll(Split(y)), PercentDecode(s);
    SplitThree(x + [SLASH] + s, up, y);
    SplitAppend(x, s);
    SplitSlashFree(s);
    DecodeAllAppend(Split(x), [s]);
    assert DecodeAll([s]) == [name];
    assert xs + [name] + [DOTDOT] + ys == xs + [name, DOTDOT] + ys;
    DotsAndNames(xs, name, ys);
  }

  /** And so may a name with ".." right after it. */
  lemma DotDotCancels(x: Bytes, s: Bytes, up: Bytes, y: Bytes)
    requires SlashFree(s) && IsName(PercentDecode(s)) && SlashFree(up) && PercentDecode(up) == DOTDOT
    requires IsPlain(x + [SLASH] + s + [SLASH] + up + [SLASH] + y)
    ensures Normalize(x + [SLASH] + s + [SLASH] + up + [SLASH] + y) == Normalize(x + [SLASH] + y)
  {
    FoldWithoutPair(x, s, up, y);
    SplitAppend(x, y);
    DecodeAllAppend(Split(x), Split(y));
    PlainWithout(x + [SLASH] + s, up, y);
    PlainWithout(x, s, y);
    SameFoldSamePath(x + [SLASH] + s + [SLASH] + up + [SLASH] + y, x + [SLASH] + y);
  }

  /** From the root there is no way up, and no encoding gets a slash or a NUL into a segment. */
  lemma NoWayOut(x: Bytes, s: Bytes, y: Bytes)
    requires SlashFree(s) && IsPlain(x + [SLASH] + s + [SLASH] + y)
    ensures PercentDecode(s) == DOTDOT && Normalize(x + [SLASH]) == Ok([SLASH]) ==>
              Normalize(x + [SLASH] + s + [SLASH] + y) == Err(ForbiddenPath)
    ensures (0 in PercentDecode(s) || SLASH in PercentDecode(s)) && Normalize(x + [SLASH]).Ok? ==>
              Normalize(x + [SLASH] + s + [SLASH] + y) == Err(InvalidPath)
  {
    var whole, before := x + [SLASH] + s + [SLASH] + y, x + [SLASH];
    if Normalize(before).Ok? {
      SplitThree(x, s, y);
      PlainIsRaw(whole);
      assert before == whole[..|before|];
      assert IsPlain(before) by { assert forall c :: c in before ==> c in whole; }
      PlainIsRaw(before);
      FoldUpTo(x);
      FirstErrorDecides(DecodeAll(Split(x)), PercentDecode(s), DecodeAll(Split(y)));
      if Normalize(before) == Ok([SLASH]) { RootIsEmptyStack(StackFold(DecodeAll(Split(x))).value); }
    }
  }

  /** A slash at the end changes nothing of the segments. */
  lemma FoldUpTo(x: Bytes)
    ensures StackFold(DecodeAll(Split(x + [SLASH]))) == StackFold(DecodeAll(Split(x)))
  {
    SplitAppend(x, []);
    assert x + [SLASH] + [] == x + [SLASH];
    DecodeAllAppend(Split(x), [[]]);
    assert DecodeAll([[]]) == [[]];
    FoldOneMore(DecodeAll(Split(x)), []);
  }

  lemma RootIsEmptyStack(stack: seq<Bytes>)
    requires Render(stack) + [SLASH] == [SLASH]
    ensures stack == []
  {
    assert |Render(stack) + [SLASH]| == 1;
  }

  // ---------------------------------------------------------------------------------------------
  // Invalid escapes, which the comment on `normalize_path` says are refused

  /** Decoding as the comment describes it: nothing if some percent sign does not begin an escape. */
  function StrictDecode(s: Bytes): Option<Bytes> {
    if s == [] then Some([])
    else if s[0] == PERCENT && !IsEscape(s) then None
    else
      var rest := StrictDecode(if IsEscape(s) then s[3..] else s[1..]);
      if rest.None? then None
      else Some([if IsEscape(s) then HexValue(s[1]).value * 16 + HexValue(s[2]).value else s[0]] + rest.value)
  }

  /** Every percent sign has two hex digits after it. */
  ghost predicate AllEscapes(s: Bytes) {
    forall i :: 0 <= i < |s| && s[i] == PERCENT ==> IsEscape(s[i..])
  }

  lemma EscapesOfTail(s: Bytes)
    requires s != []
    ensures AllEscapes(s) <==> (s[0] == PERCENT ==> IsEscape(s)) && AllEscapes(s[1..])
  {
    var t := s[1..];
    forall i | 0 <= i < |t| ensures t[i] == s[i + 1] && t[i..] == s[i + 1..] {}
    assert s[0..] == s;
    if (s[0] == PERCENT ==> IsEscape(s)) && AllEscapes(t) {
      forall i | 0 <= i < |s| && s[i] == PERCENT ensures IsEscape(s[i..]) {
        if i > 0 { assert t[i - 1] == PERCENT; }
      }
    }
    if AllEscapes(s) {
      forall i | 0 <= i < |t| && t[i] == PERCENT ensures IsEscape(t[i..]) { assert s[i + 1] == PERCENT; }
    }
  }

  /** The lenient decoder does what the strict one does exactly if every percent sign begins an escape. */
  lemma {:induction false} StrictDecodingAgreesIff(s: Bytes)
    ensures StrictDecode(s) == Some(PercentDecode(s)) <==> AllEscapes(s)
    ensures StrictDecode(s) == None <==> !AllEscapes(s)
  {
    if s != [] {
      EscapesOfTail(s);
      if IsEscape(s) {
        EscapesOfTail(s[1..]);
        EscapesOfTail(s[2..]);
        assert s[1..][1..] == s[2..] && s[2..][1..] == s[3..];
        StrictDecodingAgreesIff(s[3..]);
      } else {
        StrictDecodingAgreesIff(s[1..]);
      }
    }
  }

  lemma {:induction false} FirstPart(s: Bytes)
    ensures Split(s)[0] <= s
    ensures |Split(s)[0]| < |s| ==> s[|Split(s)[0]|] == SLASH
  {
    if s != [] {
      FirstPart(s[1..]);
      if s[0] != SLASH {
        assert Split(s)[0] == [s[0]] + Split(s[1..])[0];
        assert s == [s[0]] + s[1..];
      }
    }
  }

  /** A slash never stands inside an escape, so splitting first makes no difference. */
  lemma {:induction false} EscapesOfParts(s: Bytes)
    ensures AllEscapes(s) <==> forall n :: 0 <= n < |Split(s)| ==> AllEscapes(Split(s)[n])
  {
    if s != [] {
      var rest := Split(s[1..]);
      EscapesOfParts(s[1..]);
      EscapesOfTail(s);
      if s[0] == SLASH {
        assert Split(s) == [[]] + rest;
        assert forall n :: 0 <= n < |rest| ==> Split(s)[n + 1] == rest[n];
      } else {
        FirstPart(s[1..]);
        var first := [s[0]] + rest[0];
        EscapesOfTail(first);
        assert first[1..] == rest[0];
        assert IsEscape(s) <==> IsEscape(first);
        assert Split(s)[0] == first && forall n :: 1 <= n < |rest| ==> Split(s)[n] == rest[n];
      }
    }
  }

  ghost predicate SomeInvalid(parts: seq<Bytes>) {
    exists n :: 0 <= n < |parts| && StrictDecode(parts[n]) == None
  }

  lemma SomeInvalidIff(raw: Bytes)
    ensures SomeInvalid(Split(raw)) <==> !AllEscapes(raw)
  {
    var parts := Split(raw);
    EscapesOfParts(raw);
    forall n | 0 <= n < |parts| ensures StrictDecode(parts[n]) == None <==> !AllEscapes(parts[n]) {
      StrictDecodingAgreesIff(parts[n]);
    }
  }

  /** `normalize_path` as its comment describes it. */
  ghost function StrictNormalize(rp: Bytes): Result<Bytes, ParseError> {
    var raw := RawPath(rp);
    if raw.Ok? && SomeInvalid(Split(raw.value)) then Err(InvalidPath) else Normalize(rp)
  }

  /**
   The code keeps the comment's promise on exactly the paths without an invalid escape, and on those it refuses
   anyway.
   */
  lemma CommentHoldsIff(rp: Bytes)
    ensures Normalize(rp).Ok? ==> (StrictNormalize(rp) == Normalize(rp) <==> AllEscapes(RawPath(rp).value))
    ensures RawPath(rp).Ok? && AllEscapes(RawPath(rp).value) ==> StrictNormalize(rp) == Normalize(rp)
    ensures RawPath(rp).Ok? && !AllEscapes(RawPath(rp).value) ==> StrictNormalize(rp) == Err(InvalidPath)
  {
    if RawPath(rp).Ok? { SomeInvalidIff(RawPath(rp).value); }
  }

  lemma BadEscapeIsRaw()
    ensures RawPath([SLASH, PERCENT, 122]) == Ok([SLASH, PERCENT, 122])
  {
    var s: Bytes := [SLASH, PERCENT, 122];
    assert s[..3] == s && QueryStart(s) == 3 by {
      assert s[1..] == [PERCENT, 122] && s[1..][1..] == [122] && [122][1..] == [];
    }
  }

  lemma BadEscapeIsDecodedToItself()
    ensures DecodeAll(Split([SLASH, PERCENT, 122])) == [[], [PERCENT, 122]]
  {
    var part: Bytes := [PERCENT, 122];
    var parts: seq<Bytes> := [[], part];
    assert [] + [SLASH] + part == [SLASH, PERCENT, 122];
    SplitAppend([], part);
    SplitSlashFree(part);
    assert PercentDecode(part) == part by {
      assert part[1..] == [122] && [122][1..] == [] && PercentDecode([122]) == [122];
    }
    assert DecodeAll(parts) == parts by {
      assert parts[1..] == [part] && [part][1..] == [] && DecodeAll([part]) == [part];
    }
  }

  lemma BadEscapeIsFolded()
    ensures StackFold([[], [PERCENT, 122]]) == Ok([[PERCENT, 122]])
    ensures Render([[PERCENT, 122]]) == [SLASH, PERCENT, 122]
  {
    var part: Bytes := [PERCENT, 122];
    var parts: seq<Bytes> := [[], part];
    FoldOfNames(parts);
    assert NonEmpty(parts) == [part] by { assert parts[1..] == [part] && NonEmpty([part][1..]) == []; }
    assert [part][..0] == [];
  }

  /** "/%z" is accepted as it stands, where the comment promises an error. */
  lemma InvalidEscapeIsKept()
    ensures Normalize([SLASH, PERCENT, 122]) == Ok([SLASH, PERCENT, 122])
    ensures StrictNormalize([SLASH, PERCENT, 122]) == Err(InvalidPath)
  {
    var s: Bytes := [SLASH, PERCENT, 122];
    BadEscapeIsRaw();
    BadEscapeIsDecodedToItself();
    BadEscapeIsFolded();
    assert s + [] == s;
    CommentHoldsIff(s);
    assert s[1] == PERCENT && !IsEscape(s[1..]);
  }
}
