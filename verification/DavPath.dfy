/**
 Paths as byte strings, and the segment sequences they mean (src/davpath.rs, and the byte tests of
 src/conditional.rs and src/fakels.rs).
 */
module DavPaths {
  import opened Results

  type byte = b: int | 0 <= b < 256
  type Bytes = seq<byte>

  const SLASH: byte := 47
  const DOT: byte := 46
  const PERCENT: byte := 37

  function Concat(parts: seq<Bytes>): Bytes {
    if parts == [] then [] else Concat(parts[..|parts| - 1]) + parts[|parts| - 1]
  }

  // ---------------------------------------------------------------------------------------------
  // Splitting on '/', and the segments of a path

  ghost predicate SlashFree(s: Bytes) {
    SLASH !in s
  }

  /** One byte put in front of an already split rest: a slash starts a new part. */
  function SplitStep(c: byte, rest: seq<Bytes>): seq<Bytes>
    requires |rest| > 0
  {
    if c == SLASH then [[]] + rest else [[c] + rest[0]] + rest[1..]
  }

  /** `split(|c| c == b'/')` */
  function Split(s: Bytes): (parts: seq<Bytes>)
    ensures |parts| > 0
  {
    if s == [] then [[]]
    else
      SplitStep(s[0], Split(s[1..]))
  }

  /** `filter(|s| !s.is_empty())` */
  function NonEmpty(parts: seq<Bytes>): seq<Bytes> {
    if parts == [] then []
    else if parts[0] == [] then NonEmpty(parts[1..])
    else [parts[0]] + NonEmpty(parts[1..])
  }

  /** The non-empty segments of a path. */
  function Segs(path: Bytes): seq<Bytes> {
    NonEmpty(Split(path))
  }

  ghost predicate IsSegment(s: Bytes) {
    s != [] && SlashFree(s)
  }

  ghost predicate AreSegments(segs: seq<Bytes>) {
    forall n :: 0 <= n < |segs| ==> IsSegment(segs[n])
  }

  lemma {:induction false} SplitPartsSlashFree(s: Bytes)
    ensures forall n :: 0 <= n < |Split(s)| ==> SlashFree(Split(s)[n])
  {
    if s != [] {
      SplitPartsSlashFree(s[1..]);
      var rest := Split(s[1..]);
      forall n | 0 <= n < |Split(s)| ensures SlashFree(Split(s)[n]) {
        if s[0] == SLASH {
          assert n > 0 ==> Split(s)[n] == rest[n - 1];
        } else {
          assert Split(s)[n] == if n == 0 then [s[0]] + rest[0] else rest[n];
        }
      }
    }
  }

  lemma {:induction false} NonEmptyKeeps(parts: seq<Bytes>)
    ensures forall s :: s in NonEmpty(parts) <==> s in parts && s != []
  {
    if parts != [] {
      NonEmptyKeeps(parts[1..]);
      assert parts == [parts[0]] + parts[1..];
    }
  }

  lemma SegsAreSegments(path: Bytes)
    ensures AreSegments(Segs(path))
  {
    SplitPartsSlashFree(path);
    NonEmptyKeeps(Split(path));
    forall n | 0 <= n < |Segs(path)| ensures IsSegment(Segs(path)[n]) {
      assert Segs(path)[n] in Split(path);
    }
  }

  lemma SplitStepAppend(c: byte, x: seq<Bytes>, y: seq<Bytes>)
    requires |x| > 0
    ensures SplitStep(c, x + y) == SplitStep(c, x) + y
  {
    assert (x + y)[0] == x[0] && (x + y)[1..] == x[1..] + y;
  }

  lemma {:induction false} SplitAppend(a: Bytes, b: Bytes)
    ensures Split(a + [SLASH] + b) == Split(a) + Split(b)
  {
    var s := a + [SLASH] + b;
    if a == [] {
      assert s[0] == SLASH && s[1..] == b;
    } else {
      assert s[0] == a[0] && s[1..] == a[1..] + [SLASH] + b;
      SplitAppend(a[1..], b);
      SplitStepAppend(a[0], Split(a[1..]), Split(b));
    }
  }

  lemma {:induction false} SplitSlashFree(s: Bytes)
    requires SlashFree(s)
    ensures Split(s) == [s]
  {
    if s != [] {
      SplitSlashFree(s[1..]);
      assert [s[0]] + s[1..] == s;
    }
  }

  lemma {:induction false} NonEmptyAppend(a: seq<Bytes>, b: seq<Bytes>)
    ensures NonEmpty(a + b) == NonEmpty(a) + NonEmpty(b)
  {
    if a == [] {
      assert a + b == b;
    } else {
      assert (a + b)[1..] == a[1..] + b;
      NonEmptyAppend(a[1..], b);
    }
  }

  lemma SegsAppend(a: Bytes, b: Bytes)
    ensures Segs(a + [SLASH] + b) == Segs(a) + Segs(b)
  {
    SplitAppend(a, b);
    NonEmptyAppend(Split(a), Split(b));
  }

  lemma SegsOfSegment(s: Bytes)
    requires SlashFree(s)
    ensures Segs(s) == if s == [] then [] else [s]
  {
    SplitSlashFree(s);
    assert NonEmpty([s][1..]) == [];
    assert Segs(s) == NonEmpty([s]);
  }

  // ---------------------------------------------------------------------------------------------
  // Rendering segments, and normalized paths

  /** Every segment preceded by a slash. */
  function Render(segs: seq<Bytes>): Bytes {
    if segs == [] then []
    else Render(segs[..|segs| - 1]) + [SLASH] + segs[|segs| - 1]
  }

  lemma {:induction false} SegsOfRender(segs: seq<Bytes>)
    requires AreSegments(segs)
    ensures Segs(Render(segs)) == segs
  {
    if segs != [] {
      var init, last := segs[..|segs| - 1], segs[|segs| - 1];
      assert IsSegment(segs[|segs| - 1]);
      assert AreSegments(init) by {
        forall n | 0 <= n < |init| ensures IsSegment(init[n]) { assert IsSegment(segs[n]); }
      }
      SegsOfRender(init);
      SegsAppend(Render(init), last);
      SegsOfSegment(last);
      assert init + [last] == segs;
    }
  }

  lemma {:induction false} RenderAppend(a: seq<Bytes>, b: seq<Bytes>)
    ensures Render(a + b) == Render(a) + Render(b)
    decreases |b|
  {
    if b == [] {
      assert a + b == a;
    } else {
      var init, last := b[..|b| - 1], b[|b| - 1];
      assert (a + b)[..|a + b| - 1] == a + init;
      RenderAppend(a, init);
      assert Render(a + b) == Render(a) + Render(init) + [SLASH] + last;
    }
  }

  lemma {:induction false} RenderStartsWithSlash(segs: seq<Bytes>)
    requires segs != []
    ensures |Render(segs)| > 0 && Render(segs)[0] == SLASH
  {
    if |segs| > 1 { RenderStartsWithSlash(segs[..|segs| - 1]); }
  }

  lemma RenderEndsInSegment(segs: seq<Bytes>)
    requires segs != [] && AreSegments(segs)
    ensures |Render(segs)| > 1 && Render(segs)[|Render(segs)| - 1] != SLASH
  {
    var last := segs[|segs| - 1];
    assert IsSegment(segs[|segs| - 1]);
    assert Render(segs)[|Render(segs)| - 1] == last[|last| - 1];
    assert last[|last| - 1] in last;
  }

  /** Absolute, without empty segments; a trailing slash is allowed and is required for the root. */
  ghost predicate Normal(path: Bytes) {
    || path == Render(Segs(path)) + [SLASH]
    || (Segs(path) != [] && path == Render(Segs(path)))
  }

  /** Segments rendered with or without a trailing slash are a normal path with those segments. */
  lemma RenderedIsNormal(segs: seq<Bytes>, isDir: bool)
    requires AreSegments(segs)
    requires isDir || segs != []
    ensures var p := Render(segs) + (if isDir then [SLASH] else []);
            Normal(p) && Segs(p) == segs
  {
    SegsOfRender(segs);
    if isDir {
      SegsAppend(Render(segs), []);
      assert Render(segs) + [SLASH] + [] == Render(segs) + [SLASH];
      SegsOfSegment([]);
      assert segs + [] == segs;
    } else {
      assert Render(segs) + [] == Render(segs);
    }
  }

  /** `davpath_key`: the path without its trailing slash, except for the root. */
  function Key(path: Bytes): Bytes {
    if |path| > 1 && path[|path| - 1] == SLASH then path[..|path| - 1] else path
  }

  lemma KeyOfNormal(path: Bytes)
    requires Normal(path)
    ensures Key(path) == if Segs(path) == [] then [SLASH] else Render(Segs(path))
  {
    SegsAreSegments(path);
    if Segs(path) != [] {
      RenderEndsInSegment(Segs(path));
      if path == Render(Segs(path)) + [SLASH] {
        assert path[..|path| - 1] == Render(Segs(path));
      }
    }
  }

  lemma KeysEqualIffSegsEqual(a: Bytes, b: Bytes)
    requires Normal(a) && Normal(b)
    ensures Key(a) == Key(b) <==> Segs(a) == Segs(b)
  {
    KeyOfNormal(a);
    KeyOfNormal(b);
    SegsAreSegments(a);
    SegsAreSegments(b);
    if Segs(a) != [] { SegsOfRender(Segs(a)); RenderEndsInSegment(Segs(a)); }
    if Segs(b) != [] { SegsOfRender(Segs(b)); RenderEndsInSegment(Segs(b)); }
  }

  /** The byte test of `lock_covers_path`: same key, or a deep lock whose key is an ancestor's. */
  predicate CoversBytes(deep: bool, lockPath: Bytes, path: Bytes) {
    var lockKey, pathKey := Key(lockPath), Key(path);
    if lockKey == pathKey then true
    else if !deep then false
    else if lockKey == [SLASH] then true
    else |lockKey| < |pathKey| && pathKey[..|lockKey|] == lockKey && pathKey[|lockKey|] == SLASH
  }

  /** Covering in terms of segments: the resource itself, or something below a deep lock. */
  predicate CoversSegs(deep: bool, lockSegs: seq<Bytes>, segs: seq<Bytes>) {
    lockSegs == segs || (deep && lockSegs <= segs)
  }

  lemma RenderExtends(a: seq<Bytes>, b: seq<Bytes>)
    requires a < b
    ensures var ra, rb := Render(a), Render(b); |ra| < |rb| && rb[..|ra|] == ra && rb[|ra|] == SLASH
  {
    var rest := b[|a|..];
    assert b == a + rest;
    RenderAppend(a, rest);
    RenderStartsWithSlash(rest);
  }

  lemma ByteAncestorIsSegmentPrefix(a: Bytes, b: Bytes)
    requires Normal(a) && Normal(b) && Segs(a) != []
    ensures (var ka, kb := Key(a), Key(b); |ka| < |kb| && kb[..|ka|] == ka && kb[|ka|] == SLASH)
            <==> Segs(a) < Segs(b)
  {
    KeyOfNormal(a);
    KeyOfNormal(b);
    var ka, kb := Key(a), Key(b);
    var sa, sb := Segs(a), Segs(b);
    SegsAreSegments(a);
    SegsAreSegments(b);
    SegsOfRender(sa);
    SegsOfRender(sb);
    RenderEndsInSegment(sa);
    if |ka| < |kb| && kb[..|ka|] == ka && kb[|ka|] == SLASH {
      var tail := kb[|ka| + 1..];
      assert kb == ka + [SLASH] + tail;
      SegsAppend(ka, tail);
      assert sb == sa + Segs(tail);
      assert sb == sa ==> ka == kb;
    }
    if sa < sb {
      RenderExtends(sa, sb);
      assert ka == Render(sa) && kb == Render(sb);
    }
  }

  /** The byte-level covering test decides exactly the segment relation, trailing slashes or not. */
  lemma CoveringTestIsSegmentCovering(deep: bool, lockPath: Bytes, path: Bytes)
    requires Normal(lockPath) && Normal(path)
    ensures CoversBytes(deep, lockPath, path) <==> CoversSegs(deep, Segs(lockPath), Segs(path))
  {
    KeysEqualIffSegsEqual(lockPath, path);
    KeyOfNormal(lockPath);
    if Segs(lockPath) != [] {
      ByteAncestorIsSegmentPrefix(lockPath, path);
      SegsAreSegments(lockPath);
      RenderEndsInSegment(Segs(lockPath));
    }
  }
}
