/**
 Paths with a hidden prefix (`DavPath` of src/davpath.rs), and the walk over a path's ancestors that
 decides whether it is visible (`ensure_visible` of src/handle_gethead.rs).
 */
module PathValues {
  import opened Results
  import opened DavPaths
  import opened PathParsing

  datatype DavPath = DavPath(fullpath: Bytes, pfxlen: Option<nat>) {

    function PrefixLength(): nat { if pfxlen.Some? then pfxlen.value else 0 }

    /** Absolute and free of empty segments, both as a whole and after the prefix. */
    ghost predicate Valid() {
      && PrefixLength() <= |fullpath|
      && Normal(fullpath)
      && Normal(fullpath[PrefixLength()..])
    }

    function Prefix(): Bytes
      requires PrefixLength() <= |fullpath|
    {
      fullpath[..PrefixLength()]
    }

    /** The path without its prefix. */
    function AsBytes(): Bytes
      requires PrefixLength() <= |fullpath|
    {
      fullpath[PrefixLength()..]
    }

    ghost function Places(): seq<Bytes>
      requires PrefixLength() <= |fullpath|
    {
      Segs(AsBytes())
    }

    /** `PartialEq`: ignores any trailing slash, but not the prefix. */
    predicate Equals(other: DavPath) {
      Key(fullpath) == Key(other.fullpath)
    }

    predicate IsCollection()
      requires PrefixLength() <= |fullpath|
    {
      AsBytes() != [] && AsBytes()[|AsBytes()| - 1] == SLASH
    }

    function AddSlash(): DavPath
      requires PrefixLength() <= |fullpath|
    {
      if IsCollection() then this else this.(fullpath := fullpath + [SLASH])
    }

    function PushSegment(b: Bytes): DavPath
      requires PrefixLength() <= |fullpath|
    {
      AddSlash().(fullpath := AddSlash().fullpath + b)
    }

    function SetPrefix(prefix: Bytes): (r: Result<DavPath, ParseError>)
      requires fullpath != []
    {
      if !(prefix <= fullpath) then Err(PrefixMismatch)
      else if prefix != [] && prefix[|prefix| - 1] == SLASH then
        if fullpath[|prefix| - 1] != SLASH then Err(PrefixMismatch)
        else Ok(DavPath(fullpath, Some(|prefix| - 1)))
      else if |fullpath| == |prefix| then Ok(DavPath(fullpath + [SLASH], Some(|prefix|)))
      else if fullpath[|prefix|] != SLASH then Err(PrefixMismatch)
      else Ok(DavPath(fullpath, Some(|prefix|)))
    }

    /** The bytes of the parent: the prefix, a slash, and every remaining segment with a slash after it. */
    function Parent(): DavPath
      requires PrefixLength() <= |fullpath|
    {
      var segs := Segs(AsBytes());
      if segs == [] then this
      else DavPath(Prefix() + [SLASH] + Slashed(segs[..|segs| - 1]), pfxlen)
    }

    predicate IsInCollection(collection: DavPath)
      requires PrefixLength() <= |fullpath| && collection.PrefixLength() <= |collection.fullpath|
    {
      var href, base := AsBytes(), collection.AsBytes();
      var prefix := if base != [] && base[|base| - 1] == SLASH then base else base + [SLASH];
      prefix <= href && href != prefix
    }
  }

  /** Every segment followed by a slash. */
  function Slashed(segs: seq<Bytes>): Bytes {
    if segs == [] then [] else segs[0] + [SLASH] + Slashed(segs[1..])
  }

  lemma RenderOne(s: Bytes)
    ensures Render([s]) == [SLASH] + s
  {
    assert Render([s][..0]) == [];
    assert Render([s]) == Render([s][..0]) + [SLASH] + s;
  }

  lemma {:induction false} SlashedIsRendered(segs: seq<Bytes>)
    ensures [SLASH] + Slashed(segs) == Render(segs) + [SLASH]
  {
    if segs != [] {
      SlashedIsRendered(segs[1..]);
      assert segs == [segs[0]] + segs[1..];
      RenderAppend([segs[0]], segs[1..]);
      RenderOne(segs[0]);
      assert [SLASH] + Slashed(segs) == [SLASH] + segs[0] + ([SLASH] + Slashed(segs[1..]));
    }
  }

  // ---------------------------------------------------------------------------------------------
  // Cutting a normal path at a slash

  lemma RenderTailNormal(segs: seq<Bytes>, n: nat, isDir: bool)
    requires AreSegments(segs) && n <= |segs| && (isDir || n < |segs|)
    ensures var whole := Render(segs) + (if isDir then [SLASH] else []);
            && |Render(segs[..n])| <= |whole|
            && Normal(whole[|Render(segs[..n])|..]) && Segs(whole[|Render(segs[..n])|..]) == segs[n..]
            && whole[..|Render(segs[..n])|] == Render(segs[..n])
  {
    var slash := if isDir then [SLASH] else [];
    assert segs == segs[..n] + segs[n..];
    RenderAppend(segs[..n], segs[n..]);
    assert AreSegments(segs[n..]) by {
      forall k | 0 <= k < |segs[n..]| ensures IsSegment(segs[n..][k]) { assert IsSegment(segs[n + k]); }
    }
    RenderedIsNormal(segs[n..], isDir);
    var whole := Render(segs) + slash;
    assert whole == Render(segs[..n]) + (Render(segs[n..]) + slash);
    assert whole[|Render(segs[..n])|..] == Render(segs[n..]) + slash;
  }

  /** A normal path as rendered segments, with or without a slash at the end. */
  lemma NormalIsRendered(path: Bytes) returns (isDir: bool)
    requires Normal(path)
    ensures AreSegments(Segs(path))
    ensures path == Render(Segs(path)) + (if isDir then [SLASH] else [])
    ensures isDir || Segs(path) != []
    ensures |path| > 0 && path[0] == SLASH
    ensures isDir <==> path[|path| - 1] == SLASH
  {
    SegsAreSegments(path);
    var segs := Segs(path);
    isDir := path == Render(segs) + [SLASH];
    if segs != [] {
      RenderStartsWithSlash(segs);
      RenderEndsInSegment(segs);
    }
    assert Render(segs) + [] == Render(segs);
  }

  /** A prefix as configured: empty, or a normal path other than the root, without trailing slash. */
  ghost predicate IsPrefix(prefix: Bytes) {
    prefix == [] || (Normal(prefix) && Segs(prefix) != [] && prefix == Render(Segs(prefix)))
  }

  lemma PrefixIsRendered(prefix: Bytes)
    requires IsPrefix(prefix)
    ensures prefix == Render(Segs(prefix)) && AreSegments(Segs(prefix))
    ensures prefix != [] ==> prefix[|prefix| - 1] != SLASH
  {
    SegsAreSegments(prefix);
    if prefix == [] {
      SegsOfSegment([]);
    } else {
      RenderEndsInSegment(Segs(prefix));
    }
  }

  lemma MatchedPrefixIsSegments(path: Bytes, prefix: Bytes)
    requires path == prefix || (prefix <= path && |prefix| < |path| && path[|prefix|] == SLASH)
    ensures Segs(prefix) <= Segs(path)
  {
    if path != prefix {
      var tail := path[|prefix| + 1..];
      assert path == prefix + [SLASH] + tail;
      SegsAppend(prefix, tail);
    }
  }

  /** The path after a matched prefix. */
  lemma AfterPrefix(path: Bytes, prefix: Bytes)
    requires Normal(path) && IsPrefix(prefix) && Segs(prefix) <= Segs(path)
    ensures prefix <= path
    ensures |prefix| < |path| ==>
              && path[|prefix|] == SLASH && Normal(path[|prefix|..])
              && Segs(path[|prefix|..]) == Segs(path)[|Segs(prefix)|..]
    ensures |prefix| == |path| ==> Segs(path) == Segs(prefix)
  {
    PrefixIsRendered(prefix);
    var isDir := NormalIsRendered(path);
    var segs, pre := Segs(path), Segs(prefix);
    assert pre == segs[..|pre|];
    if isDir || |pre| < |segs| {
      RenderTailNormal(segs, |pre|, isDir);
      if |prefix| < |path| { var d := NormalIsRendered(path[|prefix|..]); }
    } else {
      assert segs[..|pre|] == segs;
      assert Render(segs) + [] == Render(segs);
      assert path == prefix;
    }
  }

  /** A prefix without trailing slash matches exactly the paths at or below it. */
  lemma SetPrefixWithoutSlash(p: DavPath, prefix: Bytes)
    requires p.pfxlen == None && Normal(p.fullpath) && IsPrefix(prefix)
    ensures p.fullpath != []
    ensures p.SetPrefix(prefix).Ok? <==> Segs(prefix) <= Segs(p.fullpath)
    ensures p.SetPrefix(prefix).Ok? ==>
              var q := p.SetPrefix(prefix).value;
              && q.Valid() && q.Prefix() == prefix
              && Segs(q.fullpath) == Segs(p.fullpath)
              && q.Places() == Segs(p.fullpath)[|Segs(prefix)|..]
  {
    var path := p.fullpath;
    var isDir := NormalIsRendered(path);
    PrefixIsRendered(prefix);
    if Segs(prefix) <= Segs(path) {
      AfterPrefix(path, prefix);
      if |prefix| == |path| {
        RenderedIsNormal(Segs(path), true);
        AfterPrefix(path + [SLASH], prefix);
      }
    }
    if p.SetPrefix(prefix).Ok? {
      MatchedPrefixIsSegments(path, prefix);
    }
  }

  /**
   A prefix that ends in a slash, as the request adapters cut it off, matches the paths below it and its
   own directory form, but not the path that is the prefix without its slash. "/" matches every path.
   */
  lemma SetPrefixWithSlash(p: DavPath, base: Bytes)
    requires p.pfxlen == None && Normal(p.fullpath) && IsPrefix(base)
    ensures p.fullpath != []
    ensures p.SetPrefix(base + [SLASH]).Ok? <==> Segs(base) <= Segs(p.fullpath) && p.fullpath != base
    ensures p.SetPrefix(base + [SLASH]).Ok? ==>
              var q := p.SetPrefix(base + [SLASH]).value;
              && q.Valid() && q.Prefix() == base && q.fullpath == p.fullpath
              && q.Places() == Segs(p.fullpath)[|Segs(base)|..]
  {
    var path, prefix := p.fullpath, base + [SLASH];
    var isDir := NormalIsRendered(path);
    SlashedPrefixMatches(path, base);
    SlashLast(base);
    if prefix <= path {
      assert path[|prefix| - 1] == prefix[|prefix| - 1];
      assert p.SetPrefix(prefix) == Ok(DavPath(path, Some(|base|)));
    }
  }

  lemma SlashLast(base: Bytes)
    ensures |base + [SLASH]| == |base| + 1 && (base + [SLASH])[|base|] == SLASH
  {}

  lemma SlashedPrefixMatches(path: Bytes, base: Bytes)
    requires Normal(path) && IsPrefix(base)
    ensures base + [SLASH] <= path <==> Segs(base) <= Segs(path) && path != base
    ensures base + [SLASH] <= path ==>
              && |base| <= |path| && base == path[..|base|] && Normal(path[|base|..])
              && Segs(path[|base|..]) == Segs(path)[|Segs(base)|..]
  {
    if Segs(base) <= Segs(path) {
      AfterPrefix(path, base);
      assert |base| < |path| ==> base + [SLASH] == path[..|base| + 1];
      assert |base| == |path| ==> path == base;
    }
    if base + [SLASH] <= path {
      assert path[..|base|] == base && path[|base|] == SLASH;
      MatchedPrefixIsSegments(path, base);
    }
  }

  /** No two slashes stand next to each other, and none stands last. */
  lemma {:induction false} RenderedSlashes(segs: seq<Bytes>, i: nat)
    requires AreSegments(segs) && i < |Render(segs)| && Render(segs)[i] == SLASH
    ensures i + 1 < |Render(segs)| && Render(segs)[i + 1] != SLASH
    decreases |segs|
  {
    var init, last := segs[..|segs| - 1], segs[|segs| - 1];
    var before := Render(init);
    assert IsSegment(segs[|segs| - 1]);
    forall j | 0 <= j < |last| ensures last[j] != SLASH { assert last[j] in last; }
    InitAreSegments(segs);
    assert Render(segs) == before + [SLASH] + last;
    if i < |before| {
      RenderedSlashes(init, i);
    }
  }

  lemma {:induction false} OnlySlashes(s: Bytes)
    requires Segs(s) == []
    ensures forall i :: 0 <= i < |s| ==> s[i] == SLASH
  {
    if s != [] {
      FirstByteCounts(s);
      OnlySlashes(s[1..]);
      assert s == [s[0]] + s[1..];
    }
  }

  lemma FirstByteCounts(s: Bytes)
    requires s != []
    ensures if s[0] == SLASH then Segs(s) == Segs(s[1..]) else Segs(s) != []
  {
    var rest := Split(s[1..]);
    if s[0] == SLASH {
      assert ([[]] + rest)[1..] == rest;
    } else {
      assert Split(s)[0] == [s[0]] + rest[0];
    }
  }

  /** Cutting a normal path in front of a slash, or leaving it whole, gives a prefix. */
  lemma CutIsPrefix(path: Bytes, n: nat)
    requires Normal(path) && n <= |path|
    requires if n < |path| then path[n] == SLASH else path[n - 1] != SLASH
    ensures IsPrefix(path[..n])
  {
    var x, segs := path[..n], Segs(path);
    var isDir := NormalIsRendered(path);
    if n == |path| {
      assert x == path;
    } else {
      var tail := path[n + 1..];
      assert path == x + [SLASH] + tail;
      SegsAppend(x, tail);
      CutAtSegment(path, n, |Segs(x)|, isDir);
      SegsAreSegments(x);
    }
  }

  /** The cut falls right behind the rendering of the segments it leaves. */
  lemma CutAtSegment(path: Bytes, n: nat, k: nat, isDir: bool)
    requires Normal(path) && n < |path| && path[n] == SLASH
    requires path == Render(Segs(path)) + (if isDir then [SLASH] else [])
    requires k <= |Segs(path)| && Segs(path[..n]) == Segs(path)[..k]
    ensures path[..n] == Render(Segs(path[..n]))
  {
    var segs, x := Segs(path), path[..n];
    var y := Render(segs[..k]);
    SegsAreSegments(path);
    assert segs == segs[..k] + segs[k..];
    RenderAppend(segs[..k], segs[k..]);
    assert AreSegments(segs[..k]) by {
      forall i | 0 <= i < k ensures IsSegment(segs[..k][i]) { assert IsSegment(segs[i]); }
    }
    SegsOfRender(segs[..k]);
    assert y == path[..|y|];
    if n < |y| {
      CutNotBefore(segs[..k], x);
      assert false;
    }
    if n > |y| {
      SlashAfter(segs, k, isDir, path);
      assert x == y + [SLASH] + x[|y| + 1..];
      CutNotBehind(x, y, x[|y| + 1..]);
      NoDoubleSlash(segs, isDir, path, n - 1);
      assert false;
    }
  }

  lemma CutNotBefore(segs: seq<Bytes>, x: Bytes)
    requires AreSegments(segs) && Segs(x) == segs
    ensures !(x < Render(segs) && Render(segs)[|x|] == SLASH)
  {
    var y := Render(segs);
    if x < y && y[|x|] == SLASH {
      var t := y[|x| + 1..];
      assert y == x + [SLASH] + t;
      SegsOfRender(segs);
      SegsAppend(x, t);
      OnlySlashes(t);
      RenderedSlashes(segs, |x|);
      assert false;
    }
  }

  lemma CutNotBehind(x: Bytes, y: Bytes, t: Bytes)
    requires x == y + [SLASH] + t && Segs(x) == Segs(y)
    ensures x[|x| - 1] == SLASH
  {
    SegsAppend(y, t);
    OnlySlashes(t);
  }

  lemma SlashAfter(segs: seq<Bytes>, k: nat, isDir: bool, path: Bytes)
    requires k <= |segs| && path == Render(segs) + (if isDir then [SLASH] else []) && |Render(segs[..k])| < |path|
    ensures path[|Render(segs[..k])|] == SLASH
  {
    if k < |segs| {
      RenderExtends(segs[..k], segs);
    } else {
      assert segs[..k] == segs;
    }
  }

  lemma NoDoubleSlash(segs: seq<Bytes>, isDir: bool, path: Bytes, i: nat)
    requires AreSegments(segs) && path == Render(segs) + (if isDir then [SLASH] else [])
    requires i + 1 < |path| && path[i] == SLASH
    ensures path[i + 1] != SLASH
  {
    if i < |Render(segs)| {
      RenderedSlashes(segs, i);
    }
  }

  /** The prefix without its trailing slash. */
  function Base(prefix: Bytes): Bytes {
    if prefix != [] && prefix[|prefix| - 1] == SLASH then prefix[..|prefix| - 1] else prefix
  }

  /** Only prefixes of segments are ever accepted, with or without a trailing slash. */
  lemma OnlyPrefixesAreAccepted(p: DavPath, prefix: Bytes)
    requires p.pfxlen == None && Normal(p.fullpath) && p.fullpath != [] && p.SetPrefix(prefix).Ok?
    ensures IsPrefix(Base(prefix))
  {
    var path, base := p.fullpath, Base(prefix);
    var isDir := NormalIsRendered(path);
    assert path[..|base|] == base;
    CutIsPrefix(path, |base|);
  }

  /**
   Any bytes given as the prefix of a normal path: they are accepted exactly if, without their trailing
   slash, they are a prefix in terms of segments; one that does end in a slash is refused for the path that
   lacks just this slash. What remains are the segments after it, and nothing of the path is lost.
   */
  lemma SetPrefixMatchesSegments(p: DavPath, prefix: Bytes)
    requires p.pfxlen == None && Normal(p.fullpath)
    ensures p.fullpath != []
    ensures p.SetPrefix(prefix).Ok? <==>
              && IsPrefix(Base(prefix)) && Segs(Base(prefix)) <= Segs(p.fullpath)
              && !(prefix != Base(prefix) && p.fullpath == Base(prefix))
    ensures p.SetPrefix(prefix).Ok? ==>
              var q := p.SetPrefix(prefix).value;
              && q.Valid() && q.Prefix() == Base(prefix)
              && Segs(q.fullpath) == Segs(p.fullpath)
              && q.Places() == Segs(p.fullpath)[|Segs(Base(prefix))|..]
  {
    var isDir := NormalIsRendered(p.fullpath);
    if p.SetPrefix(prefix).Ok? {
      OnlyPrefixesAreAccepted(p, prefix);
    }
    var base := Base(prefix);
    if IsPrefix(base) {
      if prefix == base {
        SetPrefixWithoutSlash(p, base);
      } else {
        assert prefix == base + [SLASH];
        SetPrefixWithSlash(p, base);
      }
    }
  }

  // ---------------------------------------------------------------------------------------------
  // Parents, segments and containment

  lemma InitAreSegments(segs: seq<Bytes>)
    requires segs != [] && AreSegments(segs)
    ensures AreSegments(segs[..|segs| - 1])
  {
    var init := segs[..|segs| - 1];
    forall n | 0 <= n < |init| ensures IsSegment(init[n]) { assert IsSegment(segs[n]); }
  }

  /** A path put together from a prefix and a normal rest. */
  lemma FromParts(prefix: Bytes, rest: Bytes, pfxlen: Option<nat>)
    requires IsPrefix(prefix) && Normal(rest)
    requires |prefix| == if pfxlen.Some? then pfxlen.value else 0
    ensures var q := DavPath(prefix + rest, pfxlen);
            q.Valid() && q.Prefix() == prefix && q.AsBytes() == rest
  {
    WholeFromParts(prefix, Segs(rest), rest);
    var q := DavPath(prefix + rest, pfxlen);
    assert q.fullpath[..|prefix|] == prefix && q.fullpath[|prefix|..] == rest;
  }

  lemma IntoParts(p: DavPath)
    requires p.PrefixLength() <= |p.fullpath|
    ensures p == DavPath(p.Prefix() + p.AsBytes(), p.pfxlen)
  {
    assert p.fullpath == p.Prefix() + p.AsBytes();
  }

  lemma ParentIsValid(p: DavPath)
    requires p.Valid() && IsPrefix(p.Prefix()) && p.Places() != []
    ensures p.Parent().Valid() && p.Parent().pfxlen == p.pfxlen && p.Parent().Prefix() == p.Prefix()
    ensures p.Parent().Places() == p.Places()[..|p.Places()| - 1]
  {
    var init := p.Places()[..|p.Places()| - 1];
    SegsAreSegments(p.AsBytes());
    InitAreSegments(p.Places());
    SlashedIsRendered(init);
    RenderedIsNormal(init, true);
    FromParts(p.Prefix(), Render(init) + [SLASH], p.pfxlen);
    AssociativeBytes(p.Prefix(), [SLASH], Slashed(init));
  }

  lemma AssociativeBytes(a: Bytes, b: Bytes, c: Bytes)
    ensures (a + b) + c == a + (b + c)
  {}

  /** The parent drops exactly the last segment, keeps the prefix, and equals the path only at the root. */
  lemma ParentDropsOneSegment(p: DavPath)
    requires p.Valid() && IsPrefix(p.Prefix())
    ensures p.Parent().Valid() && p.Parent().pfxlen == p.pfxlen && p.Parent().Prefix() == p.Prefix()
    ensures p.Parent().Places() == if p.Places() == [] then [] else p.Places()[..|p.Places()| - 1]
    ensures p.Parent().Equals(p) <==> p.Places() == []
  {
    if p.Places() != [] {
      ParentIsValid(p);
      EqualsIffSamePlaces(p.Parent(), p);
      assert |p.Parent().Places()| != |p.Places()|;
    }
  }

  /** Prefix segments and remaining segments make up the whole. */
  lemma WholeFromParts(prefix: Bytes, segs: seq<Bytes>, rest: Bytes)
    requires IsPrefix(prefix) && Normal(rest) && Segs(rest) == segs
    ensures Normal(prefix + rest) && Segs(prefix + rest) == Segs(prefix) + segs
  {
    PrefixIsRendered(prefix);
    var isDir := NormalIsRendered(rest);
    var all := Segs(prefix) + segs;
    RenderAppend(Segs(prefix), segs);
    assert AreSegments(all) by {
      forall n | 0 <= n < |all| ensures IsSegment(all[n]) {
        if n < |Segs(prefix)| {
          assert IsSegment(Segs(prefix)[n]);
        } else {
          assert IsSegment(segs[n - |Segs(prefix)|]);
        }
      }
    }
    RenderedIsNormal(all, isDir);
    assert prefix + rest == Render(all) + (if isDir then [SLASH] else []);
  }

  /** A rendered path with a slash after it begins exactly the paths strictly below it, and its own directory form. */
  lemma BeginsWithDirectory(bs: seq<Bytes>, hs: seq<Bytes>, hrefDir: bool)
    requires AreSegments(bs) && AreSegments(hs) && (hrefDir || hs != [])
    ensures var href, prefix := Render(hs) + (if hrefDir then [SLASH] else []), Render(bs) + [SLASH];
            prefix <= href && href != prefix <==> bs < hs
  {
    var href, prefix := Render(hs) + (if hrefDir then [SLASH] else []), Render(bs) + [SLASH];
    if bs < hs {
      BelowBegins(bs, hs);
    }
    if prefix <= href && href != prefix {
      RenderedIsNormal(hs, hrefDir);
      BeginsMeansBelow(bs, href);
      assert Segs(href) == bs ==> |href| <= |prefix|;
    }
  }

  lemma BelowBegins(bs: seq<Bytes>, hs: seq<Bytes>)
    requires AreSegments(bs) && AreSegments(hs) && bs < hs
    ensures Render(bs) + [SLASH] <= Render(hs) && |Render(bs)| + 1 < |Render(hs)|
  {
    RenderExtends(bs, hs);
    RenderEndsInSegment(hs);
    assert Render(bs) + [SLASH] == Render(hs)[..|Render(bs)| + 1];
  }

  lemma BeginsMeansBelow(bs: seq<Bytes>, href: Bytes)
    requires AreSegments(bs) && Render(bs) + [SLASH] <= href
    ensures bs <= Segs(href)
  {
    var tail := href[|Render(bs)| + 1..];
    assert href == Render(bs) + [SLASH] + tail;
    SegsAppend(Render(bs), tail);
    SegsOfRender(bs);
  }

  /** Containment on bytes is proper containment of segments, whatever the trailing slashes. */
  lemma InCollectionIsProperPrefix(p: DavPath, collection: DavPath)
    requires p.Valid() && collection.Valid()
    ensures p.IsInCollection(collection) <==> collection.Places() < p.Places()
  {
    var hrefDir := NormalIsRendered(p.AsBytes());
    var baseDir := NormalIsRendered(collection.AsBytes());
    BeginsWithDirectory(collection.Places(), p.Places(), hrefDir);
    assert Render(collection.Places()) + [] == Render(collection.Places());
  }

  lemma OneSegmentMore(segs: seq<Bytes>, name: Bytes)
    requires AreSegments(segs) && IsSegment(name)
    ensures AreSegments(segs + [name])
  {
    var all := segs + [name];
    forall n | 0 <= n < |all| ensures IsSegment(all[n]) { if n < |segs| { assert IsSegment(segs[n]); } }
  }

  lemma PushAppendsSegment(p: DavPath, name: Bytes)
    requires p.Valid() && IsPrefix(p.Prefix()) && IsSegment(name)
    ensures p.PushSegment(name).Valid() && p.PushSegment(name).pfxlen == p.pfxlen
    ensures p.PushSegment(name).Prefix() == p.Prefix()
    ensures p.PushSegment(name).Places() == p.Places() + [name]
  {
    var segs := p.Places();
    SegsAreSegments(p.AsBytes());
    OneSegmentMore(segs, name);
    RenderedIsNormal(segs + [name], false);
    RenderOneMore(segs, name);
    FromParts(p.Prefix(), Render(segs + [name]), p.pfxlen);
    WithSlash(p);
    AssociativeBytes(p.Prefix(), Render(segs) + [SLASH], name);
  }

  lemma RenderOneMore(segs: seq<Bytes>, name: Bytes)
    ensures Render(segs + [name]) == Render(segs) + [SLASH] + name
    ensures Render(segs + [name]) + [] == Render(segs + [name])
  {
    assert (segs + [name])[..|segs|] == segs;
  }

  /** With its slash added, a path is its prefix and its rendered segments with a slash. */
  lemma WithSlash(p: DavPath)
    requires p.Valid()
    ensures p.AddSlash() == DavPath(p.Prefix() + (Render(p.Places()) + [SLASH]), p.pfxlen)
  {
    var isDir := NormalIsRendered(p.AsBytes());
    IntoParts(p);
    if !isDir {
      assert Render(p.Places()) + [] == Render(p.Places());
      AssociativeBytes(p.Prefix(), Render(p.Places()), [SLASH]);
    }
  }

  /** A trailing slash changes neither the segments nor equality. */
  lemma AddSlashKeepsPlaces(p: DavPath)
    requires p.Valid() && IsPrefix(p.Prefix())
    ensures p.AddSlash().Valid() && p.AddSlash().pfxlen == p.pfxlen && p.AddSlash().Prefix() == p.Prefix()
    ensures p.AddSlash().Places() == p.Places()
  {
    SegsAreSegments(p.AsBytes());
    WithSlash(p);
    RenderedIsNormal(p.Places(), true);
    FromParts(p.Prefix(), Render(p.Places()) + [SLASH], p.pfxlen);
  }

  /** The path of a directory entry: the segment pushed, and a slash if it is a directory. */
  function EntryPath(p: DavPath, name: Bytes, isDir: bool): DavPath
    requires p.PrefixLength() <= |p.fullpath|
  {
    if isDir then p.PushSegment(name).AddSlash() else p.PushSegment(name)
  }

  lemma EntryPathPlaces(p: DavPath, name: Bytes, isDir: bool)
    requires p.Valid() && IsPrefix(p.Prefix()) && IsSegment(name)
    ensures EntryPath(p, name, isDir).Valid() && EntryPath(p, name, isDir).Prefix() == p.Prefix()
    ensures EntryPath(p, name, isDir).Places() == p.Places() + [name]
  {
    PushAppendsSegment(p, name);
    AddSlashKeepsPlaces(p.PushSegment(name));
  }

  /** Under one prefix, equal paths are paths with equal segments. */
  lemma EqualsIffSamePlaces(p: DavPath, q: DavPath)
    requires p.Valid() && q.Valid() && p.Prefix() == q.Prefix() && IsPrefix(p.Prefix())
    ensures p.Equals(q) <==> p.Places() == q.Places()
  {
    WholeFromParts(p.Prefix(), p.Places(), p.AsBytes());
    WholeFromParts(q.Prefix(), q.Places(), q.AsBytes());
    assert p.fullpath == p.Prefix() + p.AsBytes() && q.fullpath == q.Prefix() + q.AsBytes();
    KeysEqualIffSegsEqual(p.fullpath, q.fullpath);
    assert (Segs(p.Prefix()) + p.Places())[|Segs(p.Prefix())|..] == p.Places();
    assert (Segs(q.Prefix()) + q.Places())[|Segs(q.Prefix())|..] == q.Places();
  }

  // ---------------------------------------------------------------------------------------------
  // The visibility walk

  /** What `symlink_metadata` says about a path. */
  datatype LinkState = Symlink | Other | Missing | Failed

  datatype Visibility = Visible | Hidden | MetadataError

  /** The outcome of looking at the first `n` segments of the path, then at ever shorter ones, down to the root. */
  function WalkOutcome(state: seq<Bytes> -> LinkState, segs: seq<Bytes>): Visibility {
    match state(segs)
    case Symlink => Hidden
    case Failed => MetadataError
    case _ => if segs == [] then Visible else WalkOutcome(state, segs[..|segs| - 1])
  }

  /** What was looked at: the path, then each ancestor in turn, as far as the walk got. */
  ghost predicate LookedUpwards(segs: seq<Bytes>, visited: seq<seq<Bytes>>) {
    |visited| <= |segs| + 1 && forall k :: 0 <= k < |visited| ==> visited[k] == segs[..|segs| - k]
  }

  lemma UpOne(segs: seq<Bytes>, current: seq<Bytes>, n: nat)
    requires n < |segs| && current == segs[..|segs| - n]
    ensures current != [] && current[..|current| - 1] == segs[..|segs| - (n + 1)]
  {}

  /**
   The loop of `ensure_visible` under `hide_symlinks`. It looks at the path and at every ancestor, each once
   and in this order, and stops at the first that decides.
   */
  method EnsureNoSymlink(path: DavPath, state: seq<Bytes> -> LinkState)
    returns (r: Visibility, ghost visited: seq<seq<Bytes>>)
    requires path.Valid() && IsPrefix(path.Prefix())
    ensures r == WalkOutcome(state, path.Places())
    ensures LookedUpwards(path.Places(), visited) && visited != []
    ensures if r == Visible then |visited| == |path.Places()| + 1
            else state(visited[|visited| - 1]) == (if r == Hidden then Symlink else Failed)
    ensures forall k :: 0 <= k < |visited| - 1 ==> state(visited[k]) == Other || state(visited[k]) == Missing
  {
    var current := path;
    ghost var segs := path.Places();
    visited := [];
    while true
      invariant current.Valid() && IsPrefix(current.Prefix())
      invariant LookedUpwards(segs, visited) && |visited| <= |segs|
      invariant current.Places() == segs[..|segs| - |visited|]
      invariant WalkOutcome(state, current.Places()) == WalkOutcome(state, segs)
      invariant forall k :: 0 <= k < |visited| ==> state(visited[k]) == Other || state(visited[k]) == Missing
      decreases |segs| - |visited|
    {
      ghost var place := current.Places();
      visited := visited + [place];
      match state(Segs(current.AsBytes())) {
        case Symlink => return Hidden, visited;
        case Failed => return MetadataError, visited;
        case Other =>
        case Missing =>
      }
      var parent, top := Upwards(current);
      if top {
        break;
      }
      UpOne(segs, place, |visited| - 1);
      current := parent;
    }
    r := Visible;
  }

  /** The step of the walk: the parent, which at the root is the path itself. */
  method Upwards(current: DavPath) returns (parent: DavPath, top: bool)
    requires current.Valid() && IsPrefix(current.Prefix())
    ensures parent.Valid() && IsPrefix(parent.Prefix())
    ensures top <==> current.Places() == []
    ensures !top ==> parent.Places() == current.Places()[..|current.Places()| - 1]
  {
    ParentDropsOneSegment(current);
    parent := current.Parent();
    top := parent.Equals(current);
  }

  /** Without metadata errors, a path is hidden exactly if it or one of its ancestors is a symlink. */
  lemma {:induction false} HiddenIffSymlinkOnPath(state: seq<Bytes> -> LinkState, segs: seq<Bytes>)
    requires forall n :: 0 <= n <= |segs| ==> state(segs[..n]) != Failed
    ensures WalkOutcome(state, segs) == Hidden <==> exists n :: 0 <= n <= |segs| && state(segs[..n]) == Symlink
    ensures WalkOutcome(state, segs) == Visible <==> forall n :: 0 <= n <= |segs| ==> state(segs[..n]) != Symlink
    decreases |segs|
  {
    assert segs[..|segs|] == segs;
    if segs != [] {
      var init := segs[..|segs| - 1];
      assert forall n :: 0 <= n <= |init| ==> init[..n] == segs[..n];
      HiddenIffSymlinkOnPath(state, init);
    }
  }
}
