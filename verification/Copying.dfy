/**
 Recursive COPY and the guards around COPY and MOVE (src/handle_copymove.rs; sections 9.8 and 9.9 of
 RFC 4918), over the in-memory filesystem.
 */
module Copying {
  import opened Results
  import opened DavPaths
  import opened PathValues
  import opened FsModel
  import opened MemFiles

  // ---------------------------------------------------------------------------------------------
  // The kind of a collection (src/fs.rs)

  const NS_CALDAV_URI := "urn:ietf:params:xml:ns:caldav"
  const NS_CARDDAV_URI := "urn:ietf:params:xml:ns:carddav"

  datatype CollectionKind = Plain | Calendar | Addressbook

  predicate IsCalendarMarker(p: DavProp) {
    p.name == "calendar" && p.namespace == Some(NS_CALDAV_URI)
  }

  predicate IsAddressbookMarker(p: DavProp) {
    p.name == "addressbook" && p.namespace == Some(NS_CARDDAV_URI)
  }

  /** From the marks of a directory or, failing that, from a marker among its dead properties. */
  ghost function KindOf(n: FsNode): CollectionKind {
    match n
    case File(_, _) => Plain
    case Dir(props, isCalendar, isAddressbook) =>
      if isCalendar then Calendar
      else if isAddressbook then Addressbook
      else if exists k :: k in props && IsCalendarMarker(props[k]) then Calendar
      else if exists k :: k in props && IsAddressbookMarker(props[k]) then Addressbook
      else Plain
  }

  /** What makes a collection a calendar or an address book: the mark set on it, and without one the marker property. */
  lemma KindMeans(m: FsMap, p: Path, calendar: bool, props: Props, key: string)
    requires WellFormed(m) && p in m
    ensures Marked(m, p, calendar).0.Ok? <==> m[p].Dir?
    ensures m[p].Dir? ==>
              && Marked(m, p, true).1 == m[p := Dir(m[p].props, true, m[p].isAddressbook)]
              && Marked(m, p, false).1 == m[p := Dir(m[p].props, m[p].isCalendar, true)]
              && KindOf(Marked(m, p, true).1[p]) == Calendar
              && (KindOf(Marked(m, p, false).1[p]) == Addressbook <==> !m[p].isCalendar)
    ensures m[p].File? ==> KindOf(m[p]) == Plain
    ensures key in props && props[key].name == "calendar" && props[key].namespace == Some(NS_CALDAV_URI) ==>
              KindOf(Dir(props, false, false)) == Calendar
    ensures key in props && props[key].name == "addressbook" && props[key].namespace == Some(NS_CARDDAV_URI) ==>
              KindOf(Dir(props, false, false)) != Plain
    ensures KindOf(Dir(props, false, false)) != Plain ==>
              exists k :: k in props && (props[k].name == "calendar" || props[k].name == "addressbook")
    ensures KindOf(Dir(map[], false, false)) == Plain
  {
    ResolvesIffStored(m, p);
    if key in props && props[key].name == "calendar" && props[key].namespace == Some(NS_CALDAV_URI) {
      assert IsCalendarMarker(props[key]);
    }
    if key in props && props[key].name == "addressbook" && props[key].namespace == Some(NS_CARDDAV_URI) {
      assert IsAddressbookMarker(props[key]);
    }
  }

  // ---------------------------------------------------------------------------------------------
  // Replacing the dead properties of one node by those of another

  lemma {:induction false} PatchedInTwo(props: Props, a: seq<(bool, DavProp)>, b: seq<(bool, DavProp)>)
    ensures Patched(props, a + b) == Patched(Patched(props, a), b)
    decreases |b|
  {
    if b == [] {
      assert a + b == a;
    } else {
      assert (a + b)[..|a + b| - 1] == a + b[..|b| - 1];
      PatchedInTwo(props, a, b[..|b| - 1]);
    }
  }

  function Removals(listed: seq<DavProp>): seq<(bool, DavProp)> {
    seq(|listed|, n requires 0 <= n < |listed| => (false, listed[n]))
  }

  function Settings(listed: seq<DavProp>): seq<(bool, DavProp)> {
    seq(|listed|, n requires 0 <= n < |listed| => (true, listed[n]))
  }

  ghost function Without(props: Props, keys: seq<string>): Props {
    map k | k in props && k !in keys :: props[k]
  }

  ghost function Only(props: Props, keys: seq<string>): Props {
    map k | k in props && k in keys :: props[k]
  }

  lemma OneKeyMore(props: Props, keys: seq<string>, key: string)
    ensures Without(props, keys + [key]) == Without(props, keys) - {key}
    ensures key in props ==> Only(props, keys + [key]) == Only(props, keys)[key := props[key]]
  {}

  lemma PatchedOneMore(props: Props, patch: seq<(bool, DavProp)>, n: nat)
    requires 0 < n <= |patch|
    ensures var before, p := Patched(props, patch[..n - 1]), patch[n - 1].1;
            Patched(props, patch[..n]) == if patch[n - 1].0 then before[PropKey(p) := p] else before - {PropKey(p)}
  {
    assert patch[..n][..n - 1] == patch[..n - 1];
  }

  lemma LastKey(keys: seq<string>, n: nat)
    requires 0 < n <= |keys|
    ensures keys[..n] == keys[..n - 1] + [keys[n - 1]]
  {}

  lemma {:induction false} AllRemoved(props: Props, keys: seq<string>, listed: seq<DavProp>, n: nat)
    requires Keyed(props) && PropsListed(props, keys, false, listed) && n <= |listed|
    ensures Patched(props, Removals(listed)[..n]) == Without(props, keys[..n])
  {
    if n > 0 {
      AllRemoved(props, keys, listed, n - 1);
      PatchedOneMore(props, Removals(listed), n);
      assert PropKey(listed[n - 1]) == keys[n - 1];
      LastKey(keys, n);
      OneKeyMore(props, keys[..n - 1], keys[n - 1]);
    }
  }

  lemma {:induction false} AllSet(props: Props, keys: seq<string>, listed: seq<DavProp>, n: nat)
    requires Keyed(props) && PropsListed(props, keys, true, listed) && n <= |listed|
    ensures Patched(map[], Settings(listed)[..n]) == Only(props, keys[..n])
  {
    if n > 0 {
      AllSet(props, keys, listed, n - 1);
      PatchedOneMore(map[], Settings(listed), n);
      assert PropKey(listed[n - 1]) == keys[n - 1];
      LastKey(keys, n);
      OneKeyMore(props, keys[..n - 1], keys[n - 1]);
    }
  }

  lemma NothingLeft(props: Props, keys: seq<string>, listed: seq<DavProp>)
    requires Keyed(props) && PropsListed(props, keys, false, listed)
    ensures Patched(props, Removals(listed)) == map[]
  {
    AllRemoved(props, keys, listed, |listed|);
    assert Removals(listed)[..|listed|] == Removals(listed);
    assert keys[..|listed|] == keys;
  }

  lemma EverythingThere(props: Props, keys: seq<string>, listed: seq<DavProp>)
    requires Keyed(props) && PropsListed(props, keys, true, listed)
    ensures Patched(map[], Settings(listed)) == props
  {
    AllSet(props, keys, listed, |listed|);
    assert Settings(listed)[..|listed|] == Settings(listed);
    assert keys[..|listed|] == keys;
  }

  /** Removing all of one node's properties and setting all of another's gives exactly the other's. */
  lemma PropsReplaced(dest: Props, destKeys: seq<string>, destListed: seq<DavProp>,
                      source: Props, sourceKeys: seq<string>, sourceListed: seq<DavProp>)
    requires Keyed(dest) && PropsListed(dest, destKeys, false, destListed)
    requires Keyed(source) && PropsListed(source, sourceKeys, true, sourceListed)
    ensures Patched(dest, Removals(destListed) + Settings(sourceListed)) == source
  {
    PatchedInTwo(dest, Removals(destListed), Settings(sourceListed));
    NothingLeft(dest, destKeys, destListed);
    EverythingThere(source, sourceKeys, sourceListed);
  }

  /** `copy_collection_properties`, from the node at `s` to the node at `d`. */
  ghost function PropertiesCopied(m: FsMap, s: Path, d: Path): (FsResult<()>, FsMap)
    requires s in m && d in m
  {
    var n := WithProps(m[d], m[s].props);
    var m' := m[d := n];
    match KindOf(m[s])
    case Plain => (Ok(()), m')
    case Calendar => if n.Dir? then (Ok(()), m[d := n.(isCalendar := true)]) else (Err(Forbidden), m')
    case Addressbook => if n.Dir? then (Ok(()), m[d := n.(isAddressbook := true)]) else (Err(Forbidden), m')
  }

  /**
   The destination ends up with the source's properties, and with its kind exactly when it does not
   carry a mark of its own that outranks it. Marks are never taken off.
   */
  lemma KindCopiedIff(m: FsMap, s: Path, d: Path)
    requires s in m && d in m && m[s].Dir? && m[d].Dir?
    ensures var (r, m') := PropertiesCopied(m, s, d);
            && r.Ok? && d in m' && m'[d].Dir? && m'[d].props == m[s].props
            && (KindOf(m'[d]) == KindOf(m[s]) <==>
                  && (m[d].isCalendar ==> KindOf(m[s]) == Calendar)
                  && (m[d].isAddressbook ==> KindOf(m[s]) != Plain))
  {
    var n := PropertiesCopied(m, s, d).1[d];
    assert n.props == m[s].props;
    assert m[s].isCalendar ==> KindOf(m[s]) == Calendar;
    assert !m[s].isCalendar && m[s].isAddressbook ==> KindOf(m[s]) == Addressbook;
  }

  /** So a destination of the same kind as the source keeps it, which is what COPY with Depth 0 checks for. */
  lemma SameKindStays(m: FsMap, s: Path, d: Path)
    requires s in m && d in m && m[s].Dir? && m[d].Dir? && KindOf(m[d]) == KindOf(m[s])
    ensures KindOf(PropertiesCopied(m, s, d).1[d]) == KindOf(m[s])
  {
    KindCopiedIff(m, s, d);
  }

  lemma PropertiesCopiedKeeps(m: FsMap, s: Path, d: Path)
    requires WellFormed(m) && s in m && d in m
    ensures WellFormed(PropertiesCopied(m, s, d).1)
    ensures AllKeyed(m) ==> AllKeyed(PropertiesCopied(m, s, d).1)
    ensures PropertiesCopied(m, s, d).1.Keys == m.Keys
    ensures forall q :: q != d ==> SameAt(m, PropertiesCopied(m, s, d).1, q)
  {
    var n := PropertiesCopied(m, s, d).1[d];
    if d == [] {
      RootKeepsWellFormed(m, n);
    } else {
      assert HasParentDir(m, d);
      AddKeepsWellFormed(m, d, n);
    }
    assert m[d := n] == PropertiesCopied(m, s, d).1;
  }

  /** `resolve_collection_kind` for a node whose metadata is at hand. */
  method CollectionKindAt(fs: MemFs, path: DavPath, meta: DirEntry) returns (kind: CollectionKind)
    requires fs.Valid() && path.Valid() && path.Places() in fs.View()
    requires meta == Dirent(fs.View()[path.Places()], meta.name)
    ensures kind == KindOf(fs.View()[path.Places()])
  {
    if meta.isCalendar {
      return Calendar;
    }
    if meta.isAddressbook {
      return Addressbook;
    }
    if !meta.isDir {
      return Plain;
    }
    ResolvesIffStored(fs.View(), path.Places());
    ghost var props := fs.View()[path.Places()].props;
    var listed, keys := fs.GetProps(path.AsBytes(), false);
    var calendar := exists n :: 0 <= n < |listed.value| && IsCalendarMarker(listed.value[n]);
    var addressbook := exists n :: 0 <= n < |listed.value| && IsAddressbookMarker(listed.value[n]);
    MarkersListed(props, keys, listed.value);
    kind := if calendar then Calendar else if addressbook then Addressbook else Plain;
  }

  lemma MarkersListed(props: Props, keys: seq<string>, listed: seq<DavProp>)
    requires PropsListed(props, keys, false, listed)
    ensures (exists n :: 0 <= n < |listed| && IsCalendarMarker(listed[n])) <==>
              exists k :: k in props && IsCalendarMarker(props[k])
    ensures (exists n :: 0 <= n < |listed| && IsAddressbookMarker(listed[n])) <==>
              exists k :: k in props && IsAddressbookMarker(props[k])
  {
    forall n | 0 <= n < |listed|
      ensures IsCalendarMarker(listed[n]) <==> IsCalendarMarker(props[keys[n]])
      ensures IsAddressbookMarker(listed[n]) <==> IsAddressbookMarker(props[keys[n]])
    {
      assert listed[n] == ClonedProp(props[keys[n]]);
    }
    forall k | k in props ensures exists n :: 0 <= n < |listed| && keys[n] == k {
      assert k in keys;
    }
  }

  lemma MarkedAfterProps(m: FsMap, s: Path, d: Path)
    requires WellFormed(m) && s in m && d in m
    ensures var m1 := m[d := WithProps(m[d], m[s].props)];
            PropertiesCopied(m, s, d) ==
              if KindOf(m[s]) == Plain then (Ok(()), m1) else Marked(m1, d, KindOf(m[s]) == Calendar)
  {
    var m1 := m[d := WithProps(m[d], m[s].props)];
    WithPropsKeepsWellFormed(m, d, m[s].props);
    ResolvesIffStored(m1, d);
    var n := PropertiesCopied(m, s, d).1[d];
    assert m1[d := n] == m[d := n];
  }

  /** The patch that takes the destination's properties to the source's. */
  method PropertyPatch(fs: MemFs, source: DavPath, dest: DavPath) returns (patch: seq<(bool, DavProp)>)
    requires fs.Valid() && AllKeyed(fs.View()) && source.Valid() && dest.Valid()
    requires source.Places() in fs.View() && dest.Places() in fs.View()
    ensures Patched(fs.View()[dest.Places()].props, patch) == fs.View()[source.Places()].props
  {
    ghost var m, s, d := fs.View(), source.Places(), dest.Places();
    ResolvesIffStored(m, s);
    ResolvesIffStored(m, d);
    var sourceProps, sourceKeys := fs.GetProps(source.AsBytes(), true);
    var destProps, destKeys := fs.GetProps(dest.AsBytes(), false);
    PropsReplaced(m[d].props, destKeys, destProps.value, m[s].props, sourceKeys, sourceProps.value);
    patch := Removals(destProps.value) + Settings(sourceProps.value);
  }

  method ApplyPatch(fs: MemFs, dest: DavPath, patch: seq<(bool, DavProp)>)
    requires fs.Valid() && dest.Valid() && dest.Places() in fs.View()
    modifies fs.tree
    ensures fs.Valid()
    ensures var m, d := old(fs.View()), dest.Places(); fs.View() == m[d := WithProps(m[d], Patched(m[d].props, patch))]
  {
    ResolvesIffStored(fs.View(), dest.Places());
    if patch != [] {
      var patched := fs.PatchProps(dest.AsBytes(), patch);
    }
  }

  method CopyCollectionProperties(fs: MemFs, source: DavPath, dest: DavPath, meta: DirEntry) returns (r: FsResult<()>)
    requires fs.Valid() && AllKeyed(fs.View()) && source.Valid() && dest.Valid()
    requires source.Places() in fs.View() && dest.Places() in fs.View()
    requires meta == Dirent(fs.View()[source.Places()], meta.name)
    modifies fs.tree
    ensures fs.Valid()
    ensures (r, fs.View()) == PropertiesCopied(old(fs.View()), source.Places(), dest.Places())
  {
    ghost var m, d := fs.View(), dest.Places();
    ResolvesIffStored(m, d);
    MarkedAfterProps(m, source.Places(), d);
    var kind := CollectionKindAt(fs, source, meta);
    var patch := PropertyPatch(fs, source, dest);
    ApplyPatch(fs, dest, patch);
    if kind == Plain {
      return Ok(());
    }
    r := fs.Mark(dest.AsBytes(), kind == Calendar);
  }

  // ---------------------------------------------------------------------------------------------
  // What a copy is

  /** What `ensure_visible` asks of the names on a path; `hides` stands for the configured filters. */
  predicate Shown(hides: Bytes -> bool, p: Path) {
    forall n :: 0 <= n < |p| ==> !hides(p[n])
  }

  ghost predicate Apart(p: Path, q: Path) {
    !(p <= q) && !(q <= p)
  }

  /** A node as it is copied: same bytes and properties, and marked with the kind it has. */
  ghost function CopiedNode(n: FsNode): FsNode {
    match n
    case File(props, data) => File(props, data)
    case Dir(props, _, _) => Dir(props, KindOf(n) == Calendar, KindOf(n) == Addressbook)
  }

  /** A copied node is indistinguishable in contents, properties and kind. */
  lemma CopiedNodeIsSame(n: FsNode)
    ensures CopiedNode(n).Dir? == n.Dir? && CopiedNode(n).props == n.props
    ensures KindOf(CopiedNode(n)) == KindOf(n)
    ensures n.File? ==> CopiedNode(n) == n
  {
    if n.Dir? {
      var c := CopiedNode(n);
      assert c.props == n.props;
    }
  }

  /** The filesystem after copying `s` to `d`, at one path. */
  ghost predicate CopiedAt(m: FsMap, s: Path, d: Path, hides: Bytes -> bool, deep: bool, m': FsMap, q: Path) {
    if d <= q then
      var t := q[|d|..];
      && (q in m' <==> s + t in m && (t == [] || (deep && Shown(hides, s + t))))
      && (q in m' ==> m'[q] == CopiedNode(m[s + t]))
    else SameAt(m, m', q)
  }

  ghost predicate Copied(m: FsMap, s: Path, d: Path, hides: Bytes -> bool, deep: bool, m': FsMap) {
    forall q {:trigger CopiedAt(m, s, d, hides, deep, m', q)} :: CopiedAt(m, s, d, hides, deep, m', q)
  }

  /** The same, when the directory itself is there and the entries with these names have been dealt with. */
  ghost predicate PartCopiedAt(m: FsMap, s: Path, d: Path, hides: Bytes -> bool, names: set<Bytes>, m': FsMap,
                               q: Path) {
    if d < q then
      var t := q[|d|..];
      && (q in m' <==> s + t in m && t[0] in names && Shown(hides, s + t))
      && (q in m' ==> m'[q] == CopiedNode(m[s + t]))
    else SameAt(m, m', q)
  }

  ghost predicate PartCopied(m: FsMap, s: Path, d: Path, hides: Bytes -> bool, names: set<Bytes>, m': FsMap) {
    forall q {:trigger PartCopiedAt(m, s, d, hides, names, m', q)} :: PartCopiedAt(m, s, d, hides, names, m', q)
  }

  ghost predicate UnchangedOutside(m: FsMap, top: Path, m': FsMap) {
    forall q {:trigger SameAt(m, m', q)} :: !(top <= q) ==> SameAt(m, m', q)
  }

  lemma UnchangedTwice(m: FsMap, top: Path, m1: FsMap, m2: FsMap)
    requires UnchangedOutside(m, top, m1) && UnchangedOutside(m1, top, m2)
    ensures UnchangedOutside(m, top, m2)
  {
    forall q | !(top <= q) ensures SameAt(m, m2, q) {
      assert SameAt(m, m1, q) && SameAt(m1, m2, q);
    }
  }

  lemma ApartBelow(s: Path, d: Path, t: Path)
    requires Apart(s, d)
    ensures !(d <= s + t) && !(s <= d + t)
  {
    PrefixesComparable(s, d, s + t);
    PrefixesComparable(s, d, d + t);
  }

  lemma SplitAtChild(s: Path, d: Path, name: Bytes, q: Path)
    requires d + [name] <= q
    ensures var t, u := q[|d|..], q[|d| + 1..];
            t != [] && t[0] == name && t == [name] + u && s + t == (s + [name]) + u
            && q[|d + [name]|..] == u && d < q
  {
    assert q[|d|] == (d + [name])[|d|];
  }

  lemma EntryCopiedAt(m: FsMap, s: Path, d: Path, hides: Bytes -> bool, names: set<Bytes>, mn: FsMap, name: Bytes,
                      m': FsMap, q: Path)
    requires Apart(s, d) && name !in names && PartCopied(m, s, d, hides, names, mn) && Shown(hides, s + [name])
    requires Copied(mn, s + [name], d + [name], hides, true, m')
    ensures PartCopiedAt(m, s, d, hides, names + {name}, m', q)
  {
    assert PartCopiedAt(m, s, d, hides, names, mn, q);
    assert CopiedAt(mn, s + [name], d + [name], hides, true, m', q);
    if d + [name] <= q {
      SplitAtChild(s, d, name, q);
      var t := q[|d|..];
      ApartBelow(s, d, t);
      assert PartCopiedAt(m, s, d, hides, names, mn, s + t);
    } else if d < q {
      ChildOrNot(d, name, q);
    }
  }

  lemma ChildOrNot(d: Path, name: Bytes, q: Path)
    requires d < q
    ensures q[|d|..][0] == name <==> d + [name] <= q
  {
    assert q[..|d| + 1] == d + [q[|d|]];
  }

  lemma EntryCopied(m: FsMap, s: Path, d: Path, hides: Bytes -> bool, names: set<Bytes>, mn: FsMap, name: Bytes,
                    m': FsMap)
    requires Apart(s, d) && name !in names && PartCopied(m, s, d, hides, names, mn) && Shown(hides, s + [name])
    requires Copied(mn, s + [name], d + [name], hides, true, m')
    ensures PartCopied(m, s, d, hides, names + {name}, m')
  {
    forall q ensures PartCopiedAt(m, s, d, hides, names + {name}, m', q) {
      EntryCopiedAt(m, s, d, hides, names, mn, name, m', q);
    }
  }

  lemma EntryHidden(m: FsMap, s: Path, d: Path, hides: Bytes -> bool, names: set<Bytes>, mn: FsMap, name: Bytes)
    requires name !in names && PartCopied(m, s, d, hides, names, mn) && !Shown(hides, s + [name])
    ensures PartCopied(m, s, d, hides, names + {name}, mn)
  {
    var k :| 0 <= k < |s + [name]| && hides((s + [name])[k]);
    forall q ensures PartCopiedAt(m, s, d, hides, names + {name}, mn, q) {
      assert PartCopiedAt(m, s, d, hides, names, mn, q);
      if d < q && q[|d|..][0] == name {
        assert (s + q[|d|..])[k] == (s + [name])[k];
      }
    }
  }

  /** All entries dealt with: the directory and what is below it is copied. */
  lemma AllEntriesCopied(m0: FsMap, m: FsMap, s: Path, d: Path, hides: Bytes -> bool, names: set<Bytes>, m': FsMap)
    requires Apart(s, d) && s in m0 && m == m0[d := CopiedNode(m0[s])] && WellFormed(m)
    requires forall name {:trigger s + [name]} :: s + [name] in m ==> name in names
    requires PartCopied(m, s, d, hides, names, m')
    ensures Copied(m0, s, d, hides, true, m')
  {
    forall q ensures CopiedAt(m0, s, d, hides, true, m', q) {
      assert PartCopiedAt(m, s, d, hides, names, m', q);
      if d <= q {
        var t := q[|d|..];
        ApartBelow(s, d, t);
        if t != [] {
          assert d < q;
          if s + t in m {
            AncestorStored(m, s + [t[0]], s + t);
          }
        } else {
          assert q == d && s + t == s;
        }
      }
    }
  }

  lemma CopiedAlone(m: FsMap, s: Path, d: Path, hides: Bytes -> bool, deep: bool)
    requires WellFormed(m) && s in m && d !in m && Apart(s, d) && (m[s].File? || !deep)
    ensures Copied(m, s, d, hides, deep, m[d := CopiedNode(m[s])])
  {
    var m' := m[d := CopiedNode(m[s])];
    NothingBelowAbsent(m, d);
    forall q ensures CopiedAt(m, s, d, hides, deep, m', q) {
      if d <= q {
        var t := q[|d|..];
        if t == [] { assert q == d && s + t == s; }
        if s + t in m && t != [] { AncestorStored(m, s, s + t); }
      }
    }
  }

  // ---------------------------------------------------------------------------------------------
  // The recursion

  /** The part of the source tree that a copy can still visit. */
  ghost function ToVisit(m: FsMap, s: Path, top: Path): set<Path> {
    set q | q in m && s <= q && !(top <= q)
  }

  lemma LessToVisit(m: FsMap, mn: FsMap, s: Path, top: Path, name: Bytes)
    requires s in m && !(top <= s) && UnchangedOutside(m, top, mn)
    ensures ToVisit(mn, s + [name], top) < ToVisit(m, s, top)
  {
    forall q | q in ToVisit(mn, s + [name], top) ensures q in ToVisit(m, s, top) {
      assert SameAt(m, mn, q);
    }
    assert s in ToVisit(m, s, top) && s !in ToVisit(mn, s + [name], top);
  }

  ghost predicate GoodFs(fs: MemFs)
    reads fs, fs.tree
  {
    fs.Valid() && AllReachable(fs.View()) && AllKeyed(fs.View())
  }

  /** Paths a copy is called with: below the destination's top, and never below it on the source side. */
  ghost predicate CopyPaths(source: DavPath, topdest: DavPath, dest: DavPath) {
    && source.Valid() && topdest.Valid() && dest.Valid()
    && IsPrefix(source.Prefix()) && topdest.Prefix() == source.Prefix() && dest.Prefix() == source.Prefix()
    && topdest.Places() != [] && topdest.Places() <= dest.Places() && !(topdest.Places() < source.Places())
  }

  /** The source is there, and the destination can be made. */
  ghost predicate Ready(m: FsMap, s: Path, d: Path) {
    s in m && d != [] && HasParentDir(m, d) && d !in m
  }

  ghost predicate OnlyChanged(m: FsMap, d: Path, m': FsMap) {
    forall q {:trigger SameAt(m, m', q)} :: q != d ==> SameAt(m, m', q)
  }

  lemma CreateDirAt(m: FsMap, d: Path)
    requires WellFormed(m) && d != []
    ensures var (r, m') := CreateDir(m, d);
            && OnlyChanged(m, d, m')
            && (r.Ok? ==> d !in m && m' == m[d := NEW_DIR])
            && (r.Err? && r.error == Exists ==> d in m && m' == m)
            && (HasParentDir(m, d) && d !in m ==> r.Ok?)
            && (d in m ==> r == Err(Exists))
            && (AllReachable(m) && AreSegments(d) ==> AllReachable(m'))
  {
    assert Target(d) == d;
    ResolvesIffStored(m, Init(d));
    assert d in m ==> HasParentDir(m, d);
  }

  /** What making the destination collection does. */
  ghost predicate Made(m: FsMap, s: Path, d: Path, depthZero: bool, m': FsMap, ok: bool)
    requires s in m
  {
    && OnlyChanged(m, d, m')
    && (ok && !depthZero ==> d !in m)
    && (Ready(m, s, d) && m[s].Dir? ==> ok && m' == m[d := CopiedNode(m[s])])
    && (depthZero && m[s].Dir? && d in m && m[d].Dir? ==> ok && m' == PropertiesCopied(m, s, d).1)
  }

  lemma NotMade(m: FsMap, s: Path, d: Path, depthZero: bool)
    requires WellFormed(m) && d != [] && s in m
    requires CreateDir(m, d).0.Err? && (!depthZero || CreateDir(m, d).0.error != Exists)
    ensures Made(m, s, d, depthZero, CreateDir(m, d).1, false)
  {
    CreateDirAt(m, d);
  }

  lemma CollectionMade(m: FsMap, s: Path, d: Path, depthZero: bool)
    requires WellFormed(m) && d != [] && s in m
    requires CreateDir(m, d).0.Ok? || (depthZero && CreateDir(m, d).0.error == Exists)
    ensures var m1 := CreateDir(m, d).1;
            && WellFormed(m1) && s in m1 && d in m1 && m1[s] == m[s]
            && Made(m, s, d, depthZero, PropertiesCopied(m1, s, d).1, PropertiesCopied(m1, s, d).0.Ok?)
            && WellFormed(PropertiesCopied(m1, s, d).1)
  {
    CreateDirAt(m, d);
    CreateDirKeepsWellFormed(m, d);
    var m1 := CreateDir(m, d).1;
    assert d !in m ==> s != d;
    assert SameAt(m, m1, s) || s == d;
    PropertiesCopiedKeeps(m1, s, d);
    forall q | q != d ensures SameAt(m, PropertiesCopied(m1, s, d).1, q) {
      assert SameAt(m, m1, q);
    }
    if Ready(m, s, d) && m[s].Dir? { FreshlyCopied(m, s, d); }
  }

  lemma FreshlyCopied(m: FsMap, s: Path, d: Path)
    requires s in m && m[s].Dir? && d !in m
    ensures PropertiesCopied(m[d := NEW_DIR], s, d) == (Ok(()), m[d := CopiedNode(m[s])])
  {
    var m1, n := m[d := NEW_DIR], CopiedNode(m[s]);
    assert m1[d := n] == m[d := n];
    assert PropertiesCopied(m1, s, d) == (Ok(()), m1[d := n]);
  }

  /** Make the destination directory and give it the properties and kind of the source. */
  method MakeCollection(fs: MemFs, source: DavPath, dest: DavPath, depthZero: bool, meta: DirEntry)
    returns (r: FsResult<()>)
    requires GoodFs(fs) && source.Valid() && dest.Valid() && dest.Places() != []
    requires source.Places() in fs.View() && meta == Dirent(fs.View()[source.Places()], meta.name)
    modifies fs.tree
    ensures GoodFs(fs) && Made(old(fs.View()), source.Places(), dest.Places(), depthZero, fs.View(), r.Ok?)
  {
    ghost var m, s, d := fs.View(), source.Places(), dest.Places();
    CreateDirKeepsKeyed(m, d);
    SegsAreSegments(dest.AsBytes());
    CreateDirAt(m, d);
    r := fs.CreateDir(dest.AsBytes());
    if r.Err? && (!depthZero || r.error != Exists) {
      NotMade(m, s, d, depthZero);
      return;
    }
    CollectionMade(m, s, d, depthZero);
    PropertiesCopiedKeeps(fs.View(), s, d);
    r := CopyCollectionProperties(fs, source, dest, meta);
  }

  /** The file case: copy bytes and properties. */
  method CopyOne(fs: MemFs, source: DavPath, dest: DavPath) returns (r: FsResult<()>)
    requires GoodFs(fs) && source.Valid() && dest.Valid() && dest.Places() != []
    requires source.Places() in fs.View() && fs.View()[source.Places()].File?
    modifies fs.tree
    ensures GoodFs(fs) && OnlyChanged(old(fs.View()), dest.Places(), fs.View())
    ensures (r, fs.View()) == CopyFile(old(fs.View()), source.Places(), dest.Places())
    ensures var m, s, d := old(fs.View()), source.Places(), dest.Places();
            && (Ready(m, s, d) ==> r.Ok? && fs.View() == m[d := CopiedNode(m[s])])
            && (d in m && m[d].Dir? ==> r.Err? && fs.View() == m)
  {
    CopyFileAt(fs.View(), source.Places(), dest.Places());
    SegsAreSegments(dest.AsBytes());
    r := fs.Copy(source.AsBytes(), dest.AsBytes());
  }

  lemma CopyFileAt(m: FsMap, s: Path, d: Path)
    requires WellFormed(m) && s in m && m[s].File? && d != []
    ensures var (r, m') := CopyFile(m, s, d);
            && OnlyChanged(m, d, m')
            && (AllKeyed(m) ==> AllKeyed(m'))
            && (AllReachable(m) && AreSegments(d) ==> AllReachable(m'))
            && (Ready(m, s, d) ==> r.Ok? && m' == m[d := CopiedNode(m[s])])
            && (d in m && m[d].Dir? ==> r.Err? && m' == m)
  {
    ResolvesIffStored(m, s);
    ResolvesIffStored(m, d);
    ResolvesIffStored(m, Init(d));
    if AllKeyed(m) { CopyFileKeepsKeyed(m, s, d); }
    if Ready(m, s, d) { MissingIsNotFound(m, d); }
  }

  /** In a directory that exists, a missing name is not found. */
  lemma MissingIsNotFound(m: FsMap, d: Path)
    requires WellFormed(m) && d != [] && HasParentDir(m, d) && d !in m
    ensures Resolve(m, d) == Err(NotFound)
  {
    ResolvesIffStored(m, Init(d));
  }

  /**
   What copying `s` to `d` does, `top` being where the copy as a whole goes: outside it nothing changes,
   failure is reported, and if the destination is free and apart from the source the copy is complete.
   */
  ghost predicate CopyResult(m: FsMap, s: Path, top: Path, d: Path, hides: Bytes -> bool, deep: bool,
                             m': FsMap, ok: bool, reports: seq<Path>)
  {
    && UnchangedOutside(m, top, m')
    && (ok <==> reports == [])
    && (Ready(m, s, d) && Apart(s, top) ==> ok && Copied(m, s, d, hides, deep, m'))
    && (!deep && OntoCollection(m, s, top, d) ==> ok && m' == PropertiesCopied(m, s, d).1)
    && (!deep && s != top && s in m && m[s].File? && d in m && m[d].Dir? ==> m' == m && reports == [s])
  }

  /** One collection is copied onto another that is already there. */
  ghost predicate OntoCollection(m: FsMap, s: Path, top: Path, d: Path) {
    s != top && s in m && m[s].Dir? && d in m && m[d].Dir?
  }

  /** The destination has just been made. */
  ghost predicate Fresh(m: FsMap, s: Path, top: Path, d: Path) {
    d in m && m[d].Dir? && Apart(s, top) && top <= d && forall q :: q in m ==> !(d < q)
  }

  /** The loop over the entries, when those with these names have been dealt with. */
  ghost predicate CopyProgress(m: FsMap, s: Path, top: Path, d: Path, hides: Bytes -> bool, names: set<Bytes>,
                               mn: FsMap, ok: bool, reports: seq<Path>)
  {
    && UnchangedOutside(m, top, mn)
    && (ok <==> reports == [])
    && (Fresh(m, s, top, d) ==> ok && PartCopied(m, s, d, hides, names, mn))
  }

  lemma OnlyChangedBelow(m: FsMap, d: Path, m': FsMap, top: Path)
    requires OnlyChanged(m, d, m') && top <= d
    ensures UnchangedOutside(m, top, m')
  {}

  lemma NothingCopied(m: FsMap, s: Path, top: Path, d: Path, hides: Bytes -> bool, deep: bool)
    ensures s == top ==> CopyResult(m, s, top, d, hides, deep, m, true, [])
    ensures s !in m ==> CopyResult(m, s, top, d, hides, deep, m, false, [s])
  {}

  /** A file, or a collection with Depth 0: one node is copied or nothing is. */
  lemma OneCopied(m: FsMap, s: Path, top: Path, d: Path, hides: Bytes -> bool, deep: bool, m': FsMap, ok: bool,
                  reports: seq<Path>)
    requires WellFormed(m) && top <= d && OnlyChanged(m, d, m') && (ok <==> reports == [])
    requires Ready(m, s, d) ==> ok && m' == m[d := CopiedNode(m[s])]
    requires s in m && (m[s].File? || !deep)
    requires OntoCollection(m, s, top, d) ==> ok && m' == PropertiesCopied(m, s, d).1
    requires m[s].File? && d in m && m[d].Dir? ==> m' == m && reports == [s]
    ensures CopyResult(m, s, top, d, hides, deep, m', ok, reports)
  {
    OnlyChangedBelow(m, d, m', top);
    if Ready(m, s, d) && Apart(s, top) {
      PrefixesComparable(s, top, d);
      CopiedAlone(m, s, d, hides, deep);
    }
  }

  lemma CollectionNotMade(m: FsMap, s: Path, top: Path, d: Path, hides: Bytes -> bool, m': FsMap)
    requires top <= d && OnlyChanged(m, d, m') && !Ready(m, s, d)
    ensures CopyResult(m, s, top, d, hides, true, m', false, [d])
  {
    OnlyChangedBelow(m, d, m', top);
  }

  /** The collection has been made, and then its entries were copied. */
  lemma CollectionCopied(m: FsMap, s: Path, top: Path, d: Path, hides: Bytes -> bool, m1: FsMap, items: seq<DirEntry>,
                         m': FsMap, ok: bool, reports: seq<Path>)
    requires WellFormed(m) && WellFormed(m1) && s in m && m[s].Dir? && top <= d && OnlyChanged(m, d, m1)
    requires Ready(m, s, d) ==> m1 == m[d := CopiedNode(m[s])]
    requires ListsChildren(m1, s, items)
    requires CopyProgress(m1, s, top, d, hides, NamesOf(items, |items|), m', ok, reports)
    ensures CopyResult(m, s, top, d, hides, true, m', ok, reports)
  {
    OnlyChangedBelow(m, d, m1, top);
    UnchangedTwice(m, top, m1, m');
    ListedNamesExact(m1, s, items);
    if Ready(m, s, d) && Apart(s, top) {
      PrefixesComparable(s, top, d);
      NothingBelowAbsent(m, d);
      assert Fresh(m1, s, top, d);
      AllEntriesCopied(m, m1, s, d, hides, NamesOf(items, |items|), m');
    }
  }

  lemma NoEntryCopied(m: FsMap, s: Path, top: Path, d: Path, hides: Bytes -> bool)
    ensures CopyProgress(m, s, top, d, hides, {}, m, true, [])
  {
    if Fresh(m, s, top, d) {
      forall q ensures PartCopiedAt(m, s, d, hides, {}, m, q) {}
    }
  }

  lemma EntryDealtWith(m: FsMap, s: Path, top: Path, d: Path, hides: Bytes -> bool, names: set<Bytes>, mn: FsMap,
                       ok: bool, before: seq<Path>, name: Bytes, m': FsMap, childOk: bool, reports: seq<Path>)
    requires CopyProgress(m, s, top, d, hides, names, mn, ok, before) && name !in names && Shown(hides, s + [name])
    requires CopyResult(mn, s + [name], top, d + [name], hides, true, m', childOk, reports)
    requires Fresh(m, s, top, d) ==> Ready(mn, s + [name], d + [name]) && Apart(s + [name], top)
    ensures CopyProgress(m, s, top, d, hides, names + {name}, m', ok && childOk, before + reports)
  {
    UnchangedTwice(m, top, mn, m');
    if Fresh(m, s, top, d) {
      PrefixesComparable(s, top, d);
      EntryCopied(m, s, d, hides, names, mn, name, m');
    }
  }

  lemma EntryPassedOver(m: FsMap, s: Path, top: Path, d: Path, hides: Bytes -> bool, names: set<Bytes>, mn: FsMap,
                        ok: bool, before: seq<Path>, name: Bytes)
    requires CopyProgress(m, s, top, d, hides, names, mn, ok, before) && name !in names && !Shown(hides, s + [name])
    ensures CopyProgress(m, s, top, d, hides, names + {name}, mn, ok, before)
  {
    if Fresh(m, s, top, d) {
      EntryHidden(m, s, d, hides, names, mn, name);
    }
  }

  /** The next entry of the loop: where it is, and that it can be copied if the copy has gone well so far. */
  lemma NextToCopy(m: FsMap, s: Path, top: Path, d: Path, hides: Bytes -> bool, items: seq<DirEntry>, n: nat,
                   mn: FsMap, ok: bool, reports: seq<Path>)
    requires WellFormed(m) && WellFormed(mn) && AllReachable(m) && top <= d && !(top <= s)
    requires s in m && ListsChildren(m, s, items) && n < |items|
    requires CopyProgress(m, s, top, d, hides, NamesOf(items, n), mn, ok, reports)
    ensures IsSegment(items[n].name)
    ensures ToVisit(mn, s + [items[n].name], top) < ToVisit(m, s, top)
    ensures Fresh(m, s, top, d) ==>
              Ready(mn, s + [items[n].name], d + [items[n].name]) && Apart(s + [items[n].name], top)
  {
    var name := items[n].name;
    assert ListedRight(m, s, items[n]);
    NextName(items, n);
    LessToVisit(m, mn, s, top, name);
    assert AreSegments(s + [name]) && (s + [name])[|s|] == name;
    if Fresh(m, s, top, d) {
      NextReady(m, s, top, d, hides, NamesOf(items, n), mn, name);
    }
  }

  lemma NextReady(m: FsMap, s: Path, top: Path, d: Path, hides: Bytes -> bool, names: set<Bytes>, mn: FsMap,
                  name: Bytes)
    requires Fresh(m, s, top, d) && PartCopied(m, s, d, hides, names, mn) && name !in names && s + [name] in m
    requires UnchangedOutside(m, top, mn)
    ensures Ready(mn, s + [name], d + [name]) && Apart(s + [name], top)
  {
    assert top <= s + [name] ==> top == s + [name] || top <= s;
    assert SameAt(m, mn, s + [name]);
    assert PartCopiedAt(m, s, d, hides, names, mn, d);
    assert PartCopiedAt(m, s, d, hides, names, mn, d + [name]);
    assert (d + [name])[|d|..] == [name];
    assert Init(d + [name]) == d;
  }

  /**
   Copy `source` to `dest`, both below whatever the copy as a whole is of. Outside the copy's top nothing
   changes; when the destination is free and apart from the source, the copy is complete.
   */
  method DoCopy(fs: MemFs, hides: Bytes -> bool, source: DavPath, topdest: DavPath, dest: DavPath, depthZero: bool)
    returns (r: FsResult<()>, reports: seq<Path>)
    requires GoodFs(fs) && CopyPaths(source, topdest, dest)
    modifies fs.tree
    ensures GoodFs(fs)
    ensures CopyResult(old(fs.View()), source.Places(), topdest.Places(), dest.Places(), hides, !depthZero,
                       fs.View(), r.Ok?, reports)
    decreases ToVisit(fs.View(), source.Places(), topdest.Places()), 2
  {
    ghost var m, s, top, d := fs.View(), source.Places(), topdest.Places(), dest.Places();
    EqualsIffSamePlaces(source, topdest);
    NothingCopied(m, s, top, d, hides, !depthZero);
    if source.Equals(topdest) {
      return Ok(()), [];
    }
    ResolvesIffStored(m, s);
    var meta := fs.Metadata(source.AsBytes());
    if meta.Err? {
      return Err(meta.error), [Segs(source.AsBytes())];
    }
    if !meta.value.isDir {
      r := CopyOne(fs, source, dest);
      reports := if r.Ok? then [] else [Segs(source.AsBytes())];
      OneCopied(m, s, top, d, hides, !depthZero, fs.View(), r.Ok?, reports);
      return;
    }
    r, reports := CopyCollection(fs, hides, source, topdest, dest, depthZero, meta.value);
  }

  lemma MadeBeside(m: FsMap, m1: FsMap, s: Path, top: Path, d: Path)
    requires OnlyChanged(m, d, m1) && top <= d && s != d && s in m
    ensures s in m1 && m1[s] == m[s] && ToVisit(m1, s, top) == ToVisit(m, s, top)
  {
    assert SameAt(m, m1, s);
    forall q | !(top <= q) ensures q in m <==> q in m1 { assert SameAt(m, m1, q); }
  }

  /** The collection case: make the destination, and then copy the entries unless Depth is 0. */
  method CopyCollection(fs: MemFs, hides: Bytes -> bool, source: DavPath, topdest: DavPath, dest: DavPath,
                        depthZero: bool, meta: DirEntry) returns (r: FsResult<()>, reports: seq<Path>)
    requires GoodFs(fs) && CopyPaths(source, topdest, dest) && source.Places() != topdest.Places()
    requires source.Places() in fs.View() && fs.View()[source.Places()].Dir?
    requires meta == Dirent(fs.View()[source.Places()], meta.name)
    modifies fs.tree
    ensures GoodFs(fs)
    ensures CopyResult(old(fs.View()), source.Places(), topdest.Places(), dest.Places(), hides, !depthZero,
                       fs.View(), r.Ok?, reports)
    decreases ToVisit(fs.View(), source.Places(), topdest.Places()), 1
  {
    ghost var m, s, top, d := fs.View(), source.Places(), topdest.Places(), dest.Places();
    r := MakeCollection(fs, source, dest, depthZero, meta);
    reports := if r.Ok? then [] else [Segs(dest.AsBytes())];
    if depthZero {
      OneCopied(m, s, top, d, hides, false, fs.View(), r.Ok?, reports);
      return;
    }
    if r.Err? {
      CollectionNotMade(m, s, top, d, hides, fs.View());
      return;
    }
    ghost var m1 := fs.View();
    MadeBeside(m, m1, s, top, d);
    ResolvesIffStored(m1, s);
    var entries := fs.ReadDir(source.AsBytes());
    r, reports := CopyEntries(fs, hides, source, topdest, dest, entries.value);
    CollectionCopied(m, s, top, d, hides, m1, entries.value, fs.View(), r.Ok?, reports);
  }

  /** The loop over the entries of a collection. Errors are collected; the last one is returned. */
  method CopyEntries(fs: MemFs, hides: Bytes -> bool, source: DavPath, topdest: DavPath, dest: DavPath,
                     items: seq<DirEntry>)
    returns (r: FsResult<()>, reports: seq<Path>)
    requires GoodFs(fs) && CopyPaths(source, topdest, dest) && !(topdest.Places() <= source.Places())
    requires source.Places() in fs.View() && ListsChildren(fs.View(), source.Places(), items)
    modifies fs.tree
    ensures GoodFs(fs)
    ensures CopyProgress(old(fs.View()), source.Places(), topdest.Places(), dest.Places(), hides,
                         NamesOf(items, |items|), fs.View(), r.Ok?, reports)
    decreases ToVisit(fs.View(), source.Places(), topdest.Places()), 0
  {
    ghost var m, s, top, d := fs.View(), source.Places(), topdest.Places(), dest.Places();
    r, reports := Ok(()), [];
    NoEntryCopied(m, s, top, d, hides);
    for n := 0 to |items|
      invariant GoodFs(fs)
      invariant CopyProgress(m, s, top, d, hides, NamesOf(items, n), fs.View(), r.Ok?, reports)
    {
      ghost var mn, ok, before, names := fs.View(), r.Ok?, reports, NamesOf(items, n);
      var name := items[n].name;
      NextToCopy(m, s, top, d, hides, items, n, mn, ok, before);
      NextName(items, n);
      EntryPathPlaces(source, name, items[n].isDir);
      EntryPathPlaces(dest, name, items[n].isDir);
      var nsource := EntryPath(source, name, items[n].isDir);
      var ndest := EntryPath(dest, name, items[n].isDir);
      if Shown(hides, Segs(nsource.AsBytes())) {
        var childResult, childReports := DoCopy(fs, hides, nsource, topdest, ndest, false);
        EntryDealtWith(m, s, top, d, hides, names, mn, ok, before, name, fs.View(), childResult.Ok?, childReports);
        if childResult.Err? {
          r := childResult;
        }
        reports := reports + childReports;
      } else {
        EntryPassedOver(m, s, top, d, hides, names, mn, ok, before, name);
      }
    }
  }
}