/**
 Recursive DELETE over a filesystem whose steps may fail (src/handle_delete.rs, `delete_items`;
 sections 9.6 and 9.6.1 of RFC 4918).

 `Faults` says which removals, listings and directory entries fail, and which listings have an error in them
 that belongs to no entry; every path is removed and listed at most once in a run, so this covers every way in
 which single steps can fail.
 */
module Deletion {
  import opened Results
  import opened DavPaths
  import opened PathValues
  import opened FsModel
  import opened MemFiles

  datatype Faults = Faults(remove: Path -> bool, list: Path -> bool, entry: Path -> bool, stray: Path -> bool)

  // ---------------------------------------------------------------------------------------------
  // What survives

  ghost predicate BrokenAt(f: Faults, q: Path, n: nat)
    requires n < |q|
  {
    f.list(q[..n]) || f.entry(q[..n + 1])
  }

  /** The walk from `top` does not get to `q`: a listing or an entry on the way fails. */
  ghost predicate Unreached(f: Faults, top: Path, q: Path) {
    exists n {:trigger BrokenAt(f, q, n)} :: |top| <= n < |q| && BrokenAt(f, q, n)
  }

  /** `q` cannot be removed, whatever happens below it. The root never can. */
  ghost predicate Stuck(m: FsMap, f: Faults, top: Path, q: Path)
    requires q in m
  {
    Unreached(f, top, q) || q == [] || f.remove(q) || (m[q].Dir? && (f.list(q) || f.stray(q)))
  }

  /** Something at or below `q` cannot be removed. */
  ghost predicate Survives(m: FsMap, f: Faults, top: Path, q: Path) {
    exists d {:trigger Stuck(m, f, top, d)} :: d in m && q <= d && Stuck(m, f, top, d)
  }

  /** The filesystem after deleting `top`, at one path. */
  ghost predicate DeletedAt(m: FsMap, f: Faults, top: Path, m': FsMap, q: Path) {
    if top <= q then (q in m' <==> q in m && Survives(m, f, top, q)) && (q in m' ==> m'[q] == m[q])
    else SameAt(m, m', q)
  }

  ghost predicate Deleted(m: FsMap, f: Faults, top: Path, m': FsMap) {
    forall q {:trigger DeletedAt(m, f, top, m', q)} :: DeletedAt(m, f, top, m', q)
  }

  lemma UnreachedFromChild(f: Faults, top: Path, name: Bytes, q: Path)
    requires !f.list(top) && !f.entry(top + [name]) && top + [name] <= q
    ensures Unreached(f, top, q) <==> Unreached(f, top + [name], q)
  {
    assert q[..|top|] == top && q[..|top| + 1] == top + [name];
    if n :| |top| <= n < |q| && BrokenAt(f, q, n) {
      assert n != |top|;
    }
    if n :| |top + [name]| <= n < |q| && BrokenAt(f, q, n) {
      assert |top| <= n;
    }
  }

  /**
   Below a child that the walk gets to, surviving is surviving a walk from that child, even after changes
   elsewhere.
   */
  lemma SurvivesFromChild(m: FsMap, mn: FsMap, f: Faults, top: Path, name: Bytes, q: Path)
    requires !f.list(top) && !f.entry(top + [name]) && top + [name] <= q
    requires forall d :: top + [name] <= d ==> SameAt(m, mn, d)
    ensures Survives(m, f, top, q) <==> Survives(mn, f, top + [name], q)
  {
    var child := top + [name];
    if d :| d in m && q <= d && Stuck(m, f, top, d) {
      UnreachedFromChild(f, top, name, d);
      assert SameAt(m, mn, d);
      assert Stuck(mn, f, child, d);
    }
    if d :| d in mn && q <= d && Stuck(mn, f, child, d) {
      UnreachedFromChild(f, top, name, d);
      assert SameAt(m, mn, d);
      assert Stuck(m, f, top, d);
    }
  }

  /** Everything at and below a failing entry survives. */
  lemma SurvivesBehindEntry(m: FsMap, f: Faults, top: Path, name: Bytes, q: Path)
    requires f.entry(top + [name]) && top + [name] <= q && q in m
    ensures Survives(m, f, top, q)
  {
    assert q[..|top| + 1] == top + [name];
    assert BrokenAt(f, q, |top|);
    assert Stuck(m, f, top, q);
  }

  /** If the directory cannot be listed, everything at and below it survives. */
  lemma SurvivesUnlisted(m: FsMap, f: Faults, top: Path, q: Path)
    requires f.list(top) && top in m && m[top].Dir? && top <= q && q in m
    ensures Survives(m, f, top, q)
  {
    assert q == top || BrokenAt(f, q, |top|) by {
      assert q[..|top|] == top;
    }
    assert Stuck(m, f, top, q);
  }

  lemma SurvivesUpwards(m: FsMap, f: Faults, top: Path, q: Path, r: Path)
    requires r <= q && Survives(m, f, top, q)
    ensures Survives(m, f, top, r)
  {
    var d :| d in m && q <= d && Stuck(m, f, top, d);
    assert r <= d;
  }

  // ---------------------------------------------------------------------------------------------
  // One child after another

  /** The filesystem when the children of `top` with these names have been dealt with, at one path. */
  ghost predicate PartDeletedAt(m: FsMap, f: Faults, top: Path, names: set<Bytes>, m': FsMap, q: Path) {
    if top < q && q[|top|] in names then DeletedAt(m, f, top, m', q) else SameAt(m, m', q)
  }

  ghost predicate PartDeleted(m: FsMap, f: Faults, top: Path, names: set<Bytes>, m': FsMap) {
    forall q {:trigger PartDeletedAt(m, f, top, names, m', q)} :: PartDeletedAt(m, f, top, names, m', q)
  }

  lemma UnderChild(top: Path, name: Bytes, q: Path)
    ensures top + [name] <= q <==> top < q && q[|top|] == name
  {
    if top < q && q[|top|] == name {
      assert q[..|top| + 1] == top + [name];
    }
  }

  lemma ChildSubtreeSame(m: FsMap, f: Faults, top: Path, names: set<Bytes>, mn: FsMap, name: Bytes)
    requires PartDeleted(m, f, top, names, mn) && name !in names
    ensures forall d :: top + [name] <= d ==> SameAt(m, mn, d)
  {
    forall d | top + [name] <= d ensures SameAt(m, mn, d) {
      UnderChild(top, name, d);
      assert PartDeletedAt(m, f, top, names, mn, d);
    }
  }

  lemma ChildDeletedAt(m: FsMap, f: Faults, top: Path, names: set<Bytes>, mn: FsMap, name: Bytes, m': FsMap, q: Path)
    requires !f.list(top) && !f.entry(top + [name]) && name !in names
    requires PartDeleted(m, f, top, names, mn) && Deleted(mn, f, top + [name], m')
    ensures PartDeletedAt(m, f, top, names + {name}, m', q)
  {
    UnderChild(top, name, q);
    assert PartDeletedAt(m, f, top, names, mn, q) && DeletedAt(mn, f, top + [name], m', q);
    if top + [name] <= q {
      ChildSubtreeSame(m, f, top, names, mn, name);
      SurvivesFromChild(m, mn, f, top, name, q);
    }
  }

  lemma ChildDeleted(m: FsMap, f: Faults, top: Path, names: set<Bytes>, mn: FsMap, name: Bytes, m': FsMap)
    requires !f.list(top) && !f.entry(top + [name]) && name !in names
    requires PartDeleted(m, f, top, names, mn) && Deleted(mn, f, top + [name], m')
    ensures PartDeleted(m, f, top, names + {name}, m')
  {
    forall q ensures PartDeletedAt(m, f, top, names + {name}, m', q) {
      ChildDeletedAt(m, f, top, names, mn, name, m', q);
    }
  }

  lemma EntrySkipped(m: FsMap, f: Faults, top: Path, names: set<Bytes>, mn: FsMap, name: Bytes)
    requires f.entry(top + [name]) && name !in names && PartDeleted(m, f, top, names, mn)
    ensures PartDeleted(m, f, top, names + {name}, mn)
  {
    forall q ensures PartDeletedAt(m, f, top, names + {name}, mn, q) {
      assert PartDeletedAt(m, f, top, names, mn, q);
      UnderChild(top, name, q);
      if top + [name] <= q && q in m {
        SurvivesBehindEntry(m, f, top, name, q);
      }
    }
  }

  /** The names dealt with are all children of `top`. */
  ghost predicate AllNames(m: FsMap, top: Path, names: set<Bytes>) {
    forall name {:trigger top + [name]} :: top + [name] in m ==> name in names
  }

  lemma ChildOnWay(m: FsMap, top: Path, names: set<Bytes>, q: Path)
    requires WellFormed(m) && AllNames(m, top, names) && q in m && top < q
    ensures top + [q[|top|]] in m && q[|top|] in names && top + [q[|top|]] <= q
  {
    UnderChild(top, q[|top|], q);
    AncestorStored(m, top + [q[|top|]], q);
  }

  /** Some child survives: the directory stays. */
  lemma DeletedWhenChildSurvives(m: FsMap, f: Faults, top: Path, names: set<Bytes>, m': FsMap, name: Bytes)
    requires WellFormed(m) && top in m && AllNames(m, top, names) && PartDeleted(m, f, top, names, m')
    requires Survives(m, f, top, top + [name])
    ensures Deleted(m, f, top, m') && Survives(m, f, top, top)
  {
    SurvivesUpwards(m, f, top, top + [name], top);
    forall q ensures DeletedAt(m, f, top, m', q) {
      assert PartDeletedAt(m, f, top, names, m', q);
      if q in m && top < q { ChildOnWay(m, top, names, q); }
    }
  }

  ghost predicate NoChildSurvives(m: FsMap, f: Faults, top: Path, names: set<Bytes>) {
    forall name {:trigger top + [name]} :: name in names ==> !Survives(m, f, top, top + [name])
  }

  lemma NothingSurvivesBelow(m: FsMap, f: Faults, top: Path, names: set<Bytes>, q: Path)
    requires WellFormed(m) && AllNames(m, top, names) && NoChildSurvives(m, f, top, names)
    requires q in m && top < q
    ensures !Survives(m, f, top, q)
  {
    ChildOnWay(m, top, names, q);
    if Survives(m, f, top, q) {
      SurvivesUpwards(m, f, top, q, top + [q[|top|]]);
    }
  }

  /** The directory stays even when all its children are gone. */
  ghost predicate Kept(f: Faults, top: Path) {
    top == [] || f.remove(top) || f.stray(top)
  }

  /** All children are gone: the directory is the only thing left below `top`, and goes unless it is kept. */
  lemma OnlyTopLeft(m: FsMap, f: Faults, top: Path, names: set<Bytes>, mn: FsMap)
    requires WellFormed(m) && top in m && m[top].Dir? && !f.list(top) && AllNames(m, top, names)
    requires PartDeleted(m, f, top, names, mn) && NoChildSurvives(m, f, top, names)
    ensures top in mn && mn[top] == m[top] && !HasChildren(mn, top)
    ensures Survives(m, f, top, top) <==> Kept(f, top)
    ensures if Kept(f, top) then Deleted(m, f, top, mn) else Deleted(m, f, top, mn - {top})
  {
    assert PartDeletedAt(m, f, top, names, mn, top);
    forall q | q in mn ensures !(top < q) {
      assert PartDeletedAt(m, f, top, names, mn, q);
      if top < q && q in m {
        ChildOnWay(m, top, names, q);
        NothingSurvivesBelow(m, f, top, names, q);
      }
    }
    if Survives(m, f, top, top) {
      var d :| d in m && top <= d && Stuck(m, f, top, d);
      if top < d {
        NothingSurvivesBelow(m, f, top, names, d);
        assert false;
      }
      assert d == top;
      assert !Unreached(f, top, top);
    }
    if Kept(f, top) { assert Stuck(m, f, top, top); }
    var m' := if Kept(f, top) then mn else mn - {top};
    forall q ensures DeletedAt(m, f, top, m', q) {
      assert PartDeletedAt(m, f, top, names, mn, q);
      if top <= q && !(top < q) { assert q == top; }
      if top < q && q in m {
        ChildOnWay(m, top, names, q);
        NothingSurvivesBelow(m, f, top, names, q);
      }
    }
  }

  // ---------------------------------------------------------------------------------------------
  // What is reported

  ghost predicate EntryFaultIn(m: FsMap, f: Faults, q: Path) {
    exists name {:trigger q + [name]} :: q + [name] in m && f.entry(q + [name])
  }

  ghost predicate SurvivorBelow(m: FsMap, f: Faults, top: Path, q: Path) {
    exists d {:trigger Stuck(m, f, top, d)} :: d in m && q < d && Stuck(m, f, top, d)
  }

  /** `q` is named in the answer: its listing failed or had an error, one of its entries failed, or its removal did. */
  ghost predicate Reported(m: FsMap, f: Faults, top: Path, q: Path)
    requires q in m
  {
    && top <= q && !Unreached(f, top, q)
    && (|| (m[q].Dir? && (f.list(q) || f.stray(q) || EntryFaultIn(m, f, q)))
        || ((q == [] || f.remove(q)) && !SurvivorBelow(m, f, top, q)))
  }

  ghost predicate ReportsAre(m: FsMap, f: Faults, top: Path, reports: seq<Path>) {
    forall q {:trigger q in reports} :: q in reports <==> q in m && Reported(m, f, top, q)
  }

  ghost predicate PartReported(m: FsMap, f: Faults, top: Path, names: set<Bytes>, q: Path) {
    && q in m
    && (|| (top < q && q[|top|] in names && Reported(m, f, top, q))
        || (q == top && exists name {:trigger top + [name]} :: name in names && f.entry(top + [name])))
  }

  ghost predicate PartReportsAre(m: FsMap, f: Faults, top: Path, names: set<Bytes>, reports: seq<Path>) {
    forall q {:trigger q in reports} :: q in reports <==> PartReported(m, f, top, names, q)
  }

  lemma ReportedFromChild(m: FsMap, mn: FsMap, f: Faults, top: Path, name: Bytes, q: Path)
    requires !f.list(top) && !f.entry(top + [name]) && top + [name] <= q
    requires forall d :: top + [name] <= d ==> SameAt(m, mn, d)
    requires q in m && q in mn
    ensures Reported(m, f, top, q) <==> Reported(mn, f, top + [name], q)
  {
    var child := top + [name];
    assert SameAt(m, mn, q);
    UnreachedFromChild(f, top, name, q);
    EntryFaultsSame(m, mn, f, child, q);
    SurvivorBelowFromChild(m, mn, f, top, name, q);
  }

  lemma EntryFaultsSame(m: FsMap, mn: FsMap, f: Faults, child: Path, q: Path)
    requires child <= q && forall d :: child <= d ==> SameAt(m, mn, d)
    ensures EntryFaultIn(m, f, q) <==> EntryFaultIn(mn, f, q)
  {
    if name :| q + [name] in m && f.entry(q + [name]) { assert SameAt(m, mn, q + [name]); }
    if name :| q + [name] in mn && f.entry(q + [name]) { assert SameAt(m, mn, q + [name]); }
  }

  lemma SurvivorBelowFromChild(m: FsMap, mn: FsMap, f: Faults, top: Path, name: Bytes, q: Path)
    requires !f.list(top) && !f.entry(top + [name]) && top + [name] <= q
    requires forall d :: top + [name] <= d ==> SameAt(m, mn, d)
    ensures SurvivorBelow(m, f, top, q) <==> SurvivorBelow(mn, f, top + [name], q)
  {
    var child := top + [name];
    if d :| d in m && q < d && Stuck(m, f, top, d) {
      UnreachedFromChild(f, top, name, d);
      assert SameAt(m, mn, d);
      assert Stuck(mn, f, child, d);
    }
    if d :| d in mn && q < d && Stuck(mn, f, child, d) {
      UnreachedFromChild(f, top, name, d);
      assert SameAt(m, mn, d);
      assert Stuck(m, f, top, d);
    }
  }

  lemma ChildReportedAt(m: FsMap, f: Faults, top: Path, names: set<Bytes>, mn: FsMap, name: Bytes,
                        before: seq<Path>, reports: seq<Path>, q: Path)
    requires !f.list(top) && !f.entry(top + [name]) && name !in names && PartDeleted(m, f, top, names, mn)
    requires PartReportsAre(m, f, top, names, before) && ReportsAre(mn, f, top + [name], reports)
    ensures q in before + reports <==> PartReported(m, f, top, names + {name}, q)
  {
    UnderChild(top, name, q);
    ChildSubtreeSame(m, f, top, names, mn, name);
    assert q in before + reports <==> q in before || q in reports;
    assert q in reports ==> top + [name] <= q;
    if top + [name] <= q {
      assert SameAt(m, mn, q);
      if q in m { ReportedFromChild(m, mn, f, top, name, q); }
    }
    if q == top && exists n {:trigger top + [n]} :: n in names + {name} && f.entry(top + [n]) {
      var n :| n in names + {name} && f.entry(top + [n]);
      assert n in names;
    }
  }

  lemma ChildReported(m: FsMap, f: Faults, top: Path, names: set<Bytes>, mn: FsMap, name: Bytes,
                      before: seq<Path>, reports: seq<Path>)
    requires !f.list(top) && !f.entry(top + [name]) && name !in names && PartDeleted(m, f, top, names, mn)
    requires PartReportsAre(m, f, top, names, before) && ReportsAre(mn, f, top + [name], reports)
    ensures PartReportsAre(m, f, top, names + {name}, before + reports)
  {
    forall q ensures q in before + reports <==> PartReported(m, f, top, names + {name}, q) {
      ChildReportedAt(m, f, top, names, mn, name, before, reports, q);
    }
  }

  lemma EntryReported(m: FsMap, f: Faults, top: Path, names: set<Bytes>, name: Bytes, before: seq<Path>)
    requires f.entry(top + [name]) && name !in names && top in m
    requires PartReportsAre(m, f, top, names, before)
    ensures PartReportsAre(m, f, top, names + {name}, before + [top])
  {
    forall q ensures q in before + [top] <==> PartReported(m, f, top, names + {name}, q) {
      assert q in before + [top] <==> q in before || q == top;
      UnderChild(top, name, q);
      if top < q && q[|top|] == name {
        assert BrokenAt(f, q, |top|) by { assert q[..|top| + 1] == top + [name]; }
        assert Unreached(f, top, q);
      }
    }
  }

  lemma AllReported(m: FsMap, f: Faults, top: Path, names: set<Bytes>, before: seq<Path>)
    requires WellFormed(m) && top in m && m[top].Dir? && !f.list(top) && ExactNames(m, top, names)
    requires PartReportsAre(m, f, top, names, before)
    ensures f.stray(top) ==> ReportsAre(m, f, top, before + [top])
    ensures !f.stray(top) && (exists name :: name in names && Survives(m, f, top, top + [name])) ==>
              ReportsAre(m, f, top, before)
    ensures !f.stray(top) && NoChildSurvives(m, f, top, names) ==>
              if Kept(f, top) then ReportsAre(m, f, top, before + [top]) else ReportsAre(m, f, top, before)
  {
    assert !Unreached(f, top, top);
    if f.stray(top) {
      TopReported(m, f, top, names, before);
    } else if name :| name in names && Survives(m, f, top, top + [name]) {
      SurvivorSeen(m, f, top, name);
      forall q ensures q in before <==> q in m && Reported(m, f, top, q) {
        ReportedBelowTop(m, f, top, names, q);
      }
    } else if NoChildSurvives(m, f, top, names) {
      NoSurvivorSeen(m, f, top, names);
      if Kept(f, top) {
        TopReported(m, f, top, names, before);
      } else {
        forall q ensures q in before <==> q in m && Reported(m, f, top, q) {
          ReportedBelowTop(m, f, top, names, q);
        }
      }
    }
  }

  lemma TopReported(m: FsMap, f: Faults, top: Path, names: set<Bytes>, before: seq<Path>)
    requires WellFormed(m) && top in m && ExactNames(m, top, names)
    requires PartReportsAre(m, f, top, names, before) && Reported(m, f, top, top)
    ensures ReportsAre(m, f, top, before + [top])
  {
    forall q ensures q in before + [top] <==> q in m && Reported(m, f, top, q) {
      ReportedBelowTop(m, f, top, names, q);
      assert q in before + [top] <==> q in before || q == top;
    }
  }

  lemma SurvivorSeen(m: FsMap, f: Faults, top: Path, name: Bytes)
    requires Survives(m, f, top, top + [name])
    ensures SurvivorBelow(m, f, top, top)
  {
    var d :| d in m && top + [name] <= d && Stuck(m, f, top, d);
    assert top < d;
  }

  lemma NoSurvivorSeen(m: FsMap, f: Faults, top: Path, names: set<Bytes>)
    requires WellFormed(m) && ExactNames(m, top, names) && NoChildSurvives(m, f, top, names)
    ensures !SurvivorBelow(m, f, top, top) && !EntryFaultIn(m, f, top)
  {
    if d :| d in m && top < d && Stuck(m, f, top, d) {
      NothingSurvivesBelow(m, f, top, names, d);
      assert false;
    }
    if name :| top + [name] in m && f.entry(top + [name]) {
      SurvivesBehindEntry(m, f, top, name, top + [name]);
      assert false;
    }
  }

  /** Reports strictly below the top are complete once all children have been dealt with. */
  lemma ReportedBelowTop(m: FsMap, f: Faults, top: Path, names: set<Bytes>, q: Path)
    requires WellFormed(m) && ExactNames(m, top, names)
    ensures q != top ==> (PartReported(m, f, top, names, q) <==> q in m && Reported(m, f, top, q))
    ensures top in m && m[top].Dir? ==> (PartReported(m, f, top, names, top) <==> EntryFaultIn(m, f, top))
  {
    if q in m && top < q { ChildOnWay(m, top, names, q); }
    if q != top && top <= q { assert top < q; }
  }

  // ---------------------------------------------------------------------------------------------
  // The recursion

  /** `remove_file` or `remove_dir`, which may fail. */
  method RemoveOne(fs: MemFs, f: Faults, path: DavPath) returns (ok: bool)
    requires fs.Valid() && path.Valid() && path.Places() in fs.View()
    modifies fs.tree
    ensures fs.Valid()
    ensures ok <==> path.Places() != [] && !f.remove(path.Places()) && !HasChildren(old(fs.View()), path.Places())
    ensures fs.View() == if ok then old(fs.View()) - {path.Places()} else old(fs.View())
  {
    ghost var m, p := fs.View(), path.Places();
    ResolvesIffStored(m, p);
    ResolvesIffStored(m, Init(p));
    assert p != [] ==> HasParentDir(m, p);
    if f.remove(Segs(path.AsBytes())) {
      return false;
    }
    var removed := fs.Remove(path.AsBytes());
    ok := removed.Ok?;
  }

  ghost function TreePaths(m: FsMap, top: Path): set<Path> {
    set q | q in m && top <= q
  }

  lemma ChildTreeSmaller(m: FsMap, f: Faults, top: Path, names: set<Bytes>, mn: FsMap, name: Bytes)
    requires top in m && PartDeleted(m, f, top, names, mn)
    ensures TreePaths(mn, top + [name]) < TreePaths(m, top)
  {
    forall q | q in TreePaths(mn, top + [name]) ensures q in TreePaths(m, top) {
      assert PartDeletedAt(m, f, top, names, mn, q);
    }
    assert top in TreePaths(m, top) && top !in TreePaths(mn, top + [name]);
  }

  lemma DeletedKeeps(m: FsMap, f: Faults, top: Path, m': FsMap)
    requires Deleted(m, f, top, m')
    ensures m'.Keys <= m.Keys
    ensures AllReachable(m) ==> AllReachable(m')
    ensures !Survives(m, f, top, top) ==> forall q :: q in m' ==> !(top <= q)
  {
    forall q | q in m' ensures q in m { assert DeletedAt(m, f, top, m', q); }
    forall q | q in m' && !Survives(m, f, top, top) ensures !(top <= q) {
      assert DeletedAt(m, f, top, m', q);
      if top <= q { SurvivesUpwards(m, f, top, q, top); }
    }
  }

  lemma FileDeleted(m: FsMap, f: Faults, p: Path)
    requires WellFormed(m) && p in m && m[p].File?
    ensures p != [] && !HasChildren(m, p)
    ensures Survives(m, f, p, p) <==> f.remove(p)
    ensures Deleted(m, f, p, if f.remove(p) then m else m - {p})
    ensures ReportsAre(m, f, p, if f.remove(p) then [p] else [])
  {
    forall q | q in m && p <= q ensures q == p { AncestorStored(m, p, q); }
    assert !Unreached(f, p, p);
    if f.remove(p) { assert Stuck(m, f, p, p); }
    var m' := if f.remove(p) then m else m - {p};
    forall q ensures DeletedAt(m, f, p, m', q) {}
    var reports := if f.remove(p) then [p] else [];
    forall q ensures q in reports <==> q in m && Reported(m, f, p, q) {
      if q in m && Reported(m, f, p, q) { assert q == p; assert !EntryFaultIn(m, f, p) || m[p].File?; }
    }
  }

  lemma UnlistedUndeleted(m: FsMap, f: Faults, p: Path)
    requires p in m && m[p].Dir? && f.list(p)
    ensures Survives(m, f, p, p) && Deleted(m, f, p, m) && ReportsAre(m, f, p, [p])
  {
    assert !Unreached(f, p, p);
    forall q ensures DeletedAt(m, f, p, m, q) {
      if q in m && p <= q { SurvivesUnlisted(m, f, p, p); SurvivesUnlisted(m, f, p, q); }
    }
    SurvivesUnlisted(m, f, p, p);
    forall q ensures q in [p] <==> q in m && Reported(m, f, p, q) {
      if p < q {
        assert BrokenAt(f, q, |p|) by { assert q[..|p|] == p; }
        assert Unreached(f, p, q);
      }
      if p <= q && !(p < q) { assert q == p; }
    }
  }

  /** All of what a deletion of `top` with everything below it does, in terms of the failing steps. */
  ghost predicate Outcome(m: FsMap, f: Faults, top: Path, m': FsMap, ok: bool, reports: seq<Path>) {
    && Deleted(m, f, top, m')
    && ok == !Survives(m, f, top, top)
    && ReportsAre(m, f, top, reports)
  }

  /** The same, when only the children with these names have been dealt with. */
  ghost predicate Progress(m: FsMap, f: Faults, top: Path, names: set<Bytes>, mn: FsMap, ok: bool, reports: seq<Path>) {
    && PartDeleted(m, f, top, names, mn)
    && PartReportsAre(m, f, top, names, reports)
    && (ok ==> NoChildSurvives(m, f, top, names))
    && (!ok ==> exists name {:trigger top + [name]} :: name in names && Survives(m, f, top, top + [name]))
  }

  lemma NothingYet(m: FsMap, f: Faults, top: Path)
    ensures Progress(m, f, top, {}, m, true, [])
  {
    forall q ensures PartDeletedAt(m, f, top, {}, m, q) {}
  }

  lemma ChildDone(m: FsMap, f: Faults, top: Path, names: set<Bytes>, mn: FsMap, ok: bool, before: seq<Path>,
                  name: Bytes, m': FsMap, childOk: bool, reports: seq<Path>)
    requires !f.list(top) && !f.entry(top + [name]) && name !in names
    requires Progress(m, f, top, names, mn, ok, before) && Outcome(mn, f, top + [name], m', childOk, reports)
    ensures Progress(m, f, top, names + {name}, m', ok && childOk, before + reports)
  {
    ChildDeleted(m, f, top, names, mn, name, m');
    ChildReported(m, f, top, names, mn, name, before, reports);
    ChildSubtreeSame(m, f, top, names, mn, name);
    SurvivesFromChild(m, mn, f, top, name, top + [name]);
    OneMoreSurvives(m, f, top, names, ok, name, childOk);
  }

  lemma OneMoreSurvives(m: FsMap, f: Faults, top: Path, names: set<Bytes>, ok: bool, name: Bytes, childOk: bool)
    requires ok ==> NoChildSurvives(m, f, top, names)
    requires !ok ==> exists n {:trigger top + [n]} :: n in names && Survives(m, f, top, top + [n])
    requires childOk == !Survives(m, f, top, top + [name])
    ensures ok && childOk ==> NoChildSurvives(m, f, top, names + {name})
    ensures !(ok && childOk) ==> exists n {:trigger top + [n]} :: n in names + {name} && Survives(m, f, top, top + [n])
  {
    if !ok {
      var n :| n in names && Survives(m, f, top, top + [n]);
      assert n in names + {name};
    } else if !childOk {
      assert name in names + {name};
    }
  }

  lemma EntryDone(m: FsMap, f: Faults, top: Path, names: set<Bytes>, mn: FsMap, ok: bool, before: seq<Path>,
                  name: Bytes)
    requires f.entry(top + [name]) && name !in names && top in m && top + [name] in m
    requires Progress(m, f, top, names, mn, ok, before)
    ensures Progress(m, f, top, names + {name}, mn, false, before + [top])
  {
    EntrySkipped(m, f, top, names, mn, name);
    EntryReported(m, f, top, names, name, before);
    SurvivesBehindEntry(m, f, top, name, top + [name]);
    OneMoreSurvives(m, f, top, names, ok, name, false);
  }

  lemma AllDone(m: FsMap, f: Faults, top: Path, names: set<Bytes>, mn: FsMap, ok: bool, reports: seq<Path>)
    requires WellFormed(m) && top in m && m[top].Dir? && !f.list(top) && ExactNames(m, top, names)
    requires Progress(m, f, top, names, mn, ok, reports)
    ensures top in mn
    ensures f.stray(top) ==> Outcome(m, f, top, mn, false, reports + [top])
    ensures !f.stray(top) && !ok ==> Outcome(m, f, top, mn, false, reports)
    ensures ok ==> !HasChildren(mn, top)
    ensures !f.stray(top) && ok ==>
              if Kept(f, top) then Outcome(m, f, top, mn, false, reports + [top])
              else Outcome(m, f, top, mn - {top}, true, reports)
  {
    AllReported(m, f, top, names, reports);
    assert PartDeletedAt(m, f, top, names, mn, top);
    if ok {
      OnlyTopLeft(m, f, top, names, mn);
    } else {
      var name :| name in names && Survives(m, f, top, top + [name]);
      DeletedWhenChildSurvives(m, f, top, names, mn, name);
    }
  }

  lemma NextEntry(m: FsMap, f: Faults, top: Path, items: seq<DirEntry>, n: nat, mn: FsMap)
    requires AllReachable(m) && ListsChildren(m, top, items) && n < |items| && top in m
    requires PartDeleted(m, f, top, NamesOf(items, n), mn)
    ensures top + [items[n].name] in m
    ensures top + [items[n].name] in mn && mn[top + [items[n].name]].Dir? == items[n].isDir
    ensures IsSegment(items[n].name)
    ensures TreePaths(mn, top + [items[n].name]) < TreePaths(m, top)
  {
    var child := top + [items[n].name];
    assert ListedRight(m, top, items[n]);
    NextName(items, n);
    assert PartDeletedAt(m, f, top, NamesOf(items, n), mn, child);
    ChildTreeSmaller(m, f, top, NamesOf(items, n), mn, items[n].name);
    assert AreSegments(child) && child[|top|] == items[n].name;
  }

  /**
   Delete `path` and, unless Depth is 0, everything below it. What remains, whether all went well, and
   what is reported are exactly as the failing steps determine.
   */
  method DeleteItems(fs: MemFs, f: Faults, depthZero: bool, isDir: bool, path: DavPath)
    returns (ok: bool, reports: seq<Path>)
    requires fs.Valid() && AllReachable(fs.View()) && path.Valid() && IsPrefix(path.Prefix())
    requires path.Places() in fs.View() && isDir == fs.View()[path.Places()].Dir?
    modifies fs.tree
    ensures fs.Valid() && AllReachable(fs.View())
    ensures !depthZero || !isDir ==> Outcome(old(fs.View()), f, path.Places(), fs.View(), ok, reports)
    ensures depthZero && isDir ==>
              && ok == (path.Places() != [] && !f.remove(path.Places()) && !HasChildren(old(fs.View()), path.Places()))
              && fs.View() == (if ok then old(fs.View()) - {path.Places()} else old(fs.View()))
              && reports == if ok then [] else [path.Places()]
    decreases TreePaths(fs.View(), path.Places()), 1
  {
    ghost var m, p := fs.View(), path.Places();
    if !isDir {
      FileDeleted(m, f, p);
      ok := RemoveOne(fs, f, path);
      return ok, if ok then [] else [Segs(path.AsBytes())];
    }
    if depthZero {
      ok := RemoveOne(fs, f, path);
      return ok, if ok then [] else [Segs(path.AsBytes())];
    }
    if f.list(Segs(path.AsBytes())) {
      UnlistedUndeleted(m, f, p);
      return false, [Segs(path.AsBytes())];
    }
    ResolvesIffStored(m, p);
    var entries := fs.ReadDir(path.AsBytes());
    ok, reports := DeleteChildren(fs, f, path, entries.value);
    ghost var mn := fs.View();
    ListedNamesExact(m, p, entries.value);
    AllDone(m, f, p, NamesOf(entries.value, |entries.value|), mn, ok, reports);
    if f.stray(Segs(path.AsBytes())) {
      ok, reports := false, reports + [Segs(path.AsBytes())];
    } else if ok {
      ok := RemoveOne(fs, f, path);
      if !ok {
        reports := reports + [Segs(path.AsBytes())];
      }
    }
    DeletedKeeps(m, f, p, fs.View());
  }

  /** The loop over the entries of a directory. */
  method DeleteChildren(fs: MemFs, f: Faults, path: DavPath, items: seq<DirEntry>)
    returns (ok: bool, reports: seq<Path>)
    requires fs.Valid() && AllReachable(fs.View()) && path.Valid() && IsPrefix(path.Prefix())
    requires path.Places() in fs.View() && !f.list(path.Places())
    requires ListsChildren(fs.View(), path.Places(), items)
    modifies fs.tree
    ensures fs.Valid() && AllReachable(fs.View())
    ensures Progress(old(fs.View()), f, path.Places(), NamesOf(items, |items|), fs.View(), ok, reports)
    decreases TreePaths(fs.View(), path.Places()), 0
  {
    ghost var m, p := fs.View(), path.Places();
    ok, reports := true, [];
    NothingYet(m, f, p);
    for n := 0 to |items|
      invariant fs.Valid() && AllReachable(fs.View())
      invariant Progress(m, f, p, NamesOf(items, n), fs.View(), ok, reports)
    {
      ghost var mn := fs.View();
      NextEntry(m, f, p, items, n, mn);
      NextName(items, n);
      var name := items[n].name;
      if f.entry(Segs(path.AsBytes()) + [name]) {
        EntryDone(m, f, p, NamesOf(items, n), mn, ok, reports, name);
        ok, reports := false, reports + [Segs(path.AsBytes())];
      } else {
        EntryPathPlaces(path, name, items[n].isDir);
        var npath := EntryPath(path, name, items[n].isDir);
        var childOk, childReports := DeleteItems(fs, f, false, items[n].isDir, npath);
        ChildDone(m, f, p, NamesOf(items, n), mn, ok, reports, name, fs.View(), childOk, childReports);
        ok, reports := ok && childOk, reports + childReports;
      }
    }
  }

  // ---------------------------------------------------------------------------------------------
  // What the outcome means

  /** Success means that nothing remains at or below the path; and nothing else ever changes. */
  lemma SuccessMeansGone(m: FsMap, f: Faults, top: Path, m': FsMap, ok: bool, reports: seq<Path>, q: Path)
    requires WellFormed(m) && top in m && Outcome(m, f, top, m', ok, reports)
    ensures !(top <= q) ==> SameAt(m, m', q)
    ensures ok ==> m' == WithoutTree(m, top)
    ensures ok <==> top !in m'
  {
    assert DeletedAt(m, f, top, m', q) && DeletedAt(m, f, top, m', top);
    if ok {
      DeletedKeeps(m, f, top, m');
      forall r ensures SameAt(m', WithoutTree(m, top), r) {
        assert DeletedAt(m, f, top, m', r);
      }
      SameEverywhere(m', WithoutTree(m, top));
    }
  }

  /** No failing step in a subtree other than the whole filesystem: it is deleted without a report. */
  lemma NoFaultsNoSurvivors(m: FsMap, f: Faults, top: Path, m': FsMap, ok: bool, reports: seq<Path>)
    requires WellFormed(m) && top in m && top != [] && Outcome(m, f, top, m', ok, reports)
    requires forall q :: top <= q && q in m ==> !f.remove(q) && !f.list(q) && !f.entry(q) && !f.stray(q)
    ensures ok && reports == [] && m' == WithoutTree(m, top)
  {
    EmptyOrMember(reports);
    forall d | d in m && top <= d ensures !Stuck(m, f, top, d) {
      ReachedWithoutFaults(m, f, top, d);
    }
    SuccessMeansGone(m, f, top, m', ok, reports, top);
    forall q ensures q !in reports {
      assert q in reports <==> q in m && Reported(m, f, top, q);
    }
  }

  lemma ReachedWithoutFaults(m: FsMap, f: Faults, top: Path, d: Path)
    requires WellFormed(m) && d in m && top <= d
    requires forall q :: top <= q && q in m ==> !f.list(q) && !f.entry(q)
    ensures !Unreached(f, top, d)
  {
    forall n | |top| <= n < |d| ensures !BrokenAt(f, d, n) {
      PrefixStored(m, d, n);
      PrefixStored(m, d, n + 1);
      assert top <= d[..n] && top <= d[..n + 1];
    }
  }

  /** Below a path that cannot be removed there is one at which nothing further down is in the way. */
  lemma {:induction false} DeepestStuck(m: FsMap, f: Faults, top: Path, d: Path) returns (r: Path)
    requires d in m && Stuck(m, f, top, d)
    ensures r in m && d <= r && Stuck(m, f, top, r) && !SurvivorBelow(m, f, top, r)
    decreases TreePaths(m, d)
  {
    r := d;
    if SurvivorBelow(m, f, top, d) {
      var d' :| d' in m && d < d' && Stuck(m, f, top, d');
      assert d in TreePaths(m, d) && d !in TreePaths(m, d');
      r := DeepestStuck(m, f, top, d');
    }
  }

  /** The first step that breaks on the way to an unreached path breaks at a directory that is reported. */
  lemma {:induction false} BreakIsReported(m: FsMap, f: Faults, top: Path, d: Path) returns (r: Path)
    requires WellFormed(m) && d in m && top <= d && Unreached(f, top, d)
    ensures r in m && r < d && Reported(m, f, top, r)
    ensures |top| <= |r| && BrokenAt(f, d, |r|)
    decreases |d|
  {
    var n :| |top| <= n < |d| && BrokenAt(f, d, n);
    r := d[..n];
    PrefixStored(m, d, n);
    PrefixStored(m, d, n + 1);
    if Unreached(f, top, r) {
      r := BreakIsReported(m, f, top, r);
      assert d[..n][..|r| + 1] == d[..|r| + 1] && d[..n][..|r|] == d[..|r|];
    } else {
      assert r + [d[n]] == d[..n + 1];
      assert f.list(r) || EntryFaultIn(m, f, r);
    }
  }

  /**
   No silent survivors: whatever remains has something reported at, below or above it; and if every
   directory could be listed in full, at or below it.
   */
  lemma SurvivorsExplained(m: FsMap, f: Faults, top: Path, m': FsMap, ok: bool, reports: seq<Path>, q: Path)
    requires WellFormed(m) && top in m && Outcome(m, f, top, m', ok, reports)
    requires top <= q && q in m'
    ensures exists r :: r in reports && (q <= r || r < q)
    ensures (forall p :: top <= p && p in m ==> !f.list(p) && !f.entry(p)) ==> exists r :: r in reports && q <= r
  {
    assert DeletedAt(m, f, top, m', q);
    var d :| d in m && q <= d && Stuck(m, f, top, d);
    if Unreached(f, top, d) {
      var r := BreakIsReported(m, f, top, d);
      assert r in reports;
      PrefixesComparable(q, r, d);
      if forall p :: top <= p && p in m ==> !f.list(p) && !f.entry(p) {
        ReachedWithoutFaults(m, f, top, d);
        assert false;
      }
    } else {
      StuckIsReported(m, f, top, d, reports);
    }
  }

  lemma StuckIsReported(m: FsMap, f: Faults, top: Path, d: Path, reports: seq<Path>)
    requires WellFormed(m) && d in m && top <= d && Stuck(m, f, top, d) && !Unreached(f, top, d)
    requires ReportsAre(m, f, top, reports)
    ensures exists r :: r in reports && d <= r
  {
    var e := DeepestStuck(m, f, top, d);
    if Unreached(f, top, e) {
      var r := BreakIsReported(m, f, top, e);
      assert r in reports;
      PrefixesComparable(d, r, e);
      if r < d {
        assert d[..|r|] == e[..|r|] && d[..|r| + 1] == e[..|r| + 1];
        assert BrokenAt(f, d, |r|);
        assert false;
      }
    } else {
      assert Reported(m, f, top, e);
      assert e in reports;
    }
  }

  /** No listing and no entry on the way from `top` to `q` fails. */
  ghost predicate WayIsOpen(f: Faults, top: Path, q: Path) {
    forall n {:trigger q[..n]} :: |top| <= n < |q| ==> !f.list(q[..n]) && !f.entry(q[..n + 1])
  }

  /**
   Every failing step that the walk gets to does what it may: a directory that cannot be listed and an entry that
   cannot be looked at keep all there is below, what cannot be removed stays, and a directory with an error in its
   listing stays; but for a removal that something below stands in the way of, each is reported, and none is a success.
   */
  lemma FailingStepsLeaveThings(m: FsMap, f: Faults, top: Path, m': FsMap, ok: bool, reports: seq<Path>, q: Path,
                                name: Bytes, r: Path)
    requires WellFormed(m) && Outcome(m, f, top, m', ok, reports)
    requires q in m && top <= q && WayIsOpen(f, top, q)
    ensures m[q].Dir? && f.list(q) && q <= r && r in m ==> r in m' && m'[r] == m[r] && q in reports && !ok
    ensures m[q].Dir? && f.entry(q + [name]) && q + [name] in m && q + [name] <= r && r in m ==>
              r in m' && m'[r] == m[r] && q in reports && !ok
    ensures m[q].Dir? && f.stray(q) ==> q in m' && q in reports && !ok
    ensures f.remove(q) || q == [] ==> q in m' && !ok && exists d :: q <= d && d in reports
  {
    assert q[..|q|] == q;
    assert !Unreached(f, top, q);
    assert DeletedAt(m, f, top, m', r) && DeletedAt(m, f, top, m', q);
    if m[q].Dir? && f.list(q) && q <= r && r in m {
      StaysBelowBreak(m, f, top, q, r);
    }
    if m[q].Dir? && f.entry(q + [name]) && q + [name] in m && q + [name] <= r && r in m {
      assert r[..|q| + 1] == q + [name];
      StaysBelowBreak(m, f, top, q, r);
    }
    if Stuck(m, f, top, q) {
      SurvivesUpwards(m, f, top, q, top);
      StuckIsReported(m, f, top, q, reports);
    }
  }

  lemma StaysBelowBreak(m: FsMap, f: Faults, top: Path, q: Path, r: Path)
    requires q in m && r in m && top <= q <= r && m[q].Dir?
    requires f.list(q) || (q < r && f.entry(r[..|q| + 1]))
    ensures Survives(m, f, top, r) && Survives(m, f, top, top)
  {
    assert r[..|q|] == q;
    if |q| < |r| {
      assert BrokenAt(f, r, |q|);
    } else {
      assert r == q;
    }
    assert Stuck(m, f, top, r);
    SurvivesUpwards(m, f, top, r, top);
  }
}
