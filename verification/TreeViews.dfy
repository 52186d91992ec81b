/** A labelled tree seen as a map from paths to data, and what the tree operations do to that map. */
module TreeViews {
  import opened Results
  import opened Trees

  ghost predicate PathsUnique<K, D>(e: Entries<K, D>) {
    forall i, j :: i in e && j in e && e[i].path == e[j].path ==> i == j
  }

  lemma LabelledPathsUnique<K, D>(nodes: Nodes<K, D>, e: Entries<K, D>)
    requires Labels(nodes, e)
    ensures PathsUnique(e)
  {
    forall i, j | i in e && j in e && e[i].path == e[j].path ensures i == j {
      PathsInjective(nodes, e, i, j);
    }
  }

  ghost predicate ShownAt<K, D>(e: Entries<K, D>, m: map<seq<K>, D>, i: nat)
    requires i in e
  {
    e[i].path in m && m[e[i].path] == e[i].data
  }

  /** `m` holds the data of every node under its path, and nothing else. */
  ghost predicate Shows<K, D>(e: Entries<K, D>, m: map<seq<K>, D>) {
    && (forall i {:trigger ShownAt(e, m, i)} :: i in e ==> ShownAt(e, m, i))
    && (forall p {:trigger PathTaken(e, p)} :: p in m ==> PathTaken(e, p))
  }

  lemma TakenIffShown<K, D>(e: Entries<K, D>, m: map<seq<K>, D>, p: seq<K>)
    requires Shows(e, m)
    ensures PathTaken(e, p) <==> p in m
  {
    if i :| i in e && e[i].path == p {
      assert ShownAt(e, m, i);
    }
  }

  /** The map is determined by the entries, so a tree shows one map only. */
  lemma ShownMapIsUnique<K, D>(e: Entries<K, D>, m: map<seq<K>, D>, m': map<seq<K>, D>)
    requires Shows(e, m) && Shows(e, m')
    ensures m == m'
  {
    forall p ensures (p in m <==> p in m') && (p in m ==> m[p] == m'[p]) {
      TakenIffShown(e, m, p);
      TakenIffShown(e, m', p);
      if i :| i in e && e[i].path == p {
        assert ShownAt(e, m, i) && ShownAt(e, m', i);
      }
    }
  }

  lemma MapShowingExists<K, D>(e: Entries<K, D>)
    requires PathsUnique(e)
    ensures exists m: map<seq<K>, D> :: Shows(e, m)
  {
    var m: map<seq<K>, D> := map i | i in e :: e[i].path := e[i].data;
    forall i | i in e ensures ShownAt(e, m, i) {}
    forall p | p in m ensures PathTaken(e, p) {}
    assert Shows(e, m);
  }

  /** The map a tree shows. */
  ghost function ViewOf<K(!new), D(!new)>(e: Entries<K, D>): (m: map<seq<K>, D>)
    ensures PathsUnique(e) ==> Shows(e, m)
  {
    if PathsUnique(e) then
      MapShowingExists(e);
      var m: map<seq<K>, D> :| Shows(e, m);
      m
    else map[]
  }

  lemma ShowsAfterAdd<K, D>(e: Entries<K, D>, m: map<seq<K>, D>, i: nat, p: seq<K>, d: D)
    requires Shows(e, m) && i !in e && p !in m
    ensures Shows(e[i := Entry(p, d)], m[p := d])
  {
    var e', m' := e[i := Entry(p, d)], m[p := d];
    forall j | j in e' ensures ShownAt(e', m', j) {
      if j != i { assert ShownAt(e, m, j); }
    }
    forall q | q in m' ensures PathTaken(e', q) {
      if q == p {
        assert e'[i].path == p;
      } else {
        assert PathTaken(e, q);
        var j :| j in e && e[j].path == q;
        assert e'[j].path == q;
      }
    }
  }

  lemma ShowsAfterSet<K, D>(e: Entries<K, D>, m: map<seq<K>, D>, i: nat, d: D)
    requires Shows(e, m) && PathsUnique(e) && i in e
    ensures Shows(e[i := Entry(e[i].path, d)], m[e[i].path := d])
  {
    var e', m' := e[i := Entry(e[i].path, d)], m[e[i].path := d];
    forall j | j in e' ensures ShownAt(e', m', j) {
      assert ShownAt(e, m, j);
    }
    forall q | q in m' ensures PathTaken(e', q) {
      assert ShownAt(e, m, i);
      assert PathTaken(e, q);
      var j :| j in e && e[j].path == q;
      assert e'[j].path == q;
    }
  }

  lemma ShowsAfterRemove<K, D>(e: Entries<K, D>, m: map<seq<K>, D>, i: nat)
    requires Shows(e, m) && PathsUnique(e) && i in e
    ensures Shows(e - {i}, m - {e[i].path})
  {
    var e', m' := e - {i}, m - {e[i].path};
    forall j | j in e' ensures ShownAt(e', m', j) {
      assert ShownAt(e, m, j);
    }
    forall q | q in m' ensures PathTaken(e', q) {
      assert PathTaken(e, q);
      var j :| j in e && e[j].path == q;
      assert e'[j].path == q;
    }
  }

  /** `m'` is `m` without what is at or below `to`, with the paths at or below `from` re-rooted at `to`. */
  ghost predicate Rebases<K, D>(m: map<seq<K>, D>, from: seq<K>, to: seq<K>, m': map<seq<K>, D>) {
    && (forall q {:trigger Rebased(q, from, to)} :: q in m && !(to <= q) ==> RebasedAt(m, from, to, m', q))
    && (forall q' {:trigger RebasedOnto(m, from, to, q')} :: q' in m' ==> RebasedOnto(m, from, to, q'))
  }

  ghost predicate RebasedAt<K, D>(m: map<seq<K>, D>, from: seq<K>, to: seq<K>, m': map<seq<K>, D>, q: seq<K>)
    requires q in m
  {
    Rebased(q, from, to) in m' && m'[Rebased(q, from, to)] == m[q]
  }

  ghost predicate RebasedOnto<K, D>(m: map<seq<K>, D>, from: seq<K>, to: seq<K>, q': seq<K>) {
    exists q :: q in m && !(to <= q) && Rebased(q, from, to) == q'
  }

  lemma ShowsAfterMove<K, D>(e: Entries<K, D>, m: map<seq<K>, D>, id: nat, to: seq<K>, m': map<seq<K>, D>)
    requires Shows(e, m) && id in WithoutPath(e, to) && Rebases(m, e[id].path, to, m')
    ensures Shows(Rerooted(WithoutPath(e, to), id, to), m')
  {
    var from := e[id].path;
    var e' := Rerooted(WithoutPath(e, to), id, to);
    forall j | j in e' ensures ShownAt(e', m', j) {
      assert ShownAt(e, m, j);
      assert RebasedAt(m, from, to, m', e[j].path);
    }
    forall q' | q' in m' ensures PathTaken(e', q') {
      assert RebasedOnto(m, from, to, q');
      var q :| q in m && !(to <= q) && Rebased(q, from, to) == q';
      assert PathTaken(e, q);
      var j :| j in e && e[j].path == q;
      assert e'[j].path == q';
    }
  }

  lemma HasBelowIffShown<K, D>(e: Entries<K, D>, m: map<seq<K>, D>, id: nat)
    requires Shows(e, m) && id in e
    ensures HasBelow(e, id) <==> exists q :: q in m && e[id].path < q
  {
    if HasBelow(e, id) {
      var i :| i in e && e[id].path < e[i].path;
      assert ShownAt(e, m, i);
    }
    if q :| q in m && e[id].path < q {
      assert PathTaken(e, q);
    }
  }
}
