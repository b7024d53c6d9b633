/** Posting lists, and what it means for an inverted index to agree with the
    documents it indexes. */
module Postings {

  /** One document under a term, with how often the term occurs in it. */
  datatype Posting<D> = Posting(doc: D, tf: nat)

  type Index<D> = map<string, seq<Posting<D>>>

  /** The place of d in the list, or its length: listSearchKey. */
  function Find<D(==)>(ps: seq<Posting<D>>, d: D): (i: nat)
    ensures i <= |ps|
    ensures forall j :: 0 <= j < i ==> ps[j].doc != d
    ensures i < |ps| ==> ps[i].doc == d
  {
    if ps == [] || ps[0].doc == d then 0
    else
      var i := Find(ps[1..], d);
      assert forall j :: 1 <= j < i + 1 ==> ps[j] == ps[1..][j - 1];
      i + 1
  }

  function Tf<D(==)>(ps: seq<Posting<D>>, d: D): nat {
    var i := Find(ps, d);
    if i < |ps| then ps[i].tf else 0
  }

  function At<D>(index: Index<D>, k: string): seq<Posting<D>> {
    if k in index then index[k] else []
  }

  /** One more occurrence for d; a new document goes to the head. */
  function Bump<D(==)>(ps: seq<Posting<D>>, d: D): seq<Posting<D>> {
    var i := Find(ps, d);
    if i < |ps| then ps[i := Posting(d, ps[i].tf + 1)] else [Posting(d, 1)] + ps
  }

  /** A first occurrence goes to the head; a further one changes only its own count. */
  lemma BumpMeans<D>(front: seq<Posting<D>>, back: seq<Posting<D>>, d: D, n: nat)
    requires forall i :: 0 <= i < |front| ==> front[i].doc != d
    ensures Bump(front, d) == [Posting(d, 1)] + front
    ensures Bump(front + [Posting(d, n)] + back, d) == front + [Posting(d, n + 1)] + back
  {
    var ps := front + [Posting(d, n)] + back;
    assert ps[|front|].doc == d;
    assert forall j :: 0 <= j < |front| ==> ps[j] == front[j];
    assert Find(front, d) == |front| && Find(ps, d) == |front|;
  }

  /** One occurrence less for the posting at i, which goes with its last. */
  function Lowered<D>(ps: seq<Posting<D>>, i: nat): seq<Posting<D>>
    requires i < |ps| && ps[i].tf > 0
  {
    if ps[i].tf == 1 then ps[..i] + ps[i + 1..] else ps[i := Posting(ps[i].doc, ps[i].tf - 1)]
  }

  /** Each live document at most once, each with a positive frequency. */
  ghost predicate WellFormed<D>(ps: seq<Posting<D>>, live: set<D>) {
    && (forall i, j :: 0 <= i < j < |ps| ==> ps[i].doc != ps[j].doc)
    && (forall i :: 0 <= i < |ps| ==> ps[i].tf > 0 && ps[i].doc in live)
  }

  /** The frequencies filed for d are the counts of the terms m. */
  ghost predicate DocAgrees<D>(index: Index<D>, d: D, m: multiset<string>) {
    forall k: string :: Tf(At(index, k), d) == m[k]
  }

  ghost predicate ListsAgree<D>(index: Index<D>, live: set<D>) {
    forall k :: k in index ==> WellFormed(index[k], live)
  }

  /** The index files exactly the documents of freq, each under each of its
      terms with the number of its occurrences. */
  ghost predicate Agree<D>(index: Index<D>, freq: map<D, multiset<string>>) {
    && ListsAgree(index, freq.Keys)
    && forall d :: d in freq ==> DocAgrees(index, d, freq[d])
  }

  lemma FindIs<D>(ps: seq<Posting<D>>, live: set<D>, i: nat)
    requires WellFormed(ps, live) && i < |ps|
    ensures Find(ps, ps[i].doc) == i
  {
    var f := Find(ps, ps[i].doc);
    assert f <= i;
  }

  lemma TfIs<D>(ps: seq<Posting<D>>, live: set<D>, i: nat, d: D)
    requires WellFormed(ps, live) && i < |ps| && ps[i].doc == d
    ensures Tf(ps, d) == ps[i].tf
  {
    FindIs(ps, live, i);
  }

  lemma TfNone<D>(ps: seq<Posting<D>>, d: D)
    requires forall i :: 0 <= i < |ps| ==> ps[i].doc != d
    ensures Tf(ps, d) == 0
  {
  }

  /** What the index says under a term is what counting the term in every
      document says. */
  lemma PostingIff<D>(index: Index<D>, freq: map<D, multiset<string>>, k: string, p: Posting<D>)
    requires Agree(index, freq)
    ensures p in At(index, k) <==> p.doc in freq && p.tf == freq[p.doc][k] && p.tf > 0
  {
    hide Find;
    var ps := At(index, k);
    assert WellFormed(ps, freq.Keys);
    if p in ps {
      var i :| 0 <= i < |ps| && ps[i] == p;
      TfIs(ps, freq.Keys, i, p.doc);
      assert DocAgrees(index, p.doc, freq[p.doc]);
    }
    if p.doc in freq && p.tf == freq[p.doc][k] && p.tf > 0 {
      assert DocAgrees(index, p.doc, freq[p.doc]);
      var i := Find(ps, p.doc);
      assert ps[i] == p;
    }
  }

  // ----- one occurrence more -----

  lemma BumpWellFormed<D>(ps: seq<Posting<D>>, live: set<D>, d: D)
    requires WellFormed(ps, live) && d in live
    ensures WellFormed(Bump(ps, d), live)
  {
    hide Find;
  }

  lemma BumpTf<D>(ps: seq<Posting<D>>, live: set<D>, d: D, e: D)
    requires WellFormed(ps, live) && d in live
    ensures Tf(Bump(ps, d), e) == Tf(ps, e) + if e == d then 1 else 0
  {
    hide Find, WellFormed, Tf;
    var i, qs := Find(ps, d), Bump(ps, d);
    BumpWellFormed(ps, live, d);
    var f := Find(ps, e);
    TfFound(ps, e);
    if e == d {
      TfIs(qs, live, if i < |ps| then i else 0, e);
    } else if f < |ps| {
      TfIs(qs, live, if i < |ps| then f else f + 1, e);
    } else {
      TfNone(qs, e);
    }
  }

  lemma TfFound<D>(ps: seq<Posting<D>>, d: D)
    ensures Tf(ps, d) == if Find(ps, d) < |ps| then ps[Find(ps, d)].tf else 0
  {
  }

  /** Filing one more occurrence of k in d keeps the index in agreement. */
  lemma AddTermAgrees<D>(index: Index<D>, freq: map<D, multiset<string>>, k: string, d: D)
    requires Agree(index, freq) && d in freq
    ensures Agree(index[k := Bump(At(index, k), d)], freq[d := freq[d] + multiset{k}])
  {
    hide Find, Bump, Tf, WellFormed;
    var ps := At(index, k);
    var index', freq' := index[k := Bump(ps, d)], freq[d := freq[d] + multiset{k}];
    assert freq'.Keys == freq.Keys;
    AtWellFormed(index, freq.Keys, k);
    BumpWellFormed(ps, freq.Keys, d);
    forall e | e in freq' ensures DocAgrees(index', e, freq'[e]) {
      assert DocAgrees(index, e, freq[e]);
      forall j: string ensures Tf(At(index', j), e) == freq'[e][j] {
        assert Tf(At(index, j), e) == freq[e][j];
        if j == k {
          BumpTf(ps, freq.Keys, d, e);
        }
      }
    }
  }

  lemma AtWellFormed<D>(index: Index<D>, live: set<D>, k: string)
    requires ListsAgree(index, live)
    ensures WellFormed(At(index, k), live)
  {
  }

  // ----- one occurrence less -----

  lemma LoweredWellFormed<D>(ps: seq<Posting<D>>, live: set<D>, i: nat)
    requires WellFormed(ps, live) && i < |ps|
    ensures ps[i].tf > 0 && WellFormed(Lowered(ps, i), live)
  {
    var qs := Lowered(ps, i);
    if ps[i].tf == 1 {
      assert forall j :: 0 <= j < |qs| ==> qs[j] == ps[if j < i then j else j + 1];
    }
  }

  lemma LoweredTf<D>(ps: seq<Posting<D>>, live: set<D>, i: nat, e: D)
    requires WellFormed(ps, live) && i < |ps| && ps[i].tf > 0
    ensures Tf(Lowered(ps, i), e) == Tf(ps, e) - if e == ps[i].doc then 1 else 0
  {
    hide Find, WellFormed, Tf;
    var qs := Lowered(ps, i);
    LoweredWellFormed(ps, live, i);
    FindIs(ps, live, i);
    TfFound(ps, e);
    var f := Find(ps, e);
    if f == i {
      if ps[i].tf == 1 {
        OnlyOnce(ps, live, i);
        TfNone(qs, e);
      } else {
        TfIs(qs, live, i, e);
      }
    } else if f < |ps| {
      TfIs(qs, live, if ps[i].tf == 1 && i < f then f - 1 else f, e);
    } else {
      TfNone(qs, e);
    }
  }

  lemma OnlyOnce<D>(ps: seq<Posting<D>>, live: set<D>, i: nat)
    requires WellFormed(ps, live) && i < |ps|
    ensures forall j :: 0 <= j < |ps| && j != i ==> ps[j].doc != ps[i].doc
  {
  }

  /** Where k still counts in d, the lookups of fts_index_del succeed. */
  lemma TermIsFiled<D>(index: Index<D>, freq: map<D, multiset<string>>, k: string, d: D)
    requires Agree(index, freq) && d in freq && k in freq[d]
    ensures k in index && Find(index[k], d) < |index[k]| && index[k][Find(index[k], d)].tf > 0
  {
    hide Find;
    assert DocAgrees(index, d, freq[d]);
    assert Tf(At(index, k), d) > 0;
  }

  lemma DropTermAgrees<D>(index: Index<D>, freq: map<D, multiset<string>>, k: string, d: D, i: nat)
    requires Agree(index, freq) && d in freq && k in freq[d] && k in index
    requires i == Find(index[k], d) < |index[k]| && index[k][i].tf > 0
    ensures Agree(index[k := Lowered(index[k], i)], freq[d := freq[d] - multiset{k}])
  {
    hide Find, Lowered, Tf, WellFormed;
    var ps := index[k];
    var index', freq' := index[k := Lowered(ps, i)], freq[d := freq[d] - multiset{k}];
    assert freq'.Keys == freq.Keys;
    AtWellFormed(index, freq.Keys, k);
    LoweredWellFormed(ps, freq.Keys, i);
    forall e | e in freq' ensures DocAgrees(index', e, freq'[e]) {
      assert DocAgrees(index, e, freq[e]);
      forall j: string ensures Tf(At(index', j), e) == freq'[e][j] {
        assert Tf(At(index, j), e) == freq[e][j];
        if j == k {
          LoweredTf(ps, freq.Keys, i, e);
        }
      }
    }
  }

  // ----- documents coming and going -----

  lemma NewDocAgrees<D>(index: Index<D>, freq: map<D, multiset<string>>, d: D)
    requires Agree(index, freq) && d !in freq
    ensures Agree(index, freq[d := multiset{}])
  {
    var freq' := freq[d := multiset{}];
    forall k | k in index ensures WellFormed(index[k], freq'.Keys) {
      assert WellFormed(index[k], freq.Keys);
    }
    forall e | e in freq' ensures DocAgrees(index, e, freq'[e]) {
      if e == d {
        forall k: string ensures Tf(At(index, k), d) == 0 {
          AtWellFormed(index, freq.Keys, k);
          TfNone(At(index, k), d);
        }
      } else {
        assert DocAgrees(index, e, freq[e]);
      }
    }
  }

  lemma GoneDocAgrees<D>(index: Index<D>, freq: map<D, multiset<string>>, d: D)
    requires Agree(index, freq) && d in freq && freq[d] == multiset{}
    ensures Agree(index, freq - {d})
  {
    hide Find, Tf;
    var freq' := freq - {d};
    assert DocAgrees(index, d, freq[d]);
    forall k | k in index ensures WellFormed(index[k], freq'.Keys) {
      var ps := index[k];
      assert WellFormed(ps, freq.Keys) && At(index, k) == ps;
      forall i | 0 <= i < |ps| ensures ps[i].doc in freq'.Keys {
        if ps[i].doc == d {
          TfIs(ps, freq.Keys, i, d);
        }
      }
    }
    forall e | e in freq' ensures DocAgrees(index, e, freq'[e]) {
      assert DocAgrees(index, e, freq[e]);
    }
  }

  // ----- lengths -----

  /** The sum of the frequencies filed for d under the terms ks. */
  ghost function TfSum<D>(index: Index<D>, d: D, ks: set<string>): nat {
    if ks == {} then 0
    else
      var k :| k in ks;
      Tf(At(index, k), d) + TfSum(index, d, ks - {k})
  }

  lemma {:induction false} TfSumIs<D>(index: Index<D>, d: D, ks: set<string>, m: multiset<string>)
    requires forall k :: k in ks ==> Tf(At(index, k), d) == m[k]
    requires forall k :: k in m ==> k in ks
    ensures TfSum(index, d, ks) == |m|
    decreases ks
  {
    hide Tf, At;
    if ks == {} {
      assert m == multiset{};
    } else {
      var k :| k in ks && TfSum(index, d, ks) == Tf(At(index, k), d) + TfSum(index, d, ks - {k});
      TfSumIs(index, d, ks - {k}, m[k := 0]);
      assert m == m[k := 0] + multiset{}[k := m[k]];
    }
  }

  /** A document's length is the sum of its frequencies over the index. */
  lemma LengthIsTfSum<D>(index: Index<D>, d: D, terms: seq<string>)
    requires DocAgrees(index, d, multiset(terms))
    ensures TfSum(index, d, index.Keys) == |terms|
  {
    hide Find;
    forall k | k in multiset(terms) ensures k in index.Keys {
      assert Tf(At(index, k), d) > 0;
    }
    TfSumIs(index, d, index.Keys, multiset(terms));
  }

  ghost function Total(lens: map<string, nat>): nat {
    if lens == map[] then 0
    else
      var t :| t in lens;
      lens[t] + Total(lens - {t})
  }

  lemma {:induction false} TotalWithout(lens: map<string, nat>, t: string)
    requires t in lens
    ensures Total(lens) == lens[t] + Total(lens - {t})
    decreases |lens|
  {
    assert lens != map[];
    var s :| s in lens && Total(lens) == lens[s] + Total(lens - {s});
    if s != t {
      assert (lens - {s}).Keys == lens.Keys - {s};
      assert (lens - {t}).Keys == lens.Keys - {t};
      TotalWithout(lens - {s}, t);
      TotalWithout(lens - {t}, s);
      assert (lens - {s}) - {t} == (lens - {t}) - {s};
    }
  }

  lemma TotalWith(lens: map<string, nat>, t: string, n: nat)
    requires t !in lens
    ensures Total(lens[t := n]) == Total(lens) + n
  {
    TotalWithout(lens[t := n], t);
    assert lens[t := n] - {t} == lens;
  }
}
