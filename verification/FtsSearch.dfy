/** Searching the full-text index: score every document that shares a term with
    the query, and hand the documents out best first.  The weight of a term in a
    document is an arbitrary function of the numbers that the ranking reads. */
module FtsSearch {
  import opened Common
  import opened Tokenizer
  import opened Postings
  import opened Fts
  import opened MinHeap

  /** (list length, term frequency, document length) to the term's weight. */
  type Weight = (nat, nat, nat) -> real

  datatype Scored = Scored(title: string, score: real)

  // ----- what the scores should be -----

  function TermScore(stop: string -> bool, w: Weight, index: Index<Document>, k: string, d: Document): real {
    var ps := At(index, k);
    var i := Find(ps, d);
    if i < |ps| then w(|ps|, ps[i].tf, |Terms(stop, d.text)|) else 0.0
  }

  /** The sum of the weights of the query terms qs that d contains. */
  function Score(stop: string -> bool, w: Weight, index: Index<Document>, qs: seq<string>, d: Document): real {
    if qs == [] then 0.0
    else Score(stop, w, index, qs[..|qs| - 1], d) + TermScore(stop, w, index, qs[|qs| - 1], d)
  }

  predicate Hit(index: Index<Document>, qs: seq<string>, d: Document) {
    exists i :: 0 <= i < |qs| && Find(At(index, qs[i]), d) < |At(index, qs[i])|
  }

  /** The first occurrence of each key, in order. */
  function Distinct(ks: seq<string>): seq<string> {
    if ks == [] then []
    else
      var init, last := ks[..|ks| - 1], ks[|ks| - 1];
      Distinct(init) + if last in init then [] else [last]
  }

  lemma {:induction false} DistinctMembers(ks: seq<string>)
    ensures forall k :: k in Distinct(ks) <==> k in ks
    ensures forall i, j :: 0 <= i < j < |Distinct(ks)| ==> Distinct(ks)[i] != Distinct(ks)[j]
  {
    if ks != [] {
      DistinctMembers(ks[..|ks| - 1]);
      assert ks == ks[..|ks| - 1] + [ks[|ks| - 1]];
    }
  }

  lemma HitMore(index: Index<Document>, qs: seq<string>, k: string, d: Document)
    ensures Hit(index, qs + [k], d) <==> Hit(index, qs, d) || Find(At(index, k), d) < |At(index, k)|
  {
    hide Find, At;
    var qs' := qs + [k];
    if Find(At(index, k), d) < |At(index, k)| {
      assert qs'[|qs|] == k;
    }
    if Hit(index, qs, d) {
      var i :| 0 <= i < |qs| && Find(At(index, qs[i]), d) < |At(index, qs[i])|;
      assert qs'[i] == qs[i];
    }
  }

  lemma ScoreMore(stop: string -> bool, w: Weight, index: Index<Document>, qs: seq<string>, k: string, d: Document)
    ensures Score(stop, w, index, qs + [k], d) ==
      Score(stop, w, index, qs, d) + TermScore(stop, w, index, k, d)
  {
    assert (qs + [k])[..|qs|] == qs;
  }

  lemma {:induction false} ScoreOfMiss(stop: string -> bool, w: Weight, index: Index<Document>, qs: seq<string>,
      d: Document)
    requires !Hit(index, qs, d)
    ensures Score(stop, w, index, qs, d) == 0.0
  {
    hide Find, At;
    if qs != [] {
      var init, last := qs[..|qs| - 1], qs[|qs| - 1];
      assert qs == init + [last];
      HitMore(index, init, last, d);
      ScoreOfMiss(stop, w, index, init, d);
    }
  }

  /** A document shares a term with a list of keys when one of them counts in it. */
  lemma HitIsShared(stop: string -> bool, docs: Docs, index: Index<Document>, ks: seq<string>, d: Document)
    requires Agree(index, Freq(stop, docs)) && d in docs.Values
    ensures Hit(index, Distinct(ks), d) <==> exists k :: k in ks && k in Terms(stop, d.text)
  {
    hide Find, Terms, Agree;
    var qs := Distinct(ks);
    DistinctMembers(ks);
    forall k: string ensures Find(At(index, k), d) < |At(index, k)| <==> k in Terms(stop, d.text) {
      FiledIffTerm(stop, docs, index, k, d);
    }
    forall k | k in ks && k in Terms(stop, d.text) ensures Hit(index, qs, d) {
      var i :| 0 <= i < |qs| && qs[i] == k;
      assert Find(At(index, qs[i]), d) < |At(index, qs[i])|;
    }
  }

  lemma FiledIffTerm(stop: string -> bool, docs: Docs, index: Index<Document>, k: string, d: Document)
    requires Agree(index, Freq(stop, docs)) && d in docs.Values
    ensures Find(At(index, k), d) < |At(index, k)| <==> k in Terms(stop, d.text)
  {
    hide Find, Terms;
    var freq, ps := Freq(stop, docs), At(index, k);
    assert DocAgrees(index, d, freq[d]);
    assert Tf(ps, d) == multiset(Terms(stop, d.text))[k];
    AtWellFormed(index, freq.Keys, k);
  }

  /** Exactly the documents hit by qs have been scored, and rightly. */
  ghost predicate Scores(stop: string -> bool, w: Weight, docs: Docs, index: Index<Document>, qs: seq<string>,
      scores: map<string, real>)
  {
    && (forall t :: t in scores ==> t in docs)
    && (forall t :: t in docs ==> (t in scores <==> Hit(index, qs, docs[t])))
    && (forall t :: t in scores ==> scores[t] == Score(stop, w, index, qs, docs[t]))
  }

  /** The score of d once the first j postings of k are counted as well. */
  function Partial(stop: string -> bool, w: Weight, index: Index<Document>, qs: seq<string>, k: string, j: nat,
      d: Document): real
  {
    Score(stop, w, index, qs, d) + if Find(At(index, k), d) < j then TermScore(stop, w, index, k, d) else 0.0
  }

  predicate Touched(index: Index<Document>, qs: seq<string>, k: string, j: nat, d: Document) {
    Hit(index, qs, d) || Find(At(index, k), d) < j
  }

  ghost predicate Scoring(stop: string -> bool, w: Weight, docs: Docs, index: Index<Document>, qs: seq<string>,
      k: string, j: nat, scores: map<string, real>)
  {
    && (forall t :: t in scores ==> t in docs)
    && (forall t :: t in docs ==> (t in scores <==> Touched(index, qs, k, j, docs[t])))
    && (forall t :: t in scores ==> scores[t] == Partial(stop, w, index, qs, k, j, docs[t]))
  }

  lemma ScoringStarts(stop: string -> bool, w: Weight, docs: Docs, index: Index<Document>, qs: seq<string>,
      k: string, scores: map<string, real>)
    requires Scores(stop, w, docs, index, qs, scores)
    ensures Scoring(stop, w, docs, index, qs, k, 0, scores)
  {
    hide Score, Hit, Find, TermScore;
  }

  lemma ScoringEnds(stop: string -> bool, w: Weight, docs: Docs, index: Index<Document>, qs: seq<string>,
      k: string, scores: map<string, real>)
    requires Scoring(stop, w, docs, index, qs, k, |At(index, k)|, scores)
    ensures Scores(stop, w, docs, index, qs + [k], scores)
  {
    hide Score, Hit, Find;
    forall t | t in docs ensures t in scores <==> Hit(index, qs + [k], docs[t]) {
      HitMore(index, qs, k, docs[t]);
    }
    forall t | t in scores ensures scores[t] == Score(stop, w, index, qs + [k], docs[t]) {
      ScoreMore(stop, w, index, qs, k, docs[t]);
    }
  }

  /** Counting posting j, seen from one document. */
  lemma PartialStep(stop: string -> bool, w: Weight, index: Index<Document>, qs: seq<string>, k: string, j: nat,
      d: Document)
    requires j < |At(index, k)|
    ensures Find(At(index, k), d) != j ==>
      && (Touched(index, qs, k, j + 1, d) <==> Touched(index, qs, k, j, d))
      && Partial(stop, w, index, qs, k, j + 1, d) == Partial(stop, w, index, qs, k, j, d)
    ensures Find(At(index, k), d) == j ==>
      && Touched(index, qs, k, j + 1, d)
      && Partial(stop, w, index, qs, k, j + 1, d) ==
           (if Touched(index, qs, k, j, d) then Partial(stop, w, index, qs, k, j, d) else 0.0) +
           w(|At(index, k)|, At(index, k)[j].tf, |Terms(stop, d.text)|)
  {
    hide Score, Hit, Find, At, Terms;
    if !Touched(index, qs, k, j, d) {
      ScoreOfMiss(stop, w, index, qs, d);
    }
  }

  lemma ScoringStep(stop: string -> bool, w: Weight, docs: Docs, index: Index<Document>, qs: seq<string>,
      k: string, j: nat, before: map<string, real>, after: map<string, real>)
    requires Titled(docs) && Agree(index, Freq(stop, docs)) && j < |At(index, k)|
    requires Scoring(stop, w, docs, index, qs, k, j, before)
    requires
      var p := At(index, k)[j];
      var t := CString(p.doc.title);
      after == before[t := (if t in before then before[t] else 0.0) +
                           w(|At(index, k)|, p.tf, |Terms(stop, p.doc.text)|)]
    ensures Scoring(stop, w, docs, index, qs, k, j + 1, after)
  {
    hide Partial, Touched, Find, At, CString, Terms, WellFormed, Titled, Agree, Freq;
    var ps := At(index, k);
    ListIsLive(stop, docs, index, k);
    PostingIsLive(docs, ps, j);
    forall t | t in docs
      ensures t in after <==> Touched(index, qs, k, j + 1, docs[t])
      ensures t in after ==> after[t] == Partial(stop, w, index, qs, k, j + 1, docs[t])
    {
      OtherPosting(docs, ps, j, t);
      PartialStep(stop, w, index, qs, k, j, docs[t]);
    }
  }

  lemma ListIsLive(stop: string -> bool, docs: Docs, index: Index<Document>, k: string)
    requires Agree(index, Freq(stop, docs))
    ensures WellFormed(At(index, k), docs.Values)
  {
    hide WellFormed;
    assert Freq(stop, docs).Keys == docs.Values;
    AtWellFormed(index, docs.Values, k);
  }

  lemma OtherPosting(docs: Docs, ps: seq<Posting<Document>>, j: nat, t: string)
    requires Titled(docs) && WellFormed(ps, docs.Values) && j < |ps| && t in docs
    ensures Find(ps, docs[t]) == j <==> t == CString(ps[j].doc.title)
  {
    hide CString, Find;
    PostingIsLive(docs, ps, j);
    FindIs(ps, docs.Values, j);
  }

  lemma PostingIsLive(docs: Docs, ps: seq<Posting<Document>>, j: nat)
    requires Titled(docs) && WellFormed(ps, docs.Values) && j < |ps|
    ensures CString(ps[j].doc.title) in docs && docs[CString(ps[j].doc.title)] == ps[j].doc
  {
    hide CString;
    assert ps[j].doc in docs.Values;
    var t :| t in docs && docs[t] == ps[j].doc;
  }

  // ----- scoring -----

  /** calculate_bm25: add the weight of k to every document that has it. */
  method ScoreTerm(fts: Fts, w: Weight, k: string, ghost qs: seq<string>, before: map<string, real>)
    returns (scores: map<string, real>)
    requires fts.Valid() && k in fts.index
    requires Scores(fts.stop, w, fts.docs, fts.index, qs, before)
    ensures Scores(fts.stop, w, fts.docs, fts.index, qs + [k], scores)
  {
    hide Scores, Scoring, CString, Terms, Agree, Total, Freq, Lengths;
    scores := before;
    var list := fts.index[k];
    ScoringStarts(fts.stop, w, fts.docs, fts.index, qs, k, scores);
    for j := 0 to |list|
      invariant Scoring(fts.stop, w, fts.docs, fts.index, qs, k, j, scores)
    {
      ghost var now := scores;
      var title := CString(list[j].doc.title);
      LiveLength(fts, k, j);
      if title !in scores {
        scores := scores[title := 0.0];
      }
      scores := scores[title := scores[title] + w(|list|, list[j].tf, list[j].doc.len)];
      ScoringStep(fts.stop, w, fts.docs, fts.index, qs, k, j, now, scores);
    }
    ScoringEnds(fts.stop, w, fts.docs, fts.index, qs, k, scores);
  }

  lemma LiveLength(fts: Fts, k: string, j: nat)
    requires fts.Valid() && k in fts.index && j < |fts.index[k]|
    ensures fts.index[k][j].doc.len == |Terms(fts.stop, fts.index[k][j].doc.text)|
  {
    hide CString, Terms, Total, Lengths;
    AtWellFormed(fts.index, Freq(fts.stop, fts.docs).Keys, k);
    PostingIsLive(fts.docs, fts.index[k], j);
  }

  /** search_with_bm25_score: each distinct query term is scored once. */
  method ScoreQuery(fts: Fts, w: Weight, query: string) returns (scores: map<string, real>)
    requires fts.Valid()
    ensures Scores(fts.stop, w, fts.docs, fts.index, Distinct(Terms(fts.stop, query)), scores)
  {
    hide Scores, CString, Agree, Total, Freq, Lengths, Keys, Tokens, Split, Distinct;
    var terms, nonstopwords := Tokenize(fts.stop, query);
    scores := map[];
    NoKeys(terms[..0]);
    NothingScored(fts.stop, w, fts.docs, fts.index);
    var queried: set<string> := {};
    for i := 0 to |terms|
      invariant queried == set k | k in Keys(terms[..i])
      invariant Scores(fts.stop, w, fts.docs, fts.index, Distinct(Keys(terms[..i])), scores)
    {
      KeysSplit(terms, i);
      if terms[i] != "" {
        ghost var ks, key := Keys(terms[..i]), CString(terms[i]);
        DistinctMore(ks, key);
        assert Keys(terms[..i + 1]) == ks + [key];
        if CString(terms[i]) !in queried {
          queried := queried + {CString(terms[i])};
          if CString(terms[i]) in fts.index {
            scores := ScoreTerm(fts, w, CString(terms[i]), Distinct(ks), scores);
          } else {
            UnknownTerm(fts.stop, w, fts.docs, fts.index, Distinct(ks), key, scores);
          }
        }
      } else {
        assert Keys(terms[..i + 1]) == Keys(terms[..i]);
      }
    }
    assert terms[..|terms|] == terms;
  }

  lemma DistinctMore(ks: seq<string>, k: string)
    ensures Distinct(ks + [k]) == if k in ks then Distinct(ks) else Distinct(ks) + [k]
    ensures (set j | j in ks + [k]) == (set j | j in ks) + {k}
  {
    assert (ks + [k])[..|ks|] == ks;
  }

  lemma NothingScored(stop: string -> bool, w: Weight, docs: Docs, index: Index<Document>)
    ensures Scores(stop, w, docs, index, Distinct([]), map[])
  {
  }

  lemma UnknownTerm(stop: string -> bool, w: Weight, docs: Docs, index: Index<Document>, qs: seq<string>,
      k: string, scores: map<string, real>)
    requires Scores(stop, w, docs, index, qs, scores) && k !in index
    ensures Scores(stop, w, docs, index, qs + [k], scores)
  {
    hide Scores, Scoring;
    ScoringStarts(stop, w, docs, index, qs, k, scores);
    ScoringEnds(stop, w, docs, index, qs, k, scores);
  }

  // ----- ranking -----

  /** fts_cmp: the higher score comes first. */
  function ByScore(l: Scored, r: Scored): int {
    if l.score > r.score then -1 else if l.score < r.score then 1 else 0
  }

  lemma ByScoreIsPreorder()
    ensures TotalPreorder(ByScore)
  {
  }

  ghost function Entries(scores: map<string, real>): set<Scored> {
    set t | t in scores :: Scored(t, scores[t])
  }

  lemma EntriesMore(scores: map<string, real>, t: string)
    requires t in scores
    ensures multiset(Entries(scores)) == multiset(Entries(scores - {t})) + multiset{Scored(t, scores[t])}
  {
    var rest := scores - {t};
    forall e | e in Entries(scores) && e != Scored(t, scores[t]) ensures e in Entries(rest) {
      assert e == Scored(e.title, rest[e.title]);
    }
    assert Entries(scores) == Entries(rest) + {Scored(t, scores[t])};
    assert Scored(t, scores[t]) !in Entries(rest);
  }

  /** What comes out of the heap lists every scored title once. */
  lemma ListedOnce(scores: map<string, real>, hits: seq<Scored>)
    requires multiset(hits) == multiset(Entries(scores))
    ensures forall i :: 0 <= i < |hits| ==> hits[i].title in scores && hits[i].score == scores[hits[i].title]
    ensures forall t :: t in scores ==> exists i :: 0 <= i < |hits| && hits[i].title == t
    ensures forall i, j :: 0 <= i < j < |hits| ==> hits[i].title != hits[j].title
  {
    forall i | 0 <= i < |hits|
      ensures hits[i].title in scores && hits[i].score == scores[hits[i].title]
    {
      assert hits[i] in multiset(hits);
      assert hits[i] in Entries(scores);
    }
    forall t | t in scores ensures exists i :: 0 <= i < |hits| && hits[i].title == t {
      assert Scored(t, scores[t]) in Entries(scores);
      assert Scored(t, scores[t]) in multiset(hits);
      var i :| 0 <= i < |hits| && hits[i] == Scored(t, scores[t]);
    }
    forall i, j | 0 <= i < j < |hits| ensures hits[i] != hits[j] {
      if hits[i] == hits[j] {
        TwiceCounts(hits, i, j);
      }
    }
  }

  lemma TwiceCounts<T>(s: seq<T>, i: nat, j: nat)
    requires i < j < |s| && s[i] == s[j]
    ensures multiset(s)[s[i]] >= 2
  {
    assert s == s[..j] + s[j..];
    assert s[..j][i] == s[i] && s[j..][0] == s[i];
    assert multiset(s) == multiset(s[..j]) + multiset(s[j..]);
  }

  /** fts_search: a heap of the scored documents, pushed in any order. */
  method FillHeap(scores: map<string, real>) returns (heap: Heap<Scored>)
    ensures fresh(heap) && fresh(heap.slots) && fresh(heap.slots.elm) && heap.Valid() && heap.comp == ByScore
    ensures multiset(heap.Live()) == multiset(Entries(scores)) && heap.len == |scores|
  {
    hide TotalPreorder, Ordered, Entries;
    ByScoreIsPreorder();
    heap := new Heap(|scores|, ByScore);
    var todo := scores;
    ghost var done: map<string, real> := map[];
    NoEntries();
    while todo.Keys != {}
      invariant fresh(heap) && fresh(heap.slots) && fresh(heap.slots.elm) && heap.Valid() && heap.comp == ByScore
      invariant heap.len + |todo| == |scores|
      invariant multiset(heap.Live()) + multiset(Entries(todo)) == multiset(Entries(scores))
      decreases |todo|
    {
      var t :| t in todo;
      EntriesMore(todo, t);
      heap.Push(Scored(t, todo[t]));
      MapShrinks(todo, t);
      todo := todo - {t};
    }
    assert todo == map[];
  }

  lemma MapShrinks(m: map<string, real>, t: string)
    requires t in m
    ensures |m - {t}| == |m| - 1
  {
    assert (m - {t}).Keys == m.Keys - {t};
  }

  lemma NoEntries()
    ensures Entries(map[]) == {}
  {
  }

  // ----- the scores without the index -----

  /** The stored documents in which k is a term. */
  ghost function DocsWith(stop: string -> bool, docs: Docs, k: string): set<Document> {
    set d | d in docs.Values && k in Terms(stop, d.text)
  }

  /** The weight of k in d, from the number of documents with k, its count in d, and the
      number of terms of d. */
  ghost function PlainTermScore(stop: string -> bool, w: Weight, docs: Docs, k: string, d: Document): real {
    var terms := Terms(stop, d.text);
    if k in terms then w(|DocsWith(stop, docs, k)|, multiset(terms)[k], |terms|) else 0.0
  }

  ghost function PlainScore(stop: string -> bool, w: Weight, docs: Docs, qs: seq<string>, d: Document): real {
    if qs == [] then 0.0
    else PlainTermScore(stop, w, docs, qs[0], d) + PlainScore(stop, w, docs, qs[1..], d)
  }

  lemma {:induction false} DocsOfList<D>(ps: seq<Posting<D>>)
    requires forall i, j :: 0 <= i < j < |ps| ==> ps[i].doc != ps[j].doc
    ensures |set p | p in ps :: p.doc| == |ps|
  {
    if ps != [] {
      var rest := ps[1..];
      DocsOfList(rest);
      FirstDoc(ps);
      assert ps[0].doc !in set p | p in rest :: p.doc;
    }
  }

  lemma FirstDoc<D>(ps: seq<Posting<D>>)
    requires ps != []
    ensures (set p | p in ps :: p.doc) == (set p | p in ps[1..] :: p.doc) + {ps[0].doc}
  {
    var docs, others := set p | p in ps :: p.doc, set p | p in ps[1..] :: p.doc;
    assert ps == [ps[0]] + ps[1..];
    forall d | d in docs ensures d in others + {ps[0].doc} {
      var p :| p in ps && p.doc == d;
      assert p == ps[0] || p in ps[1..];
    }
    assert ps[0] in ps;
  }

  /** A list is as long as there are documents with its term. */
  lemma ListLength(stop: string -> bool, docs: Docs, index: Index<Document>, k: string)
    requires Agree(index, Freq(stop, docs))
    ensures |At(index, k)| == |DocsWith(stop, docs, k)|
  {
    hide Terms, Agree, At, Find;
    var ps := At(index, k);
    ListIsLive(stop, docs, index, k);
    DocsOfList(ps);
    var filed := set p | p in ps :: p.doc;
    forall d: Document ensures d in filed <==> d in DocsWith(stop, docs, k) {
      if d in filed {
        var p :| p in ps && p.doc == d;
        PostingIff(index, Freq(stop, docs), k, p);
      }
      if d in DocsWith(stop, docs, k) {
        var p := Posting(d, Freq(stop, docs)[d][k]);
        PostingIff(index, Freq(stop, docs), k, p);
        assert p in ps;
      }
    }
    assert filed == DocsWith(stop, docs, k);
  }

  lemma TermScoreIsPlain(stop: string -> bool, w: Weight, docs: Docs, index: Index<Document>, k: string, d: Document)
    requires Agree(index, Freq(stop, docs)) && d in docs.Values
    ensures TermScore(stop, w, index, k, d) == PlainTermScore(stop, w, docs, k, d)
  {
    hide Terms, Find, At, DocsWith;
    FiledIffTerm(stop, docs, index, k, d);
    ListLength(stop, docs, index, k);
    assert Tf(At(index, k), d) == multiset(Terms(stop, d.text))[k] by { TfIsCount(stop, docs, index, k, d); }
  }

  lemma TfIsCount(stop: string -> bool, docs: Docs, index: Index<Document>, k: string, d: Document)
    requires Agree(index, Freq(stop, docs)) && d in docs.Values
    ensures Tf(At(index, k), d) == multiset(Terms(stop, d.text))[k]
  {
    hide Terms, Find, At;
    assert DocAgrees(index, d, Freq(stop, docs)[d]);
  }

  lemma {:induction false} ScoreFromFront(stop: string -> bool, w: Weight, index: Index<Document>, qs: seq<string>,
      d: Document)
    requires qs != []
    ensures Score(stop, w, index, qs, d) == TermScore(stop, w, index, qs[0], d) + Score(stop, w, index, qs[1..], d)
    decreases |qs|
  {
    hide TermScore;
    var init := qs[..|qs| - 1];
    if |qs| > 1 {
      ScoreFromFront(stop, w, index, init, d);
      assert init[1..] == qs[1..][..|qs[1..]| - 1];
    } else {
      assert qs[..0] == [] && qs[1..] == [];
    }
  }

  /** What the index and its lists give is what counting in the documents gives. */
  lemma {:induction false} ScoreIsPlain(stop: string -> bool, w: Weight, docs: Docs, index: Index<Document>,
      qs: seq<string>, d: Document)
    requires Agree(index, Freq(stop, docs)) && d in docs.Values
    ensures Score(stop, w, index, qs, d) == PlainScore(stop, w, docs, qs, d)
    decreases |qs|
  {
    hide TermScore, PlainTermScore, Agree, Freq;
    if qs != [] {
      ScoreFromFront(stop, w, index, qs, d);
      TermScoreIsPlain(stop, w, docs, index, qs[0], d);
      ScoreIsPlain(stop, w, docs, index, qs[1..], d);
    }
  }

  /** fts_search and the loop over its iterator. */
  method Search(fts: Fts, w: Weight, query: string) returns (hits: seq<Scored>, size: nat)
    requires fts.Valid()
    ensures size == |hits|
    ensures forall i, j :: 0 <= i < j < |hits| ==>
      hits[i].title != hits[j].title && hits[i].score >= hits[j].score
    ensures forall i :: 0 <= i < |hits| ==>
      && hits[i].title in fts.docs
      && hits[i].score ==
           PlainScore(fts.stop, w, fts.docs, Distinct(Terms(fts.stop, query)), fts.docs[hits[i].title])
    ensures forall t :: t in fts.docs ==>
      ((exists i :: 0 <= i < |hits| && hits[i].title == t) <==>
       exists k :: k in Terms(fts.stop, query) && k in Terms(fts.stop, fts.docs[t].text))
  {
    hide TotalPreorder, Ordered, Entries, Agree, Terms, Distinct, Score, Hit, Total, CString, Freq, Lengths;
    hide PlainScore;
    var scores := ScoreQuery(fts, w, query);
    size := |scores|;
    var heap := FillHeap(scores);
    hits := heap.PopN(size);
    assert heap.Live() == [];
    ListedOnce(scores, hits);
    forall i, j | 0 <= i < j < |hits| ensures hits[i].score >= hits[j].score {
      assert ByScore(hits[i], hits[j]) <= 0;
    }
    forall t | t in fts.docs
      ensures t in scores <==> exists k :: k in Terms(fts.stop, query) && k in Terms(fts.stop, fts.docs[t].text)
    {
      HitIsShared(fts.stop, fts.docs, fts.index, Terms(fts.stop, query), fts.docs[t]);
    }
    forall i | 0 <= i < |hits|
      ensures hits[i].title in fts.docs
      ensures hits[i].score ==
        PlainScore(fts.stop, w, fts.docs, Distinct(Terms(fts.stop, query)), fts.docs[hits[i].title])
    {
      ScoreIsPlain(fts.stop, w, fts.docs, fts.index, Distinct(Terms(fts.stop, query)), fts.docs[hits[i].title]);
    }
  }
}
