/** The full-text index: documents by title, and an inverted index over their
    terms maintained as documents come and go. */
module Fts {
  import opened Common
  import opened Tokenizer
  import opened Postings

  class Document {
    const title: string
    const text: string
    /** The number of terms, filled in when the document is indexed. */
    var len: nat

    constructor (title: string, text: string)
      ensures this.title == title && this.text == text && len == 0
    {
      this.title := title;
      this.text := text;
      len := 0;
    }
  }

  type Docs = map<string, Document>

  /** Every document is stored under its own title. */
  ghost predicate Titled(docs: Docs) {
    forall t :: t in docs ==> CString(docs[t].title) == t
  }

  /** What brute force counts: the terms of every document. */
  ghost function Freq(stop: string -> bool, docs: Docs): map<Document, multiset<string>> {
    map d | d in docs.Values :: multiset(Terms(stop, d.text))
  }

  ghost function Lengths(stop: string -> bool, docs: Docs): map<string, nat> {
    map t | t in docs :: |Terms(stop, docs[t].text)|
  }

  lemma FreqWith(stop: string -> bool, docs: Docs, t: string, d: Document)
    requires t !in docs && d !in docs.Values
    ensures d !in Freq(stop, docs)
    ensures Freq(stop, docs[t := d]) == Freq(stop, docs)[d := multiset(Terms(stop, d.text))]
  {
    hide Terms;
    var docs' := docs[t := d];
    assert docs'[t] == d;
    forall e | e in docs.Values ensures e in docs'.Values {
      var s :| s in docs && docs[s] == e;
      assert docs'[s] == e;
    }
    assert docs'.Values == docs.Values + {d};
  }

  lemma FreqWithout(stop: string -> bool, docs: Docs, t: string)
    requires t in docs && Titled(docs)
    ensures docs[t] in Freq(stop, docs) && Freq(stop, docs)[docs[t]] == multiset(Terms(stop, docs[t].text))
    ensures Freq(stop, docs - {t}) == Freq(stop, docs) - {docs[t]}
  {
    hide Terms;
    var docs' := docs - {t};
    forall e | e in docs.Values && e != docs[t] ensures e in docs'.Values {
      var s :| s in docs && docs[s] == e;
      assert docs'[s] == e;
    }
    forall e | e in docs'.Values ensures e in docs.Values && e != docs[t] {
      var s :| s in docs' && docs'[s] == e;
      assert docs[s] == e && CString(e.title) == s;
    }
    assert docs'.Values == docs.Values - {docs[t]};
  }

  lemma LengthsWith(stop: string -> bool, docs: Docs, t: string, d: Document)
    requires t !in docs
    ensures Total(Lengths(stop, docs[t := d])) == Total(Lengths(stop, docs)) + |Terms(stop, d.text)|
  {
    hide Terms, Total;
    var lens := Lengths(stop, docs);
    TotalWith(lens, t, |Terms(stop, d.text)|);
    assert Lengths(stop, docs[t := d]) == lens[t := |Terms(stop, d.text)|];
  }

  lemma LengthsWithout(stop: string -> bool, docs: Docs, t: string)
    requires t in docs
    ensures Total(Lengths(stop, docs - {t})) == Total(Lengths(stop, docs)) - |Terms(stop, docs[t].text)|
  {
    hide Terms, Total;
    var lens := Lengths(stop, docs);
    TotalWithout(lens, t);
    assert Lengths(stop, docs - {t}) == lens - {t};
  }

  lemma {:induction false} KeysFront(x: string, rest: seq<string>)
    ensures Keys([x] + rest) == (if x == "" then [] else [CString(x)]) + Keys(rest)
  {
    var all := [x] + rest;
    if rest == [] {
      assert all[..0] == [];
    } else {
      KeysFront(x, rest[..|rest| - 1]);
      assert all[..|all| - 1] == [x] + rest[..|rest| - 1];
    }
  }

  lemma KeysDropFirst(tokens: seq<string>, i: nat)
    requires i < |tokens|
    ensures multiset(Keys(tokens[i..])) ==
      (if tokens[i] == "" then multiset{} else multiset{CString(tokens[i])}) + multiset(Keys(tokens[i + 1..]))
  {
    hide Keys;
    KeysFront(tokens[i], tokens[i + 1..]);
    assert tokens[i..] == [tokens[i]] + tokens[i + 1..];
  }

  lemma FindFirst<D>(ps: seq<Posting<D>>, d: D, i: nat)
    requires i <= |ps| && (forall j :: 0 <= j < i ==> ps[j].doc != d) && (i < |ps| ==> ps[i].doc == d)
    ensures Find(ps, d) == i
  {
    hide Find;
    var f := Find(ps, d);
    assert !(f < i);
  }

  class Fts {
    var docs: Docs
    var index: Index<Document>
    /** The sum of the lengths of the documents, in terms. */
    var len: int
    const stop: string -> bool

    /** The index agrees with tokenising every document afresh. */
    ghost predicate Valid()
      reads this, docs.Values
    {
      && Titled(docs)
      && Agree(index, Freq(stop, docs))
      && (forall t :: t in docs ==> docs[t].len == |Terms(stop, docs[t].text)|)
      && len == Total(Lengths(stop, docs))
    }

    /** Titles and texts, by title. */
    ghost function Contents(): map<string, (string, string)>
      reads this
    {
      map t | t in docs :: (docs[t].title, docs[t].text)
    }

    constructor (stop: string -> bool)
      ensures Valid() && Contents() == map[] && this.stop == stop
    {
      this.stop := stop;
      docs := map[];
      index := map[];
      len := 0;
      new;
      assert Lengths(stop, docs) == map[];
    }

    /** listSearchKey over a posting list. */
    method SearchKey(ps: seq<Posting<Document>>, doc: Document) returns (i: nat)
      ensures i == Find(ps, doc)
    {
      hide Find;
      i := 0;
      while i < |ps| && ps[i].doc != doc
        invariant i <= |ps| && forall j :: 0 <= j < i ==> ps[j].doc != doc
      {
        i := i + 1;
      }
      FindFirst(ps, doc, i);
    }

    /** One round of fts_index_add. */
    method AddTerm(term: string, doc: Document, ghost freq: map<Document, multiset<string>>)
      requires Agree(index, freq) && doc in freq
      modifies `index
      ensures Agree(index, freq[doc := freq[doc] + multiset{CString(term)}])
    {
      hide Agree, Find, CString;
      var key := CString(term);
      AddTermAgrees(index, freq, key, doc);
      ghost var before := index;
      if key !in index {
        index := index[key := []];
      }
      var idx := index[key];
      var i := SearchKey(idx, doc);
      if i < |idx| {
        index := index[key := idx[i := Posting(doc, idx[i].tf + 1)]];
      } else {
        index := index[key := [Posting(doc, 1)] + idx];
      }
      assert index == before[key := Bump(At(before, key), doc)];
    }

    /** One round of fts_index_del; its two assertions hold. */
    method DelTerm(term: string, doc: Document, ghost freq: map<Document, multiset<string>>)
      requires Agree(index, freq) && doc in freq && CString(term) in freq[doc]
      modifies `index
      ensures Agree(index, freq[doc := freq[doc] - multiset{CString(term)}])
    {
      hide Agree, Find, CString;
      var key := CString(term);
      TermIsFiled(index, freq, key, doc);
      assert key in index;
      var idx := index[key];
      var i := SearchKey(idx, doc);
      assert i < |idx|;
      DropTermAgrees(index, freq, key, doc, i);
      var tf := idx[i].tf - 1;
      if tf == 0 {
        index := index[key := idx[..i] + idx[i + 1..]];
      } else {
        index := index[key := idx[i := Posting(idx[i].doc, tf)]];
      }
    }

    method IndexAdd(doc: Document, ghost freq: map<Document, multiset<string>>)
      requires Agree(index, freq) && doc in freq && freq[doc] == multiset{}
      modifies `index, `len, doc`len
      ensures Agree(index, freq[doc := multiset(Terms(stop, doc.text))])
      ensures doc.len == |Terms(stop, doc.text)| && len == old(len) + doc.len
    {
      hide Agree, Keys, CString, Tokens, Split;
      var terms, nonstopwords := Tokenize(stop, doc.text);
      NoKeys(terms[..0]);
      assert freq[doc := multiset{}] == freq;
      var i := 0;
      while i < |terms|
        invariant 0 <= i <= |terms| && len == old(len)
        invariant Agree(index, freq[doc := multiset(Keys(terms[..i]))])
      {
        ghost var now := freq[doc := multiset(Keys(terms[..i]))];
        KeysSplit(terms, i);
        if terms[i] != "" {
          AddTerm(terms[i], doc, now);
          assert now[doc := now[doc] + multiset{CString(terms[i])}] ==
            freq[doc := multiset(Keys(terms[..i + 1]))];
        } else {
          assert Keys(terms[..i + 1]) == Keys(terms[..i]);
        }
        i := i + 1;
      }
      assert terms[..i] == terms;
      doc.len := nonstopwords;
      len := len + doc.len;
    }

    method IndexDel(doc: Document, ghost freq: map<Document, multiset<string>>)
      requires Agree(index, freq) && doc in freq && freq[doc] == multiset(Terms(stop, doc.text))
      modifies `index, `len
      ensures Agree(index, freq - {doc}) && len == old(len) - doc.len
    {
      hide Agree, Keys, CString, Tokens, Split;
      var terms, nonstopwords := Tokenize(stop, doc.text);
      assert terms[0..] == terms;
      assert freq[doc := freq[doc]] == freq;
      var i := 0;
      while i < |terms|
        invariant 0 <= i <= |terms| && len == old(len)
        invariant Agree(index, freq[doc := multiset(Keys(terms[i..]))])
      {
        ghost var now := freq[doc := multiset(Keys(terms[i..]))];
        KeysDropFirst(terms, i);
        if terms[i] != "" {
          DelTerm(terms[i], doc, now);
          assert now[doc] - multiset{CString(terms[i])} == multiset(Keys(terms[i + 1..]));
          assert now[doc := now[doc] - multiset{CString(terms[i])}] ==
            freq[doc := multiset(Keys(terms[i + 1..]))];
        } else {
          assert multiset(Keys(terms[i + 1..])) == multiset(Keys(terms[i..]));
        }
        i := i + 1;
      }
      NoKeys(terms[i..]);
      ghost var last := freq[doc := multiset(Keys(terms[i..]))];
      GoneDocAgrees(index, last, doc);
      assert last - {doc} == freq - {doc};
      len := len - doc.len;
    }

    method Del(title: string) returns (ok: bool)
      requires Valid()
      modifies this
      ensures Valid()
      ensures ok <==> CString(title) in old(docs)
      ensures docs == old(docs) - {CString(title)}
    {
      hide Agree, CString, Terms, Total, Freq, Lengths;
      var key := CString(title);
      if key !in docs {
        return false;
      }
      var doc := docs[key];
      ghost var freq := Freq(stop, docs);
      FreqWithout(stop, docs, key);
      LengthsWithout(stop, docs, key);
      docs := docs - {key};
      IndexDel(doc, freq);
      ok := true;
    }

    method Add(title: string, text: string)
      requires Valid()
      modifies this
      ensures Valid()
      ensures Contents() == old(Contents())[CString(title) := (title, text)]
      ensures fresh(docs.Values - old(docs.Values))
    {
      hide Agree, CString, Terms, Total, Freq, Lengths;
      if CString(title) in docs {
        var _ := Del(title);
      }
      AddNew(title, text);
    }

    method AddNew(title: string, text: string)
      requires Valid() && CString(title) !in docs
      modifies this
      ensures Valid()
      ensures Contents() == old(Contents())[CString(title) := (title, text)]
      ensures fresh(docs.Values - old(docs.Values))
    {
      hide Agree, CString, Terms, Total, Freq, Lengths;
      var key := CString(title);
      var fd := new Document(title, text);
      ghost var freq, before := Freq(stop, docs), docs;
      FreqWith(stop, docs, key, fd);
      LengthsWith(stop, docs, key, fd);
      NewDocAgrees(index, freq, fd);
      docs := docs[key := fd];
      ghost var filed: map<Document, multiset<string>> := freq[fd := multiset{}];
      IndexAdd(fd, filed);
      assert filed[fd := multiset(Terms(stop, text))] == freq[fd := multiset(Terms(stop, text))];
    }
  }

  /** A posting is filed under a term exactly when tokenising its document
      afresh yields the term, and that often. */
  lemma IndexIsBruteForce(fts: Fts, k: string, p: Posting<Document>)
    requires fts.Valid()
    ensures p in At(fts.index, k) <==>
      && p.doc in fts.docs.Values
      && p.tf == multiset(Terms(fts.stop, p.doc.text))[k] && p.tf > 0
  {
    hide Agree, Terms, Total, Lengths, CString;
    PostingIff(fts.index, Freq(fts.stop, fts.docs), k, p);
  }

  /** A document's length is the sum of its frequencies over the whole index. */
  lemma LengthAddsUp(fts: Fts, t: string)
    requires fts.Valid() && t in fts.docs
    ensures fts.docs[t].len == TfSum(fts.index, fts.docs[t], fts.index.Keys)
  {
    hide Terms, Total, Lengths, CString, TfSum, DocAgrees, ListsAgree;
    var d := fts.docs[t];
    var freq := Freq(fts.stop, fts.docs);
    assert d in freq && DocAgrees(fts.index, d, freq[d]);
    LengthIsTfSum(fts.index, d, Terms(fts.stop, d.text));
  }

  // ----- runs -----

  datatype Op = AddDoc(title: string, text: string) | DelDoc(title: string)

  /** What an operation does to the stored documents. */
  function Apply(stored: map<string, (string, string)>, op: Op): map<string, (string, string)> {
    match op
    case AddDoc(title, text) => stored[CString(title) := (title, text)]
    case DelDoc(title) => stored - {CString(title)}
  }

  function ApplyAll(stored: map<string, (string, string)>, ops: seq<Op>): map<string, (string, string)> {
    if ops == [] then stored else Apply(ApplyAll(stored, ops[..|ops| - 1]), ops[|ops| - 1])
  }

  /** After any run of additions, replacements and deletions the index is that of
      the stored documents. */
  method Run(stop: string -> bool, ops: seq<Op>) returns (fts: Fts)
    ensures fresh(fts) && fts.Valid() && fts.stop == stop
    ensures fts.Contents() == ApplyAll(map[], ops)
  {
    hide Agree, CString, Terms, Total, Freq, Lengths, Titled;
    fts := new Fts(stop);
    for i := 0 to |ops|
      invariant fresh(fts) && fts.Valid() && fts.stop == stop
      invariant fts.Contents() == ApplyAll(map[], ops[..i])
    {
      ghost var before := fts.Contents();
      assert ops[..i + 1][..i] == ops[..i];
      match ops[i]
      case AddDoc(title, text) => fts.Add(title, text);
      case DelDoc(title) =>
        var _ := fts.Del(title);
        assert fts.Contents() == before - {CString(title)};
    }
    assert ops[..|ops|] == ops;
  }
}
