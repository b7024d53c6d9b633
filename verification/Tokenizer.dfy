/** Cutting a text into index terms: split at spaces, trim punctuation, lower
    the case, drop stopwords, stem. */
module Tokenizer {
  import opened Common
  import opened Stemmer

  // ----- splitting -----

  /** The stretches of s between occurrences of sep, the empty ones included. */
  function Pieces(s: string, sep: char): (r: seq<string>)
    ensures |r| > 0
  {
    if s == [] then [""]
    else
      var before := Pieces(s[..|s| - 1], sep);
      var c := s[|s| - 1];
      if c == sep then before + [""]
      else before[..|before| - 1] + [before[|before| - 1] + [c]]
  }

  function Split(s: string, sep: char): seq<string> {
    if s == [] then [] else Pieces(s, sep)
  }

  function Join(parts: seq<string>, sep: char): string
    requires |parts| > 0
  {
    if |parts| == 1 then parts[0]
    else Join(parts[..|parts| - 1], sep) + [sep] + parts[|parts| - 1]
  }

  ghost predicate FreeOf(parts: seq<string>, sep: char) {
    forall i :: 0 <= i < |parts| ==> sep !in parts[i]
  }

  /** Joining the pieces again gives the text, and no piece has a separator. */
  lemma {:induction false} PiecesJoin(s: string, sep: char)
    ensures Join(Pieces(s, sep), sep) == s && FreeOf(Pieces(s, sep), sep)
  {
    if s != [] {
      var init, c := s[..|s| - 1], s[|s| - 1];
      PiecesJoin(init, sep);
      var before, r := Pieces(init, sep), Pieces(s, sep);
      assert s == init + [c];
      if c == sep {
        assert r[..|r| - 1] == before;
      } else if |before| > 1 {
        assert r[..|r| - 1] == before[..|before| - 1];
      }
    }
  }

  lemma PiecesOfSnoc(s: string, c: char, sep: char)
    ensures Pieces(s + [c], sep) ==
      var before := Pieces(s, sep);
      if c == sep then before + [""] else before[..|before| - 1] + [before[|before| - 1] + [c]]
  {
    assert (s + [c])[..|s|] == s;
  }

  lemma {:induction false} PiecesOfAppended(s: string, t: string, sep: char)
    requires sep !in t
    ensures Pieces(s + [sep] + t, sep) == Pieces(s, sep) + [t]
  {
    hide Pieces;
    if t == [] {
      PiecesOfSnoc(s, sep, sep);
      assert s + [sep] + t == s + [sep];
    } else {
      var t', c := t[..|t| - 1], t[|t| - 1];
      assert t == t' + [c];
      PiecesOfAppended(s, t', sep);
      PiecesOfSnoc(s + [sep] + t', c, sep);
      assert s + [sep] + t' + [c] == s + [sep] + t;
      assert (Pieces(s, sep) + [t'])[..|Pieces(s, sep)|] == Pieces(s, sep);
    }
  }

  lemma {:induction false} PieceWithoutSeparator(t: string, sep: char)
    requires sep !in t
    ensures Pieces(t, sep) == [t]
  {
    if t != [] {
      PieceWithoutSeparator(t[..|t| - 1], sep);
      assert t[..|t| - 1] + [t[|t| - 1]] == t;
    }
  }

  /** The pieces are the only separator-free strings that join to the text. */
  lemma {:induction false} PiecesOfJoined(parts: seq<string>, sep: char)
    requires |parts| > 0 && FreeOf(parts, sep)
    ensures Pieces(Join(parts, sep), sep) == parts
  {
    var last := parts[|parts| - 1];
    if |parts| == 1 {
      PieceWithoutSeparator(last, sep);
    } else {
      var init := parts[..|parts| - 1];
      PiecesOfJoined(init, sep);
      PiecesOfAppended(Join(init, sep), last, sep);
      assert init + [last] == parts;
    }
  }

  lemma PiecesStep(s: string, sep: char, tokens: seq<string>, start: nat, j: nat)
    requires start <= j < |s| && tokens + [s[start..j]] == Pieces(s[..j], sep)
    ensures Pieces(s[..j + 1], sep) ==
      if s[j] == sep then tokens + [s[start..j]] + [s[j + 1..j + 1]] else tokens + [s[start..j + 1]]
  {
    var u := s[..j + 1];
    assert u[..|u| - 1] == s[..j];
    var before := Pieces(s[..j], sep);
    assert before[..|before| - 1] == tokens;
    assert s[start..j + 1] == s[start..j] + [s[j]];
    assert s[j + 1..j + 1] == "";
  }

  /** sdssplitlen with a one-byte separator. */
  method SplitLen(s: string, sep: char) returns (tokens: seq<string>)
    ensures tokens == Split(s, sep)
  {
    hide Pieces;
    tokens := [];
    if |s| == 0 {
      return;
    }
    var start := 0;
    PieceWithoutSeparator(s[..0], sep);
    for j := 0 to |s|
      invariant 0 <= start <= j && tokens + [s[start..j]] == Pieces(s[..j], sep)
    {
      PiecesStep(s, sep, tokens, start, j);
      if s[j] == sep {
        tokens := tokens + [s[start..j]];
        start := j + 1;
      }
    }
    assert s[..|s|] == s;
    tokens := tokens + [s[start..]];
    assert s[start..|s|] == s[start..];
  }

  // ----- trimming -----

  const PUNCS: string := ",.:;?!"

  /** Whether c is cut off at the ends: a character of the set or, because strchr
      finds the terminator of its string too, a NUL. */
  predicate Cuts(cset: string, nul: bool, c: char) {
    c in cset || (nul && c == NUL)
  }

  function TrimLeft(s: string, cset: string, nul: bool): string {
    if s != [] && Cuts(cset, nul, s[0]) then TrimLeft(s[1..], cset, nul) else s
  }

  function TrimRight(s: string, cset: string, nul: bool): string {
    if s != [] && Cuts(cset, nul, s[|s| - 1]) then TrimRight(s[..|s| - 1], cset, nul) else s
  }

  /** What sdstrim leaves of s. */
  function Trim(s: string, cset: string): string {
    TrimRight(TrimLeft(s, cset, true), cset, true)
  }

  /** What its documentation promises: only characters of the set are removed. */
  function SetTrim(s: string, cset: string): string {
    TrimRight(TrimLeft(s, cset, false), cset, false)
  }

  lemma {:induction false} TrimLeftSplits(s: string, cset: string, nul: bool, n: nat)
    requires n <= |s| && (forall i :: 0 <= i < n ==> Cuts(cset, nul, s[i]))
    requires n < |s| ==> !Cuts(cset, nul, s[n])
    ensures TrimLeft(s, cset, nul) == s[n..]
  {
    hide Cuts;
    if n > 0 {
      TrimLeftSplits(s[1..], cset, nul, n - 1);
    }
  }

  lemma {:induction false} TrimRightSplits(s: string, cset: string, nul: bool, n: nat)
    requires n <= |s| && (forall i :: n <= i < |s| ==> Cuts(cset, nul, s[i]))
    requires n > 0 ==> !Cuts(cset, nul, s[n - 1])
    ensures TrimRight(s, cset, nul) == s[..n]
  {
    hide Cuts;
    if n < |s| {
      TrimRightSplits(s[..|s| - 1], cset, nul, n);
    }
  }

  /** sdstrim */
  method TrimEnds(s: string, cset: string) returns (r: string)
    ensures r == Trim(s, cset)
  {
    hide Cuts;
    var sp: int, ep: int := 0, |s| - 1;
    while sp <= |s| - 1 && Cuts(cset, true, s[sp])
      invariant 0 <= sp <= |s| && forall i :: 0 <= i < sp ==> Cuts(cset, true, s[i])
    {
      sp := sp + 1;
    }
    TrimLeftSplits(s, cset, true, sp);
    while ep > sp && Cuts(cset, true, s[ep])
      invariant -1 <= ep <= |s| - 1 && (sp <= ep || sp == |s|)
      invariant forall i :: ep < i < |s| ==> Cuts(cset, true, s[i])
    {
      ep := ep - 1;
    }
    var len := if sp > ep then 0 else ep - sp + 1;
    TrimRightSplits(s[sp..], cset, true, len);
    r := s[sp..sp + len];
  }

  /** What trimming leaves has nothing to cut at either end, and only what is to
      be cut was taken off. */
  lemma {:induction false} TrimMeaning(s: string, cset: string, nul: bool) returns (a: nat, b: nat)
    ensures a <= b <= |s| && TrimRight(TrimLeft(s, cset, nul), cset, nul) == s[a..b]
    ensures forall i :: 0 <= i < |s| && !(a <= i < b) ==> Cuts(cset, nul, s[i])
    ensures a < b ==> !Cuts(cset, nul, s[a]) && !Cuts(cset, nul, s[b - 1])
  {
    hide Cuts;
    a := 0;
    while a < |s| && Cuts(cset, nul, s[a])
      invariant a <= |s| && forall i :: 0 <= i < a ==> Cuts(cset, nul, s[i])
    {
      a := a + 1;
    }
    b := |s|;
    while b > a && Cuts(cset, nul, s[b - 1])
      invariant a <= b <= |s| && forall i :: b <= i < |s| ==> Cuts(cset, nul, s[i])
    {
      b := b - 1;
    }
    TrimLeftSplits(s, cset, nul, a);
    TrimRightSplits(s[a..], cset, nul, b - a);
  }

  /** The first, or last, character outside the set is a NUL. */
  predicate NulFirst(s: string, cset: string) {
    exists i :: 0 <= i < |s| && s[i] == NUL && forall j :: 0 <= j < i ==> s[j] in cset
  }

  predicate NulLast(s: string, cset: string) {
    exists i :: 0 <= i < |s| && s[i] == NUL && forall j :: i < j < |s| ==> s[j] in cset
  }

  /** sdstrim does what it promises exactly on strings whose first and last
      characters outside the set are not NUL. */
  lemma TrimIsSetTrim(s: string, cset: string)
    requires NUL !in cset
    ensures Trim(s, cset) == SetTrim(s, cset) <==> !NulFirst(s, cset) && !NulLast(s, cset)
  {
    var a, b := TrimMeaning(s, cset, true);
    var c, d := TrimMeaning(s, cset, false);
    if NulFirst(s, cset) {
      var i :| 0 <= i < |s| && s[i] == NUL && forall j :: 0 <= j < i ==> s[j] in cset;
      assert c <= i < d;
      assert i == c && s[c..d][0] == NUL;
      assert a < b ==> s[a..b][0] == s[a];
    } else if NulLast(s, cset) {
      var i :| 0 <= i < |s| && s[i] == NUL && forall j :: i < j < |s| ==> s[j] in cset;
      assert c <= i < d;
      assert i == d - 1 && s[c..d][|s[c..d]| - 1] == NUL;
      assert a < b ==> s[a..b][|s[a..b]| - 1] == s[b - 1];
    } else if c < d {
      assert s[c] != NUL && s[d - 1] != NUL;
      assert a <= c < b && a <= d - 1 < b;
      assert a == c && b == d;
    } else {
      assert c == d && !(a < b);
    }
  }

  /** One string on which it does not. */
  lemma TrimDropsNul()
    ensures Trim([NUL, 'a'], PUNCS) == "a" && SetTrim([NUL, 'a'], PUNCS) == [NUL, 'a']
  {
    var s: string := [NUL, 'a'];
    TrimLeftSplits(s, PUNCS, true, 1);
    TrimRightSplits(s[1..], PUNCS, true, 1);
    TrimLeftSplits(s, PUNCS, false, 0);
    TrimRightSplits(s, PUNCS, false, 2);
    assert s[0..] == s;
  }

  // ----- tokens -----

  /** A piece as a token: the empty string for punctuation and stopwords. */
  function Token(stop: string -> bool, piece: string): string {
    var term := Lower(Trim(piece, PUNCS));
    if term == "" || stop(CString(term)) then "" else Stem(term)
  }

  function Tokens(stop: string -> bool, pieces: seq<string>): seq<string> {
    seq(|pieces|, i requires 0 <= i < |pieces| => Token(stop, pieces[i]))
  }

  /** The keys under which tokens are indexed, in order. */
  function Keys(tokens: seq<string>): seq<string> {
    if tokens == [] then []
    else
      var last := tokens[|tokens| - 1];
      Keys(tokens[..|tokens| - 1]) + if last == "" then [] else [CString(last)]
  }

  /** The terms of a text. */
  function Terms(stop: string -> bool, text: string): seq<string> {
    Keys(Tokens(stop, Split(text, ' ')))
  }

  lemma {:induction false} KeysSplit(tokens: seq<string>, i: nat)
    requires i < |tokens|
    ensures Keys(tokens[..i + 1]) == Keys(tokens[..i]) + if tokens[i] == "" then [] else [CString(tokens[i])]
  {
    assert tokens[..i + 1][..i] == tokens[..i];
  }

  /** Stem one term in its buffer, taking a shorter copy if it has shrunk. */
  method StemTerm(stemmer: Stemmer, term: string) returns (r: string)
    requires |term| > 0
    modifies stemmer
    ensures r == Stem(term)
  {
    hide Stem;
    var l := |term|;
    var buffer := new char[l](i requires 0 <= i < l => term[i]);
    assert buffer[..l - 1 + 1] == term;
    var k := stemmer.StemInPlace(buffer, l - 1);
    r := if k < l - 1 then buffer[..k + 1] else buffer[..];
  }

  /** One round of the loop of sds_tokenize. */
  method TokenOf(stop: string -> bool, stemmer: Stemmer, piece: string)
    returns (term: string, counted: bool)
    modifies stemmer
    ensures term == Token(stop, piece) && (counted <==> term != "")
  {
    hide Stem, Trim, Lower, CString;
    StemBounds(Lower(Trim(piece, PUNCS)));
    counted := false;
    term := TrimEnds(piece, PUNCS);
    term := Lower(term);
    if term == "" || stop(CString(term)) {
      term := "";
    } else {
      counted := true;
      term := StemTerm(stemmer, term);
    }
  }

  /** sds_tokenize: the tokens, and how many of them are not empty. */
  method Tokenize(stop: string -> bool, s: string) returns (terms: seq<string>, nonstopwords: nat)
    ensures terms == Tokens(stop, Split(s, ' '))
    ensures nonstopwords == |Keys(terms)|
  {
    hide Token, CString, Split, Keys;
    var pieces := SplitLen(s, ' ');
    terms := pieces;
    nonstopwords := 0;
    var stemmer := new Stemmer();
    assert Keys(terms[..0]) == [] by { NoKeys(terms[..0]); }
    var i := 0;
    while i < |terms|
      invariant |terms| == |pieces| && 0 <= i <= |terms|
      invariant forall m :: 0 <= m < i ==> terms[m] == Token(stop, pieces[m])
      invariant forall m :: i <= m < |terms| ==> terms[m] == pieces[m]
      invariant nonstopwords == |Keys(terms[..i])|
    {
      ghost var done := terms[..i];
      var term, counted := TokenOf(stop, stemmer, terms[i]);
      terms := terms[i := term];
      if counted {
        nonstopwords := nonstopwords + 1;
      }
      assert terms[..i] == done;
      KeysSplit(terms, i);
      i := i + 1;
    }
    assert terms[..i] == terms;
  }

  lemma NoKeys(tokens: seq<string>)
    ensures tokens == [] ==> Keys(tokens) == []
  {
  }
}
