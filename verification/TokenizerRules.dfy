/** What becomes of a text, said without the steps of the tokenizer: words between
    spaces, with punctuation around them, in any case. */
module TokenizerRules {
  import opened Common
  import opened Stemmer
  import opened StemmerRules
  import opened Tokenizer

  // ----- letters -----

  const CAPITALS: string := "ABCDEFGHIJKLMNOPQRSTUVWXYZ"
  const SMALL: string := "abcdefghijklmnopqrstuvwxyz"

  /** Every capital becomes its small letter, and nothing else changes. */
  lemma LowerLetters(c: char, i: nat)
    ensures |SMALL| == |CAPITALS| && (i < |CAPITALS| ==> LowerChar(CAPITALS[i]) == SMALL[i])
    ensures c !in CAPITALS ==> LowerChar(c) == c
  {
    assert forall k: nat :: k < 26 ==> CAPITALS[k] == 'A' + k as char && SMALL[k] == 'a' + k as char;
    if 'A' <= c <= 'Z' {
      assert CAPITALS[(c - 'A') as nat] == c;
    }
  }

  lemma LowerAt(s: string, i: nat)
    requires i < |s|
    ensures Lower(s)[i] == LowerChar(s[i])
  {
  }

  lemma LowerTwice(s: string)
    ensures Lower(Lower(s)) == Lower(s)
  {
  }

  lemma LowerHasNoCapitals(s: string)
    ensures NoCapitals(Lower(s))
  {
  }

  lemma LowerParts(s: string, i: nat, j: nat)
    requires i <= j <= |s|
    ensures Lower(s[i..j]) == Lower(s)[i..j]
  {
  }

  // ----- case -----

  function LowerAll(pieces: seq<string>): (r: seq<string>)
    ensures |r| == |pieces|
  {
    seq(|pieces|, i requires 0 <= i < |pieces| => Lower(pieces[i]))
  }

  lemma {:induction false} PiecesOfLower(s: string, sep: char)
    requires LowerChar(sep) == sep && forall c :: LowerChar(c) == sep ==> c == sep
    ensures Pieces(Lower(s), sep) == LowerAll(Pieces(s, sep))
  {
    hide LowerAll, Pieces, LowerChar;
    if s == [] {
      NoPieces(sep);
    } else {
      var init, c := s[..|s| - 1], s[|s| - 1];
      PiecesOfLower(init, sep);
      LowerParts(s, 0, |s| - 1);
      assert s == init + [c];
      assert Lower(s) == Lower(init) + [LowerChar(c)];
      PiecesOfSnoc(init, c, sep);
      PiecesOfSnoc(Lower(init), LowerChar(c), sep);
      LowerAllMore(Pieces(init, sep), c);
    }
  }

  lemma NoPieces(sep: char)
    ensures Lower("") == "" && LowerAll(Pieces("", sep)) == Pieces("", sep)
  {
    assert LowerAll([""]) == [""];
  }

  lemma LowerAllMore(before: seq<string>, c: char)
    requires before != []
    ensures LowerAll(before + [""]) == LowerAll(before) + [""]
    ensures
      var n := |before| - 1;
      LowerAll(before[..n] + [before[n] + [c]]) == LowerAll(before)[..n] + [LowerAll(before)[n] + [LowerChar(c)]]
  {
    var n := |before| - 1;
    assert Lower(before[n] + [c]) == Lower(before[n]) + [LowerChar(c)];
    assert LowerAll(before)[..n] == LowerAll(before[..n]);
  }

  lemma CutsIgnoreCase(c: char)
    ensures Cuts(PUNCS, true, LowerChar(c)) == Cuts(PUNCS, true, c)
  {
  }

  lemma {:induction false} TrimOfLower(s: string)
    ensures Trim(Lower(s), PUNCS) == Lower(Trim(s, PUNCS))
  {
    hide Cuts, TrimLeft, TrimRight, LowerChar;
    var a, b := TrimMeaning(s, PUNCS, true);
    forall i | 0 <= i < |s| ensures Cuts(PUNCS, true, Lower(s)[i]) == Cuts(PUNCS, true, s[i]) {
      CutsIgnoreCase(s[i]);
    }
    LowerParts(s, a, b);
    TrimFound(Lower(s), PUNCS, a, b);
  }

  /** The stretch that TrimMeaning describes is the only one. */
  lemma TrimFound(s: string, cset: string, a: nat, b: nat)
    requires a <= b <= |s| && forall i :: 0 <= i < |s| && !(a <= i < b) ==> Cuts(cset, true, s[i])
    requires a < b ==> !Cuts(cset, true, s[a]) && !Cuts(cset, true, s[b - 1])
    ensures Trim(s, cset) == s[a..b]
  {
    hide Cuts;
    if a < b {
      TrimLeftSplits(s, cset, true, a);
      TrimRightSplits(s[a..], cset, true, b - a);
    } else {
      TrimLeftSplits(s, cset, true, |s|);
      TrimRightSplits([], cset, true, 0);
    }
  }

  lemma TokenIgnoresCase(stop: string -> bool, piece: string)
    ensures Token(stop, Lower(piece)) == Token(stop, piece)
  {
    hide Trim, Lower, Stem, CString;
    TrimOfLower(piece);
    LowerTwice(Trim(piece, PUNCS));
  }

  /** The case of the text does not matter. */
  lemma TermsIgnoreCase(stop: string -> bool, text: string)
    ensures Terms(stop, Lower(text)) == Terms(stop, text)
  {
    hide Token, Keys, Pieces;
    SpaceHasNoCase();
    PiecesOfLower(text, ' ');
    var pieces := Split(text, ' ');
    forall i | 0 <= i < |pieces| ensures Token(stop, LowerAll(pieces)[i]) == Token(stop, pieces[i]) {
      TokenIgnoresCase(stop, pieces[i]);
    }
    assert Tokens(stop, Split(Lower(text), ' ')) == Tokens(stop, pieces);
  }

  lemma SpaceHasNoCase()
    ensures LowerChar(' ') == ' ' && forall c :: LowerChar(c) == ' ' ==> c == ' '
  {
  }

  // ----- keys -----

  /** The string up to its first NUL. */
  lemma {:induction false} CStringStops(s: string, t: string)
    requires NUL !in s
    ensures CString(s) == s && CString(s + [NUL] + t) == s
  {
    if s != "" {
      CStringStops(s[1..], t);
      assert (s + [NUL] + t)[1..] == s[1..] + [NUL] + t;
    }
  }

  lemma {:induction false} CStringIsPrefix(s: string)
    ensures CString(s) <= s
  {
    if s != "" && s[0] != NUL {
      CStringIsPrefix(s[1..]);
      assert s == [s[0]] + s[1..];
    }
  }

  lemma TokenHasNoCapitals(stop: string -> bool, piece: string)
    ensures NoCapitals(Token(stop, piece))
  {
    hide Trim, Lower, Stem, CString;
    var term := Lower(Trim(piece, PUNCS));
    LowerHasNoCapitals(Trim(piece, PUNCS));
    StemHasNoCapitals(term);
  }

  lemma {:induction false} KeysHaveNoCapitals(tokens: seq<string>)
    requires forall i :: 0 <= i < |tokens| ==> NoCapitals(tokens[i])
    ensures forall i :: 0 <= i < |Keys(tokens)| ==> NoCapitals(Keys(tokens)[i])
  {
    hide NoCapitals, CString;
    if tokens != [] {
      var last := tokens[|tokens| - 1];
      KeysHaveNoCapitals(tokens[..|tokens| - 1]);
      CStringIsPrefix(last);
      PrefixNoCapitals(CString(last), last);
    }
  }

  lemma PrefixNoCapitals(s: string, t: string)
    requires s <= t && NoCapitals(t)
    ensures NoCapitals(s)
  {
    assert forall i :: 0 <= i < |s| ==> s[i] == t[i];
  }

  /** No term of any text has a capital letter. */
  lemma TermsHaveNoCapitals(stop: string -> bool, text: string)
    ensures forall i :: 0 <= i < |Terms(stop, text)| ==> NoCapitals(Terms(stop, text)[i])
  {
    hide Token, Keys, Split, NoCapitals;
    var pieces := Split(text, ' ');
    forall i | 0 <= i < |pieces| ensures NoCapitals(Token(stop, pieces[i])) {
      TokenHasNoCapitals(stop, pieces[i]);
    }
    KeysHaveNoCapitals(Tokens(stop, pieces));
  }

  // ----- one word -----

  /** A run of the characters that are cut off at the ends of a piece. */
  predicate Punctuation(a: string) {
    forall i :: 0 <= i < |a| ==> a[i] in ",.:;?!" || a[i] == '\0'
  }

  /** A word that neither begins nor ends with such a character. */
  predicate Clean(w: string) {
    w != "" ==>
      && w[0] !in ",.:;?!" && w[0] != '\0'
      && w[|w| - 1] !in ",.:;?!" && w[|w| - 1] != '\0'
  }

  lemma TrimOfWord(a: string, w: string, b: string)
    requires Punctuation(a) && Clean(w) && Punctuation(b)
    ensures Trim(a + w + b, PUNCS) == w
  {
    var s := a + w + b;
    forall i | 0 <= i < |s| && !(|a| <= i < |a| + |w|) ensures Cuts(PUNCS, true, s[i]) {
      if i < |a| {
        assert s[i] == a[i];
      } else {
        assert s[i] == b[i - |a| - |w|];
      }
    }
    TrimFound(s, PUNCS, |a|, |a| + |w|);
  }

  /** The token of a word with punctuation around it is the stem of the word in small
      letters; there is none for punctuation alone and for a stopword. */
  lemma TokenOfWord(stop: string -> bool, a: string, w: string, b: string)
    requires Punctuation(a) && Clean(w) && Punctuation(b)
    ensures Token(stop, a + w + b) == if w == "" || stop(CString(Lower(w))) then "" else Stem(Lower(w))
  {
    hide Trim, Lower, Stem, CString, Punctuation, Clean;
    TrimOfWord(a, w, b);
    assert |Lower(w)| == |w|;
  }

  /** Punctuation around a piece does not change its token. */
  lemma PunctuationIgnored(stop: string -> bool, a: string, piece: string, b: string)
    requires Punctuation(a) && Punctuation(b)
    ensures Token(stop, a + piece + b) == Token(stop, piece)
  {
    hide Lower, Stem, CString, TrimLeft, TrimRight;
    var i, j := TrimMeaning(piece, PUNCS, true);
    var a', w, b' := piece[..i], piece[i..j], piece[j..];
    assert piece == a' + w + b';
    assert a + piece + b == (a + a') + w + (b' + b);
    CutsArePunctuation(piece, i, j);
    TokenOfWord(stop, a', w, b');
    TokenOfWord(stop, a + a', w, b' + b);
  }

  lemma CutsArePunctuation(piece: string, i: nat, j: nat)
    requires i <= j <= |piece| && forall k :: 0 <= k < |piece| && !(i <= k < j) ==> Cuts(PUNCS, true, piece[k])
    requires i < j ==> !Cuts(PUNCS, true, piece[i]) && !Cuts(PUNCS, true, piece[j - 1])
    ensures Punctuation(piece[..i]) && Clean(piece[i..j]) && Punctuation(piece[j..])
  {
    forall k | 0 <= k < |piece| - j ensures piece[j..][k] in ",.:;?!" || piece[j..][k] == '\0' {
      assert piece[j..][k] == piece[j + k];
    }
  }

  // ----- a text of words -----

  lemma {:induction false} PiecesOfBoth(s: string, t: string, sep: char)
    ensures Pieces(s + [sep] + t, sep) == Pieces(s, sep) + Pieces(t, sep)
  {
    hide Pieces;
    if t == [] {
      assert s + [sep] + t == s + [sep];
      PiecesOfSnoc(s, sep, sep);
      PieceWithoutSeparator(t, sep);
    } else {
      var t', c := t[..|t| - 1], t[|t| - 1];
      assert t == t' + [c];
      assert s + [sep] + t == s + [sep] + t' + [c];
      PiecesOfBoth(s, t', sep);
      PiecesOfSnoc(s + [sep] + t', c, sep);
      PiecesOfSnoc(t', c, sep);
      var p, q := Pieces(s, sep), Pieces(t', sep);
      if c == sep {
        assert p + q + [""] == p + (q + [""]);
      } else {
        assert (p + q)[..|p + q| - 1] == p + q[..|q| - 1];
        assert p + q[..|q| - 1] + [q[|q| - 1] + [c]] == p + (q[..|q| - 1] + [q[|q| - 1] + [c]]);
      }
    }
  }

  lemma {:induction false} KeysOfBoth(a: seq<string>, b: seq<string>)
    ensures Keys(a + b) == Keys(a) + Keys(b)
    decreases |b|
  {
    if b == [] {
      assert a + b == a;
    } else {
      var b', last := b[..|b| - 1], b[|b| - 1];
      KeysOfBoth(a, b');
      assert (a + b)[..|a + b| - 1] == a + b';
      assert (a + b)[|a + b| - 1] == last;
    }
  }

  /** Where the empty text, which has no pieces, is no exception. */
  lemma TermsOfPieces(stop: string -> bool, text: string)
    ensures Terms(stop, text) == Keys(Tokens(stop, Pieces(text, ' ')))
  {
    hide Pieces;
    if text == [] {
      PieceWithoutSeparator(text, ' ');
      var tokens := Tokens(stop, [""]);
      assert Punctuation("") && Clean("");
      TokenOfWord(stop, "", "", "");
      assert "" + "" + "" == "";
      assert tokens == [""] && tokens[..0] == [];
    }
  }

  /** The terms of two texts with a space between them. */
  lemma TermsOfBoth(stop: string -> bool, s: string, t: string)
    ensures Terms(stop, s + " " + t) == Terms(stop, s) + Terms(stop, t)
  {
    hide Terms, Token, Keys, Pieces;
    TermsOfPieces(stop, s);
    TermsOfPieces(stop, t);
    TermsOfPieces(stop, s + " " + t);
    PiecesOfBoth(s, t, ' ');
    var p, q := Pieces(s, ' '), Pieces(t, ' ');
    assert s + [' '] + t == s + " " + t;
    assert Tokens(stop, p + q) == Tokens(stop, p) + Tokens(stop, q);
    KeysOfBoth(Tokens(stop, p), Tokens(stop, q));
  }

  /** The term of a text that is one word: its stem in small letters up to a NUL. */
  lemma TermsOfWord(stop: string -> bool, a: string, w: string, b: string)
    requires Punctuation(a) && Clean(w) && Punctuation(b) && ' ' !in a + w + b
    ensures Terms(stop, a + w + b) ==
      if w == "" || stop(CString(Lower(w))) then [] else [CString(Stem(Lower(w)))]
  {
    hide Terms, Token, Pieces, Lower, Stem, CString, Punctuation, Clean;
    var text := a + w + b;
    TermsOfPieces(stop, text);
    PieceWithoutSeparator(text, ' ');
    TokenOfWord(stop, a, w, b);
    StemBounds(Lower(w));
    var tokens := Tokens(stop, [text]);
    assert tokens == [Token(stop, text)] && tokens[..0] == [];
  }

  /** A capitalised stopword is not indexed, and a capitalised name is found by the
      same name in small letters. */
  lemma CapitalsExample(stop: string -> bool)
    requires forall s :: stop(s) <==> s == "the"
    ensures Terms(stop, "The Enemy!") == Terms(stop, "enemy") == [CString(Stem("enemy"))]
  {
    hide Terms, Stem, CString, Lower;
    StopwordExample();
    LowerExamples();
    TermsOfBoth(stop, "The", "Enemy!");
    assert "The" + " " + "Enemy!" == "The Enemy!";
    TermsOfWord(stop, "", "The", "");
    assert "" + "The" + "" == "The";
    TermsOfWord(stop, "", "Enemy", "!");
    assert "" + "Enemy" + "!" == "Enemy!";
    TermsOfWord(stop, "", "enemy", "");
    assert "" + "enemy" + "" == "enemy";
  }

  lemma LowerExamples()
    ensures Lower("The") == "the" && Lower("Enemy") == "enemy" && Lower("enemy") == "enemy"
  {
  }

  lemma StopwordExample()
    ensures CString("the") == "the" && CString("enemy") != "the"
  {
    assert CString("enemy")[0] == 'e';
  }
}
