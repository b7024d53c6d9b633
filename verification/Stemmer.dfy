/** The Porter stemmer: its rules as functions on words, and the in-place form
    that works on a buffer between two indices.  Letters are characters; the
    code is the source's, including its departures from the published rules. */
module Stemmer {

  // ----- consonants and the measure -----

  /** A 'y' is a consonant exactly when it does not follow one. */
  predicate Cons(b: string, i: nat)
    requires i < |b|
  {
    match b[i]
    case 'a' | 'e' | 'i' | 'o' | 'u' => false
    case 'y' => if i == 0 then true else !Cons(b, i - 1)
    case _ => true
  }

  /** How often a consonant follows a vowel among the first n letters. */
  function Transitions(b: string, n: nat): nat
    requires n <= |b|
  {
    if n < 2 then 0
    else Transitions(b, n - 1) + if !Cons(b, n - 2) && Cons(b, n - 1) then 1 else 0
  }

  function M(w: string): nat {
    Transitions(w, |w|)
  }

  predicate HasVowel(w: string) {
    exists i :: 0 <= i < |w| && !Cons(w, i)
  }

  predicate DoubleC(w: string) {
    |w| >= 2 && w[|w| - 1] == w[|w| - 2] && Cons(w, |w| - 1)
  }

  predicate Cvc(w: string) {
    && |w| >= 3 && Cons(w, |w| - 1) && !Cons(w, |w| - 2) && Cons(w, |w| - 3)
    && w[|w| - 1] != 'w' && w[|w| - 1] != 'x' && w[|w| - 1] != 'y'
  }

  /** Only the letters up to i matter to Cons at i. */
  lemma {:induction false} ConsOfPrefix(b: string, n: nat, i: nat)
    requires i < n <= |b|
    ensures Cons(b[..n], i) == Cons(b, i)
    decreases i
  {
    if i > 0 {
      ConsOfPrefix(b, n, i - 1);
    }
  }

  lemma {:induction false} TransitionsOfPrefix(b: string, n: nat, m: nat)
    requires m <= n <= |b|
    ensures Transitions(b[..n], m) == Transitions(b, m)
    decreases m
  {
    if m >= 2 {
      TransitionsOfPrefix(b, n, m - 1);
      ConsOfPrefix(b, n, m - 2);
      ConsOfPrefix(b, n, m - 1);
    }
  }

  lemma MeasureOfPrefix(b: string, n: nat)
    requires n <= |b|
    ensures M(b[..n]) == Transitions(b, n)
  {
    TransitionsOfPrefix(b, n, n);
  }

  /** A word with a positive measure has at least two letters. */
  lemma MeasuredIsLong(w: string)
    ensures M(w) > 0 ==> |w| >= 2
  {
  }

  // ----- the rules on words -----

  predicate EndsWith(w: string, s: string) {
    |s| <= |w| && w[|w| - |s|..] == s
  }

  /** w without its last n letters. */
  function Cut(w: string, n: nat): string
    requires n <= |w|
  {
    w[..|w| - n]
  }

  /** Replace suffix s by t if the measure before it is positive. */
  function Replace(w: string, s: string, t: string): string
    requires EndsWith(w, s)
  {
    if M(Cut(w, |s|)) > 0 then Cut(w, |s|) + t else w
  }

  /** The first rule of a list whose suffix fits is the one used. */
  function Rule(w: string, s: string, t: string, otherwise: string): string {
    if EndsWith(w, s) then Replace(w, s, t) else otherwise
  }

  function Step1a(w: string): string
    requires |w| >= 2
  {
    if w[|w| - 1] != 's' then w
    else if EndsWith(w, "sses") then Cut(w, 2)
    else if EndsWith(w, "ies") then Cut(w, 3) + "i"
    else if w[|w| - 2] != 's' then Cut(w, 1)
    else w
  }

  /** What is done to a word that has lost "ed" or "ing". */
  function Tidy(w: string): string {
    if EndsWith(w, "at") then Cut(w, 2) + "ate"
    else if EndsWith(w, "bl") then Cut(w, 2) + "ble"
    else if EndsWith(w, "iz") then Cut(w, 2) + "ize"
    else if DoubleC(w) then
      if w[|w| - 1] == 'l' || w[|w| - 1] == 's' || w[|w| - 1] == 'z' then w else Cut(w, 1)
    else if M(w) == 1 && Cvc(w) then w + "e"
    else w
  }

  function Step1b(w: string): string {
    if EndsWith(w, "eed") then
      if M(Cut(w, 3)) > 0 then Cut(w, 1) else w
    else EdOrIng(w)
  }

  function EdOrIng(w: string): string {
    if EndsWith(w, "ed") then
      if HasVowel(Cut(w, 2)) then Tidy(Cut(w, 2)) else w
    else if EndsWith(w, "ing") && HasVowel(Cut(w, 3)) then Tidy(Cut(w, 3))
    else w
  }

  function Step1c(w: string): string {
    if EndsWith(w, "y") && HasVowel(Cut(w, 1)) then Cut(w, 1) + "i" else w
  }

  function Step2(w: string): string
    requires |w| >= 2
  {
    match w[|w| - 2]
    case 'a' => Rule(w, "ational", "ate", Rule(w, "tional", "tion", w))
    case 'c' => Rule(w, "enci", "ence", Rule(w, "anci", "ance", w))
    case 'e' => Rule(w, "izer", "ize", w)
    case 'l' => Rule(w, "bli", "ble", Rule(w, "alli", "al", Rule(w, "entli", "ent",
                Rule(w, "eli", "e", Rule(w, "ousli", "ous", w)))))
    case 'o' => Rule(w, "ization", "ize", Rule(w, "ation", "ate", Rule(w, "ator", "ate", w)))
    case 's' => Rule(w, "alism", "al", Rule(w, "iveness", "ive", Rule(w, "fulness", "ful",
                Rule(w, "ousness", "ous", w))))
    case 't' => Rule(w, "aliti", "al", Rule(w, "iviti", "ive", Rule(w, "biliti", "ble", w)))
    case 'g' => Rule(w, "logi", "log", w)
    case _ => w
  }

  function Step3(w: string): string
    requires |w| >= 1
  {
    match w[|w| - 1]
    case 'e' => Rule(w, "icate", "ic", Rule(w, "ative", "", Rule(w, "alize", "al", w)))
    case 'i' => Rule(w, "iciti", "ic", w)
    case 'l' => Rule(w, "ical", "ic", Rule(w, "ful", "", w))
    case 's' => Rule(w, "ness", "", w)
    case _ => w
  }

  /** The length of s if w ends with it. */
  function Suffix(w: string, s: string, otherwise: nat): (n: nat) {
    if EndsWith(w, s) then |s| else otherwise
  }

  /** The suffix that step 4 takes off, 0 for none. */
  function Step4Suffix(w: string): nat
    requires |w| >= 2
  {
    match w[|w| - 2]
    case 'a' => Suffix(w, "al", 0)
    case 'c' => Suffix(w, "ance", Suffix(w, "ence", 0))
    case 'e' => Suffix(w, "er", 0)
    case 'i' => Suffix(w, "ic", 0)
    case 'l' => Suffix(w, "able", Suffix(w, "ible", 0))
    case 'n' => Suffix(w, "ant", Suffix(w, "ement", Suffix(w, "ment", Suffix(w, "ent", 0))))
    case 'o' =>
      if EndsWith(w, "ion") && |w| > 3 && (w[|w| - 4] == 's' || w[|w| - 4] == 't') then 3
      else Suffix(w, "ou", 0)
    case 's' => Suffix(w, "ism", 0)
    case 't' => Suffix(w, "ate", Suffix(w, "iti", 0))
    case 'u' => Suffix(w, "ous", 0)
    case 'v' => Suffix(w, "ive", 0)
    case 'z' => Suffix(w, "ize", 0)
    case _ => 0
  }

  lemma SuffixFits(w: string)
    requires |w| >= 2
    ensures Step4Suffix(w) <= |w|
  {
  }

  function Step4(w: string): string
    requires |w| >= 2
  {
    SuffixFits(w);
    var n := Step4Suffix(w);
    if n > 0 && M(Cut(w, n)) > 1 then Cut(w, n) else w
  }

  /** As written in the source: a final "e" goes when the measure is positive
      and what precedes is not consonant-vowel-consonant; the measure of the
      second rule is that of the whole word. */
  function Step5(w: string): string
    requires |w| >= 1
  {
    Step5b(Step5a(w), M(w))
  }

  function Step5a(w: string): string
    requires |w| >= 1
  {
    if w[|w| - 1] == 'e' && M(w) > 0 && !Cvc(Cut(w, 1)) then Cut(w, 1) else w
  }

  function Step5b(v: string, m: nat): string {
    if |v| > 0 && v[|v| - 1] == 'l' && DoubleC(v) && m > 1 then Cut(v, 1) else v
  }

  /** Step 5a of the published algorithm: a final "e" goes when the measure
      before it is above one, or is one and the stem does not end
      consonant-vowel-consonant. */
  function PublishedStep5a(w: string): string
    requires |w| >= 1
  {
    var m := M(Cut(w, 1));
    if w[|w| - 1] == 'e' && (m > 1 || (m == 1 && !Cvc(Cut(w, 1)))) then Cut(w, 1) else w
  }

  /** The code departs from the published step 5a exactly on words of measure
      above one that end in "e" after a consonant-vowel-consonant. */
  lemma Step5aDeparts(w: string)
    requires |w| >= 1
    ensures Step5a(w) == PublishedStep5a(w) <==> !(w[|w| - 1] == 'e' && M(w) > 1 && Cvc(Cut(w, 1)))
  {
    hide Cvc;
    if w[|w| - 1] == 'e' {
      FinalVowel(w);
    }
  }

  lemma FinalVowel(w: string)
    requires |w| >= 1 && !Cons(w, |w| - 1)
    ensures M(w) == M(Cut(w, 1))
  {
    MeasureOfPrefix(w, |w| - 1);
  }

  /** One word on which it does: the published rule gives "probat". */
  lemma Step5aKeepsProbate()
    ensures Step5a("probate") == "probate" && PublishedStep5a("probate") == "probat"
  {
    hide Transitions;
    var w := "probate";
    var v := "probat";
    assert Cut(w, 1) == v;
    assert !Cons(v, 2) && Cons(v, 3) && !Cons(v, 4) && Cons(v, 5);
    ProbateMeasure(v);
    assert Cvc(v);
  }

  lemma ProbateMeasure(v: string)
    requires v == "probat"
    ensures M(v) == 2
  {
    assert Transitions(v, 1) == 0;
    assert Transitions(v, 2) == 0;
    assert Transitions(v, 3) == 0;
    assert Transitions(v, 4) == 1;
    assert Transitions(v, 5) == 1;
    assert Transitions(v, 6) == 2;
  }

  function Step1(w: string): string
    requires |w| >= 2
  {
    Step1b(Step1a(w))
  }

  lemma Step1Bounds(w: string)
    requires |w| >= 3
    ensures 1 <= |Step1(w)| <= |w|
  {
    hide M, Cvc, Cons, EndsWith;
    var v := Step1a(w);
    SuffixLength(w, "sses");
    SuffixLength(w, "ies");
    SuffixLength(v, "eed");
    SuffixLength(v, "ed");
    SuffixLength(v, "ing");
    TidyBounds(if EndsWith(v, "ed") then Cut(v, 2) else if EndsWith(v, "ing") then Cut(v, 3) else "a");
  }

  lemma SuffixLength(w: string, s: string)
    ensures EndsWith(w, s) ==> |s| <= |w|
  {
  }

  /** Tidying adds at most one letter and leaves at least one. */
  lemma TidyBounds(w: string)
    ensures |w| > 0 ==> 1 <= |Tidy(w)| <= |w| + 1
  {
    hide M, Cvc, Cons;
  }

  lemma RuleBounds(w: string, s: string, t: string, otherwise: string)
    requires |t| <= |s| && 2 <= |otherwise| <= |w|
    ensures 2 <= |Rule(w, s, t, otherwise)| <= |w|
  {
    hide Transitions;
    if EndsWith(w, s) {
      MeasuredIsLong(Cut(w, |s|));
    }
  }

  lemma Step2Bounds(w: string)
    requires |w| >= 2
    ensures 2 <= |Step2(w)| <= |w|
  {
    hide Rule;
    RuleBounds(w, "tional", "tion", w);
    RuleBounds(w, "ational", "ate", Rule(w, "tional", "tion", w));
    RuleBounds(w, "anci", "ance", w);
    RuleBounds(w, "enci", "ence", Rule(w, "anci", "ance", w));
    RuleBounds(w, "izer", "ize", w);
    RuleBounds(w, "logi", "log", w);
    Step2BoundsL(w);
    Step2BoundsO(w);
    Step2BoundsS(w);
    Step2BoundsT(w);
  }

  lemma Step2BoundsL(w: string)
    requires |w| >= 2
    ensures w[|w| - 2] == 'l' ==> 2 <= |Step2(w)| <= |w|
  {
    hide Rule;
    RuleBounds(w, "ousli", "ous", w);
    var r4 := Rule(w, "ousli", "ous", w);
    RuleBounds(w, "eli", "e", r4);
    var r3 := Rule(w, "eli", "e", r4);
    RuleBounds(w, "entli", "ent", r3);
    var r2 := Rule(w, "entli", "ent", r3);
    RuleBounds(w, "alli", "al", r2);
    RuleBounds(w, "bli", "ble", Rule(w, "alli", "al", r2));
  }

  lemma Step2BoundsO(w: string)
    requires |w| >= 2
    ensures w[|w| - 2] == 'o' ==> 2 <= |Step2(w)| <= |w|
  {
    hide Rule;
    RuleBounds(w, "ator", "ate", w);
    var r2 := Rule(w, "ator", "ate", w);
    RuleBounds(w, "ation", "ate", r2);
    RuleBounds(w, "ization", "ize", Rule(w, "ation", "ate", r2));
  }

  lemma Step2BoundsS(w: string)
    requires |w| >= 2
    ensures w[|w| - 2] == 's' ==> 2 <= |Step2(w)| <= |w|
  {
    hide Rule;
    RuleBounds(w, "ousness", "ous", w);
    var r3 := Rule(w, "ousness", "ous", w);
    RuleBounds(w, "fulness", "ful", r3);
    var r2 := Rule(w, "fulness", "ful", r3);
    RuleBounds(w, "iveness", "ive", r2);
    RuleBounds(w, "alism", "al", Rule(w, "iveness", "ive", r2));
  }

  lemma Step2BoundsT(w: string)
    requires |w| >= 2
    ensures w[|w| - 2] == 't' ==> 2 <= |Step2(w)| <= |w|
  {
    hide Rule;
    RuleBounds(w, "biliti", "ble", w);
    var r2 := Rule(w, "biliti", "ble", w);
    RuleBounds(w, "iviti", "ive", r2);
    RuleBounds(w, "aliti", "al", Rule(w, "iviti", "ive", r2));
  }

  lemma Step3Bounds(w: string)
    requires |w| >= 2
    ensures 2 <= |Step3(w)| <= |w|
  {
    hide Rule;
    RuleBounds(w, "alize", "al", w);
    var r2 := Rule(w, "alize", "al", w);
    RuleBounds(w, "ative", "", r2);
    RuleBounds(w, "icate", "ic", Rule(w, "ative", "", r2));
    RuleBounds(w, "iciti", "ic", w);
    RuleBounds(w, "ful", "", w);
    RuleBounds(w, "ical", "ic", Rule(w, "ful", "", w));
    RuleBounds(w, "ness", "", w);
  }

  lemma Step4Bounds(w: string)
    requires |w| >= 2
    ensures 2 <= |Step4(w)| <= |w|
  {
    hide Transitions, Step4Suffix;
    SuffixFits(w);
    MeasuredIsLong(Cut(w, Step4Suffix(w)));
  }

  lemma Step5Bounds(w: string)
    requires |w| >= 2
    ensures 1 <= |Step5(w)| <= |w|
  {
    hide Transitions, Cvc, Cons;
  }

  lemma Step1cBounds(w: string)
    ensures |Step1c(w)| == |w|
  {
  }

  /** What the stemmer makes of a word. */
  function Stem(w: string): string {
    if |w| <= 2 then w
    else
      Step1Bounds(w);
      var v := Step1(w);
      if |v| <= 1 then v else LaterSteps(v)
  }

  function LaterSteps(v: string): (r: string)
    requires |v| >= 2
    ensures 1 <= |r| <= |v|
  {
    Step1cBounds(v);
    Step2Bounds(Step1c(v));
    Step3Bounds(Step2(Step1c(v)));
    Step4Bounds(Step3(Step2(Step1c(v))));
    Step5Bounds(Step4(Step3(Step2(Step1c(v)))));
    Step5(Step4(Step3(Step2(Step1c(v)))))
  }

  /** Stemming never lengthens a word and never empties it. */
  lemma StemBounds(w: string)
    ensures |Stem(w)| <= |w| && (|w| > 0 ==> |Stem(w)| > 0)
  {
    hide Step1, LaterSteps;
    if |w| > 2 {
      Step1Bounds(w);
    }
  }

  // ----- the stemmer itself -----

  class Stemmer {
    /** The buffer, the offset of the last letter, and a general offset. */
    var b: array<char>
    var k: int
    var j: int

    constructor () {
      b := new char[0];
      k, j := 0, 0;
    }

    ghost predicate Valid()
      reads `b, `k
    {
      0 <= k < b.Length
    }

    ghost function Word(): string
      requires Valid()
      reads `b, `k, b
    {
      b[..k + 1]
    }

    /** m: the measure of the letters up to j. */
    method Measure() returns (n: nat)
      requires -1 <= j < b.Length
      ensures n == M(b[..j + 1])
    {
      hide Cons;
      MeasureOfPrefix(b[..], j + 1);
      n := 0;
      var i: nat := 0;
      while i <= j && Cons(b[..], i)
        invariant i <= j + 1 && Transitions(b[..], i) == 0
        invariant i > 0 ==> Cons(b[..], i - 1)
      {
        i := i + 1;
      }
      if i > j {
        return;
      }
      i := i + 1;
      while true
        invariant 0 < i <= j + 1 && !Cons(b[..], i - 1) && n == Transitions(b[..], i)
        decreases j - i
      {
        while i <= j && !Cons(b[..], i)
          invariant 0 < i <= j + 1 && !Cons(b[..], i - 1) && n == Transitions(b[..], i)
        {
          i := i + 1;
        }
        if i > j {
          return;
        }
        i := i + 1;
        n := n + 1;
        while i <= j && Cons(b[..], i)
          invariant 0 < i <= j + 1 && Cons(b[..], i - 1) && n == Transitions(b[..], i)
        {
          i := i + 1;
        }
        if i > j {
          return;
        }
        i := i + 1;
      }
    }

    /** vowelinstem: a vowel among the letters up to j. */
    method VowelInStem() returns (yes: bool)
      requires -1 <= j < b.Length
      ensures yes == HasVowel(b[..j + 1])
    {
      hide Cons;
      ghost var stem := b[..j + 1];
      var i: nat := 0;
      while i <= j
        invariant i <= j + 1
        invariant forall m :: 0 <= m < i ==> Cons(stem, m)
      {
        ConsOfPrefix(b[..], j + 1, i);
        if !Cons(b[..], i) {
          return true;
        }
        i := i + 1;
      }
      yes := false;
    }

    method Ends(s: string) returns (yes: bool)
      requires Valid() && |s| > 0
      modifies `j
      ensures yes == EndsWith(Word(), s)
      ensures j == if yes then k - |s| else old(j)
      ensures yes ==> j >= -1 && b[..j + 1] == Cut(Word(), |s|)
    {
      var length := |s|;
      if s[length - 1] != b[k] || length > k + 1 {
        return false;
      }
      if b[k - length + 1..k + 1] != s {
        return false;
      }
      j := k - length;
      yes := true;
    }

    /** Put s after position j; what lies past the new end is kept. */
    method SetTo(s: string)
      requires -1 <= j && j + |s| < b.Length
      modifies `k, b
      ensures k == j + |s|
      ensures b[..k + 1] == old(b[..j + 1]) + s && SameFrom(old(b[..]), b[..], k + 1)
    {
      forall i | 0 <= i < |s| {
        b[j + 1 + i] := s[i];
      }
      k := j + |s|;
    }

    /** r */
    method R(s: string)
      requires Valid() && -1 <= j <= k && j + |s| <= k
      modifies `k, b
      ensures Valid() && Kept(old(b[..]), old(k), b[..], k)
      ensures b[..k + 1] == if M(old(b[..j + 1])) > 0 then old(b[..j + 1]) + s else old(b[..k + 1])
    {
      hide Transitions;
      var m := Measure();
      MeasuredIsLong(b[..j + 1]);
      if m > 0 {
        SetTo(s);
      }
    }

    /** One line of the step tables: if the word ends with s, put t in its place
        when the measure allows. */
    method TryRule(s: string, t: string) returns (hit: bool)
      requires Valid() && |s| > 0 && |t| <= |s|
      modifies `j, `k, b
      ensures Valid() && Kept(old(b[..]), old(k), b[..], k)
      ensures hit == EndsWith(old(Word()), s)
      ensures Word() == if hit then Replace(old(Word()), s, t) else old(Word())
      ensures !hit ==> k == old(k) && b[..] == old(b[..])
    {
      hide M, EndsWith;
      hit := Ends(s);
      if hit {
        R(t);
      }
    }

    method Step1ab()
      requires Valid() && k >= 2
      modifies `j, `k, b
      ensures Valid() && Kept(old(b[..]), old(k), b[..], k)
      ensures Word() == Step1(old(Word()))
    {
      hide Step1b, M;
      Plural();
      ghost var before, kBefore := b[..], k;
      PastTense();
      KeptTwice(old(b[..]), old(k), before, kBefore, b[..], k);
    }

    /** The first half of step1ab: plurals. */
    method Plural()
      requires Valid() && k >= 2
      modifies `j, `k, b
      ensures Valid() && Kept(old(b[..]), old(k), b[..], k)
      ensures Word() == Step1a(old(Word()))
    {
      hide EndsWith;
      if b[k] == 's' {
        SuffixLength(Word(), "sses");
        SuffixLength(Word(), "ies");
        var hit := Ends("sses");
        if hit {
          Shorter(b[..], k, 2);
          k := k - 2;
          return;
        }
        hit := Ends("ies");
        if hit {
          SetTo("i");
          return;
        }
        if b[k - 1] != 's' {
          Shorter(b[..], k, 1);
          k := k - 1;
        }
      }
    }

    /** The second half of step1ab: "eed", "ed" and "ing". */
    method PastTense()
      requires Valid()
      modifies `j, `k, b
      ensures Valid() && Kept(old(b[..]), old(k), b[..], k)
      ensures Word() == Step1b(old(Word()))
    {
      hide M, EdOrIng, EndsWith;
      SuffixLength(Word(), "eed");
      var hit := Ends("eed");
      if hit {
        var m := Measure();
        if m > 0 {
          Shorter(b[..], k, 1);
          k := k - 1;
        }
      } else {
        LoseEdOrIng();
      }
    }

    method LoseEdOrIng()
      requires Valid()
      modifies `j, `k, b
      ensures Valid() && Kept(old(b[..]), old(k), b[..], k)
      ensures Word() == EdOrIng(old(Word()))
    {
      hide M, HasVowel, Tidy, EndsWith;
      SuffixLength(Word(), "ed");
      SuffixLength(Word(), "ing");
      var hit := Ends("ed");
      if !hit {
        hit := Ends("ing");
      }
      if hit {
        var vowel := VowelInStem();
        if vowel {
          VowelNeedsLetter(b[..j + 1]);
          k := j;
          TidyUp();
        }
      }
    }

    /** ends and setto: put t in the place of s. */
    method TryPut(s: string, t: string) returns (hit: bool)
      requires Valid() && |s| > 0 && 0 < |t| <= |s| + 1 && k + 1 < b.Length
      modifies `j, `k, b
      ensures 0 <= k <= old(k) + 1 && SameFrom(old(b[..]), b[..], old(k) + 2)
      ensures hit == EndsWith(old(Word()), s)
      ensures Word() == if hit then Cut(old(Word()), |s|) + t else old(Word())
      ensures !hit ==> k == old(k) && j == old(j) && b[..] == old(b[..])
    {
      hide EndsWith;
      SuffixLength(Word(), s);
      hit := Ends(s);
      if hit {
        SetTo(t);
      }
    }

    /** What step1ab does once "ed" or "ing" is off; it may write one letter
        past the end. */
    method TidyUp()
      requires Valid() && j == k && k + 1 < b.Length
      modifies `j, `k, b
      ensures 0 <= k <= old(k) + 1 && SameFrom(old(b[..]), b[..], old(k) + 2)
      ensures Word() == Tidy(old(Word()))
    {
      hide M, Cons, EndsWith, Cvc, SameFrom;
      Unchanged(b[..], k + 2);
      var hit := TryPut("at", "ate");
      if !hit { hit := TryPut("bl", "ble"); }
      if !hit { hit := TryPut("iz", "ize"); }
      if !hit {
        TidyEnd();
      }
    }

    /** The last cases: a double consonant, and a short word that wants its e. */
    method TidyEnd()
      requires Valid() && j == k && k + 1 < b.Length
      requires !EndsWith(Word(), "at") && !EndsWith(Word(), "bl") && !EndsWith(Word(), "iz")
      modifies `k, b
      ensures 0 <= k <= old(k) + 1 && SameFrom(old(b[..]), b[..], old(k) + 2)
      ensures Word() == Tidy(old(Word()))
    {
      hide M, Cons, EndsWith, Cvc;
      if DoubleC(b[..k + 1]) {
        Shorter(b[..], k, 1);
        k := k - 1;
        var ch := b[k];
        if ch == 'l' || ch == 's' || ch == 'z' {
          k := k + 1;
        }
        return;
      }
      var m := Measure();
      if m == 1 && Cvc(b[..k + 1]) {
        SetTo("e");
      }
    }

    method FinalY()
      requires Valid()
      modifies `j, `k, b
      ensures Valid() && Kept(old(b[..]), old(k), b[..], k)
      ensures Word() == Step1c(old(Word()))
    {
      hide HasVowel;
      var hit := Ends("y");
      if hit {
        var vowel := VowelInStem();
        if vowel {
          b[k] := 'i';
        }
      }
    }

    method DoubleSuffixes()
      requires Valid() && k >= 1
      modifies `j, `k, b
      ensures Valid() && Kept(old(b[..]), old(k), b[..], k)
      ensures Word() == Step2(old(Word()))
    {
      hide EndsWith, Replace;
      var hit;
      match b[k - 1]
      case 'a' =>
        hit := TryRule("ational", "ate");
        if !hit { hit := TryRule("tional", "tion"); }
      case 'c' =>
        hit := TryRule("enci", "ence");
        if !hit { hit := TryRule("anci", "ance"); }
      case 'e' =>
        hit := TryRule("izer", "ize");
      case 'l' =>
        hit := TryRule("bli", "ble");
        if !hit { hit := TryRule("alli", "al"); }
        if !hit { hit := TryRule("entli", "ent"); }
        if !hit { hit := TryRule("eli", "e"); }
        if !hit { hit := TryRule("ousli", "ous"); }
      case 'o' =>
        hit := TryRule("ization", "ize");
        if !hit { hit := TryRule("ation", "ate"); }
        if !hit { hit := TryRule("ator", "ate"); }
      case 's' =>
        hit := TryRule("alism", "al");
        if !hit { hit := TryRule("iveness", "ive"); }
        if !hit { hit := TryRule("fulness", "ful"); }
        if !hit { hit := TryRule("ousness", "ous"); }
      case 't' =>
        hit := TryRule("aliti", "al");
        if !hit { hit := TryRule("iviti", "ive"); }
        if !hit { hit := TryRule("biliti", "ble"); }
      case 'g' =>
        hit := TryRule("logi", "log");
      case _ =>
    }

    method OtherSuffixes()
      requires Valid()
      modifies `j, `k, b
      ensures Valid() && Kept(old(b[..]), old(k), b[..], k)
      ensures Word() == Step3(old(Word()))
    {
      hide EndsWith, Replace;
      var hit;
      match b[k]
      case 'e' =>
        hit := TryRule("icate", "ic");
        if !hit { hit := TryRule("ative", ""); }
        if !hit { hit := TryRule("alize", "al"); }
      case 'i' =>
        hit := TryRule("iciti", "ic");
      case 'l' =>
        hit := TryRule("ical", "ic");
        if !hit { hit := TryRule("ful", ""); }
      case 's' =>
        hit := TryRule("ness", "");
      case _ =>
    }

    /** The switch of step4: whether a suffix fits, j being left before it. */
    method LastSuffix() returns (hit: bool)
      requires Valid() && k >= 1
      modifies `j
      ensures hit <==> Step4Suffix(Word()) > 0
      ensures hit ==> j == k - Step4Suffix(Word())
    {
      hide EndsWith, Cut, Step4Suffix;
      if b[k - 1] == 'n' {
        hit := LastSuffixN();
      } else if b[k - 1] == 'o' {
        hit := LastSuffixO();
      } else if b[k - 1] < 'n' {
        hit := LastSuffixAToL();
      } else if b[k - 1] <= 't' {
        hit := LastSuffixSToT();
      } else {
        hit := LastSuffixUToZ();
      }
    }

    method LastSuffixAToL() returns (hit: bool)
      requires Valid() && k >= 1 && b[k - 1] < 'n'
      modifies `j
      ensures hit <==> Step4Suffix(Word()) > 0
      ensures hit ==> j == k - Step4Suffix(Word())
    {
      hide EndsWith, Cut;
      hit := false;
      match b[k - 1]
      case 'a' => hit := Ends("al");
      case 'c' =>
        hit := Ends("ance");
        if !hit { hit := Ends("ence"); }
      case 'e' => hit := Ends("er");
      case 'i' => hit := Ends("ic");
      case 'l' =>
        hit := Ends("able");
        if !hit { hit := Ends("ible"); }
      case _ =>
    }

    method LastSuffixSToT() returns (hit: bool)
      requires Valid() && k >= 1 && 'o' < b[k - 1] <= 't'
      modifies `j
      ensures hit <==> Step4Suffix(Word()) > 0
      ensures hit ==> j == k - Step4Suffix(Word())
    {
      hide EndsWith, Cut;
      hit := false;
      match b[k - 1]
      case 's' => hit := Ends("ism");
      case 't' =>
        hit := Ends("ate");
        if !hit { hit := Ends("iti"); }
      case _ =>
    }

    method LastSuffixUToZ() returns (hit: bool)
      requires Valid() && k >= 1 && b[k - 1] > 't'
      modifies `j
      ensures hit <==> Step4Suffix(Word()) > 0
      ensures hit ==> j == k - Step4Suffix(Word())
    {
      hide EndsWith, Cut;
      hit := false;
      match b[k - 1]
      case 'u' => hit := Ends("ous");
      case 'v' => hit := Ends("ive");
      case 'z' => hit := Ends("ize");
      case _ =>
    }

    method LastSuffixN() returns (hit: bool)
      requires Valid() && k >= 1 && b[k - 1] == 'n'
      modifies `j
      ensures hit <==> Step4Suffix(Word()) > 0
      ensures hit ==> j == k - Step4Suffix(Word())
    {
      hide EndsWith, Cut;
      hit := Ends("ant");
      if !hit { hit := Ends("ement"); }
      if !hit { hit := Ends("ment"); }
      if !hit { hit := Ends("ent"); }
    }

    /** "ion" counts only after s or t. */
    method LastSuffixO() returns (hit: bool)
      requires Valid() && k >= 1 && b[k - 1] == 'o'
      modifies `j
      ensures hit <==> Step4Suffix(Word()) > 0
      ensures hit ==> j == k - Step4Suffix(Word())
    {
      hide EndsWith, Cut;
      hit := Ends("ion");
      hit := hit && j >= 0 && (b[j] == 's' || b[j] == 't');
      if !hit { hit := Ends("ou"); }
    }

    method DropSuffix()
      requires Valid() && k >= 1
      modifies `j, `k, b
      ensures Valid() && Kept(old(b[..]), old(k), b[..], k)
      ensures Word() == Step4(old(Word()))
    {
      hide Step4Suffix, Transitions;
      SuffixFits(Word());
      var hit := LastSuffix();
      if !hit {
        return;
      }
      Shorter(b[..], k, Step4Suffix(Word()));
      var m := Measure();
      MeasuredIsLong(b[..j + 1]);
      if m > 1 {
        k := j;
      }
    }

    method DropEnd()
      requires Valid()
      modifies `j, `k, b
      ensures Valid() && Kept(old(b[..]), old(k), b[..], k)
      ensures Word() == Step5(old(Word()))
    {
      hide Step5a, Step5b, M;
      j := k;
      DropE();
      DropL();
    }

    method DropE()
      requires Valid() && j == k
      modifies `k
      ensures Valid() && k <= old(k)
      ensures Word() == Step5a(old(Word()))
    {
      hide Cvc, Cons, Transitions;
      MeasuredIsLong(Word());
      if b[k] == 'e' {
        var a := Measure();
        Shorter(b[..], k, 1);
        if a >= 1 && !Cvc(b[..k]) {
          k := k - 1;
        }
      }
    }

    method DropL()
      requires Valid() && k <= j < b.Length
      modifies `k
      ensures Valid() && k <= old(k)
      ensures Word() == Step5b(old(Word()), M(b[..j + 1]))
    {
      hide Cons, M;
      if b[k] == 'l' && DoubleC(b[..k + 1]) {
        var m := Measure();
        if m > 1 {
          Shorter(b[..], k, 1);
          k := k - 1;
        }
      }
    }

    /** stem: the new end of the word b[..k + 1]; nothing past k is written. */
    method StemInPlace(b: array<char>, k: int) returns (end: int)
      requires 0 <= k < b.Length
      modifies this, b
      ensures Kept(old(b[..]), k, b[..], end)
      ensures b[..end + 1] == Stem(old(b[..k + 1]))
    {
      hide Kept, Step1, Step2, Step3, Step4, Step5, Step1c, LaterSteps;
      if k <= 1 {
        KeptSelf(b[..], k);
        return k;
      }
      this.b := b;
      this.k := k;
      Step1Bounds(b[..k + 1]);
      Step1ab();
      if this.k > 0 {
        ghost var before, kBefore := b[..], this.k;
        Later();
        KeptTwice(old(b[..]), k, before, kBefore, b[..], this.k);
      }
      end := this.k;
    }

    /** Steps 1c to 5. */
    method Later()
      requires Valid() && k >= 1
      modifies `j, `k, b
      ensures Valid() && Kept(old(b[..]), old(k), b[..], k)
      ensures Word() == LaterSteps(old(Word()))
    {
      hide Kept, Step2, Step3, Step4, Step5, Step1c;
      ghost var start, kStart, word := b[..], k, Word();
      Step1cBounds(word);
      FinalY();
      Step2Bounds(Step1c(word));
      ghost var b1, k1 := b[..], k;
      DoubleSuffixes();
      KeptTwice(start, kStart, b1, k1, b[..], k);
      Step3Bounds(Step2(Step1c(word)));
      ghost var b2, k2 := b[..], k;
      OtherSuffixes();
      KeptTwice(start, kStart, b2, k2, b[..], k);
      Step4Bounds(Step3(Step2(Step1c(word))));
      ghost var b3, k3 := b[..], k;
      DropSuffix();
      KeptTwice(start, kStart, b3, k3, b[..], k);
      ghost var b4, k4 := b[..], k;
      DropEnd();
      KeptTwice(start, kStart, b4, k4, b[..], k);
    }
  }

  /** Buffers s and t agree from position n on. */
  ghost predicate SameFrom(s: string, t: string, n: int) {
    0 <= n && |s| == |t| && forall i :: n <= i < |s| ==> t[i] == s[i]
  }

  /** From buffer s with end k to buffer t with end m: the end has not grown and
      nothing past the old end is written. */
  ghost predicate Kept(s: string, k: int, t: string, m: int) {
    0 <= m <= k < |s| && SameFrom(s, t, k + 1)
  }

  lemma Shorter(s: string, k: int, n: nat)
    requires n <= k + 1 <= |s|
    ensures s[..k - n + 1] == Cut(s[..k + 1], n)
  {
  }

  lemma KeptSelf(s: string, k: int)
    requires 0 <= k < |s|
    ensures Kept(s, k, s, k)
  {
  }

  lemma Unchanged(s: string, n: nat)
    ensures SameFrom(s, s, n)
  {
  }

  lemma VowelNeedsLetter(w: string)
    ensures HasVowel(w) ==> |w| > 0
  {
  }

  lemma KeptTwice(s: string, k: int, t: string, m: int, u: string, n: int)
    requires Kept(s, k, t, m) && Kept(t, m, u, n)
    ensures Kept(s, k, u, n)
  {
  }
}
