/** What the stemmer's tables do to every stem, line by line, and to the words that
    its comments give as examples. */
module StemmerRules {
  import opened Stemmer

  // ----- endings -----

  /** A word ends with s exactly when it is something followed by s. */
  lemma EndsWithMeans(w: string, s: string)
    ensures EndsWith(w, s) <==> exists x :: w == x + s
  {
    if EndsWith(w, s) {
      assert w == Cut(w, |s|) + s;
    }
  }

  /** Two endings that differ at one place from the end exclude each other. */
  lemma Clash(x: string, s: string, t: string, i: nat)
    requires i < |s| && i < |t| && s[|s| - 1 - i] != t[|t| - 1 - i]
    ensures !EndsWith(x + s, t)
  {
    var w := x + s;
    assert w[|w| - 1 - i] == s[|s| - 1 - i];
    assert |t| <= |w| ==> w[|w| - |t|..][|t| - 1 - i] == w[|w| - 1 - i];
  }

  /** A longer ending reaches into the stem. */
  lemma LongerEnd(x: string, s: string, t: string)
    requires |t| >= |s|
    ensures EndsWith(x + s, t) ==> EndsWith(x, t[..|t| - |s|])
  {
    var w := x + s;
    if EndsWith(w, t) {
      assert w[|w| - |t|..] == x[|x| - (|t| - |s|)..] + s;
      assert w[|w| - |t|..][..|t| - |s|] == t[..|t| - |s|];
    }
  }

  lemma Splits(x: string, s: string)
    ensures EndsWith(x + s, s) && Cut(x + s, |s|) == x
  {
  }

  // ----- steps 2 and 3 -----

  /** x + s with s turned into t if the measure of x is above n. */
  function Put(x: string, s: string, t: string, n: nat): string {
    if M(x) > n then x + t else x + s
  }

  lemma RuleFits(x: string, s: string, t: string)
    ensures forall otherwise :: Rule(x + s, s, t, otherwise) == Put(x, s, t, 0)
  {
    hide M;
    Splits(x, s);
  }

  lemma RuleMissed(w: string, s: string, t: string)
    requires !EndsWith(w, s)
    ensures forall otherwise :: Rule(w, s, t, otherwise) == otherwise
  {
  }

  lemma RuleSkipped(x: string, s: string, s': string, t': string, i: nat)
    requires i < |s| && i < |s'| && s[|s| - 1 - i] != s'[|s'| - 1 - i]
    ensures forall otherwise :: Rule(x + s, s', t', otherwise) == otherwise
  {
    Clash(x, s, s', i);
  }

  lemma Step2OnA(x: string)
    ensures Step2(x + "ational") == Put(x, "ational", "ate", 0)
    ensures !EndsWith(x, "a") ==> Step2(x + "tional") == Put(x, "tional", "tion", 0)
  {
    hide Rule, M, EndsWith;
    RuleFits(x, "ational", "ate");
    var w := x + "tional";
    LongerEnd(x, "tional", "ational");
    assert "ational"[..1] == "a";
    if !EndsWith(x, "a") {
      RuleMissed(w, "ational", "ate");
    }
    RuleFits(x, "tional", "tion");
  }

  lemma Step2OnC(x: string)
    ensures Step2(x + "enci") == Put(x, "enci", "ence", 0)
    ensures Step2(x + "anci") == Put(x, "anci", "ance", 0)
  {
    hide Rule, M, EndsWith;
    RuleFits(x, "enci", "ence");
    RuleSkipped(x, "anci", "enci", "ence", 3);
    RuleFits(x, "anci", "ance");
  }

  lemma Step2OnE(x: string)
    ensures Step2(x + "izer") == Put(x, "izer", "ize", 0)
  {
    hide Rule, M, EndsWith;
    RuleFits(x, "izer", "ize");
  }

  lemma Step2OnL(x: string)
    ensures Step2(x + "bli") == Put(x, "bli", "ble", 0)
    ensures Step2(x + "alli") == Put(x, "alli", "al", 0)
    ensures Step2(x + "entli") == Put(x, "entli", "ent", 0)
    ensures Step2(x + "eli") == Put(x, "eli", "e", 0)
    ensures Step2(x + "ousli") == Put(x, "ousli", "ous", 0)
  {
    hide Rule, M, EndsWith;
    RuleFits(x, "bli", "ble");
    RuleSkipped(x, "alli", "bli", "ble", 2);
    RuleFits(x, "alli", "al");
    RuleSkipped(x, "entli", "bli", "ble", 2);
    RuleSkipped(x, "entli", "alli", "al", 2);
    RuleFits(x, "entli", "ent");
    RuleSkipped(x, "eli", "bli", "ble", 2);
    RuleSkipped(x, "eli", "alli", "al", 2);
    RuleSkipped(x, "eli", "entli", "ent", 2);
    RuleFits(x, "eli", "e");
    RuleSkipped(x, "ousli", "bli", "ble", 2);
    RuleSkipped(x, "ousli", "alli", "al", 2);
    RuleSkipped(x, "ousli", "entli", "ent", 2);
    RuleSkipped(x, "ousli", "eli", "e", 2);
    RuleFits(x, "ousli", "ous");
  }

  lemma Step2OnO(x: string)
    ensures Step2(x + "ization") == Put(x, "ization", "ize", 0)
    ensures !EndsWith(x, "iz") ==> Step2(x + "ation") == Put(x, "ation", "ate", 0)
    ensures Step2(x + "ator") == Put(x, "ator", "ate", 0)
  {
    hide Rule, M, EndsWith;
    RuleFits(x, "ization", "ize");
    var w := x + "ation";
    LongerEnd(x, "ation", "ization");
    assert "ization"[..2] == "iz";
    if !EndsWith(x, "iz") {
      RuleMissed(w, "ization", "ize");
    }
    RuleFits(x, "ation", "ate");
    RuleSkipped(x, "ator", "ization", "ize", 0);
    RuleSkipped(x, "ator", "ation", "ate", 0);
    RuleFits(x, "ator", "ate");
  }

  lemma Step2OnS(x: string)
    ensures Step2(x + "alism") == Put(x, "alism", "al", 0)
    ensures Step2(x + "iveness") == Put(x, "iveness", "ive", 0)
    ensures Step2(x + "fulness") == Put(x, "fulness", "ful", 0)
    ensures Step2(x + "ousness") == Put(x, "ousness", "ous", 0)
  {
    hide Rule, M, EndsWith;
    RuleFits(x, "alism", "al");
    RuleSkipped(x, "iveness", "alism", "al", 0);
    RuleFits(x, "iveness", "ive");
    RuleSkipped(x, "fulness", "alism", "al", 0);
    RuleSkipped(x, "fulness", "iveness", "ive", 4);
    RuleFits(x, "fulness", "ful");
    RuleSkipped(x, "ousness", "alism", "al", 0);
    RuleSkipped(x, "ousness", "iveness", "ive", 4);
    RuleSkipped(x, "ousness", "fulness", "ful", 4);
    RuleFits(x, "ousness", "ous");
  }

  lemma Step2OnT(x: string)
    ensures Step2(x + "aliti") == Put(x, "aliti", "al", 0)
    ensures Step2(x + "iviti") == Put(x, "iviti", "ive", 0)
    ensures Step2(x + "biliti") == Put(x, "biliti", "ble", 0)
  {
    hide Rule, M, EndsWith;
    RuleFits(x, "aliti", "al");
    RuleSkipped(x, "iviti", "aliti", "al", 3);
    RuleFits(x, "iviti", "ive");
    RuleSkipped(x, "biliti", "aliti", "al", 4);
    RuleSkipped(x, "biliti", "iviti", "ive", 3);
    RuleFits(x, "biliti", "ble");
  }

  lemma Step2OnG(x: string)
    ensures Step2(x + "logi") == Put(x, "logi", "log", 0)
  {
    hide Rule, M, EndsWith;
    RuleFits(x, "logi", "log");
  }

  lemma Step3OnE(x: string)
    ensures Step3(x + "icate") == Put(x, "icate", "ic", 0)
    ensures Step3(x + "ative") == Put(x, "ative", "", 0)
    ensures Step3(x + "alize") == Put(x, "alize", "al", 0)
  {
    hide Rule, M, EndsWith;
    RuleFits(x, "icate", "ic");
    RuleSkipped(x, "ative", "icate", "ic", 1);
    RuleFits(x, "ative", "");
    RuleSkipped(x, "alize", "icate", "ic", 1);
    RuleSkipped(x, "alize", "ative", "", 1);
    RuleFits(x, "alize", "al");
  }

  lemma Step3OnI(x: string)
    ensures Step3(x + "iciti") == Put(x, "iciti", "ic", 0)
  {
    hide Rule, M, EndsWith;
    RuleFits(x, "iciti", "ic");
  }

  lemma Step3OnL(x: string)
    ensures Step3(x + "ical") == Put(x, "ical", "ic", 0)
    ensures Step3(x + "ful") == Put(x, "ful", "", 0)
  {
    hide Rule, M, EndsWith;
    RuleFits(x, "ical", "ic");
    RuleSkipped(x, "ful", "ical", "ic", 1);
    RuleFits(x, "ful", "");
  }

  lemma Step3OnS(x: string)
    ensures Step3(x + "ness") == Put(x, "ness", "", 0)
  {
    hide Rule, M, EndsWith;
    RuleFits(x, "ness", "");
  }

  /** Step 2, line by line, for every stem x. */
  lemma Step2Lines(x: string)
    ensures Step2(x + "ational") == Put(x, "ational", "ate", 0)
    ensures !EndsWith(x, "a") ==> Step2(x + "tional") == Put(x, "tional", "tion", 0)
    ensures Step2(x + "enci") == Put(x, "enci", "ence", 0)
    ensures Step2(x + "anci") == Put(x, "anci", "ance", 0)
    ensures Step2(x + "izer") == Put(x, "izer", "ize", 0)
    ensures Step2(x + "bli") == Put(x, "bli", "ble", 0)
    ensures Step2(x + "alli") == Put(x, "alli", "al", 0)
    ensures Step2(x + "entli") == Put(x, "entli", "ent", 0)
    ensures Step2(x + "eli") == Put(x, "eli", "e", 0)
    ensures Step2(x + "ousli") == Put(x, "ousli", "ous", 0)
    ensures Step2(x + "ization") == Put(x, "ization", "ize", 0)
    ensures !EndsWith(x, "iz") ==> Step2(x + "ation") == Put(x, "ation", "ate", 0)
    ensures Step2(x + "ator") == Put(x, "ator", "ate", 0)
    ensures Step2(x + "alism") == Put(x, "alism", "al", 0)
    ensures Step2(x + "iveness") == Put(x, "iveness", "ive", 0)
    ensures Step2(x + "fulness") == Put(x, "fulness", "ful", 0)
    ensures Step2(x + "ousness") == Put(x, "ousness", "ous", 0)
    ensures Step2(x + "aliti") == Put(x, "aliti", "al", 0)
    ensures Step2(x + "iviti") == Put(x, "iviti", "ive", 0)
    ensures Step2(x + "biliti") == Put(x, "biliti", "ble", 0)
    ensures Step2(x + "logi") == Put(x, "logi", "log", 0)
  {
    hide *;
    Step2OnA(x);
    Step2OnC(x);
    Step2OnE(x);
    Step2OnL(x);
    Step2OnO(x);
    Step2OnS(x);
    Step2OnT(x);
    Step2OnG(x);
  }

  /** Step 3, line by line, for every stem x. */
  lemma Step3Lines(x: string)
    ensures Step3(x + "icate") == Put(x, "icate", "ic", 0)
    ensures Step3(x + "ative") == Put(x, "ative", "", 0)
    ensures Step3(x + "alize") == Put(x, "alize", "al", 0)
    ensures Step3(x + "iciti") == Put(x, "iciti", "ic", 0)
    ensures Step3(x + "ical") == Put(x, "ical", "ic", 0)
    ensures Step3(x + "ful") == Put(x, "ful", "", 0)
    ensures Step3(x + "ness") == Put(x, "ness", "", 0)
  {
    hide *;
    Step3OnE(x);
    Step3OnI(x);
    Step3OnL(x);
    Step3OnS(x);
  }

  const STEP2_ENDINGS: seq<string> := [
    "ational", "tional", "enci", "anci", "izer", "bli", "alli", "entli", "eli", "ousli", "ization",
    "ation", "ator", "alism", "iveness", "fulness", "ousness", "aliti", "iviti", "biliti", "logi"]

  /** A word with no ending in the table is left as it is. */
  lemma Step2Otherwise(w: string)
    requires |w| >= 2 && forall i :: 0 <= i < |STEP2_ENDINGS| ==> !EndsWith(w, STEP2_ENDINGS[i])
    ensures Step2(w) == w
  {
    hide EndsWith, Replace;
    assert !EndsWith(w, "ational") by { assert STEP2_ENDINGS[0] == "ational"; }
    assert !EndsWith(w, "tional") by { assert STEP2_ENDINGS[1] == "tional"; }
    assert !EndsWith(w, "enci") by { assert STEP2_ENDINGS[2] == "enci"; }
    assert !EndsWith(w, "anci") by { assert STEP2_ENDINGS[3] == "anci"; }
    assert !EndsWith(w, "izer") by { assert STEP2_ENDINGS[4] == "izer"; }
    assert !EndsWith(w, "bli") by { assert STEP2_ENDINGS[5] == "bli"; }
    assert !EndsWith(w, "alli") by { assert STEP2_ENDINGS[6] == "alli"; }
    assert !EndsWith(w, "entli") by { assert STEP2_ENDINGS[7] == "entli"; }
    assert !EndsWith(w, "eli") by { assert STEP2_ENDINGS[8] == "eli"; }
    assert !EndsWith(w, "ousli") by { assert STEP2_ENDINGS[9] == "ousli"; }
    assert !EndsWith(w, "ization") by { assert STEP2_ENDINGS[10] == "ization"; }
    assert !EndsWith(w, "ation") by { assert STEP2_ENDINGS[11] == "ation"; }
    assert !EndsWith(w, "ator") by { assert STEP2_ENDINGS[12] == "ator"; }
    assert !EndsWith(w, "alism") by { assert STEP2_ENDINGS[13] == "alism"; }
    assert !EndsWith(w, "iveness") by { assert STEP2_ENDINGS[14] == "iveness"; }
    assert !EndsWith(w, "fulness") by { assert STEP2_ENDINGS[15] == "fulness"; }
    assert !EndsWith(w, "ousness") by { assert STEP2_ENDINGS[16] == "ousness"; }
    assert !EndsWith(w, "aliti") by { assert STEP2_ENDINGS[17] == "aliti"; }
    assert !EndsWith(w, "iviti") by { assert STEP2_ENDINGS[18] == "iviti"; }
    assert !EndsWith(w, "biliti") by { assert STEP2_ENDINGS[19] == "biliti"; }
    assert !EndsWith(w, "logi") by { assert STEP2_ENDINGS[20] == "logi"; }
  }

  const STEP3_ENDINGS: seq<string> := [
    "icate", "ative", "alize", "iciti", "ical", "ful", "ness"]

  /** A word with no ending in the table is left as it is. */
  lemma Step3Otherwise(w: string)
    requires |w| >= 1 && forall i :: 0 <= i < |STEP3_ENDINGS| ==> !EndsWith(w, STEP3_ENDINGS[i])
    ensures Step3(w) == w
  {
    hide EndsWith, Replace;
    assert !EndsWith(w, "icate") by { assert STEP3_ENDINGS[0] == "icate"; }
    assert !EndsWith(w, "ative") by { assert STEP3_ENDINGS[1] == "ative"; }
    assert !EndsWith(w, "alize") by { assert STEP3_ENDINGS[2] == "alize"; }
    assert !EndsWith(w, "iciti") by { assert STEP3_ENDINGS[3] == "iciti"; }
    assert !EndsWith(w, "ical") by { assert STEP3_ENDINGS[4] == "ical"; }
    assert !EndsWith(w, "ful") by { assert STEP3_ENDINGS[5] == "ful"; }
    assert !EndsWith(w, "ness") by { assert STEP3_ENDINGS[6] == "ness"; }
  }

  // ----- step 4 -----

  lemma SuffixFitsOwn(x: string, s: string)
    ensures forall otherwise :: Suffix(x + s, s, otherwise) == |s|
  {
  }

  lemma SuffixMissed(w: string, s: string)
    requires !EndsWith(w, s)
    ensures forall otherwise :: Suffix(w, s, otherwise) == otherwise
  {
  }

  lemma SuffixSkipped(x: string, s: string, s': string, i: nat)
    requires i < |s| && i < |s'| && s[|s| - 1 - i] != s'[|s'| - 1 - i]
    ensures forall otherwise :: Suffix(x + s, s', otherwise) == otherwise
  {
    Clash(x, s, s', i);
  }

  lemma DropsOwn(x: string, s: string)
    requires |x + s| >= 2 && |s| > 0 && Step4Suffix(x + s) == |s|
    ensures Step4(x + s) == Put(x, s, "", 1)
  {
    hide M, Step4Suffix;
    Splits(x, s);
    assert x + "" == x;
  }

  lemma Step4OnA(x: string)
    ensures Step4(x + "al") == Put(x, "al", "", 1)
  {
    hide M, Suffix, EndsWith;
    SuffixFitsOwn(x, "al");
    DropsOwn(x, "al");
  }

  lemma Step4OnC(x: string)
    ensures Step4(x + "ance") == Put(x, "ance", "", 1)
    ensures Step4(x + "ence") == Put(x, "ence", "", 1)
  {
    hide M, Suffix, EndsWith;
    SuffixFitsOwn(x, "ance");
    DropsOwn(x, "ance");
    SuffixSkipped(x, "ence", "ance", 3);
    SuffixFitsOwn(x, "ence");
    DropsOwn(x, "ence");
  }

  lemma Step4OnE(x: string)
    ensures Step4(x + "er") == Put(x, "er", "", 1)
  {
    hide M, Suffix, EndsWith;
    SuffixFitsOwn(x, "er");
    DropsOwn(x, "er");
  }

  lemma Step4OnI(x: string)
    ensures Step4(x + "ic") == Put(x, "ic", "", 1)
  {
    hide M, Suffix, EndsWith;
    SuffixFitsOwn(x, "ic");
    DropsOwn(x, "ic");
  }

  lemma Step4OnL(x: string)
    ensures Step4(x + "able") == Put(x, "able", "", 1)
    ensures Step4(x + "ible") == Put(x, "ible", "", 1)
  {
    hide M, Suffix, EndsWith;
    SuffixFitsOwn(x, "able");
    DropsOwn(x, "able");
    SuffixSkipped(x, "ible", "able", 3);
    SuffixFitsOwn(x, "ible");
    DropsOwn(x, "ible");
  }

  lemma Step4OnN(x: string)
    ensures Step4(x + "ant") == Put(x, "ant", "", 1)
    ensures Step4(x + "ement") == Put(x, "ement", "", 1)
    ensures !EndsWith(x, "e") ==> Step4(x + "ment") == Put(x, "ment", "", 1)
    ensures !EndsWith(x, "m") ==> Step4(x + "ent") == Put(x, "ent", "", 1)
  {
    hide *;
    Step4OnAnt(x);
    Step4OnEment(x);
    if !EndsWith(x, "e") {
      Step4OnMent(x);
    }
    if !EndsWith(x, "m") {
      Step4OnEnt(x);
    }
  }

  lemma Step4OnAnt(x: string)
    ensures Step4(x + "ant") == Put(x, "ant", "", 1)
  {
    hide M, Suffix, EndsWith;
    SuffixFitsOwn(x, "ant");
    DropsOwn(x, "ant");
  }

  lemma Step4OnEment(x: string)
    ensures Step4(x + "ement") == Put(x, "ement", "", 1)
  {
    hide M, Suffix, EndsWith;
    SuffixSkipped(x, "ement", "ant", 2);
    SuffixFitsOwn(x, "ement");
    DropsOwn(x, "ement");
  }

  lemma Step4OnMent(x: string)
    requires !EndsWith(x, "e")
    ensures Step4(x + "ment") == Put(x, "ment", "", 1)
  {
    hide M, Suffix, EndsWith;
    var w := x + "ment";
    SuffixSkipped(x, "ment", "ant", 2);
    LongerEnd(x, "ment", "ement");
    assert "ement"[..1] == "e";
    SuffixMissed(w, "ement");
    SuffixFitsOwn(x, "ment");
    DropsOwn(x, "ment");
  }

  lemma Step4OnEnt(x: string)
    requires !EndsWith(x, "m")
    ensures Step4(x + "ent") == Put(x, "ent", "", 1)
  {
    hide M, Suffix, EndsWith;
    var w := x + "ent";
    SuffixSkipped(x, "ent", "ant", 2);
    LongerEnd(x, "ent", "ement");
    assert "ement"[..2] == "em";
    EndsShorter(x, "em", "m");
    EmEndsM();
    SuffixMissed(w, "ement");
    LongerEnd(x, "ent", "ment");
    assert "ment"[..1] == "m";
    SuffixMissed(w, "ment");
    SuffixFitsOwn(x, "ent");
    DropsOwn(x, "ent");
  }

  lemma Step4OnS(x: string)
    ensures Step4(x + "ism") == Put(x, "ism", "", 1)
  {
    hide M, Suffix, EndsWith;
    SuffixFitsOwn(x, "ism");
    DropsOwn(x, "ism");
  }

  lemma Step4OnT(x: string)
    ensures Step4(x + "ate") == Put(x, "ate", "", 1)
    ensures Step4(x + "iti") == Put(x, "iti", "", 1)
  {
    hide M, Suffix, EndsWith;
    SuffixFitsOwn(x, "ate");
    DropsOwn(x, "ate");
    SuffixSkipped(x, "iti", "ate", 0);
    SuffixFitsOwn(x, "iti");
    DropsOwn(x, "iti");
  }

  lemma Step4OnU(x: string)
    ensures Step4(x + "ous") == Put(x, "ous", "", 1)
  {
    hide M, Suffix, EndsWith;
    SuffixFitsOwn(x, "ous");
    DropsOwn(x, "ous");
  }

  lemma Step4OnV(x: string)
    ensures Step4(x + "ive") == Put(x, "ive", "", 1)
  {
    hide M, Suffix, EndsWith;
    SuffixFitsOwn(x, "ive");
    DropsOwn(x, "ive");
  }

  lemma Step4OnZ(x: string)
    ensures Step4(x + "ize") == Put(x, "ize", "", 1)
  {
    hide M, Suffix, EndsWith;
    SuffixFitsOwn(x, "ize");
    DropsOwn(x, "ize");
  }

  lemma EmEndsM()
    ensures EndsWith("em", "m")
  {
  }

  lemma EndsShorter(x: string, s: string, t: string)
    requires EndsWith(s, t)
    ensures EndsWith(x, s) ==> EndsWith(x, t)
  {
    if EndsWith(x, s) {
      assert x[|x| - |t|..] == x[|x| - |s|..][|s| - |t|..];
    }
  }

  /** "ion" counts as an ending only after s or t. */
  lemma Step4OnIon(x: string)
    ensures Step4(x + "ion") == if EndsWith(x, "s") || EndsWith(x, "t") then Put(x, "ion", "", 1) else x + "ion"
  {
    hide M, Suffix;
    var w := x + "ion";
    Splits(x, "ion");
    SuffixSkipped(x, "ion", "ou", 0);
    assert |x| > 0 ==> w[|w| - 4] == x[|x| - 1] && x[|x| - 1..] == [x[|x| - 1]];
    if EndsWith(x, "s") || EndsWith(x, "t") {
      DropsOwn(x, "ion");
    }
  }

  lemma Step4OnOu(x: string)
    ensures Step4(x + "ou") == Put(x, "ou", "", 1)
  {
    hide M, Suffix, EndsWith;
    Clash(x, "ou", "ion", 0);
    SuffixFitsOwn(x, "ou");
    DropsOwn(x, "ou");
  }

  /** Step 4, line by line, for every stem x: the ending goes if the measure before it
      is above 1. */
  lemma Step4Lines(x: string)
    ensures Step4(x + "al") == Put(x, "al", "", 1)
    ensures Step4(x + "ance") == Put(x, "ance", "", 1)
    ensures Step4(x + "ence") == Put(x, "ence", "", 1)
    ensures Step4(x + "er") == Put(x, "er", "", 1)
    ensures Step4(x + "ic") == Put(x, "ic", "", 1)
    ensures Step4(x + "able") == Put(x, "able", "", 1)
    ensures Step4(x + "ible") == Put(x, "ible", "", 1)
    ensures Step4(x + "ant") == Put(x, "ant", "", 1)
    ensures Step4(x + "ement") == Put(x, "ement", "", 1)
    ensures !EndsWith(x, "e") ==> Step4(x + "ment") == Put(x, "ment", "", 1)
    ensures !EndsWith(x, "m") ==> Step4(x + "ent") == Put(x, "ent", "", 1)
    ensures Step4(x + "ion") == if EndsWith(x, "s") || EndsWith(x, "t") then Put(x, "ion", "", 1) else x + "ion"
    ensures Step4(x + "ou") == Put(x, "ou", "", 1)
    ensures Step4(x + "ism") == Put(x, "ism", "", 1)
    ensures Step4(x + "ate") == Put(x, "ate", "", 1)
    ensures Step4(x + "iti") == Put(x, "iti", "", 1)
    ensures Step4(x + "ous") == Put(x, "ous", "", 1)
    ensures Step4(x + "ive") == Put(x, "ive", "", 1)
    ensures Step4(x + "ize") == Put(x, "ize", "", 1)
  {
    hide *;
    Step4OnA(x);
    Step4OnC(x);
    Step4OnE(x);
    Step4OnI(x);
    Step4OnL(x);
    Step4OnN(x);
    Step4OnS(x);
    Step4OnT(x);
    Step4OnU(x);
    Step4OnV(x);
    Step4OnZ(x);
    Step4OnIon(x);
    Step4OnOu(x);
  }

  const STEP4_ENDINGS: seq<string> := [
    "al", "ance", "ence", "er", "ic", "able", "ible", "ant", "ement", "ment", "ent", "ion", "ou",
    "ism", "ate", "iti", "ous", "ive", "ize"]

  /** A word with no such ending is left as it is. */
  lemma Step4Otherwise(w: string)
    requires |w| >= 2 && forall i :: 0 <= i < |STEP4_ENDINGS| ==> !EndsWith(w, STEP4_ENDINGS[i])
    ensures Step4(w) == w
  {
    hide EndsWith, M;
    assert !EndsWith(w, "al") by { assert STEP4_ENDINGS[0] == "al"; }
    assert !EndsWith(w, "ance") by { assert STEP4_ENDINGS[1] == "ance"; }
    assert !EndsWith(w, "ence") by { assert STEP4_ENDINGS[2] == "ence"; }
    assert !EndsWith(w, "er") by { assert STEP4_ENDINGS[3] == "er"; }
    assert !EndsWith(w, "ic") by { assert STEP4_ENDINGS[4] == "ic"; }
    assert !EndsWith(w, "able") by { assert STEP4_ENDINGS[5] == "able"; }
    assert !EndsWith(w, "ible") by { assert STEP4_ENDINGS[6] == "ible"; }
    assert !EndsWith(w, "ant") by { assert STEP4_ENDINGS[7] == "ant"; }
    assert !EndsWith(w, "ement") by { assert STEP4_ENDINGS[8] == "ement"; }
    assert !EndsWith(w, "ment") by { assert STEP4_ENDINGS[9] == "ment"; }
    assert !EndsWith(w, "ent") by { assert STEP4_ENDINGS[10] == "ent"; }
    assert !EndsWith(w, "ion") by { assert STEP4_ENDINGS[11] == "ion"; }
    assert !EndsWith(w, "ou") by { assert STEP4_ENDINGS[12] == "ou"; }
    assert !EndsWith(w, "ism") by { assert STEP4_ENDINGS[13] == "ism"; }
    assert !EndsWith(w, "ate") by { assert STEP4_ENDINGS[14] == "ate"; }
    assert !EndsWith(w, "iti") by { assert STEP4_ENDINGS[15] == "iti"; }
    assert !EndsWith(w, "ous") by { assert STEP4_ENDINGS[16] == "ous"; }
    assert !EndsWith(w, "ive") by { assert STEP4_ENDINGS[17] == "ive"; }
    assert !EndsWith(w, "ize") by { assert STEP4_ENDINGS[18] == "ize"; }
  }

  // ----- steps 1a, 1b, 1c and 5 -----

  /** Plurals.  The last line is about every word that the first three are not. */
  lemma Step1aLines(x: string, w: string)
    ensures Step1a(x + "sses") == x + "ss"
    ensures Step1a(x + "ies") == x + "i"
    ensures Step1a(x + "ss") == x + "ss"
    ensures |x| >= 1 && !EndsWith(x, "sse") && !EndsWith(x, "ie") && !EndsWith(x, "s") ==> Step1a(x + "s") == x
    ensures |w| >= 2 && !EndsWith(w, "s") ==> Step1a(w) == w
  {
    Step1aPlurals(x);
    if |x| >= 1 {
      Step1aOnS(x);
    }
    if |w| >= 2 && !EndsWith(w, "s") {
      assert w[|w| - 1..] == [w[|w| - 1]];
    }
  }

  lemma Step1aPlurals(x: string)
    ensures Step1a(x + "sses") == x + "ss"
    ensures Step1a(x + "ies") == x + "i"
    ensures Step1a(x + "ss") == x + "ss"
  {
    hide EndsWith;
    Splits(x, "sses");
    assert Cut(x + "sses", 2) == x + "ss";
    Splits(x, "ies");
    Clash(x, "ies", "sses", 2);
    Clash(x, "ss", "sses", 1);
    Clash(x, "ss", "ies", 1);
  }

  lemma Step1aOnS(x: string)
    requires |x| >= 1
    ensures !EndsWith(x, "sse") && !EndsWith(x, "ie") && !EndsWith(x, "s") ==> Step1a(x + "s") == x
  {
    hide EndsWith;
    LongerEnd(x, "s", "sses");
    assert "sses"[..3] == "sse";
    LongerEnd(x, "s", "ies");
    assert "ies"[..2] == "ie";
    LastLetter(x, 's');
    Splits(x, "s");
  }

  lemma LastLetter(x: string, c: char)
    requires |x| >= 1
    ensures EndsWith(x, [c]) <==> x[|x| - 1] == c
  {
    assert x[|x| - 1..] == [x[|x| - 1]];
  }

  /** "eed", "ed" and "ing"; other words stay. */
  lemma Step1bLines(x: string, w: string)
    ensures Step1b(x + "eed") == Put(x, "eed", "ee", 0)
    ensures !EndsWith(x, "e") ==> Step1b(x + "ed") == if HasVowel(x) then Tidy(x) else x + "ed"
    ensures Step1b(x + "ing") == if HasVowel(x) then Tidy(x) else x + "ing"
    ensures !EndsWith(w, "ed") && !EndsWith(w, "ing") ==> Step1b(w) == w
  {
    hide EndsWith, M, HasVowel, Tidy;
    Splits(x, "eed");
    assert Cut(x + "eed", 1) == x + "ee";
    Splits(x, "ed");
    LongerEnd(x, "ed", "eed");
    assert "eed"[..1] == "e";
    Splits(x, "ing");
    Clash(x, "ing", "eed", 0);
    Clash(x, "ing", "ed", 0);
    EndsShorter(w, "eed", "ed");
    EedEndsEd();
  }

  lemma EedEndsEd()
    ensures EndsWith("eed", "ed")
  {
  }

  /** What follows the loss of "ed" or "ing". */
  lemma TidyLines(x: string, w: string, c: char)
    ensures Tidy(x + "at") == x + "ate" && Tidy(x + "bl") == x + "ble" && Tidy(x + "iz") == x + "ize"
    ensures Cons(x + [c, c], |x| + 1) ==> Tidy(x + [c, c]) == if c in "lsz" then x + [c, c] else x + [c]
    ensures !EndsWith(w, "at") && !EndsWith(w, "bl") && !EndsWith(w, "iz") && !DoubleC(w) ==>
      Tidy(w) == if M(w) == 1 && Cvc(w) then w + "e" else w
  {
    hide M, Cvc;
    TidyEndings(x);
    if Cons(x + [c, c], |x| + 1) {
      TidyDouble(x, c);
    }
  }

  lemma TidyEndings(x: string)
    ensures Tidy(x + "at") == x + "ate" && Tidy(x + "bl") == x + "ble" && Tidy(x + "iz") == x + "ize"
  {
    hide M, Cvc, DoubleC, EndsWith;
    Splits(x, "at");
    Splits(x, "bl");
    Splits(x, "iz");
    Clash(x, "bl", "at", 0);
    Clash(x, "iz", "at", 0);
    Clash(x, "iz", "bl", 0);
  }

  lemma TidyDouble(x: string, c: char)
    requires Cons(x + [c, c], |x| + 1)
    ensures Tidy(x + [c, c]) == if c in "lsz" then x + [c, c] else x + [c]
  {
    hide M, Cvc, Cons, EndsWith;
    var w := x + [c, c];
    assert Cut(w, 1) == x + [c];
    NotDouble(x, c, "at");
    NotDouble(x, c, "bl");
    NotDouble(x, c, "iz");
  }

  lemma NotDouble(x: string, c: char, t: string)
    requires |t| == 2 && t[0] != t[1]
    ensures !EndsWith(x + [c, c], t)
  {
    Clash(x, [c, c], t, if t[0] == c then 0 else 1);
  }

  /** The pattern behind a restored "e": consonant, vowel, consonant other than w, x
      and y. */
  lemma CvcExamples()
    ensures Cvc("cav") && Cvc("lov") && Cvc("hop") && Cvc("crim")
    ensures !Cvc("snow") && !Cvc("box") && !Cvc("tray")
    ensures !Cvc("op") && !Cvc("hoop") && !Cvc("hops") && !Cvc("hope")
  {
  }

  /** A final "y" becomes "i" after a vowel; other words stay. */
  lemma Step1cLines(x: string, w: string)
    ensures Step1c(x + "y") == if HasVowel(x) then x + "i" else x + "y"
    ensures !EndsWith(w, "y") ==> Step1c(w) == w
  {
    hide HasVowel, EndsWith;
    Splits(x, "y");
  }

  /** The two rules of step 5, a final "e" and a final double "l". */
  lemma Step5Lines(x: string, w: string)
    ensures Step5a(x + "e") == if M(x) > 0 && !Cvc(x) then x else x + "e"
    ensures M(x) > 0 && !Cvc(x) && !EndsWith(x, "ll") ==> Step5(x + "e") == x
    ensures Step5(x + "ll") == if M(x + "ll") > 1 then x + "l" else x + "ll"
    ensures |w| >= 1 && !EndsWith(w, "e") && !EndsWith(w, "ll") ==> Step5(w) == w
  {
    hide M, Cvc;
    Step5OnE(x);
    Step5OnLl(x);
    if |w| >= 1 && !EndsWith(w, "e") && !EndsWith(w, "ll") {
      assert w[|w| - 1..] == [w[|w| - 1]];
      SingleL(w);
    }
    if M(x) > 0 && !Cvc(x) && !EndsWith(x, "ll") {
      SingleL(x);
    }
  }

  lemma SingleL(w: string)
    ensures !EndsWith(w, "ll") ==> Step5b(w, M(w)) == w
    ensures !EndsWith(w, "ll") ==> forall m :: Step5b(w, m) == w
  {
    hide M, Cons;
    assert |w| >= 2 ==> w[|w| - 2..] == [w[|w| - 2], w[|w| - 1]];
  }

  lemma Step5OnE(x: string)
    ensures Step5a(x + "e") == if M(x) > 0 && !Cvc(x) then x else x + "e"
  {
    hide M, Cvc;
    Splits(x, "e");
    FinalVowel(x + "e");
  }

  lemma Step5OnLl(x: string)
    ensures Step5(x + "ll") == if M(x + "ll") > 1 then x + "l" else x + "ll"
  {
    hide M, Cvc;
    assert Cut(x + "ll", 1) == x + "l";
  }

  // ----- letters and the measure -----

  /** Five letters are vowels, and every other letter but y is a consonant. */
  lemma PlainLetters(b: string, i: nat)
    requires i < |b| && b[i] != 'y'
    ensures Cons(b, i) <==> b[i] !in "aeiou"
  {
  }

  /** A run of y alternates; it begins with a consonant at the start of the word and
      after a vowel. */
  lemma {:induction false} RunOfY(b: string, i: nat, n: nat)
    requires i + n < |b| && forall k :: i <= k <= i + n ==> b[k] == 'y'
    requires i > 0 ==> b[i - 1] != 'y'
    ensures Cons(b, i + n) <==> (n % 2 == 0 <==> i == 0 || b[i - 1] in "aeiou")
    decreases n
  {
    if n == 0 {
      if i > 0 {
        PlainLetters(b, i - 1);
      }
    } else {
      RunOfY(b, i, n - 1);
    }
  }

  ghost predicate AllCons(b: string, i: nat, j: nat)
    requires j <= |b|
  {
    forall k :: i <= k < j ==> Cons(b, k)
  }

  ghost predicate NoCons(b: string, i: nat, j: nat)
    requires j <= |b|
  {
    forall k :: i <= k < j ==> !Cons(b, k)
  }

  /** Consonants followed by vowels have measure 0... */
  lemma {:induction false} MeasureOfStart(b: string, i: nat, n: nat)
    requires i <= n <= |b| && AllCons(b, 0, i) && NoCons(b, i, n)
    ensures M(b[..n]) == 0
    decreases n
  {
    hide Cons;
    MeasureOfPrefix(b, n);
    if n >= 2 {
      MeasureOfStart(b, if i < n then i else n - 1, n - 1);
      MeasureOfPrefix(b, n - 1);
    }
  }

  /** ... every block of vowels followed by a block of consonants adds 1... */
  lemma {:induction false} MeasureOfBlock(b: string, i: nat, j: nat, n: nat)
    requires i < j < n <= |b| && NoCons(b, i, j) && AllCons(b, j, n) && (i > 0 ==> Cons(b, i - 1))
    ensures M(b[..n]) == M(b[..i]) + 1
    decreases n
  {
    hide Cons;
    MeasureOfPrefix(b, n);
    MeasureOfPrefix(b, n - 1);
    if n == j + 1 {
      MeasureOfEnd(b, i, j);
    } else {
      MeasureOfBlock(b, i, j, n - 1);
    }
  }

  /** ... and vowels at the end add nothing. */
  lemma {:induction false} MeasureOfEnd(b: string, i: nat, n: nat)
    requires i <= n <= |b| && NoCons(b, i, n)
    ensures M(b[..n]) == M(b[..i])
    decreases n
  {
    hide Cons;
    if i < n {
      MeasureOfPrefix(b, n);
      MeasureOfPrefix(b, n - 1);
      MeasureOfEnd(b, i, n - 1);
    }
  }

  // ----- no capitals -----

  ghost predicate NoCapitals(w: string) {
    forall i :: 0 <= i < |w| ==> !('A' <= w[i] <= 'Z')
  }

  lemma NoCapitalsParts(x: string, y: string)
    ensures NoCapitals(x + y) <==> NoCapitals(x) && NoCapitals(y)
  {
    assert forall i :: 0 <= i < |x| ==> (x + y)[i] == x[i];
    assert forall i :: 0 <= i < |y| ==> (x + y)[|x| + i] == y[i];
  }

  lemma NoCapitalsCut(w: string, n: nat)
    requires NoCapitals(w) && n <= |w|
    ensures NoCapitals(Cut(w, n))
  {
  }

  /** No step brings a capital letter into a word. */
  lemma StemHasNoCapitals(w: string)
    requires NoCapitals(w)
    ensures NoCapitals(Stem(w))
  {
    hide NoCapitals, Step1, Step1c, Step2, Step3, Step4, Step5;
    if |w| > 2 {
      Step1NoCapitals(w);
      Step1Bounds(w);
      var v := Step1(w);
      if |v| > 1 {
        Step1cBounds(v);
        Step1cNoCapitals(v);
        Step2Bounds(Step1c(v));
        Step2NoCapitals(Step1c(v));
        var u := Step2(Step1c(v));
        Step3Bounds(u);
        Step3NoCapitals(u);
        Step4Bounds(Step3(u));
        Step4NoCapitals(Step3(u));
        Step5NoCapitals(Step4(Step3(u)));
      }
    }
  }

  lemma ReplacedNoCapitals(w: string, n: nat, t: string)
    requires NoCapitals(w) && n <= |w| && NoCapitals(t)
    ensures NoCapitals(Cut(w, n) + t)
  {
    hide NoCapitals;
    NoCapitalsCut(w, n);
    NoCapitalsParts(Cut(w, n), t);
  }

  lemma TidyNoCapitals(w: string)
    requires NoCapitals(w)
    ensures NoCapitals(Tidy(w))
  {
    hide M, Cvc, NoCapitals;
    SmallNoCapitals();
    if |w| >= 2 {
      ReplacedNoCapitals(w, 2, "ate");
      ReplacedNoCapitals(w, 2, "ble");
      ReplacedNoCapitals(w, 2, "ize");
      NoCapitalsCut(w, 1);
    }
    NoCapitalsParts(w, "e");
  }

  lemma SmallNoCapitals()
    ensures NoCapitals("ate") && NoCapitals("ble") && NoCapitals("ize") && NoCapitals("e") && NoCapitals("i")
  {
  }

  lemma Step1aNoCapitals(w: string)
    requires NoCapitals(w) && |w| >= 2
    ensures NoCapitals(Step1a(w))
  {
    hide NoCapitals, EndsWith;
    SmallNoCapitals();
    SuffixLength(w, "ies");
    NoCapitalsCut(w, 1);
    NoCapitalsCut(w, 2);
    if |w| >= 3 {
      ReplacedNoCapitals(w, 3, "i");
    }
  }

  lemma Step1NoCapitals(w: string)
    requires NoCapitals(w) && |w| >= 2
    ensures NoCapitals(Step1(w))
  {
    hide NoCapitals, EndsWith, M, HasVowel, Tidy, Step1a;
    Step1aNoCapitals(w);
    var v := Step1a(w);
    SuffixLength(v, "eed");
    SuffixLength(v, "ed");
    SuffixLength(v, "ing");
    if |v| >= 2 {
      NoCapitalsCut(v, 1);
      NoCapitalsCut(v, 2);
      TidyNoCapitals(Cut(v, 2));
    }
    if |v| >= 3 {
      NoCapitalsCut(v, 3);
      TidyNoCapitals(Cut(v, 3));
    }
  }

  lemma Step1cNoCapitals(w: string)
    requires NoCapitals(w)
    ensures NoCapitals(Step1c(w))
  {
    hide NoCapitals, HasVowel;
    SmallNoCapitals();
    if |w| >= 1 {
      ReplacedNoCapitals(w, 1, "i");
    }
  }

  lemma RuleNoCapitals(w: string, s: string, t: string)
    requires NoCapitals(w) && NoCapitals(t)
    ensures forall otherwise :: NoCapitals(otherwise) ==> NoCapitals(Rule(w, s, t, otherwise))
  {
    hide M, NoCapitals;
    if EndsWith(w, s) {
      ReplacedNoCapitals(w, |s|, t);
    }
  }

  lemma Step2NoCapitals(w: string)
    requires NoCapitals(w) && |w| >= 2
    ensures NoCapitals(Step2(w))
  {
    hide Rule;
    RuleNoCapitals(w, "ational", "ate");
    RuleNoCapitals(w, "tional", "tion");
    RuleNoCapitals(w, "enci", "ence");
    RuleNoCapitals(w, "anci", "ance");
    RuleNoCapitals(w, "izer", "ize");
    RuleNoCapitals(w, "bli", "ble");
    RuleNoCapitals(w, "alli", "al");
    RuleNoCapitals(w, "entli", "ent");
    RuleNoCapitals(w, "eli", "e");
    RuleNoCapitals(w, "ousli", "ous");
    RuleNoCapitals(w, "ization", "ize");
    RuleNoCapitals(w, "ation", "ate");
    RuleNoCapitals(w, "ator", "ate");
    RuleNoCapitals(w, "alism", "al");
    RuleNoCapitals(w, "iveness", "ive");
    RuleNoCapitals(w, "fulness", "ful");
    RuleNoCapitals(w, "ousness", "ous");
    RuleNoCapitals(w, "aliti", "al");
    RuleNoCapitals(w, "iviti", "ive");
    RuleNoCapitals(w, "biliti", "ble");
    RuleNoCapitals(w, "logi", "log");
  }

  lemma Step3NoCapitals(w: string)
    requires NoCapitals(w) && |w| >= 2
    ensures NoCapitals(Step3(w))
  {
    hide Rule;
    RuleNoCapitals(w, "icate", "ic");
    RuleNoCapitals(w, "ative", "");
    RuleNoCapitals(w, "alize", "al");
    RuleNoCapitals(w, "iciti", "ic");
    RuleNoCapitals(w, "ical", "ic");
    RuleNoCapitals(w, "ful", "");
    RuleNoCapitals(w, "ness", "");
  }

  lemma Step4NoCapitals(w: string)
    requires NoCapitals(w) && |w| >= 2
    ensures NoCapitals(Step4(w))
  {
    hide M, NoCapitals, Step4Suffix;
    SuffixFits(w);
    NoCapitalsCut(w, Step4Suffix(w));
  }

  lemma Step5NoCapitals(w: string)
    requires NoCapitals(w) && |w| >= 2
    ensures NoCapitals(Step5(w))
  {
    hide M, NoCapitals, Cvc, DoubleC;
    NoCapitalsCut(w, 1);
    var v := Step5a(w);
    if |v| >= 1 {
      NoCapitalsCut(v, 1);
    }
  }
}
