/** The stemmer, step after step, on some words. */
module StemmerExamples {
  import opened Stemmer
  import opened StemmerRules

  lemma MeasureOfControll()
    ensures M("controll") == 2
  {
    assert Transitions("controll", 8) == 2;
  }

  lemma MeasureOfGa()
    ensures M("ga") == 0
  {
    assert Transitions("ga", 2) == 0;
  }

  lemma MeasureOfGener()
    ensures M("gener") == 2
  {
    assert Transitions("gener", 5) == 2;
  }

  lemma MeasureOfGeneral()
    ensures M("general") == 3
  {
    assert Transitions("general", 7) == 3;
  }

  lemma MeasureOfHappi()
    ensures M("happi") == 1
  {
    assert Transitions("happi", 5) == 1;
  }

  lemma MeasureOfOscill()
    ensures M("oscill") == 2
  {
    assert Transitions("oscill", 6) == 2;
  }

  lemma MeasureOfRel()
    ensures M("rel") == 1
  {
    assert Transitions("rel", 3) == 1;
  }

  lemma MeasureOfRelat()
    ensures M("relat") == 2
  {
    assert Transitions("relat", 5) == 2;
  }

  lemma MeasureOfRelate()
    ensures M("relate") == 2
  {
    assert Transitions("relate", 6) == 2;
  }

  /** The steps of a word that is not shorter than three letters, one after the other. */
  lemma Chain(w: string, w1: string, w1c: string, w2: string, w3: string, w4: string, w5: string)
    requires |w| > 2 && |w1| >= 2 && Step1(w) == w1 && Step1c(w1) == w1c
    requires |w1c| >= 2 && Step2(w1c) == w2 && |w2| >= 2 && Step3(w2) == w3
    requires |w3| >= 2 && Step4(w3) == w4 && |w4| >= 1 && Step5(w4) == w5
    ensures Stem(w) == w5
  {
    hide Step1, Step1c, Step2, Step3, Step4, Step5;
  }

  lemma Step1OfGas()
    ensures Step1("gas") == "ga"
  {
    hide M;
    assert Step1a("gas") == "ga";
    Step1bLines("", "ga");
    assert Step1b("ga") == "ga";
  }

  lemma Step1cOfGa()
    ensures Step1c("ga") == "ga"
  {
    hide M;
  }

  lemma Step2OfGa()
    ensures Step2("ga") == "ga"
  {
    hide M;
    assert Step2("ga") == "ga";
  }

  lemma Step3OfGa()
    ensures Step3("ga") == "ga"
  {
    hide M;
    assert Step3("ga") == "ga";
  }

  lemma Step4OfGa()
    ensures Step4("ga") == "ga"
  {
    hide M;
    assert Step4("ga") == "ga";
  }

  lemma Step5OfGa()
    ensures Step5("ga") == "ga"
  {
    hide M;
    MeasureOfGa();
  }

  lemma StemOfGas()
    ensures Stem("gas") == "ga"
  {
    hide *;
    Step1OfGas();
    Step1cOfGa();
    Step2OfGa();
    Step3OfGa();
    Step4OfGa();
    Step5OfGa();
    Chain("gas", "ga", "ga", "ga", "ga", "ga", "ga");
  }

  lemma Step1OfHappy()
    ensures Step1("happy") == "happy"
  {
    hide M;
    assert Step1a("happy") == "happy";
    Step1bLines("", "happy");
    assert Step1b("happy") == "happy";
  }

  lemma Step1cOfHappy()
    ensures Step1c("happy") == "happi"
  {
    hide M;
    assert !Cons("happ", 1);
    Step1cLines("happ", "");
    assert "happ" + "y" == "happy" && "happ" + "i" == "happi";
  }

  lemma Step2OfHappi()
    ensures Step2("happi") == "happi"
  {
    hide M;
    assert Step2("happi") == "happi";
  }

  lemma Step3OfHappi()
    ensures Step3("happi") == "happi"
  {
    hide M;
    assert Step3("happi") == "happi";
  }

  lemma Step4OfHappi()
    ensures Step4("happi") == "happi"
  {
    hide M;
    assert Step4("happi") == "happi";
  }

  lemma Step5OfHappi()
    ensures Step5("happi") == "happi"
  {
    hide M;
    MeasureOfHappi();
  }

  lemma StemOfHappy()
    ensures Stem("happy") == "happi"
  {
    hide *;
    Step1OfHappy();
    Step1cOfHappy();
    Step2OfHappi();
    Step3OfHappi();
    Step4OfHappi();
    Step5OfHappi();
    Chain("happy", "happy", "happi", "happi", "happi", "happi", "happi");
  }

  lemma Step1OfRelational()
    ensures Step1("relational") == "relational"
  {
    hide M;
    assert Step1a("relational") == "relational";
    Step1bLines("", "relational");
    assert Step1b("relational") == "relational";
  }

  lemma Step1cOfRelational()
    ensures Step1c("relational") == "relational"
  {
    hide M;
  }

  lemma Step2OfRelational()
    ensures Step2("relational") == "relate"
  {
    hide M;
    MeasureOfRel();
    Step2OnA("rel");
    assert "rel" + "ational" == "relational" && "rel" + "ate" == "relate";
    assert Step2("relational") == "relate";
  }

  lemma Step3OfRelate()
    ensures Step3("relate") == "relate"
  {
    hide M;
    assert Step3("relate") == "relate";
  }

  lemma Step4OfRelate()
    ensures Step4("relate") == "relate"
  {
    hide M;
    MeasureOfRel();
    Step4OnT("rel");
    assert "rel" + "ate" == "relate";
    assert Step4("relate") == "relate";
  }

  lemma Step5OfRelate()
    ensures Step5("relate") == "relate"
  {
    hide M;
    MeasureOfRelate();
    MeasureOfRelat();
    Step5OnE("relat");
    assert "relat" + "e" == "relate";
    SingleL("relate");
  }

  lemma StemOfRelational()
    ensures Stem("relational") == "relate"
  {
    hide *;
    Step1OfRelational();
    Step1cOfRelational();
    Step2OfRelational();
    Step3OfRelate();
    Step4OfRelate();
    Step5OfRelate();
    Chain("relational", "relational", "relational", "relate", "relate", "relate", "relate");
  }

  lemma Step1OfControlling()
    ensures Step1("controlling") == "controll"
  {
    hide M, Tidy, HasVowel, Step1b;
    assert Step1a("controlling") == "controlling";
    ControllHasVowel();
    Step1bLines("controll", "");
    assert "controll" + "ing" == "controlling";
    TidyOfControll();
  }

  lemma ControllHasVowel()
    ensures HasVowel("controll")
  {
    assert !Cons("controll", 1);
  }

  lemma TidyOfControll()
    ensures Tidy("controll") == "controll"
  {
    hide Tidy;
    TidyDouble("contro", 'l');
    assert "contro" + ['l', 'l'] == "controll";
  }

  lemma Step1cOfControll()
    ensures Step1c("controll") == "controll"
  {
    hide M;
  }

  lemma Step2OfControll()
    ensures Step2("controll") == "controll"
  {
    hide M;
    assert Step2("controll") == "controll";
  }

  lemma Step3OfControll()
    ensures Step3("controll") == "controll"
  {
    hide M;
    assert Step3("controll") == "controll";
  }

  lemma Step4OfControll()
    ensures Step4("controll") == "controll"
  {
    hide M;
    assert Step4("controll") == "controll";
  }

  lemma Step5OfControll()
    ensures Step5("controll") == "control"
  {
    hide M;
    MeasureOfControll();
    Step5OnLl("contro");
    assert "contro" + "ll" == "controll" && "contro" + "l" == "control";
  }

  lemma StemOfControlling()
    ensures Stem("controlling") == "control"
  {
    hide *;
    Step1OfControlling();
    Step1cOfControll();
    Step2OfControll();
    Step3OfControll();
    Step4OfControll();
    Step5OfControll();
    Chain("controlling", "controll", "controll", "controll", "controll", "controll", "control");
  }

  lemma Step1OfGeneralizations()
    ensures Step1("generalizations") == "generalization"
  {
    hide M;
    assert Step1a("generalizations") == "generalization";
    Step1bLines("", "generalization");
    assert Step1b("generalization") == "generalization";
  }

  lemma Step1cOfGeneralization()
    ensures Step1c("generalization") == "generalization"
  {
    hide M;
  }

  lemma Step2OfGeneralization()
    ensures Step2("generalization") == "generalize"
  {
    hide M;
    MeasureOfGeneral();
    Step2OnO("general");
    assert "general" + "ization" == "generalization" && "general" + "ize" == "generalize";
    assert Step2("generalization") == "generalize";
  }

  lemma Step3OfGeneralize()
    ensures Step3("generalize") == "general"
  {
    hide M;
    MeasureOfGener();
    Step3OnE("gener");
    assert "gener" + "alize" == "generalize" && "gener" + "al" == "general";
    assert Step3("generalize") == "general";
  }

  lemma Step4OfGeneral()
    ensures Step4("general") == "gener"
  {
    hide M;
    MeasureOfGener();
    Step4OnA("gener");
    assert "gener" + "al" == "general" && "gener" + "" == "gener";
    assert Step4("general") == "gener";
  }

  lemma Step5OfGener()
    ensures Step5("gener") == "gener"
  {
    hide M;
    MeasureOfGener();
  }

  lemma StemOfGeneralizations()
    ensures Stem("generalizations") == "gener"
  {
    hide *;
    Step1OfGeneralizations();
    Step1cOfGeneralization();
    Step2OfGeneralization();
    Step3OfGeneralize();
    Step4OfGeneral();
    Step5OfGener();
    Chain("generalizations", "generalization", "generalization", "generalize", "general", "gener", "gener");
  }

  lemma Step1OfOscillators()
    ensures Step1("oscillators") == "oscillator"
  {
    hide M;
    assert Step1a("oscillators") == "oscillator";
    Step1bLines("", "oscillator");
    assert Step1b("oscillator") == "oscillator";
  }

  lemma Step1cOfOscillator()
    ensures Step1c("oscillator") == "oscillator"
  {
    hide M;
  }

  lemma Step2OfOscillator()
    ensures Step2("oscillator") == "oscillate"
  {
    hide M;
    MeasureOfOscill();
    Step2OnO("oscill");
    assert "oscill" + "ator" == "oscillator" && "oscill" + "ate" == "oscillate";
    assert Step2("oscillator") == "oscillate";
  }

  lemma Step3OfOscillate()
    ensures Step3("oscillate") == "oscillate"
  {
    hide M;
    assert Step3("oscillate") == "oscillate";
  }

  lemma Step4OfOscillate()
    ensures Step4("oscillate") == "oscill"
  {
    hide M;
    MeasureOfOscill();
    Step4OnT("oscill");
    assert "oscill" + "ate" == "oscillate" && "oscill" + "" == "oscill";
    assert Step4("oscillate") == "oscill";
  }

  lemma Step5OfOscill()
    ensures Step5("oscill") == "oscil"
  {
    hide M;
    MeasureOfOscill();
    Step5OnLl("osci");
    assert "osci" + "ll" == "oscill" && "osci" + "l" == "oscil";
  }

  lemma StemOfOscillators()
    ensures Stem("oscillators") == "oscil"
  {
    hide *;
    Step1OfOscillators();
    Step1cOfOscillator();
    Step2OfOscillator();
    Step3OfOscillate();
    Step4OfOscillate();
    Step5OfOscill();
    Chain("oscillators", "oscillator", "oscillator", "oscillate", "oscillate", "oscill", "oscil");
  }

  lemma ShortStem(w: string)
    requires |w| <= 2
    ensures Stem(w) == w
  {
  }

  /** One word for every step: a plural, a final y, "ational", "ing" and a double l, a plural and
      the endings of steps 2, 3 and 4, and the same with step 5. */
  lemma StemExamples()
    ensures Stem("gas") == "ga"
    ensures Stem("happy") == "happi"
    ensures Stem("relational") == "relate"
    ensures Stem("controlling") == "control"
    ensures Stem("generalizations") == "gener"
    ensures Stem("oscillators") == "oscil"
    ensures Stem("as") == "as"
  {
    ShortStem("as");
    hide *;
    StemOfGas();
    StemOfHappy();
    StemOfRelational();
    StemOfControlling();
    StemOfGeneralizations();
    StemOfOscillators();
  }
}
