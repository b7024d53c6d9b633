/** The integer/string codec of the server: decimal text of 64-bit integers. */
module Decimal {
  import opened Common

  const ULLONG_MAX: nat := 0xFFFF_FFFF_FFFF_FFFF
  const LLONG_MAX: int := 0x7FFF_FFFF_FFFF_FFFF
  const LLONG_MIN: int := -0x8000_0000_0000_0000

  predicate InRange(v: int) {
    LLONG_MIN <= v <= LLONG_MAX
  }

  // ----- the reference: decimal notation -----

  function DigitChar(d: nat): char
    requires d < 10
  {
    '0' + d as char
  }

  predicate IsDigit(c: char) {
    '0' <= c <= '9'
  }

  function DigitOf(c: char): nat
    requires IsDigit(c)
  {
    (c - '0') as nat
  }

  function Digits(v: nat): (s: string) {
    if v < 10 then [DigitChar(v)] else Digits(v / 10) + [DigitChar(v % 10)]
  }

  /** The decimal text of an integer. */
  function Text(v: int): string {
    if v < 0 then "-" + Digits(-v) else Digits(v)
  }

  ghost predicate AllDigits(s: string) {
    forall i :: 0 <= i < |s| ==> IsDigit(s[i])
  }

  /** The number a digit string denotes. */
  ghost function Value(s: string): nat
    requires AllDigits(s)
  {
    if s == [] then 0 else 10 * Value(s[..|s| - 1]) + DigitOf(s[|s| - 1])
  }

  lemma {:induction false} DigitsDenote(v: nat)
    ensures |Digits(v)| >= 1 && AllDigits(Digits(v)) && Value(Digits(v)) == v
    ensures v != 0 ==> Digits(v)[0] != '0'
    ensures Digits(v)[0] == '0' ==> |Digits(v)| == 1
  {
    var s := Digits(v);
    if v < 10 {
      assert s[..|s| - 1] == [];
    } else {
      DigitsDenote(v / 10);
      assert s[..|s| - 1] == Digits(v / 10);
    }
  }

  lemma {:induction false} ValueGrows(s: string, t: string)
    requires AllDigits(s + t)
    ensures AllDigits(s) && Value(s) <= Value(s + t)
    decreases |t|
  {
    forall i | 0 <= i < |s| ensures IsDigit(s[i]) { assert (s + t)[i] == s[i]; }
    if t == [] {
      assert s + t == s;
    } else {
      var n := |t| - 1;
      assert (s + t)[..|s + t| - 1] == s + t[..n];
      forall i | 0 <= i < |s + t[..n]| ensures IsDigit((s + t[..n])[i]) {
        assert (s + t)[i] == (s + t[..n])[i];
      }
      ValueGrows(s, t[..n]);
    }
  }

  /** Different integers have different texts. */
  lemma TextIsInjective(v: int, w: int)
    requires Text(v) == Text(w)
    ensures v == w
  {
    DigitsDenote(if v < 0 then -v else v);
    DigitsDenote(if w < 0 then -w else w);
    assert Text(v)[0] == Text(w)[0];
    if v < 0 {
      assert Text(v)[1..] == Digits(-v) && Text(w)[1..] == Digits(-w);
    }
  }

  // ----- digits10 -----

  function Pow10(n: nat): nat {
    if n == 0 then 1 else 10 * Pow10(n - 1)
  }

  lemma {:induction false} DigitsBound(v: nat)
    ensures |Digits(v)| >= 1
    ensures v < Pow10(|Digits(v)|)
    ensures v >= 10 ==> v >= Pow10(|Digits(v)| - 1)
    decreases v
  {
    if v >= 10 {
      DigitsBound(v / 10);
    } else {
      assert Pow10(1) == 10;
    }
  }

  lemma {:induction false} Pow10Grows(m: nat, n: nat)
    requires m <= n
    ensures Pow10(m) <= Pow10(n)
    decreases n
  {
    if m < n {
      Pow10Grows(m, n - 1);
    }
  }

  lemma DigitCount(v: nat, n: nat)
    requires n >= 1 && v < Pow10(n) && (n > 1 ==> v >= Pow10(n - 1))
    ensures |Digits(v)| == n
  {
    DigitsBound(v);
    var m := |Digits(v)|;
    if m < n {
      Pow10Grows(m, n - 1);
    } else if n < m {
      Pow10Grows(n, m - 1);
    }
  }

  /** v without its n last digits. */
  function Drop(v: nat, n: nat): nat {
    if n == 0 then v else Drop(v / 10, n - 1)
  }

  lemma {:induction false} DropDigits(v: nat, n: nat)
    requires v >= Pow10(n)
    ensures |Digits(v)| == n + |Digits(Drop(v, n))|
    decreases n
  {
    if n > 0 {
      Pow10Grows(0, n - 1);
      DropDigits(v / 10, n - 1);
    }
  }

  lemma DropThree(v: nat, n: nat)
    ensures Drop(v, n + 3) == Drop(v / 1000, n)
  {
    assert Drop(v, n + 3) == Drop(v / 10, n + 2) == Drop(v / 10 / 10, n + 1) == Drop(v / 10 / 10 / 10, n);
  }

  lemma DropTwelve(v: nat)
    ensures Drop(v, 12) == v / 1000000000000
  {
    DropThree(v, 9);
    DropThree(v / 1000, 6);
    DropThree(v / 1000 / 1000, 3);
    DropThree(v / 1000 / 1000 / 1000, 0);
  }

  /** Number of digits of v in radix 10, by the source's thresholds. */
  function Digits10(v: nat): (n: nat)
    ensures n == |Digits(v)|
  {
    if v < 10 then DigitCount(v, 1); 1
    else if v < 100 then DigitCount(v, 2); 2
    else if v < 1000 then DigitCount(v, 3); 3
    else if v < 1000000000000 then
      if v < 100000000 then
        if v < 1000000 then
          if v < 10000 then DigitCount(v, 4); 4
          else
            5 + if v >= 100000 then DigitCount(v, 6); 1 else DigitCount(v, 5); 0
        else
          7 + if v >= 10000000 then DigitCount(v, 8); 1 else DigitCount(v, 7); 0
      else if v < 10000000000 then
        9 + if v >= 1000000000 then DigitCount(v, 10); 1 else DigitCount(v, 9); 0
      else
        11 + if v >= 100000000000 then DigitCount(v, 12); 1 else DigitCount(v, 11); 0
    else
      assert Pow10(12) == 1000000000000;
      DropDigits(v, 12);
      DropTwelve(v);
      12 + Digits10(v / 1000000000000)
  }

  /** Like Digits10 but for signed values. */
  function SDigits10(v: int): (n: nat)
    ensures n == |Text(v)|
  {
    if v < 0 then Digits10(-v) + 1 else Digits10(v)
  }

  // ----- ll2string -----

  /** The source's table of two-digit texts, line by line. */
  const PAIRS0: string := "0001020304050607080910111213141516171819"
  const PAIRS1: string := "2021222324252627282930313233343536373839"
  const PAIRS2: string := "4041424344454647484950515253545556575859"
  const PAIRS3: string := "6061626364656667686970717273747576777879"
  const PAIRS4: string := "8081828384858687888990919293949596979899"
  const DIGIT_PAIRS: string := PAIRS0 + PAIRS1 + PAIRS2 + PAIRS3 + PAIRS4

  ghost predicate Pair(s: string, at: nat, i: nat) {
    at + 1 < |s| && i < 100 && s[at] == DigitChar(i / 10) && s[at + 1] == DigitChar(i % 10)
  }

  lemma Pairs0(i: nat)
    requires 0 <= i < 20
    ensures Pair(PAIRS0, 2 * i - 0, i)
  {
  }

  lemma Pairs1(i: nat)
    requires 20 <= i < 40
    ensures Pair(PAIRS1, 2 * i - 40, i)
  {
  }

  lemma Pairs2(i: nat)
    requires 40 <= i < 60
    ensures Pair(PAIRS2, 2 * i - 80, i)
  {
  }

  lemma Pairs3(i: nat)
    requires 60 <= i < 80
    ensures Pair(PAIRS3, 2 * i - 120, i)
  {
  }

  lemma Pairs4(i: nat)
    requires 80 <= i < 100
    ensures Pair(PAIRS4, 2 * i - 160, i)
  {
  }

  lemma PairJoin(s: string, t: string, at: nat, i: nat)
    ensures Pair(s, at, i) ==> Pair(s + t, at, i)
    ensures Pair(t, at, i) ==> Pair(s + t, |s| + at, i)
  {
  }

  lemma PairLengths()
    ensures |PAIRS0| == |PAIRS1| == |PAIRS2| == |PAIRS3| == |PAIRS4| == 40
  {
  }

  lemma PairTable(i: nat)
    requires i < 100
    ensures Pair(DIGIT_PAIRS, 2 * i, i)
  {
    hide Pair, PAIRS0, PAIRS1, PAIRS2, PAIRS3, PAIRS4;
    PairLengths();
    if i < 20 { Pairs0(i); }
    else if i < 40 { Pairs1(i); }
    else if i < 60 { Pairs2(i); }
    else if i < 80 { Pairs3(i); }
    else { Pairs4(i); }
    var t := PAIRS0 + PAIRS1;
    PairJoin(PAIRS0, PAIRS1, 2 * i, i);
    PairJoin(t, PAIRS2, 2 * i, i);
    PairJoin(t + PAIRS2, PAIRS3, 2 * i, i);
    PairJoin(t + PAIRS2 + PAIRS3, PAIRS4, 2 * i, i);
    if i >= 20 { PairJoin(PAIRS0, PAIRS1, 2 * i - 40, i); }
    if i >= 40 { PairJoin(t, PAIRS2, 2 * i - 80, i); }
    if i >= 60 { PairJoin(t + PAIRS2, PAIRS3, 2 * i - 120, i); }
    if i >= 80 { PairJoin(t + PAIRS2 + PAIRS3, PAIRS4, 2 * i - 160, i); }
  }

  /** The absolute value as the source computes it in unsigned 64-bit. */
  function Magnitude(v: int): nat
    requires InRange(v)
  {
    if v < 0 then (if v != LLONG_MIN then -v else LLONG_MAX + 1) else v
  }

  /** ll2string: 0 if the buffer is too small, else the length of the text
      written, which is followed by a NUL. */
  method LL2String(dst: array<char>, dstlen: nat, svalue: int) returns (length: nat)
    requires InRange(svalue) && dstlen <= dst.Length
    modifies dst
    ensures |Text(svalue)| >= dstlen ==> length == 0 && dst[..] == old(dst[..])
    ensures |Text(svalue)| < dstlen ==>
      && length == |Text(svalue)| && dst[..length] == Text(svalue) && dst[length] == '\0'
      && dst[length + 1..] == old(dst[length + 1..])
  {
    hide Digits, Text;
    var negative := if svalue < 0 then 1 else 0;
    var value := Magnitude(svalue);
    length := Digits10(value) + negative;
    TextLength(svalue);
    if length >= dstlen {
      return 0;
    }
    dst[length] := '\0';
    FillDigits(dst, value, negative, length);
    if negative == 1 {
      dst[0] := '-';
    }
    assert dst[..length] == dst[..negative] + dst[negative..length];
  }

  /** Two digits at a time, from the back: every position of the number is
      written once, and no other. */
  method FillDigits(dst: array<char>, v: nat, start: nat, end: nat)
    requires end <= dst.Length && end == start + |Digits(v)|
    modifies dst
    ensures dst[start..end] == Digits(v)
    ensures dst[..start] == old(dst[..start]) && dst[end..] == old(dst[end..])
  {
    hide Digits;
    ghost var whole := dst[..];
    var value, next, tail := FillPairs(dst, v, start, end);
    LastDigits(value);
    assert dst[..next + 1] == whole[..next + 1] && dst[next + 1..end] == tail;
    if value < 10 {
      dst[next] := '0' + value as char;
    } else {
      PutPair(dst, next - 1, value);
    }
    assert dst[start..end] == Digits(value) + dst[next + 1..end];
  }

  /** The main loop: all but the first one or two digits. */
  method FillPairs(dst: array<char>, v: nat, start: nat, end: nat)
    returns (value: nat, next: nat, ghost tail: string)
    requires end <= dst.Length && end == start + |Digits(v)|
    modifies dst
    ensures value < 100 && start + |Digits(value)| == next + 1 && next + 1 + |tail| == end
    ensures Digits(value) + tail == Digits(v)
    ensures dst[..] == old(dst[..])[..next + 1] + tail + old(dst[..])[end..]
  {
    hide Digits, PairText, Filled;
    value := v;
    DigitsDenote(value);
    next := end - 1;
    tail := [];
    ghost var whole := dst[..];
    NothingFilled(whole, end);
    while value >= 100
      invariant next + 1 == start + |Digits(value)|
      invariant Digits(value) + tail == Digits(v) && next + 1 + |tail| == end
      invariant Filled(dst[..], whole, next + 1, tail)
    {
      FewerDigits(value, tail);
      PutNextPair(dst, whole, next, tail, value % 100);
      tail := PairText(value % 100) + tail;
      value := value / 100;
      next := next - 2;
    }
    DigitsDenote(value);
    FilledMeans(dst[..], whole, next + 1, tail);
  }

  /** The tail stands from position n on, and the rest is as it was. */
  ghost predicate Filled(s: string, whole: string, n: nat, tail: string) {
    n + |tail| <= |whole| && s == whole[..n] + tail + whole[n + |tail|..]
  }

  lemma NothingFilled(whole: string, end: nat)
    requires end <= |whole|
    ensures Filled(whole, whole, end, [])
  {
  }

  lemma FilledMeans(s: string, whole: string, n: nat, tail: string)
    requires Filled(s, whole, n, tail)
    ensures n + |tail| <= |whole| && s == whole[..n] + tail + whole[n + |tail|..]
  {
  }

  method PutNextPair(dst: array<char>, ghost whole: string, next: nat, ghost tail: string, i: nat)
    requires Filled(dst[..], whole, next + 1, tail) && next >= 1 && i < 100
    modifies dst
    ensures Filled(dst[..], whole, next - 1, PairText(i) + tail)
  {
    hide PairText;
    PairPut(whole, next + 1, tail, whole[next + 1 + |tail|..], i);
    PutPair(dst, next - 1, i);
  }

  /** The two digits of a number below 100. */
  function PairText(i: nat): (s: string)
    requires i < 100
    ensures |s| == 2
  {
    [DigitChar(i / 10), DigitChar(i % 10)]
  }

  lemma FewerDigits(value: nat, tail: string)
    requires value >= 100
    ensures |Digits(value)| == |Digits(value / 100)| + 2 && |Digits(value / 100)| >= 1
    ensures Digits(value) + tail == Digits(value / 100) + (PairText(value % 100) + tail)
  {
    hide Digits, DigitChar;
    TwoDigits(value);
    DigitsDenote(value / 100);
    var pair := PairText(value % 100);
    assert Digits(value / 100) + pair + tail == Digits(value / 100) + (pair + tail);
  }

  method PutPair(dst: array<char>, at: nat, i: nat)
    requires i < 100 && at + 1 < dst.Length
    modifies dst
    ensures dst[..] == old(dst[..])[at := PairText(i)[0]][at + 1 := PairText(i)[1]]
  {
    hide DIGIT_PAIRS;
    PairTable(i);
    dst[at + 1] := DIGIT_PAIRS[2 * i + 1];
    dst[at] := DIGIT_PAIRS[2 * i];
  }

  lemma PairPut(whole: string, n: nat, tail: string, rest: string, i: nat)
    requires 2 <= n <= |whole| && i < 100
    ensures (whole[..n] + tail + rest)[n - 2 := PairText(i)[0]][n - 1 := PairText(i)[1]]
         == whole[..n - 2] + (PairText(i) + tail) + rest
  {
    hide DigitChar;
  }

  lemma TextLength(v: int)
    requires InRange(v)
    ensures Text(v) == (if v < 0 then "-" else "") + Digits(Magnitude(v))
    ensures |Digits(Magnitude(v))| >= 1
  {
    assert "" + Digits(Magnitude(v)) == Digits(Magnitude(v));
  }

  lemma LastDigits(v: nat)
    requires v < 100
    ensures Digits(v) == if v < 10 then [DigitChar(v)] else [DigitChar(v / 10), DigitChar(v % 10)]
  {
  }

  lemma TwoDigits(v: nat)
    requires v >= 100
    ensures Digits(v) == Digits(v / 100) + [DigitChar(v % 100 / 10), DigitChar(v % 100 % 10)]
  {
    assert v / 10 / 10 == v / 100;
    assert v / 10 % 10 == v % 100 / 10;
    assert v % 100 % 10 == v % 10;
    assert Digits(v) == Digits(v / 10) + [DigitChar(v % 10)];
    assert Digits(v / 10) == Digits(v / 100) + [DigitChar(v / 10 % 10)];
  }

  // ----- string2ll -----

  function SignLength(s: string): nat {
    if s != [] && s[0] == '-' then 1 else 0
  }

  /** An optional sign, then digits without a leading zero, or just "0". */
  ghost predicate Canonical(s: string) {
    var start := SignLength(s);
    && start < |s|
    && (forall i :: start <= i < |s| ==> IsDigit(s[i]))
    && (s[start] == '0' ==> s == "0")
  }

  lemma TextIsCanonical(w: int)
    ensures Canonical(Text(w))
    ensures SignLength(Text(w)) == if w < 0 then 1 else 0
    ensures Text(w)[SignLength(Text(w))..] == Digits(if w < 0 then -w else w)
  {
    DigitsDenote(if w < 0 then -w else w);
    if w < 0 {
      assert forall i :: 1 <= i < |Text(w)| ==> Text(w)[i] == Digits(-w)[i - 1];
    } else {
      assert IsDigit(Digits(w)[0]);
    }
  }

  lemma NoText(s: string)
    requires !Canonical(s)
    ensures forall w :: s != Text(w)
  {
    forall w ensures s != Text(w) {
      TextIsCanonical(w);
    }
  }

  lemma UniqueText(s: string, v: int)
    requires s == Text(v)
    ensures forall w :: s == Text(w) ==> w == v
  {
    forall w | s == Text(w) ensures w == v {
      TextIsInjective(v, w);
    }
  }

  /** A digit string starting with the digits of v, then c, denotes at least
      10 * v + c. */
  lemma TooBig(s: string, plen: nat, v: nat)
    requires SignLength(s) < plen < |s| && IsDigit(s[plen])
    requires s[SignLength(s)..plen] == Digits(v)
    requires 10 * v + DigitOf(s[plen]) > ULLONG_MAX
    ensures forall w :: InRange(w) ==> s != Text(w)
  {
    hide Text, Digits;
    forall w | InRange(w) ensures s != Text(w) {
      if s == Text(w) {
        TextIsCanonical(w);
        HeadValue(s[SignLength(s)..], plen - SignLength(s), if w < 0 then -w else w, v);
      }
    }
  }

  lemma HeadValue(s: string, n: nat, m: nat, v: nat)
    requires n < |s| && s == Digits(m) && s[..n] == Digits(v) && IsDigit(s[n])
    ensures m >= 10 * v + DigitOf(s[n])
  {
    hide Digits;
    DigitsDenote(m);
    DigitsDenote(v);
    var head, tail := s[..n + 1], s[n + 1..];
    assert s == head + tail;
    ValueGrows(head, tail);
    assert head[..|head| - 1] == Digits(v);
  }

  /** The 64-bit integer whose text s is, if any. */
  ghost function Reads(s: string): (r: Option<int>)
    ensures r.Some? ==> InRange(r.value) && s == Text(r.value)
    ensures forall w :: InRange(w) && s == Text(w) ==> r == Some(w)
  {
    if w :| InRange(w) && s == Text(w) then (UniqueText(s, w); Some(w)) else None
  }

  /** string2ll: succeeds with v exactly on the text of v. */
  method String2LL(s: string) returns (r: Option<int>)
    ensures r == Reads(s)
    ensures r.Some? ==> -0x8000_0000_0000_0000 <= r.value <= 0x7FFF_FFFF_FFFF_FFFF && s == Text(r.value)
    ensures r == None ==> forall v: int :: -0x8000_0000_0000_0000 <= v <= 0x7FFF_FFFF_FFFF_FFFF ==> s != Text(v)
  {
    hide Digits, Text;
    var plen := 0;
    if plen == |s| {
      NoText(s);
      return None;
    }
    if |s| == 1 && s[0] == '0' {
      OneDigit(s[0]);
      UniqueText(s, 0);
      return Some(0);
    }
    var negative := false;
    if s[0] == '-' {
      negative := true;
      plen := 1;
      if plen == |s| {
        NoText(s);
        return None;
      }
    }
    ghost var start := plen;
    var v: nat;
    if '1' <= s[plen] <= '9' {
      v := (s[plen] - '0') as nat;
      OneDigit(s[plen]);
      assert s[plen..plen + 1] == [s[plen]];
      plen := plen + 1;
    } else {
      NoText(s);
      return None;
    }
    while plen < |s| && '0' <= s[plen] <= '9'
      invariant start == SignLength(s) < plen <= |s|
      invariant 0 < v <= ULLONG_MAX
      invariant s[start..plen] == Digits(v)
    {
      if v > ULLONG_MAX / 10 {
        TooBig(s, plen, v);
        return None;
      }
      var tens := v * 10;
      assert tens <= ULLONG_MAX;
      if tens > ULLONG_MAX - (s[plen] - '0') as nat {
        TooBig(s, plen, v);
        return None;
      }
      assert s[start..plen + 1] == s[start..plen] + [s[plen]];
      NextDigit(v, s[plen]);
      v := tens + (s[plen] - '0') as nat;
      plen := plen + 1;
    }
    if plen < |s| {
      NoText(s);
      return None;
    }
    assert s[start..] == s[start..plen];
    SignedText(s, v);
    if negative {
      var w: int := 0 - v;
      UniqueText(s, w);
      if v > LLONG_MAX + 1 {
        return None;
      }
      r := Some(w);
    } else {
      UniqueText(s, v);
      if v > LLONG_MAX {
        return None;
      }
      r := Some(v);
    }
  }

  lemma OneDigit(c: char)
    requires IsDigit(c)
    ensures Digits(DigitOf(c)) == [c] && Text(DigitOf(c)) == [c]
  {
    assert DigitChar(DigitOf(c)) == c;
  }

  lemma SignedText(s: string, v: nat)
    requires SignLength(s) <= |s| && s[SignLength(s)..] == Digits(v)
    requires SignLength(s) == 1 ==> v > 0
    ensures s == Text(if SignLength(s) == 1 then 0 - v else v)
  {
    if SignLength(s) == 1 {
      assert s == "-" + s[1..];
    }
  }

  lemma NextDigit(v: nat, c: char)
    requires v > 0 && IsDigit(c)
    ensures Digits(10 * v + DigitOf(c)) == Digits(v) + [c]
  {
    var w := 10 * v + DigitOf(c);
    assert w / 10 == v && w % 10 == DigitOf(c);
    assert DigitChar(DigitOf(c)) == c;
  }
}
