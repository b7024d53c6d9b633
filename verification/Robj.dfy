/** String objects and their encodings. */
module Robj {
  import opened Decimal

  const EMBSTR_SIZE_LIMIT: nat := 44
  const SHARED_INTEGERS: int := 10000
  const SHARED_REFCOUNT: int := 0x7FFF_FFFF

  /** A string object: the bytes as a separate string or embedded in the object,
      or a 64-bit integer standing for its decimal text. */
  datatype Object =
    | Raw(s: string, refcount: int)
    | Embstr(s: string, refcount: int)
    | Int(v: int, refcount: int)
  {
    predicate SdsEncoded() {
      Raw? || Embstr?
    }

    predicate Valid() {
      Int? ==> InRange(v)
    }

    /** The string that the object denotes. */
    function Denotes(): string {
      if Int? then Text(v) else s
    }
  }

  /** The text of a 64-bit integer has at most 20 characters. */
  lemma TextIsShort(v: int)
    requires InRange(v)
    ensures 1 <= |Text(v)| <= 20
  {
    var m := if v < 0 then -v else v;
    DigitsBound(m);
    assert Pow10(10) == 10000000000;
    assert Pow10(19) == 1000000000 * Pow10(10);
    if |Digits(m)| > 19 {
      Pow10Grows(19, |Digits(m)| - 1);
    }
  }

  /** tryObjectEncoding.  The encoding is unobservable; and an unshared object
      ends up integer-encoded exactly when its string is the decimal text of a
      64-bit integer, although only strings of up to 21 bytes are tried. */
  method TryObjectEncoding(o: Object, noMaxMemory: bool) returns (r: Object)
    requires o.Valid()
    ensures r.Valid() && r.Denotes() == o.Denotes()
    ensures o.SdsEncoded() && o.refcount <= 1 ==> (r.Int? <==> exists v :: InRange(v) && o.s == Text(v))
    ensures o.SdsEncoded() && o.refcount <= 1 && r.Int? ==>
      r.refcount == if noMaxMemory && 0 <= r.v < 10000 then 0x7FFF_FFFF else o.refcount
    ensures o.SdsEncoded() && o.refcount <= 1 && !r.Int? ==>
      r == if |o.s| <= 44 && o.Raw? then Embstr(o.s, 1) else o
    ensures !o.SdsEncoded() || o.refcount > 1 ==> r == o
  {
    hide Text;
    if !o.SdsEncoded() {
      return o;
    }
    if o.refcount > 1 {
      return o;
    }
    var len := |o.s|;
    if len <= 21 {
      var value := String2LL(o.s);
      if value.Some? {
        if noMaxMemory && 0 <= value.value < SHARED_INTEGERS {
          return Int(value.value, SHARED_REFCOUNT);
        }
        return Int(value.value, o.refcount);
      }
    } else {
      forall v | InRange(v) ensures o.s != Text(v) {
        TextIsShort(v);
      }
    }
    if len <= EMBSTR_SIZE_LIMIT {
      if o.Embstr? {
        return o;
      }
      return Embstr(o.s, 1);
    }
    r := o;
  }

  /** getDecodedObject. */
  method GetDecodedObject(o: Object) returns (r: Object)
    requires o.Valid()
    ensures r.SdsEncoded() && r.s == o.Denotes()
    ensures r.refcount == if o.Int? then 1 else if o.refcount == 0x7FFF_FFFF then o.refcount else o.refcount + 1
  {
    if o.SdsEncoded() {
      var count := if o.refcount != SHARED_REFCOUNT then o.refcount + 1 else o.refcount;
      return if o.Raw? then Raw(o.s, count) else Embstr(o.s, count);
    }
    var buf := new char[32];
    TextIsShort(o.v);
    var len := LL2String(buf, 32, o.v);
    r := Embstr(buf[..len], 1);
  }

  /** stringObjectLen. */
  method StringObjectLen(o: Object) returns (n: nat)
    requires o.Valid()
    ensures n == |o.Denotes()|
  {
    if o.SdsEncoded() {
      return |o.s|;
    }
    n := SDigits10(o.v);
  }

  // ----- comparison -----

  /** memcmp on the first n bytes: the sign of the first difference. */
  function MemCmp(a: string, b: string, n: nat): int
    requires n <= |a| && n <= |b|
    decreases n
  {
    if n == 0 then 0
    else if a[0] < b[0] then -1
    else if a[0] > b[0] then 1
    else MemCmp(a[1..], b[1..], n - 1)
  }

  /** The result of an unsigned 64-bit subtraction returned as a 32-bit int. */
  function ToInt32(d: int): int {
    var m := d % 0x1_0000_0000;
    if m < 0x8000_0000 then m else m - 0x1_0000_0000
  }

  /** Binary comparison of the denoted strings. */
  function Compare(a: string, b: string): int {
    var minlen := if |a| < |b| then |a| else |b|;
    var cmp := MemCmp(a, b, minlen);
    if cmp == 0 then ToInt32(|a| - |b|) else cmp
  }

  /** The reference: lexicographic order of byte strings. */
  ghost predicate LexLess(a: string, b: string) {
    exists i: nat :: SplitsAt(a, b, i)
  }

  ghost predicate SplitsAt(a: string, b: string, i: nat) {
    i <= |a| && i < |b| && a[..i] == b[..i] && (i < |a| ==> a[i] < b[i])
  }

  /** One string continues the other, so that only the lengths decide. */
  predicate OneContinues(a: string, b: string) {
    a <= b || b <= a
  }

  /** The difference of two lengths has its sign as a 32-bit int; always so for
      lengths below 2^31. */
  predicate KeepsSign(d: int) {
    var m := d % 0x1_0000_0000;
    d == 0 || (d > 0 && 0 < m < 0x8000_0000) || (d < 0 && m >= 0x8000_0000)
  }

  /** r has the sign of lexicographic order. */
  ghost predicate OrdersAs(r: int, a: string, b: string) {
    (r < 0 <==> LexLess(a, b)) && (r > 0 <==> LexLess(b, a)) && (r == 0 <==> a == b)
  }

  /** memcmp looks at the first difference. */
  lemma {:induction false} FirstDifference(a: string, b: string, n: nat) returns (i: nat)
    requires n <= |a| && n <= |b|
    ensures i <= n && a[..i] == b[..i]
    ensures MemCmp(a, b, n) == 0 <==> i == n
    ensures i < n ==> a[i] != b[i] && (MemCmp(a, b, n) < 0 <==> a[i] < b[i])
    decreases n
  {
    if n == 0 || a[0] != b[0] {
      i := 0;
    } else {
      var j := FirstDifference(a[1..], b[1..], n - 1);
      i := j + 1;
      assert a[..i] == [a[0]] + a[1..][..j];
      assert b[..i] == [b[0]] + b[1..][..j];
    }
  }

  /** Where two strings stand in lexicographic order: at their first difference,
      or by their lengths when one continues the other. */
  lemma OrderDecided(a: string, b: string) returns (i: nat)
    ensures i <= |a| && i <= |b| && a[..i] == b[..i]
    ensures OneContinues(a, b) <==> i == |a| || i == |b|
    ensures OneContinues(a, b) ==> OrdersAs(|a| - |b|, a, b) && Compare(a, b) == ToInt32(|a| - |b|)
    ensures !OneContinues(a, b) ==> OrdersAs(Compare(a, b), a, b)
  {
    var n := if |a| < |b| then |a| else |b|;
    i := FirstDifference(a, b, n);
    forall j: nat, k: nat | SplitsAt(a, b, j) ensures !SplitsAt(b, a, k) && a != b {
      SplitsOnce(a, b, j, k);
    }
    if i == n {
      if |a| == |b| {
        assert a == a[..n] == b[..n] == b;
      } else if |a| < |b| {
        assert SplitsAt(a, b, n);
      } else {
        assert SplitsAt(b, a, n);
      }
    } else if a[i] < b[i] {
      assert SplitsAt(a, b, i);
    } else {
      assert SplitsAt(b, a, i);
    }
  }

  /** The sign of the comparison is the lexicographic order by unsigned bytes,
      unless one string continues the other and the difference of their lengths
      loses its sign in 32 bits. */
  lemma CompareIsLexicographic(a: string, b: string)
    ensures OrdersAs(Compare(a, b), a, b) <==> (OneContinues(a, b) ==> KeepsSign(|a| - |b|))
  {
    hide Compare, LexLess, MemCmp;
    var i := OrderDecided(a, b);
  }

  /** Below 2^31 bytes nothing is lost. */
  lemma ShortStringsCompare(a: string, b: string)
    requires |a| < 0x8000_0000 && |b| < 0x8000_0000
    ensures OrdersAs(Compare(a, b), a, b)
  {
    hide Compare, LexLess;
    CompareIsLexicographic(a, b);
  }

  /** A difference that loses its sign: 2^31 bytes compare as less than none. */
  lemma LongIsLessThanEmpty(a: string)
    requires |a| == 0x8000_0000
    ensures Compare(a, "") < 0 && LexLess("", a)
  {
    assert SplitsAt("", a, 0);
  }

  /** A result of zero means equal strings, unless one string properly continues
      the other by a multiple of 2^32 bytes. */
  lemma CompareIsEquality(a: string, b: string)
    ensures (Compare(a, b) == 0 <==> a == b) <==>
      !(a != b && OneContinues(a, b) && (|a| - |b|) % 0x1_0000_0000 == 0)
  {
    hide Compare, LexLess, MemCmp;
    var i := OrderDecided(a, b);
  }

  lemma SplitsOnce(a: string, b: string, j: nat, k: nat)
    requires SplitsAt(a, b, j)
    ensures !SplitsAt(b, a, k) && a != b
  {
    if SplitsAt(b, a, k) {
      if j < k {
        SamePrefix(b, a, k, j);
      } else if k < j {
        SamePrefix(a, b, j, k);
      }
    }
  }

  lemma SamePrefix(a: string, b: string, n: nat, i: nat)
    requires n <= |a| && n <= |b| && a[..n] == b[..n] && i < n
    ensures a[i] == b[i]
  {
    assert a[i] == a[..n][i];
  }

  /** A difference that vanishes: 2^32 bytes compare as equal to none. */
  lemma FourGiBEqualsEmpty(a: string)
    requires |a| == 0x1_0000_0000
    ensures Compare(a, "") == 0 && a != ""
  {
  }

  /** Lexicographic order is a strict total order. */
  lemma LexLessIsTotalOrder(a: string, b: string, c: string)
    ensures a == b || LexLess(a, b) || LexLess(b, a)
    ensures !(LexLess(a, b) && LexLess(b, a)) && !LexLess(a, a)
    ensures LexLess(a, b) && LexLess(b, c) ==> LexLess(a, c)
  {
    hide Compare, MemCmp;
    var p := OrderDecided(a, b);
    var q := OrderDecided(a, a);
    if LexLess(a, b) && LexLess(b, c) {
      var i: nat :| SplitsAt(a, b, i);
      var j: nat :| SplitsAt(b, c, j);
      var k := if i < j then i else j;
      assert a[..k] == b[..k] by { assert a[..i][..k] == b[..i][..k]; }
      assert b[..k] == c[..k] by { assert b[..j][..k] == c[..j][..k]; }
      if i < j {
        assert b[..j][i] == c[..j][i];
      } else if j < i {
        assert a[..i][j] == b[..i][j];
      }
      assert SplitsAt(a, c, k);
    }
  }

  /** compareStringObjects: encodings do not matter. */
  method CompareStringObjects(a: Object, b: Object) returns (r: int)
    requires a.Valid() && b.Valid()
    ensures r == Compare(a.Denotes(), b.Denotes())
    ensures OrdersAs(r, a.Denotes(), b.Denotes()) <==>
      (OneContinues(a.Denotes(), b.Denotes()) ==> KeepsSign(|a.Denotes()| - |b.Denotes()|))
  {
    hide Text, Compare, LexLess;
    CompareIsLexicographic(a.Denotes(), b.Denotes());
    var astr := Bytes(a);
    var bstr := Bytes(b);
    r := Compare(astr, bstr);
  }

  method Bytes(o: Object) returns (s: string)
    requires o.Valid()
    ensures s == o.Denotes()
  {
    hide Text;
    if o.SdsEncoded() {
      return o.s;
    }
    var buf := new char[128];
    TextIsShort(o.v);
    var len := LL2String(buf, 128, o.v);
    s := buf[..len];
  }

  /** equalStringObjects: two integer encodings are compared as integers, which
      is right because different integers have different texts. */
  method EqualStringObjects(a: Object, b: Object) returns (r: bool)
    requires a.Valid() && b.Valid()
    ensures (r <==> a.Denotes() == b.Denotes()) <==>
      !(a.Denotes() != b.Denotes() && OneContinues(a.Denotes(), b.Denotes()) &&
        (|a.Denotes()| - |b.Denotes()|) % 0x1_0000_0000 == 0)
  {
    hide Text, Compare, OneContinues;
    if a.Int? && b.Int? {
      TextIsShort(a.v);
      TextIsShort(b.v);
      SameLengthContinues(Text(a.v), Text(b.v));
      if Text(a.v) == Text(b.v) {
        TextIsInjective(a.v, b.v);
      }
      return a.v == b.v;
    }
    CompareIsEquality(a.Denotes(), b.Denotes());
    var c := CompareStringObjects(a, b);
    r := c == 0;
  }

  lemma SameLengthContinues(a: string, b: string)
    ensures |a| == |b| && OneContinues(a, b) ==> a == b
  {
  }
}
