/** The binary heap on a growable array. */
module MinHeap {
  import opened Common

  // ----- order -----

  /** What a comparator must be: a total preorder by the sign of its result. */
  ghost predicate TotalPreorder<T(!new)>(comp: (T, T) -> int) {
    && (forall a, b :: comp(a, b) < 0 <==> comp(b, a) > 0)
    && (forall a, b, c :: comp(a, b) <= 0 && comp(b, c) <= 0 ==> comp(a, c) <= 0)
  }

  function Parent(i: nat): nat
    requires i > 0
  {
    (i - 1) / 2
  }

  /** Each of the first n elements is at least its parent. */
  ghost predicate Ordered<T>(comp: (T, T) -> int, s: seq<T>, n: nat) {
    n <= |s| && forall i :: 0 < i < n ==> comp(s[Parent(i)], s[i]) <= 0
  }

  /** Order holds but for the element at k, which may be too small for its place. */
  ghost predicate Rising<T>(comp: (T, T) -> int, s: seq<T>, n: nat, k: nat) {
    && (k < n || k == n == 0) && n <= |s|
    && (forall i :: 0 < i < n && i != k ==> comp(s[Parent(i)], s[i]) <= 0)
    && (forall i :: 0 < i < n && Parent(i) == k && k > 0 ==> comp(s[Parent(k)], s[i]) <= 0)
  }

  /** Order holds but for the element at k, which may be out of place both ways. */
  ghost predicate Sinking<T>(comp: (T, T) -> int, s: seq<T>, n: nat, k: nat) {
    && (k < n || k == n == 0) && n <= |s|
    && (forall i :: 0 < i < n && i != k && Parent(i) != k ==> comp(s[Parent(i)], s[i]) <= 0)
    && (forall i :: 0 < i < n && Parent(i) == k && k > 0 ==> comp(s[Parent(k)], s[i]) <= 0)
  }

  function Swapped<T>(s: seq<T>, i: nat, j: nat): seq<T>
    requires i < |s| && j < |s|
  {
    s[i := s[j]][j := s[i]]
  }

  lemma SwapKeepsElements<T>(s: seq<T>, i: nat, j: nat, n: nat)
    requires i < n && j < n && n <= |s|
    ensures multiset(Swapped(s, i, j)[..n]) == multiset(s[..n]) && Swapped(s, i, j)[n..] == s[n..]
  {
    assert Swapped(s, i, j)[..n] == s[..n][i := s[j]][j := s[i]];
  }

  lemma Transitive<T(!new)>(comp: (T, T) -> int, a: T, b: T, c: T)
    requires TotalPreorder(comp) && comp(a, b) <= 0 && comp(b, c) <= 0
    ensures comp(a, c) <= 0
  {
  }

  lemma SwapRises<T(!new)>(comp: (T, T) -> int, s: seq<T>, n: nat, k: nat)
    requires TotalPreorder(comp) && Rising(comp, s, n, k) && k > 0 && comp(s[k], s[Parent(k)]) < 0
    ensures Rising(comp, Swapped(s, k, Parent(k)), n, Parent(k))
  {
    hide TotalPreorder;
    var p := Parent(k);
    var t := Swapped(s, k, p);
    forall i | 0 < i < n && i != p
      ensures comp(t[Parent(i)], t[i]) <= 0
    {
      if Parent(i) == p && i != k {
        Transitive(comp, s[k], s[p], s[i]);
      }
    }
    forall i | 0 < i < n && Parent(i) == p && p > 0
      ensures comp(t[Parent(p)], t[i]) <= 0
    {
      if i != k {
        Transitive(comp, s[Parent(p)], s[p], s[i]);
      }
    }
  }

  lemma SwapSinks<T(!new)>(comp: (T, T) -> int, s: seq<T>, n: nat, k: nat, c: nat)
    requires TotalPreorder(comp) && Sinking(comp, s, n, k)
    requires 0 < c < n && Parent(c) == k
    requires forall i :: 0 < i < n && Parent(i) == k ==> comp(s[c], s[i]) <= 0
    ensures Sinking(comp, Swapped(s, k, c), n, c)
  {
    var t := Swapped(s, k, c);
    forall i | 0 < i < n && i != c && Parent(i) != c
      ensures comp(t[Parent(i)], t[i]) <= 0
    {
      if i == k {
        assert comp(s[Parent(k)], s[c]) <= 0;
      }
    }
    forall i | 0 < i < n && Parent(i) == c
      ensures comp(t[Parent(c)], t[i]) <= 0
    {
    }
  }

  lemma {:induction false} RootIsLeast<T(!new)>(comp: (T, T) -> int, s: seq<T>, n: nat, i: nat)
    requires TotalPreorder(comp) && Ordered(comp, s, n) && i < n
    ensures comp(s[0], s[i]) <= 0
    decreases i
  {
    if i == 0 {
      assert comp(s[0], s[0]) < 0 <==> comp(s[0], s[0]) > 0;
    } else {
      RootIsLeast(comp, s, n, Parent(i));
    }
  }

  // ----- the growable array -----

  class Array<T(0)> {
    var elm: array<T>
    var nelm: nat
    var nrest: nat

    /** Slots in use and slots free make up the storage. */
    ghost predicate Valid()
      reads this
    {
      nelm + nrest == elm.Length && elm.Length > 0
    }

    constructor (n: nat)
      ensures Valid() && nelm == 0 && fresh(elm)
      ensures elm.Length == if n == 0 then 1 else n
    {
      var initial := if n == 0 then 1 else n;
      elm := new T[initial];
      nelm, nrest := 0, initial;
    }

    /** Take a new slot, doubling the storage when none is free; what is stored
        stays in place. */
    method Push() returns (slot: nat)
      requires Valid()
      modifies this
      ensures Valid() && slot == old(nelm) && nelm == old(nelm) + 1
      ensures elm[..slot] == old(elm[..nelm])
      ensures elm == old(elm) || fresh(elm)
      ensures elm.Length == old(elm.Length) * if old(nrest) > 0 then 1 else 2
    {
      slot := nelm;
      if nrest > 0 {
        nrest := nrest - 1;
        nelm := nelm + 1;
        return;
      }
      var bigger := new T[2 * nelm];
      forall i | 0 <= i < nelm {
        bigger[i] := elm[i];
      }
      elm := bigger;
      nrest := nelm - 1;
      nelm := nelm + 1;
    }
  }

  // ----- the heap -----

  class Heap<T(!new, 0)> {
    var len: nat
    const slots: Array<T>
    const comp: (T, T) -> int

    ghost predicate Valid()
      reads this, slots, slots.elm
    {
      && TotalPreorder(comp)
      && slots.Valid() && len <= slots.nelm
      && Ordered(comp, slots.elm[..], len)
    }

    /** The live elements, in storage order. */
    ghost function Live(): seq<T>
      requires len <= slots.elm.Length
      reads this, slots, slots.elm
    {
      slots.elm[..len]
    }

    constructor (n: nat, comp: (T, T) -> int)
      requires TotalPreorder(comp)
      ensures Valid() && len == 0 && this.comp == comp && fresh(slots) && fresh(slots.elm)
    {
      this.comp := comp;
      len := 0;
      slots := new Array(n);
    }

    method Swap(i: nat, j: nat)
      requires i < slots.elm.Length && j < slots.elm.Length
      modifies slots.elm
      ensures slots.elm[..] == Swapped(old(slots.elm[..]), i, j)
    {
      slots.elm[i], slots.elm[j] := slots.elm[j], slots.elm[i];
    }

    /** shiftdown: let the element at `end` rise towards the root. */
    method ShiftDown(end: nat)
      requires TotalPreorder(comp) && slots.Valid() && len <= slots.nelm
      requires end < len || end == len == 0
      requires Rising(comp, slots.elm[..], len, end)
      modifies slots.elm
      ensures Ordered(comp, slots.elm[..], len)
      ensures Rearranged(old(slots.elm[..]), slots.elm[..], len)
    {
      hide Rising, Ordered, TotalPreorder, Rearranged;
      var k: nat := end;
      RearrangedSelf(slots.elm[..], len);
      while k > 0
        invariant (k < len || k == len == 0) && Rising(comp, slots.elm[..], len, k)
        invariant Rearranged(old(slots.elm[..]), slots.elm[..], len)
      {
        var p := (k - 1) / 2;
        if comp(slots.elm[k], slots.elm[p]) < 0 {
          SwapRises(comp, slots.elm[..], len, k);
          RearrangedSwap(old(slots.elm[..]), slots.elm[..], k, p, len);
          Swap(k, p);
          k := p;
        } else {
          break;
        }
      }
      RisenIsOrdered(comp, slots.elm[..], len, k);
    }

    /** shiftup: let the element at the root sink to a leaf, always past the
        smaller child, and then rise to its place. */
    method ShiftUp()
      requires TotalPreorder(comp) && slots.Valid() && len <= slots.nelm
      requires Sinking(comp, slots.elm[..], len, 0)
      modifies slots.elm
      ensures Ordered(comp, slots.elm[..], len)
      ensures Rearranged(old(slots.elm[..]), slots.elm[..], len)
    {
      hide Rising, Sinking, Ordered, TotalPreorder, Rearranged;
      var k: nat := 0;
      var child: nat := 1;
      RearrangedSelf(slots.elm[..], len);
      while child < len
        invariant (k < len || k == len == 0) && child == 2 * k + 1
        invariant Sinking(comp, slots.elm[..], len, k)
        invariant Rearranged(old(slots.elm[..]), slots.elm[..], len)
      {
        var right := child + 1;
        if right < len && comp(slots.elm[child], slots.elm[right]) > 0 {
          child := right;
        }
        SmallerChild(comp, slots.elm[..], len, k, child);
        SwapSinks(comp, slots.elm[..], len, k, child);
        RearrangedSwap(old(slots.elm[..]), slots.elm[..], k, child, len);
        Swap(k, child);
        k := child;
        child := 2 * k + 1;
      }
      SunkIsRising(comp, slots.elm[..], len, k);
      ghost var sunk := slots.elm[..];
      ShiftDown(k);
      RearrangedTwice(old(slots.elm[..]), sunk, slots.elm[..], len);
    }

    /** Store val just past the live elements, growing the storage if needed. */
    method Store(val: T)
      requires slots.Valid() && len <= slots.nelm
      modifies slots, slots.elm
      ensures slots.Valid() && len < slots.nelm
      ensures Live() == old(Live()) && slots.elm[len] == val
      ensures slots.elm == old(slots.elm) || fresh(slots.elm)
    {
      ghost var live := Live();
      var slot := len;
      if len == slots.nelm {
        slot := slots.Push();
      }
      slots.elm[slot] := val;
      assert forall i :: 0 <= i < len ==> slots.elm[i] == live[i];
    }

    method Push(val: T)
      requires Valid()
      modifies this`len, slots, slots.elm
      ensures Valid() && len == old(len) + 1
      ensures multiset(Live()) == old(multiset(Live())) + multiset{val}
      ensures slots.elm == old(slots.elm) || fresh(slots.elm)
    {
      hide TotalPreorder, Ordered, Rising, Rearranged;
      ghost var live := Live();
      LiveIsOrdered(comp, slots.elm[..], len);
      Store(val);
      ghost var pushed := slots.elm[..];
      PushedIsRising(comp, live, pushed, val);
      len := len + 1;
      ShiftDown(len - 1);
      PushedElements(live, pushed, slots.elm[..], val);
    }

    /** The least element; the rest stays a heap.  None on an empty heap. */
    method Pop() returns (r: Option<T>)
      requires Valid()
      modifies this`len, slots.elm
      ensures Valid()
      ensures r == None <==> old(len) == 0
      ensures r == None ==> Live() == old(Live())
      ensures r.Some? ==>
        && len == old(len) - 1 && multiset(Live()) + multiset{r.value} == old(multiset(Live()))
        && forall x :: x in old(Live()) ==> comp(r.value, x) <= 0
    {
      hide TotalPreorder, Ordered, Sinking, Rearranged;
      if len == 0 {
        return None;
      }
      ghost var before := slots.elm[..];
      RootIsLeastOfAll(comp, before, len);
      PoppedIsSinking(comp, before, len - 1);
      Swap(0, len - 1);
      len := len - 1;
      ghost var after := slots.elm[..];
      ShiftUp();
      PoppedElements(before, after, slots.elm[..], len);
      r := Some(slots.elm[len]);
    }

    method Min() returns (r: Option<T>)
      requires Valid()
      ensures r == None <==> len == 0
      ensures r.Some? ==> r.value in Live() && forall x :: x in Live() ==> comp(r.value, x) <= 0
    {
      hide TotalPreorder;
      if len == 0 {
        return None;
      }
      r := Some(slots.elm[0]);
      assert Live()[0] == slots.elm[0];
      RootIsLeastOfAll(comp, slots.elm[..], len);
    }

    /** The loop of qpopn: the min(n, len) smallest elements, in non-decreasing
        order; the others stay. */
    method PopN(n: nat) returns (out: seq<T>)
      requires Valid()
      modifies this`len, slots.elm
      ensures Valid() && |out| == (if n < old(len) then n else old(len))
      ensures multiset(out) + multiset(Live()) == old(multiset(Live()))
      ensures NonDecreasing(comp, out) && AllBelow(comp, out, Live())
    {
      hide TotalPreorder, Ordered, NonDecreasing, AllBelow;
      out := [];
      NothingPopped(comp, Live());
      while |out| < n
        invariant Valid() && |out| <= n && |out| + len == old(len)
        invariant multiset(out) + multiset(Live()) == old(multiset(Live()))
        invariant NonDecreasing(comp, out) && AllBelow(comp, out, Live())
      {
        ghost var live := Live();
        var item := Pop();
        if item == None {
          break;
        }
        PoppedNext(comp, out, live, Live(), item.value);
        assert multiset(out + [item.value]) == multiset(out) + multiset{item.value};
        out := out + [item.value];
      }
    }
  }

  ghost predicate NonDecreasing<T>(comp: (T, T) -> int, s: seq<T>) {
    forall i, j :: 0 <= i < j < |s| ==> comp(s[i], s[j]) <= 0
  }

  /** Every element of s is at most every one of t. */
  ghost predicate AllBelow<T>(comp: (T, T) -> int, s: seq<T>, t: seq<T>) {
    forall i, j :: 0 <= i < |s| && 0 <= j < |t| ==> comp(s[i], t[j]) <= 0
  }

  lemma NothingPopped<T>(comp: (T, T) -> int, live: seq<T>)
    ensures NonDecreasing(comp, []) && AllBelow(comp, [], live)
  {
  }

  /** Taking a least live element after elements that are at most all of them. */
  lemma PoppedNext<T>(comp: (T, T) -> int, out: seq<T>, live: seq<T>, left: seq<T>, x: T)
    requires NonDecreasing(comp, out) && AllBelow(comp, out, live)
    requires multiset(left) + multiset{x} == multiset(live) && forall y :: y in live ==> comp(x, y) <= 0
    ensures NonDecreasing(comp, out + [x]) && AllBelow(comp, out + [x], left)
  {
    ShrunkLive(live, left, x);
    var k :| 0 <= k < |live| && live[k] == x;
    forall j | 0 <= j < |left|
      ensures comp(x, left[j]) <= 0 && forall i :: 0 <= i < |out| ==> comp(out[i], left[j]) <= 0
    {
      assert left[j] in live;
      var m :| 0 <= m < |live| && live[m] == left[j];
    }
    assert forall i :: 0 <= i < |out| ==> comp(out[i], live[k]) <= 0;
  }

  /** From s to t the first n elements are permuted and the others unchanged. */
  ghost predicate Rearranged<T>(s: seq<T>, t: seq<T>, n: nat) {
    n <= |s| == |t| && multiset(t[..n]) == multiset(s[..n]) && t[n..] == s[n..]
  }

  lemma RearrangedSelf<T>(s: seq<T>, n: nat)
    requires n <= |s|
    ensures Rearranged(s, s, n)
  {
  }

  lemma RearrangedSwap<T>(s: seq<T>, t: seq<T>, i: nat, j: nat, n: nat)
    requires Rearranged(s, t, n) && i < n && j < n
    ensures Rearranged(s, Swapped(t, i, j), n)
  {
    SwapKeepsElements(t, i, j, n);
  }

  lemma RearrangedTwice<T>(s: seq<T>, t: seq<T>, u: seq<T>, n: nat)
    requires Rearranged(s, t, n) && Rearranged(t, u, n)
    ensures Rearranged(s, u, n)
  {
  }

  lemma RisenIsOrdered<T(!new)>(comp: (T, T) -> int, s: seq<T>, n: nat, k: nat)
    requires Rising(comp, s, n, k) && (k > 0 ==> comp(s[k], s[Parent(k)]) >= 0) && TotalPreorder(comp)
    ensures Ordered(comp, s, n)
  {
  }

  lemma SunkIsRising<T>(comp: (T, T) -> int, s: seq<T>, n: nat, k: nat)
    requires Sinking(comp, s, n, k) && 2 * k + 1 >= n
    ensures Rising(comp, s, n, k)
  {
  }

  lemma PushedIsRising<T>(comp: (T, T) -> int, live: seq<T>, s: seq<T>, val: T)
    requires Ordered(comp, live, |live|) && |live| < |s| && s[..|live|] == live && s[|live|] == val
    ensures Rising(comp, s, |live| + 1, |live|)
  {
    assert forall i :: 0 <= i < |live| ==> s[i] == live[i];
  }

  lemma LiveIsOrdered<T>(comp: (T, T) -> int, s: seq<T>, n: nat)
    requires Ordered(comp, s, n)
    ensures n <= |s| && Ordered(comp, s[..n], n)
  {
  }

  lemma PushedElements<T>(live: seq<T>, s: seq<T>, t: seq<T>, val: T)
    requires |live| < |s| && s[..|live|] == live && s[|live|] == val
    requires Rearranged(s, t, |live| + 1)
    ensures multiset(t[..|live| + 1]) == multiset(live) + multiset{val}
  {
    assert s[..|live| + 1] == live + [val];
  }

  lemma RootIsLeastOfAll<T(!new)>(comp: (T, T) -> int, s: seq<T>, n: nat)
    requires TotalPreorder(comp) && Ordered(comp, s, n) && n > 0
    ensures n <= |s| && forall x :: x in s[..n] ==> comp(s[0], x) <= 0
  {
    hide TotalPreorder;
    forall x | x in s[..n] ensures comp(s[0], x) <= 0 {
      var i :| 0 <= i < n && s[..n][i] == x;
      RootIsLeast(comp, s, n, i);
    }
  }

  lemma PoppedIsSinking<T>(comp: (T, T) -> int, s: seq<T>, n: nat)
    requires Ordered(comp, s, n + 1)
    ensures n < |s| && Sinking(comp, Swapped(s, 0, n), n, 0)
  {
  }

  lemma LastSwapped<T>(s: seq<T>, n: nat)
    requires n < |s|
    ensures |Swapped(s, 0, n)| == |s| && Swapped(s, 0, n)[n] == s[0]
  {
  }

  lemma PoppedElements<T>(s: seq<T>, t: seq<T>, u: seq<T>, n: nat)
    requires n < |s| && t == Swapped(s, 0, n) && Rearranged(t, u, n)
    ensures u[n] == s[0] && multiset(u[..n]) + multiset{s[0]} == multiset(s[..n + 1])
  {
    hide Swapped;
    SwapKeepsElements(s, 0, n, n + 1);
    LastSwapped(s, n);
    assert t[..n + 1] == t[..n] + [t[n]];
    assert u[n] == u[n..][0] == t[n..][0];
  }

  lemma ShrunkLive<T>(s: seq<T>, t: seq<T>, x: T)
    requires multiset(t) + multiset{x} == multiset(s)
    ensures x in s && forall y :: y in t ==> y in s
  {
    assert x in multiset(s);
    forall y | y in t ensures y in s {
      assert y in multiset(t);
      assert y in multiset(s);
    }
  }

  lemma SmallerChild<T(!new)>(comp: (T, T) -> int, s: seq<T>, n: nat, k: nat, c: nat)
    requires TotalPreorder(comp) && n <= |s| && (c == 2 * k + 1 || c == 2 * k + 2) && c < n
    requires c == 2 * k + 1 && c + 1 < n ==> comp(s[c], s[c + 1]) <= 0
    requires c == 2 * k + 2 ==> comp(s[c - 1], s[c]) > 0
    ensures forall i :: 0 < i < n && Parent(i) == k ==> comp(s[c], s[i]) <= 0
  {
    assert comp(s[c], s[c]) < 0 <==> comp(s[c], s[c]) > 0;
    forall i | 0 < i < n && Parent(i) == k
      ensures comp(s[c], s[i]) <= 0
    {
      assert i == 2 * k + 1 || i == 2 * k + 2;
    }
  }
}
