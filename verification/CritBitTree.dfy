/** Crit-bit trees as values.

    `Tree` is the shape of a dictionary in the heap together with its content:
    every subtree carries the cell it starts at and, when it is internal, the
    node its cell points to.  The functions of this module follow the walks of
    the source on such a value; CritBitDict proves that the walks in the heap
    compute them. */
module CritBitTree {
  import opened Common
  import opened KeyBits

  /** The source's `Dict`: a union of a node pointer and a key, and a value
      that is NULL exactly at internal nodes and in an empty dictionary. */
  class Cell<V> {
    var u: Link<V>
    var v: Option<V>

    constructor (u: Link<V>, v: Option<V>)
      ensures this.u == u && this.v == v
    {
      this.u, this.v := u, v;
    }
  }

  /** The union `u`; Null is a null pointer read through either member. */
  datatype Link<V> = Null | Ptr(n: Node<V>) | Str(s: Key)

  class Node<V> {
    const child0: Cell<V>
    const child1: Cell<V>
    var byteIdx: nat
    var bitIdx: nat

    constructor (byteIdx: nat, bitIdx: nat, child0: Cell<V>, child1: Cell<V>)
      ensures this.byteIdx == byteIdx && this.bitIdx == bitIdx
      ensures this.child0 == child0 && this.child1 == child1
    {
      this.byteIdx, this.bitIdx := byteIdx, bitIdx;
      this.child0, this.child1 := child0, child1;
    }

    function Child(direction: bool): Cell<V> {
      if direction then child1 else child0
    }
  }

  datatype Tree<V> =
    | Leaf(at: Cell<V>, key: Key, val: V)
    | Inner(at: Cell<V>, node: Node<V>, pos: nat, left: Tree<V>, right: Tree<V>)
  {
    ghost function Child(direction: bool): Tree<V>
      requires Inner?
    {
      if direction then right else left
    }

    ghost function WithChild(direction: bool, t: Tree<V>): Tree<V>
      requires Inner?
    {
      if direction then this.(right := t) else this.(left := t)
    }
  }

  // ----- what a tree means -----

  ghost function Keys<V>(t: Tree<V>): set<Key> {
    match t
    case Leaf(_, k, _) => {k}
    case Inner(_, _, _, l, r) => Keys(l) + Keys(r)
  }

  /** The finite map that the tree stores. */
  ghost function Model<V>(t: Tree<V>): map<Key, V> {
    match t
    case Leaf(_, k, v) => map[k := v]
    case Inner(_, _, _, l, r) => Model(l) + Model(r)
  }

  ghost function Leaves<V>(t: Tree<V>): nat {
    match t
    case Leaf(_, _, _) => 1
    case Inner(_, _, _, l, r) => Leaves(l) + Leaves(r)
  }

  /** The key/value pairs from left to right. */
  ghost function InOrder<V>(t: Tree<V>): seq<(Key, V)> {
    match t
    case Leaf(_, k, v) => [(k, v)]
    case Inner(_, _, _, l, r) => InOrder(l) + InOrder(r)
  }

  ghost predicate AllBits(keys: set<Key>, pos: nat, bit: bool) {
    forall x :: x in keys ==> KeyBit(x, pos) == bit
  }

  ghost predicate AllAgree(keys: set<Key>, pos: nat) {
    forall x, y :: x in keys && y in keys ==> Agree(x, y, pos)
  }

  /** The crit-bit invariant: below a node that tests position pos all keys
      agree before pos, and child 0 (1) holds exactly those with bit 0 (1). */
  ghost predicate CritBit<V>(t: Tree<V>) {
    t.Inner? ==>
      && CritBit(t.left) && CritBit(t.right)
      && AllBits(Keys(t.left), t.pos, false)
      && AllBits(Keys(t.right), t.pos, true)
      && AllAgree(Keys(t), t.pos)
  }

  lemma {:induction false} ModelKeys<V>(t: Tree<V>)
    ensures Model(t).Keys == Keys(t) && Keys(t) != {}
  {
    if t.Inner? {
      ModelKeys(t.left);
      ModelKeys(t.right);
    }
  }

  lemma SubsetKeeps(all: set<Key>, some: set<Key>, pos: nat, bit: bool)
    requires some <= all
    ensures AllAgree(all, pos) ==> AllAgree(some, pos)
    ensures AllBits(all, pos, bit) ==> AllBits(some, pos, bit)
  {
    hide KeyBit, Agree;
  }

  /** A key can only be stored on the side that its bit selects. */
  lemma SideOf<V>(t: Tree<V>, k: Key)
    requires CritBit(t) && t.Inner?
    ensures var b := KeyBit(k, t.pos);
      k !in Keys(t.Child(!b)) && (k in Keys(t) <==> k in Keys(t.Child(b)))
    ensures Keys(t.left) !! Keys(t.right)
  {
    hide KeyBit, Agree, AllAgree;
  }

  /** Positions strictly increase down every path. */
  lemma PositionsIncrease<V>(t: Tree<V>, direction: bool)
    requires CritBit(t) && t.Inner? && t.Child(direction).Inner?
    ensures t.pos < t.Child(direction).pos
  {
    hide KeyBit, Agree, AllAgree;
    var c := t.Child(direction);
    ModelKeys(c.left);
    ModelKeys(c.right);
    var x :| x in Keys(c.left);
    var y :| y in Keys(c.right);
    assert x in Keys(c) && y in Keys(c);
    assert KeyBit(x, c.pos) != KeyBit(y, c.pos);
    assert KeyBit(x, t.pos) == KeyBit(y, t.pos) == direction;
    PairAgrees(Keys(t), t.pos, x, y);
    if c.pos < t.pos {
      SameBit(x, y, t.pos, c.pos);
    }
  }

  lemma PairAgrees(keys: set<Key>, pos: nat, x: Key, y: Key)
    requires AllAgree(keys, pos) && x in keys && y in keys
    ensures Agree(x, y, pos)
  {
    hide KeyBit, Agree;
  }

  lemma SameBit(x: Key, y: Key, p: nat, q: nat)
    requires Agree(x, y, p) && q < p
    ensures KeyBit(x, q) == KeyBit(y, q)
  {
    hide KeyBit;
  }

  lemma {:induction false} SizeIsLeaves<V>(t: Tree<V>)
    requires CritBit(t)
    ensures |Model(t)| == Leaves(t)
  {
    hide KeyBit, Agree, AllAgree, AllBits;
    ModelKeys(t);
    if t.Inner? {
      SizeIsLeaves(t.left);
      SizeIsLeaves(t.right);
      ModelKeys(t.left);
      ModelKeys(t.right);
      SideOf(t, []);
      assert |Model(t).Keys| == |Keys(t.left)| + |Keys(t.right)|;
    }
  }

  // ----- lookup -----

  /** The leaf that `closest` reaches: follow the key's bits. */
  ghost function Closest<V>(t: Tree<V>, k: Key): (leaf: Tree<V>)
    ensures leaf.Leaf?
  {
    match t
    case Leaf(_, _, _) => t
    case Inner(_, _, pos, _, _) => Closest(t.Child(KeyBit(k, pos)), k)
  }

  /** If k is stored at all, its leaf is the one `closest` reaches. */
  lemma {:induction false} ClosestIsExact<V>(t: Tree<V>, k: Key)
    requires CritBit(t)
    ensures var c := Closest(t, k);
      && c.key in Keys(t) && c.key in Model(t) && Model(t)[c.key] == c.val
      && (k in Keys(t) <==> c.key == k)
  {
    hide KeyBit, Agree, AllAgree, AllBits;
    ModelKeys(t);
    if t.Inner? {
      var child := t.Child(KeyBit(k, t.pos));
      ClosestIsExact(child, k);
      SideOf(t, k);
      SideOf(t, Closest(t, k).key);
      ModelKeys(t.left);
      ModelKeys(t.right);
    }
  }

  /** A node stays in order when its child on k's side gains or updates k, and
      so does the map. */
  lemma ChildUpdated<V>(t: Tree<V>, k: Key, v: V, child: Tree<V>)
    requires CritBit(t) && t.Inner?
    requires AllAgree(Keys(t) + {k}, t.pos)
    requires var before := t.Child(KeyBit(k, t.pos));
      && CritBit(child)
      && Keys(child) == Keys(before) + {k}
      && Model(child) == Model(before)[k := v]
    ensures var t' := t.WithChild(KeyBit(k, t.pos), child);
      && CritBit(t')
      && Keys(t') == Keys(t) + {k}
      && Model(t') == Model(t)[k := v]
  {
    hide KeyBit, Agree, AllAgree, AllBits;
    var b := KeyBit(k, t.pos);
    SideOf(t, k);
    BitsExtend(Keys(t.Child(b)), t.pos, k);
    ModelKeys(t.left);
    ModelKeys(t.right);
    UnionUpdated(Model(t.left), Model(t.right), k, v);
    var t' := t.WithChild(b, child);
    assert Keys(t') == Keys(t) + {k};
  }

  lemma UnionUpdated<V>(m: map<Key, V>, n: map<Key, V>, k: Key, v: V)
    ensures k !in n ==> m[k := v] + n == (m + n)[k := v]
    ensures m + n[k := v] == (m + n)[k := v]
  {
  }

  lemma OneMore<V>(m: map<Key, V>, k: Key, v: V)
    ensures m + map[k := v] == m[k := v]
    ensures k !in m ==> map[k := v] + m == m[k := v]
  {
  }

  lemma UnionRemoved<V>(m: map<Key, V>, n: map<Key, V>, k: Key)
    ensures k !in n ==> (m - {k}) + n == (m + n) - {k}
    ensures k !in m ==> m + (n - {k}) == (m + n) - {k}
  {
  }

  lemma BitsExtend(keys: set<Key>, pos: nat, k: Key)
    ensures AllBits(keys, pos, KeyBit(k, pos)) ==> AllBits(keys + {k}, pos, KeyBit(k, pos))
  {
    hide KeyBit;
  }

  // ----- overwriting -----

  ghost function Assign<V>(t: Tree<V>, k: Key, v: V): Tree<V> {
    match t
    case Leaf(_, _, _) => t.(val := v)
    case Inner(_, _, pos, _, _) =>
      var b := KeyBit(k, pos);
      t.WithChild(b, Assign(t.Child(b), k, v))
  }

  lemma {:induction false} AssignUpdatesModel<V>(t: Tree<V>, k: Key, v: V)
    requires CritBit(t) && k in Keys(t)
    ensures CritBit(Assign(t, k, v))
    ensures Keys(Assign(t, k, v)) == Keys(t)
    ensures Model(Assign(t, k, v)) == Model(t)[k := v]
  {
    hide KeyBit, Agree, AllAgree, AllBits;
    if t.Inner? {
      SideOf(t, k);
      var child := t.Child(KeyBit(k, t.pos));
      AssignUpdatesModel(child, k, v);
      assert Keys(t) + {k} == Keys(t) && Keys(child) + {k} == Keys(child);
      ChildUpdated(t, k, v, Assign(child, k, v));
    }
  }

  // ----- insertion -----

  /** The same tree after its top cell has been copied to another cell. */
  ghost function Moved<V>(t: Tree<V>, at: Cell<V>): Tree<V> {
    t.(at := at)
  }

  /** The internal node that takes the place of sub: it tests position d, its
      child on k's side is a new leaf, and the other is sub, moved. */
  ghost function Split<V>(sub: Tree<V>, k: Key, v: V, d: nat, n: Node<V>): Tree<V> {
    if KeyBit(k, d)
    then Inner(sub.at, n, d, Moved(sub, n.child0), Leaf(n.child1, k, v))
    else Inner(sub.at, n, d, Leaf(n.child0, k, v), Moved(sub, n.child1))
  }

  /** The second walk of dict_set: descend along k's bits while the node tests a
      position no later than d, then split. */
  ghost function Insert<V>(t: Tree<V>, k: Key, v: V, d: nat, n: Node<V>): Tree<V> {
    if t.Leaf? || t.pos > d then Split(t, k, v, d, n)
    else
      var b := KeyBit(k, t.pos);
      t.WithChild(b, Insert(t.Child(b), k, v, d, n))
  }

  lemma MovedMeans<V>(t: Tree<V>, at: Cell<V>)
    ensures Keys(Moved(t, at)) == Keys(t) && Model(Moved(t, at)) == Model(t)
    ensures CritBit(Moved(t, at)) == CritBit(t)
    ensures Leaves(Moved(t, at)) == Leaves(t) && InOrder(Moved(t, at)) == InOrder(t)
  {
    hide KeyBit, Agree, AllAgree, AllBits;
  }

  /** Adding a key that agrees with a member before pos keeps them all agreeing. */
  lemma AgreeExtends(keys: set<Key>, pos: nat, c: Key, k: Key)
    requires AllAgree(keys, pos) && c in keys && Agree(c, k, pos)
    ensures AllAgree(keys + {k}, pos)
  {
    hide KeyBit;
    forall x, y | x in keys + {k} && y in keys + {k}
      ensures Agree(x, y, pos)
    {
      assert x == k || Agree(x, c, pos);
      assert y == k || Agree(y, c, pos);
    }
  }

  /** If c and k first differ at d and all keys agree with c through d, they all
      differ from k at d. */
  lemma AllOnOtherSide(keys: set<Key>, d: nat, c: Key, k: Key)
    requires AllAgree(keys, d + 1) && c in keys && FirstDifference(c, k, d)
    ensures AllBits(keys, d, !KeyBit(k, d)) && AllBits({k}, d, KeyBit(k, d))
    ensures AllAgree(keys + {k}, d) && k !in keys
  {
    hide KeyBit;
    forall x, y | x in keys && y in keys
      ensures Agree(x, y, d)
    {
      assert Agree(x, y, d + 1);
    }
    AgreeExtends(keys, d, c, k);
    forall x | x in keys
      ensures KeyBit(x, d) == !KeyBit(k, d)
    {
      assert Agree(x, c, d + 1);
    }
  }

  /** Splitting above a subtree all of whose keys agree with c up to and
      including position d, where c and k first differ. */
  lemma SplitKeepsCritBit<V>(sub: Tree<V>, k: Key, v: V, d: nat, n: Node<V>, c: Key)
    requires CritBit(sub) && c in Keys(sub)
    requires AllAgree(Keys(sub), d + 1)
    requires FirstDifference(c, k, d)
    ensures var s := Split(sub, k, v, d, n);
      && CritBit(s)
      && Keys(s) == Keys(sub) + {k}
      && k !in Keys(sub)
      && Model(s) == Model(sub)[k := v]
  {
    hide KeyBit, Agree, AllAgree, AllBits, FirstDifference;
    MovedMeans(sub, n.child0);
    MovedMeans(sub, n.child1);
    ModelKeys(sub);
    AllOnOtherSide(Keys(sub), d, c, k);
    OneMore(Model(sub), k, v);
    var s := Split(sub, k, v, d, n);
    assert Keys(s) == Keys(sub) + {k};
  }

  lemma AgreeThrough(keys: set<Key>, p: nat, q: nat)
    requires AllAgree(keys, p) && q <= p
    ensures AllAgree(keys, q)
  {
    hide KeyBit;
    forall x, y | x in keys && y in keys
      ensures Agree(x, y, q)
    {
      assert Agree(x, y, p);
    }
  }

  lemma AgreeWithSelf(k: Key, p: nat)
    ensures AllAgree({k}, p)
  {
    hide KeyBit;
  }

  /** dict_set on a new key: with d the first position at which k differs from
      the closest key, the walk finds the one place where a node testing d keeps
      the invariant, and the map gains exactly k. */
  lemma {:induction false} InsertUpdatesModel<V>(t: Tree<V>, k: Key, v: V, d: nat, n: Node<V>)
    requires CritBit(t)
    requires FirstDifference(Closest(t, k).key, k, d)
    ensures CritBit(Insert(t, k, v, d, n))
    ensures Keys(Insert(t, k, v, d, n)) == Keys(t) + {k}
    ensures k !in Keys(t)
    ensures Model(Insert(t, k, v, d, n)) == Model(t)[k := v]
  {
    hide KeyBit, Agree, AllAgree, AllBits;
    ClosestIsExact(t, k);
    var c := Closest(t, k).key;
    if t.Leaf? {
      AgreeWithSelf(c, d + 1);
      SplitKeepsCritBit(t, k, v, d, n, c);
    } else if t.pos > d {
      AgreeThrough(Keys(t), t.pos, d + 1);
      SplitKeepsCritBit(t, k, v, d, n, c);
    } else {
      var b := KeyBit(k, t.pos);
      var child := t.Child(b);
      ClosestIsExact(child, k);
      SideOf(t, c);
      SideOf(t, k);
      assert t.pos != d;
      InsertUpdatesModel(child, k, v, d, n);
      AgreeBefore(c, k, d, t.pos);
      AgreeExtends(Keys(t), t.pos, c, k);
      ChildUpdated(t, k, v, Insert(child, k, v, d, n));
    }
  }

  lemma AgreeBefore(x: Key, y: Key, p: nat, q: nat)
    requires Agree(x, y, p) && q <= p
    ensures Agree(x, y, q)
  {
    hide KeyBit;
  }

  // ----- deletion -----

  /** dict_del below an internal node: the sibling of k's leaf is raised into
      the parent's cell. */
  ghost function Remove<V>(t: Tree<V>, k: Key): Tree<V>
    requires t.Inner?
  {
    var b := KeyBit(k, t.pos);
    var child := t.Child(b);
    if child.Leaf? then Moved(t.Child(!b), t.at)
    else t.WithChild(b, Remove(child, k))
  }

  lemma {:induction false} RemoveUpdatesModel<V>(t: Tree<V>, k: Key)
    requires CritBit(t) && t.Inner? && k in Keys(t)
    ensures CritBit(Remove(t, k))
    ensures Keys(Remove(t, k)) == Keys(t) - {k}
    ensures Model(Remove(t, k)) == Model(t) - {k}
  {
    hide KeyBit, Agree, AllAgree, AllBits;
    var b := KeyBit(k, t.pos);
    var child, other := t.Child(b), t.Child(!b);
    ModelKeys(t.left);
    ModelKeys(t.right);
    SideOf(t, k);
    UnionRemoved(Model(t.left), Model(t.right), k);
    if child.Leaf? {
      MovedMeans(other, t.at);
      assert Model(child) - {k} == map[];
    } else {
      RemoveUpdatesModel(child, k);
      SubsetKeeps(Keys(t), Keys(t) - {k}, t.pos, b);
      SubsetKeeps(Keys(child), Keys(child) - {k}, t.pos, b);
    }
    assert Keys(Remove(t, k)) == Keys(t) - {k};
  }

  // ----- order -----

  ghost predicate Increasing<V>(s: seq<(Key, V)>) {
    forall i, j :: 0 <= i < j < |s| ==> Less(s[i].0, s[j].0)
  }

  ghost predicate HasKey<V>(s: seq<(Key, V)>, k: Key) {
    exists i :: 0 <= i < |s| && s[i].0 == k
  }

  ghost predicate Holds<V>(m: map<Key, V>, pair: (Key, V)) {
    pair.0 in m && m[pair.0] == pair.1
  }

  /** s lists every pair of the map m, each once. */
  ghost predicate Lists<V>(s: seq<(Key, V)>, m: map<Key, V>) {
    && |s| == |m|
    && (forall i :: 0 <= i < |s| ==> Holds(m, s[i]))
    && (forall k :: k in m ==> HasKey(s, k))
  }

  lemma HasKeyJoin<V>(l: seq<(Key, V)>, r: seq<(Key, V)>, k: Key)
    requires HasKey(l, k) || HasKey(r, k)
    ensures HasKey(l + r, k)
  {
    if HasKey(l, k) {
      var i :| 0 <= i < |l| && l[i].0 == k;
      assert (l + r)[i].0 == k;
    } else {
      var i :| 0 <= i < |r| && r[i].0 == k;
      assert (l + r)[|l| + i].0 == k;
    }
  }

  lemma UnionSize<V>(m: map<Key, V>, n: map<Key, V>)
    requires m.Keys !! n.Keys
    ensures |m + n| == |m| + |n|
  {
    assert (m + n).Keys == m.Keys + n.Keys;
    assert |(m + n).Keys| == |m.Keys| + |n.Keys|;
  }

  lemma ListsJoin<V>(l: seq<(Key, V)>, r: seq<(Key, V)>, m: map<Key, V>, n: map<Key, V>)
    requires Lists(l, m) && Lists(r, n) && m.Keys !! n.Keys
    ensures Lists(l + r, m + n)
  {
    hide HasKey;
    UnionSize(m, n);
    forall i | 0 <= i < |l + r|
      ensures Holds(m + n, (l + r)[i])
    {
      assert if i < |l| then Holds(m, l[i]) else Holds(n, r[i - |l|]);
    }
    forall k | k in m + n
      ensures HasKey(l + r, k)
    {
      HasKeyJoin(l, r, k);
    }
  }

  lemma OneKey<V>(k: Key, v: V)
    ensures HasKey([(k, v)], k)
  {
    assert [(k, v)][0].0 == k;
  }

  lemma {:induction false} InOrderPairs<V>(t: Tree<V>)
    requires CritBit(t)
    ensures Lists(InOrder(t), Model(t))
  {
    hide KeyBit, Agree, AllAgree, AllBits, HasKey;
    if t.Leaf? {
      assert InOrder(t)[0].0 == t.key;
      assert HasKey(InOrder(t), t.key) by { OneKey(t.key, t.val); }
    } else {
      InOrderPairs(t.left);
      InOrderPairs(t.right);
      ModelKeys(t.left);
      ModelKeys(t.right);
      SideOf(t, []);
      ListsJoin(InOrder(t.left), InOrder(t.right), Model(t.left), Model(t.right));
    }
  }

  /** Left-to-right order is strcmp order. */
  lemma {:induction false} InOrderIncreases<V>(t: Tree<V>)
    requires CritBit(t)
    ensures Increasing(InOrder(t))
  {
    hide KeyBit, Agree, AllAgree, AllBits, Less;
    if t.Inner? {
      InOrderIncreases(t.left);
      InOrderIncreases(t.right);
      var l, r := InOrder(t.left), InOrder(t.right);
      forall i, j | 0 <= i < |l| && 0 <= j < |r|
        ensures Less(l[i].0, r[j].0)
      {
        LeftBeforeRight(t, i, j);
      }
    }
  }

  lemma LeftBeforeRight<V>(t: Tree<V>, i: nat, j: nat)
    requires CritBit(t) && t.Inner? && i < |InOrder(t.left)| && j < |InOrder(t.right)|
    ensures Less(InOrder(t.left)[i].0, InOrder(t.right)[j].0)
  {
    hide KeyBit, Agree, AllAgree, Less;
    InOrderPairs(t.left);
    InOrderPairs(t.right);
    ModelKeys(t.left);
    ModelKeys(t.right);
    var x, y := InOrder(t.left)[i].0, InOrder(t.right)[j].0;
    PairAgrees(Keys(t), t.pos, x, y);
    BitOrderIsByteOrder(x, y, t.pos);
  }

  // ----- prefixes -----

  /** The subtree that get_prefix keeps as `top`: the last one entered by testing
      a byte of the prefix itself. */
  ghost function Top<V>(t: Tree<V>, prefix: Key): Tree<V> {
    if t.Leaf? || t.pos >= 8 * |prefix| then t
    else Top(t.Child(KeyBit(prefix, t.pos)), prefix)
  }

  ghost function Matching(keys: set<Key>, prefix: Key): set<Key> {
    set x | x in keys && HasPrefix(x, prefix)
  }

  /** get_prefix decides by one leaf: either that leaf has the prefix and the
      keys below top are exactly the matching keys, or no key matches. */
  lemma {:induction false} TopIsMatching<V>(t: Tree<V>, prefix: Key)
    requires CritBit(t)
    ensures CritBit(Top(t, prefix))
    ensures Matching(Keys(t), prefix)
         == if HasPrefix(Closest(t, prefix).key, prefix) then Keys(Top(t, prefix)) else {}
    ensures Model(Top(t, prefix)).Keys <= Model(t).Keys
    ensures forall x :: x in Model(Top(t, prefix)) ==> Model(Top(t, prefix))[x] == Model(t)[x]
  {
    hide KeyBit, Agree, AllAgree, AllBits, HasPrefix;
    if t.Leaf? {
    } else if t.pos < 8 * |prefix| {
      var b := KeyBit(prefix, t.pos);
      TopIsMatching(t.Child(b), prefix);
      ModelKeys(t.left);
      ModelKeys(t.right);
      SideOf(t, prefix);
      forall x | x in Keys(t) && HasPrefix(x, prefix)
        ensures x in Keys(t.Child(b))
      {
        PrefixIsAgreement(x, prefix);
        SameBit(x, prefix, 8 * |prefix|, t.pos);
        SideOf(t, x);
      }
    } else {
      ClosestIsExact(t, prefix);
      forall x | x in Keys(t)
        ensures HasPrefix(x, prefix) == HasPrefix(Closest(t, prefix).key, prefix)
      {
        PairAgrees(Keys(t), t.pos, x, Closest(t, prefix).key);
        SamePrefix(x, Closest(t, prefix).key, prefix, t.pos);
      }
    }
  }

  lemma SamePrefix(x: Key, y: Key, prefix: Key, p: nat)
    requires Agree(x, y, p) && 8 * |prefix| <= p
    ensures HasPrefix(x, prefix) == HasPrefix(y, prefix)
  {
    hide KeyBit, HasPrefix;
    PrefixIsAgreement(x, prefix);
    PrefixIsAgreement(y, prefix);
  }
}
