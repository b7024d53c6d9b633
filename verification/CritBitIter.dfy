/** Ordered iteration, prefix queries and copying of dictionaries. */
module CritBitIter {
  import opened Common
  import opened KeyBits
  import opened CritBitTree
  import opened CritBitHeap
  import opened CritBitDict

  /** What a stack of cells still has to yield: the leaf on top, then the right
      subtrees of the ancestors below it. */
  ghost function Pending<V>(trees: seq<Tree<V>>): seq<(Key, V)> {
    if trees == [] then []
    else
      (if trees[0].Leaf? then [(trees[0].key, trees[0].val)] else InOrder(trees[0].right))
      + Pending(trees[1..])
  }

  ghost predicate Stacked<V>(cell: Cell<V>, t: Tree<V>, repr: set<object>)
    reads repr
  {
    cell == t.at && Foot(t) <= repr && Matches(t)
  }

  class Iterator<V> {
    /** Head first, as in the source's list. */
    var stack: seq<Cell<V>>
    ghost var trees: seq<Tree<V>>
    /** The cells and nodes of the dictionary walked over. */
    ghost var Repr: set<object>

    ghost predicate Valid()
      reads this, Repr
    {
      && this !in Repr
      && |trees| == |stack|
      && (forall i :: 0 <= i < |stack| ==>
            Stacked(stack[i], trees[i], Repr) && (trees[i].Leaf? <==> i == 0))
    }

    ghost function Remaining(): seq<(Key, V)>
      reads this
    {
      Pending(trees)
    }

    constructor ()
      ensures Valid() && Repr == {} && Remaining() == []
    {
      stack, trees, Repr := [], [], {};
    }

    method HasNext() returns (b: bool)
      requires Valid()
      ensures b <==> Remaining() != []
    {
      b := |stack| != 0;
    }

    /** Push a node and then left children, down to a leaf. */
    method Descend(top: Cell<V>, ghost t: Tree<V>)
      requires this !in Repr && |trees| == |stack|
      requires forall i :: 0 <= i < |stack| ==> Stacked(stack[i], trees[i], Repr) && trees[i].Inner?
      requires Stacked(top, t, Repr)
      modifies this
      ensures Valid() && Repr == old(Repr)
      ensures Remaining() == InOrder(t) + old(Remaining())
    {
      hide KeyBit, Matches, Foot, Pending, InOrder;
      ghost var cur := t;
      ghost var rest := trees;
      var node := top;
      stack := [node] + stack;
      trees := [cur] + rest;
      while node.v == None
        invariant Repr == old(Repr)
        invariant |trees| == |stack| && trees == [cur] + rest && stack[0] == node
        invariant Stacked(node, cur, Repr)
        invariant forall i :: 0 < i < |stack| ==> Stacked(stack[i], trees[i], Repr) && trees[i].Inner?
        invariant InOrder(cur) + Pending(rest) == InOrder(t) + old(Remaining())
        decreases cur
      {
        NodeInHeap(cur);
        LeftFirst(cur, rest);
        node := node.u.n.child0;
        rest := trees;
        cur := cur.left;
        stack := [node] + stack;
        trees := [cur] + rest;
      }
      NodeInHeap(cur);
      TopLeaf(cur, rest);
    }

    /** Yield the leaf on top; the two asserts of the source always hold. */
    method Next() returns (kv: (Key, V))
      requires Valid() && Remaining() != []
      modifies this
      ensures Valid() && Repr == old(Repr)
      ensures [kv] + Remaining() == old(Remaining())
    {
      hide KeyBit, Matches, Foot, InOrder, Pending;
      PendingStep(trees);
      NodeInHeap(trees[0]);
      assert stack[0].v != None;
      kv := (stack[0].u.s, stack[0].v.value);
      stack, trees := stack[1..], trees[1..];
      PendingStep(trees);
      if |stack| == 0 {
        return;
      }
      NodeInHeap(trees[0]);
      assert stack[0].v == None;
      var node := stack[0].u.n;
      ghost var right := trees[0].right;
      stack, trees := stack[1..], trees[1..];
      Descend(node.child1, right);
    }
  }

  lemma PendingStep<V>(trees: seq<Tree<V>>)
    ensures trees == [] <==> Pending(trees) == []
    ensures trees != [] ==>
      var first := if trees[0].Leaf? then [(trees[0].key, trees[0].val)] else InOrder(trees[0].right);
      Pending(trees) == first + Pending(trees[1..])
  {
    if trees != [] && trees[0].Inner? {
      InOrderNonempty(trees[0].right);
    }
  }

  lemma {:induction false} InOrderNonempty<V>(t: Tree<V>)
    ensures InOrder(t) != []
  {
    if t.Inner? {
      InOrderNonempty(t.left);
    }
  }

  lemma TopLeaf<V>(t: Tree<V>, rest: seq<Tree<V>>)
    requires t.Leaf?
    ensures Pending([t] + rest) == InOrder(t) + Pending(rest)
  {
    assert ([t] + rest)[1..] == rest;
  }

  lemma LeftFirst<V>(t: Tree<V>, rest: seq<Tree<V>>)
    requires t.Inner?
    ensures InOrder(t) + Pending(rest) == InOrder(t.left) + Pending([t] + rest)
  {
    assert ([t] + rest)[1..] == rest;
  }

  /** iter_create(dict, size).  None stands for the case in which the source
      would follow the null pointer of an empty cell. */
  method IterCreate<V>(top: Cell<V>, size: nat, ghost sub: Option<Tree<V>>, ghost repr: set<object>)
    returns (iter: Option<Iterator<V>>)
    requires if sub.Some? then sub.value.at == top && Matches(sub.value) && Foot(sub.value) <= repr
             else top.u == Null && top.v == None
    ensures iter == None <==> size != 0 && sub == None
    ensures iter.Some? ==> fresh(iter.value) && iter.value.Valid()
    ensures iter.Some? ==> iter.value.Remaining() == if size == 0 then [] else InOrder(sub.value)
    ensures iter.Some? && size != 0 ==> iter.value.Repr == repr
  {
    hide KeyBit, Foot;
    var it := new Iterator<V>();
    if size == 0 {
      return Some(it);
    }
    if top.v == None && top.u == Null {
      return None;
    }
    it.Repr := repr;
    it.Descend(top, sub.value);
    iter := Some(it);
  }

  /** The loop of the commands that list a trie: take pairs until none is left. */
  method Collect<V>(iter: Iterator<V>) returns (pairs: seq<(Key, V)>)
    requires iter.Valid()
    modifies iter
    ensures pairs == old(iter.Remaining())
  {
    hide KeyBit, Matches, Foot, Pending;
    pairs := [];
    var more := iter.HasNext();
    while more
      invariant iter.Valid() && iter.Repr == old(iter.Repr)
      invariant more <==> iter.Remaining() != []
      invariant pairs + iter.Remaining() == old(iter.Remaining())
      decreases |iter.Remaining()|
    {
      ghost var before := iter.Remaining();
      var kv := iter.Next();
      assert pairs + before == (pairs + [kv]) + iter.Remaining();
      pairs := pairs + [kv];
      more := iter.HasNext();
    }
  }

  /** Iterating over a dictionary yields each of its pairs exactly once, in
      strictly increasing byte order. */
  method All<V>(d: Dict<V>) returns (pairs: seq<(Key, V)>)
    requires d.Valid()
    ensures Increasing(pairs) && Lists(pairs, d.Map())
  {
    hide KeyBit, Matches, Foot, CritBit, Distinct, Less, HasKey, Model;
    EmptyMapEmptyTree(d);
    var iter := IterCreate(d.dict, d.size, d.tree, d.Repr);
    pairs := Collect(iter.value);
    if d.tree.Some? {
      InOrderIncreases(d.tree.value);
      InOrderPairs(d.tree.value);
    }
  }

  lemma EmptyMapEmptyTree<V>(d: Dict<V>)
    requires d.Valid()
    ensures d.size == 0 <==> d.tree == None
    ensures d.tree == None ==> d.dict.u == Null && d.dict.v == None
  {
    hide KeyBit, CritBit, Matches;
    if d.tree.Some? {
      ModelKeys(d.tree.value);
    }
  }

  ghost function Restricted<V>(m: map<Key, V>, prefix: Key): map<Key, V> {
    map k | k in m && HasPrefix(k, prefix) :: m[k]
  }

  lemma MatchingTreeHolds<V>(d: Dict<V>, prefix: Key)
    requires d.Valid()
    ensures match d.MatchingTree(prefix)
            case None => Restricted(d.Map(), prefix) == map[]
            case Some(t) => CritBit(t) && Model(t) == Restricted(d.Map(), prefix) && Model(t) != map[]
  {
    hide KeyBit, CritBit, Matches, HasPrefix;
    if d.tree.Some? {
      var t := d.tree.value;
      TopIsMatching(t, prefix);
      ModelKeys(t);
      ModelKeys(Top(t, prefix));
      assert Restricted(d.Map(), prefix).Keys == Matching(Keys(t), prefix);
    }
  }

  method DictHasPrefix<V>(d: Dict<V>, prefix: Key) returns (b: bool)
    requires d.Valid()
    ensures b <==> exists k :: k in d.Map() && HasPrefix(k, prefix)
  {
    hide KeyBit, CritBit, Matches, HasPrefix;
    var top, sub := d.GetPrefix(prefix);
    MatchingTreeHolds(d, prefix);
    if sub.Some? {
      NodeInHeap(sub.value);
      var k :| k in Restricted(d.Map(), prefix);
    } else {
      assert forall k :: k in d.Map() && HasPrefix(k, prefix) ==> k in Restricted(d.Map(), prefix);
    }
    b := top.u != Null;
  }

  /** dict_get_prefix and the loop over its iterator.  It lists exactly the
      matching pairs, in order, unless the dictionary is non-empty and nothing
      matches: then the source gives iter_create the size of the whole dictionary
      together with an empty cell (the outcome None). */
  method WithPrefix<V>(d: Dict<V>, prefix: Key) returns (r: Option<seq<(Key, V)>>)
    requires d.Valid()
    ensures r == None <==> d.Map() != map[] && !(exists k :: k in d.Map() && HasPrefix(k, prefix))
    ensures r.Some? ==> Increasing(r.value) && Lists(r.value, Restricted(d.Map(), prefix))
  {
    hide KeyBit, CritBit, Matches, HasPrefix, Less, HasKey, Model, Foot;
    var top, sub := d.GetPrefix(prefix);
    MatchingTreeHolds(d, prefix);
    EmptyMapEmptyTree(d);
    if sub.Some? {
      var k :| k in Restricted(d.Map(), prefix);
      assert k in d.Map() && HasPrefix(k, prefix);
      InOrderIncreases(sub.value);
      InOrderPairs(sub.value);
    } else {
      assert forall k :: k in d.Map() && HasPrefix(k, prefix) ==> k in Restricted(d.Map(), prefix);
    }
    var iter := IterCreate(top, d.size, sub, d.Repr);
    if iter == None {
      return None;
    }
    var pairs := Collect(iter.value);
    r := Some(pairs);
  }

  lemma ModelOfNode<V>(m: map<Key, V>, t: Tree<V>)
    ensures t.Leaf? ==> m + Model(t) == m[t.key := t.val]
    ensures t.Inner? ==> m + Model(t.left) + Model(t.right) == m + Model(t)
  {
    if t.Leaf? {
      OneMore(m, t.key, t.val);
    } else {
      UnionAssociates(m, Model(t.left), Model(t.right));
    }
  }

  lemma UnionAssociates<V>(m: map<Key, V>, n: map<Key, V>, o: map<Key, V>)
    ensures m + n + o == m + (n + o)
  {
  }

  /** The values that m holds under the keys of the pairs, in their order. */
  ghost function Replaced<V>(m: map<Key, V>, pairs: seq<(Key, V)>): seq<V> {
    if pairs == [] then []
    else
      var k := pairs[0].0;
      (if k in m then [m[k]] else []) + Replaced(m, pairs[1..])
  }

  lemma {:induction false} ReplacedJoin<V>(m: map<Key, V>, l: seq<(Key, V)>, r: seq<(Key, V)>)
    ensures Replaced(m, l + r) == Replaced(m, l) + Replaced(m, r)
    decreases |l|
  {
    if l == [] {
      assert l + r == r;
    } else {
      ReplacedJoin(m, l[1..], r);
      assert (l + r)[1..] == l[1..] + r && (l + r)[0] == l[0];
      var first := if l[0].0 in m then [m[l[0].0]] else [];
      var a, b := Replaced(m, l[1..]), Replaced(m, r);
      assert Replaced(m, l + r) == first + Replaced(m, l[1..] + r);
      assert Replaced(m, l) == first + a;
      assert first + (a + b) == first + a + b;
    }
  }

  lemma {:induction false} ReplacedApart<V>(m: map<Key, V>, n: map<Key, V>, pairs: seq<(Key, V)>)
    requires forall i :: 0 <= i < |pairs| ==> pairs[i].0 !in n
    ensures Replaced(m + n, pairs) == Replaced(m, pairs)
    decreases |pairs|
  {
    if pairs != [] {
      ReplacedApart(m, n, pairs[1..]);
    }
  }

  /** Copying a node's children one after the other replaces what copying its
      leaves does. */
  lemma ReplacedBelow<V>(m: map<Key, V>, t: Tree<V>)
    requires CritBit(t)
    ensures t.Leaf? ==> Replaced(m, InOrder(t)) == if t.key in m then [m[t.key]] else []
    ensures t.Inner? ==>
      Replaced(m, InOrder(t)) == Replaced(m, InOrder(t.left)) + Replaced(m + Model(t.left), InOrder(t.right))
    ensures t.Inner? ==> CritBit(t.left) && CritBit(t.right)
  {
    hide KeyBit, Replaced, AllBits, AllAgree, HasKey;
    if t.Leaf? {
      ReplacedOne(m, t.key, t.val);
    } else {
      ReplacedJoin(m, InOrder(t.left), InOrder(t.right));
      InOrderPairs(t.right);
      ModelKeys(t.left);
      ModelKeys(t.right);
      SidesApart(t);
      ReplacedApart(m, Model(t.left), InOrder(t.right));
    }
  }

  lemma SidesApart<V>(t: Tree<V>)
    requires CritBit(t) && t.Inner?
    ensures Keys(t.left) !! Keys(t.right)
  {
    SideOf(t, []);
  }

  lemma ReplacedOne<V>(m: map<Key, V>, k: Key, v: V)
    ensures Replaced(m, [(k, v)]) == if k in m then [m[k]] else []
  {
    assert Replaced(m, [(k, v)][1..]) == [];
  }

  /** The recursive `copy`: set every pair below a cell in another dictionary,
      whose free callback gets the values replaced. */
  method CopyCell<V>(dest: Dict<V>, n: Cell<V>, ghost t: Tree<V>, ghost repr: set<object>) returns (ok: bool)
    requires dest.Valid() && Stacked(n, t, repr) && dest.Repr !! repr && CritBit(t)
    modifies dest.Repr
    ensures dest.Valid() && fresh(dest.Repr - old(dest.Repr))
    ensures ok && dest.Map() == old(dest.Map()) + Model(t)
    ensures dest.freeCb == old(dest.freeCb)
    ensures dest.freed == old(dest.freed) + Logged(dest.freeCb, Replaced(old(dest.Map()), InOrder(t)))
    decreases t, 1
  {
    hide KeyBit, Matches, Foot, CritBit, Distinct, Model, InOrder, Replaced;
    hide Dict.Shaped;
    NodeInHeap(t);
    ModelOfNode(dest.Map(), t);
    ReplacedBelow(dest.Map(), t);
    if n.v == None {
      ok := CopyChildren(dest, n, t, repr);
    } else {
      ok := dest.Set(n.u.s, n.v);
    }
  }

  /** copy(child 0) && copy(child 1). */
  method CopyChildren<V>(dest: Dict<V>, n: Cell<V>, ghost t: Tree<V>, ghost repr: set<object>) returns (ok: bool)
    requires dest.Valid() && Stacked(n, t, repr) && dest.Repr !! repr && CritBit(t) && t.Inner?
    modifies dest.Repr
    ensures dest.Valid() && fresh(dest.Repr - old(dest.Repr))
    ensures ok && dest.Map() == old(dest.Map()) + Model(t)
    ensures dest.freeCb == old(dest.freeCb)
    ensures dest.freed == old(dest.freed) + Logged(dest.freeCb, Replaced(old(dest.Map()), InOrder(t)))
    decreases t, 0
  {
    hide KeyBit, Matches, Foot, CritBit, Distinct, Model, InOrder, Replaced, Logged;
    hide Dict.Shaped;
    NodeInHeap(t);
    ModelOfNode(dest.Map(), t);
    ReplacedBelow(dest.Map(), t);
    LoggedJoin(dest.freed, dest.freeCb, Replaced(dest.Map(), InOrder(t.left)),
      Replaced(dest.Map() + Model(t.left), InOrder(t.right)));
    var node := n.u.n;
    ok := CopyCell(dest, node.child0, t.left, repr);
    if ok {
      ok := CopyCell(dest, node.child1, t.right, repr);
    }
  }

  /** What a free callback has been given, if there is one. */
  function Logged<V>(freeCb: bool, values: seq<V>): seq<V> {
    if freeCb then values else []
  }

  lemma LoggedJoin<V>(before: seq<V>, freeCb: bool, l: seq<V>, r: seq<V>)
    ensures before + Logged(freeCb, l) + Logged(freeCb, r) == before + Logged(freeCb, l + r)
  {
  }

  /** copy(dest, src->dict). */
  method CopyAll<V>(dest: Dict<V>, src: Dict<V>) returns (ok: bool)
    requires dest.Valid() && src.Valid() && dest.Repr !! src.Repr && src.dict.u != Null
    modifies dest.Repr
    ensures dest.Valid() && src.Valid() && src.Map() == old(src.Map()) && src.size == old(src.size)
    ensures fresh(dest.Repr - old(dest.Repr)) && ok && src.Map() != map[]
    ensures dest.Map() == old(dest.Map()) + src.Map()
    ensures dest.freeCb == old(dest.freeCb) && src.freeCb == old(src.freeCb) && src.Pairs() == old(src.Pairs())
    ensures dest.freed == old(dest.freed) + Logged(dest.freeCb, Replaced(old(dest.Map()), src.Pairs()))
  {
    hide KeyBit, Matches, Foot, CritBit, Distinct, Model, Replaced, InOrder, Logged;
    EmptyMapEmptyTree(src);
    src.NullIsEmpty();
    ok := CopyCell(dest, src.dict, src.tree.value, src.Repr);
  }

  /** dict_copy(dest, src).  The destination always receives src's pairs over its
      own, and its callback gets the values that they replace; then it takes over
      src's callback and src's size.  The size is right if and only if every key of
      the destination was a key of src. */
  method DictCopy<V>(dest: Dict<V>, src: Dict<V>) returns (ok: bool)
    requires dest.Valid() && src.Valid() && dest.Repr !! src.Repr
    modifies dest.Repr
    ensures src.Valid() && src.Map() == old(src.Map())
    ensures dest.Shaped() && fresh(dest.Repr - old(dest.Repr))
    ensures ok <==> src.Map() != map[]
    ensures dest.Map() == old(dest.Map()) + src.Map()
    ensures ok ==> dest.size == src.size && (dest.Valid() <==> old(dest.Map()).Keys <= src.Map().Keys)
    ensures ok ==> dest.freeCb == src.freeCb
    ensures ok ==>
      dest.freed == old(dest.freed) + Logged(old(dest.freeCb), Replaced(old(dest.Map()), src.Pairs()))
    ensures !ok ==> dest.Valid() && dest.freeCb == old(dest.freeCb) && dest.freed == old(dest.freed)
  {
    hide KeyBit, Matches, Foot, CritBit, Distinct, Model, Replaced, InOrder, Logged, Dict.Shaped;
    InOwnRepr(dest);
    InOwnRepr(src);
    EmptyMapEmptyTree(src);
    if src.dict.u == Null {
      src.NullIsEmpty();
      return false;
    }
    ok := CopyAll(dest, src);
    UnionGrows(old(dest.Map()), src.Map());
    TakeOver(dest, src.size, src.freeCb);
  }

  lemma InOwnRepr<V>(d: Dict<V>)
    requires d.Shaped()
    ensures d in d.Repr
  {
  }

  method TakeOver<V>(dest: Dict<V>, size: nat, freeCb: bool)
    requires dest.Shaped()
    modifies dest`size, dest`freeCb
    ensures dest.Shaped() && dest.size == size && dest.freeCb == freeCb
  {
    hide KeyBit, Matches, Foot, CritBit, Distinct;
    dest.size := size;
    dest.freeCb := freeCb;
  }

  const KEY_A: Key := [97]
  const KEY_B: Key := [98]

  /** Copying a dictionary that holds "b" into one that holds "a" leaves two pairs
      and a length of one. */
  method CopyLosesCount() returns (dest: Dict<int>)
    ensures fresh(dest) && dest.Shaped() && dest.Map() == map[KEY_A := 1, KEY_B := 2]
    ensures dest.size == 1 && !dest.Valid()
  {
    hide KeyBit, Matches, Foot, CritBit, Distinct, Model, Replaced, InOrder, Logged, Dict.Shaped, Dict.Map;
    dest := new Dict<int>();
    var ok := dest.Set(KEY_A, Some(1));
    var src := new Dict<int>();
    ok := src.Set(KEY_B, Some(2));
    assert KEY_A != KEY_B && KEY_B in src.Map();
    ok := DictCopy(dest, src);
  }

  lemma AHasNoB()
    ensures !HasPrefix(KEY_A, KEY_B)
  {
    assert KEY_A[..1][0] != KEY_B[0];
  }

  /** A dictionary that holds "a" has no iterator for the prefix "b". */
  method NoIteratorForB() returns (d: Dict<int>, r: Option<seq<(Key, int)>>)
    ensures fresh(d) && d.Valid() && d.Map() == map[KEY_A := 1]
    ensures r == None
  {
    hide KeyBit, Matches, Foot, CritBit, Distinct, Model;
    d := new Dict<int>();
    var ok := d.Set(KEY_A, Some(1));
    assert KEY_A in d.Map();
    AHasNoB();
    r := WithPrefix(d, KEY_B);
  }

  lemma UnionGrows<V>(m: map<Key, V>, n: map<Key, V>)
    ensures |m + n| == |n| <==> m.Keys <= n.Keys
  {
    assert (m + n).Keys == m.Keys + n.Keys;
    SetUnionGrows(m.Keys, n.Keys);
  }

  lemma SetUnionGrows(s: set<Key>, t: set<Key>)
    ensures |s + t| == |t| <==> s <= t
  {
    assert s + t == t + (s - t);
    assert |t + (s - t)| == |t| + |s - t|;
    assert s - t == {} <==> s <= t;
  }

  // ----- whole runs -----

  datatype Op<V> = OpSet(k: Key, v: V) | OpDel(k: Key) | OpClear

  /** The reference: what a run of operations does to a finite map. */
  ghost function Replay<V>(m: map<Key, V>, ops: seq<Op<V>>): map<Key, V>
    decreases |ops|
  {
    if ops == [] then m else
      Replay(match ops[0]
             case OpSet(k, v) => m[k := v]
             case OpDel(k) => m - {k}
             case OpClear => map[],
             ops[1..])
  }

  /** Any run of dict_set, dict_del and dict_clear on a new dictionary, followed
      by any lookup. */
  method Run<V>(ops: seq<Op<V>>, probe: Key) returns (d: Dict<V>, found: Option<V>, length: nat)
    ensures fresh(d) && d.Valid() && d.Map() == Replay(map[], ops)
    ensures found == if probe in Replay(map[], ops) then Some(Replay(map[], ops)[probe]) else None
    ensures length == |Replay(map[], ops)|
  {
    hide KeyBit, Matches, Foot, CritBit, Distinct;
    d := new Dict<V>();
    var i := 0;
    while i < |ops|
      invariant i <= |ops| && d.Valid() && fresh(d.Repr)
      invariant Replay(d.Map(), ops[i..]) == Replay(map[], ops)
    {
      assert ops[i..][0] == ops[i] && ops[i..][1..] == ops[i + 1..];
      match ops[i] {
        case OpSet(k, v) => var ok := d.Set(k, Some(v));
        case OpDel(k) => var old_value := d.Del(k);
        case OpClear => d.Clear();
      }
      i := i + 1;
    }
    found := d.Get(probe);
    length := d.Length();
  }
}
