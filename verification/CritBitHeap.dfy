/** Crit-bit trees laid out in the heap.

    A `Tree` value describes which cells and nodes a dictionary occupies and
    what they hold; `Matches` says that the heap agrees.  A `Context` is a tree
    with a hole, the part of the tree above the cell that a walk has reached. */
module CritBitHeap {
  import opened Common
  import opened KeyBits
  import opened CritBitTree

  ghost function Foot<V>(t: Tree<V>): set<object> {
    match t
    case Leaf(at, _, _) => {at}
    case Inner(at, node, _, l, r) => {at, node} + Foot(l) + Foot(r)
  }

  /** No cell or node occurs twice. */
  ghost predicate Distinct<V>(t: Tree<V>) {
    t.Inner? ==>
      && Distinct(t.left) && Distinct(t.right)
      && Foot(t.left) !! Foot(t.right)
      && {t.at as object, t.node} !! Foot(t.left) + Foot(t.right)
  }

  ghost predicate NodeTests<V>(node: Node<V>, pos: nat)
    reads node
  {
    node.bitIdx < 8 && Position(node.byteIdx, node.bitIdx) == pos
  }

  ghost predicate Matches<V>(t: Tree<V>)
    reads Foot(t)
  {
    match t
    case Leaf(at, k, v) => at.u == Str(k) && at.v == Some(v)
    case Inner(at, node, pos, l, r) =>
      && at.u == Ptr(node) && at.v == None
      && NodeTests(node, pos)
      && node.child0 == l.at && node.child1 == r.at
      && Matches(l) && Matches(r)
  }

  // ----- trees with a hole -----

  datatype Context<V> =
    | Hole
    | In(at: Cell<V>, node: Node<V>, pos: nat, direction: bool, other: Tree<V>, outer: Context<V>)

  ghost function Fill<V>(c: Context<V>, t: Tree<V>): Tree<V>
    requires c.In?
  {
    if c.direction then Inner(c.at, c.node, c.pos, c.other, t)
    else Inner(c.at, c.node, c.pos, t, c.other)
  }

  ghost function Plug<V>(c: Context<V>, t: Tree<V>): Tree<V> {
    if c.Hole? then t else Plug(c.outer, Fill(c, t))
  }

  ghost function ContextFoot<V>(c: Context<V>): set<object> {
    if c.Hole? then {} else {c.at as object, c.node} + Foot(c.other) + ContextFoot(c.outer)
  }

  ghost predicate ContextDistinct<V>(c: Context<V>) {
    c.In? ==>
      && Distinct(c.other)
      && {c.at as object, c.node} !! Foot(c.other)
      && {c.at as object, c.node} + Foot(c.other) !! ContextFoot(c.outer)
      && ContextDistinct(c.outer)
  }

  ghost predicate ContextMatches<V>(c: Context<V>, hole: Cell<V>)
    reads ContextFoot(c)
  {
    c.In? ==>
      && c.at.u == Ptr(c.node) && c.at.v == None
      && NodeTests(c.node, c.pos)
      && c.node.Child(c.direction) == hole && c.node.Child(!c.direction) == c.other.at
      && Matches(c.other)
      && ContextMatches(c.outer, c.at)
  }

  lemma {:induction false} PlugFoot<V>(c: Context<V>, t: Tree<V>)
    ensures Foot(Plug(c, t)) == ContextFoot(c) + Foot(t)
  {
    if c.In? {
      PlugFoot(c.outer, Fill(c, t));
    }
  }

  lemma {:induction false} PlugDistinct<V>(c: Context<V>, t: Tree<V>)
    ensures Distinct(Plug(c, t))
       <==> Distinct(t) && ContextDistinct(c) && ContextFoot(c) !! Foot(t)
  {
    if c.In? {
      PlugDistinct(c.outer, Fill(c, t));
    }
  }

  lemma {:induction false} PlugMatches<V>(c: Context<V>, t: Tree<V>)
    ensures Matches(Plug(c, t)) <==> Matches(t) && ContextMatches(c, t.at)
  {
    hide KeyBit;
    if c.In? {
      PlugMatches(c.outer, Fill(c, t));
    }
  }

  lemma {:induction false} PlugStart<V>(c: Context<V>, t: Tree<V>, t': Tree<V>)
    requires t.at == t'.at
    ensures Plug(c, t).at == Plug(c, t').at
  {
    if c.In? {
      PlugStart(c.outer, Fill(c, t), Fill(c, t'));
    }
  }

  /** The cells above the hole were reached by following k's bits, and test
      positions up to d. */
  ghost predicate Follows<V>(c: Context<V>, k: Key) {
    c.In? ==> c.direction == KeyBit(k, c.pos) && Follows(c.outer, k)
  }

  ghost predicate TestsUpTo<V>(c: Context<V>, d: nat) {
    c.In? ==> c.pos <= d && TestsUpTo(c.outer, d)
  }

  lemma {:induction false} PlugClosest<V>(c: Context<V>, t: Tree<V>, k: Key)
    requires Follows(c, k)
    ensures Closest(Plug(c, t), k) == Closest(t, k)
  {
    hide KeyBit;
    if c.In? {
      PlugClosest(c.outer, Fill(c, t), k);
    }
  }

  // ----- the splice point -----

  /** Where a walk along k's bits from t stops: at a leaf, or at the first node
      that tests a position after d; with the context of the place. */
  ghost function Walk<V>(c: Context<V>, t: Tree<V>, k: Key, d: nat): (Context<V>, Tree<V>)
    decreases t
  {
    if t.Leaf? || t.pos > d then (c, t)
    else
      var b := KeyBit(k, t.pos);
      Walk(In(t.at, t.node, t.pos, b, t.Child(!b), c), t.Child(b), k, d)
  }

  lemma {:induction false} WalkFromTop<V>(c: Context<V>, t: Tree<V>, k: Key, d: nat)
    requires Follows(c, k) && TestsUpTo(c, d)
    ensures Walk(Hole, Plug(c, t), k, d) == Walk(c, t, k, d)
  {
    hide KeyBit;
    if c.In? {
      WalkFromTop(c.outer, Fill(c, t), k, d);
    }
  }

  /** There is only one place in a tree that k's bits lead to past positions up to
      d only, and that is a leaf or tests a later position. */
  lemma SpliceIsUnique<V>(c: Context<V>, t: Tree<V>, c': Context<V>, t': Tree<V>, k: Key, d: nat)
    requires Plug(c, t) == Plug(c', t')
    requires Follows(c, k) && TestsUpTo(c, d) && (t.Leaf? || t.pos > d)
    requires Follows(c', k) && TestsUpTo(c', d) && (t'.Leaf? || t'.pos > d)
    ensures c == c' && t == t'
  {
    hide KeyBit, Follows, TestsUpTo;
    WalkFromTop(c, t, k, d);
    WalkFromTop(c', t', k, d);
  }

  ghost predicate TestsBefore<V>(c: Context<V>, d: nat) {
    c.In? ==> c.pos < d && TestsBefore(c.outer, d)
  }

  lemma {:induction false} BeforeIsUpTo<V>(c: Context<V>, d: nat)
    requires TestsBefore(c, d)
    ensures TestsUpTo(c, d)
  {
    if c.In? {
      BeforeIsUpTo(c.outer, d);
    }
  }

  lemma {:induction false} PlugCritBit<V>(c: Context<V>, t: Tree<V>)
    requires CritBit(Plug(c, t))
    ensures CritBit(t)
  {
    hide KeyBit, AllBits, AllAgree;
    if c.In? {
      PlugCritBit(c.outer, Fill(c, t));
    }
  }

  /** No node above the splice point tests the position of the first difference:
      the closest key lies below it, on k's side. */
  lemma {:induction false} AncestorsTestBefore<V>(c: Context<V>, t: Tree<V>, k: Key, d: nat)
    requires CritBit(Plug(c, t)) && Follows(c, k) && TestsUpTo(c, d)
    requires FirstDifference(Closest(t, k).key, k, d)
    ensures TestsBefore(c, d)
  {
    hide KeyBit, Agree, AllAgree;
    if c.In? {
      PlugCritBit(c, t);
      PlugCritBit(c.outer, Fill(c, t));
      ClosestIsExact(t, k);
      AncestorsTestBefore(c.outer, Fill(c, t), k, d);
    }
  }

  lemma {:induction false} PlugAssign<V>(c: Context<V>, t: Tree<V>, k: Key, v: V)
    requires Follows(c, k)
    ensures Assign(Plug(c, t), k, v) == Plug(c, Assign(t, k, v))
  {
    hide KeyBit;
    if c.In? {
      PlugAssign(c.outer, Fill(c, t), k, v);
    }
  }

  lemma {:induction false} PlugInsert<V>(c: Context<V>, t: Tree<V>, k: Key, v: V, d: nat, n: Node<V>)
    requires Follows(c, k) && TestsUpTo(c, d)
    ensures Insert(Plug(c, t), k, v, d, n) == Plug(c, Insert(t, k, v, d, n))
  {
    hide KeyBit;
    if c.In? {
      PlugInsert(c.outer, Fill(c, t), k, v, d, n);
    }
  }

  lemma {:induction false} PlugRemove<V>(c: Context<V>, t: Tree<V>, k: Key)
    requires Follows(c, k) && t.Inner?
    ensures Plug(c, t).Inner? && Remove(Plug(c, t), k) == Plug(c, Remove(t, k))
  {
    hide KeyBit;
    if c.In? {
      PlugRemove(c.outer, Fill(c, t), k);
    }
  }

  // ----- taking a subtree out of its context and putting one back -----

  lemma LeafInHeap<V>(t: Tree<V>)
    requires t.Leaf?
    ensures Foot(t) == {t.at} && Distinct(t)
    ensures Matches(t) <==> t.at.u == Str(t.key) && t.at.v == Some(t.val)
  {
  }

  lemma TakeOut<V>(c: Context<V>, t: Tree<V>)
    requires Matches(Plug(c, t)) && Distinct(Plug(c, t))
    ensures Matches(t) && Distinct(t) && t.at in Foot(t)
    ensures ContextMatches(c, t.at) && ContextDistinct(c) && ContextFoot(c) !! Foot(t)
    ensures Foot(Plug(c, t)) == ContextFoot(c) + Foot(t)
  {
    hide Matches, ContextMatches;
    PlugMatches(c, t);
    PlugDistinct(c, t);
    PlugFoot(c, t);
  }

  lemma PutIn<V>(c: Context<V>, t: Tree<V>)
    requires Matches(t) && Distinct(t)
    requires ContextMatches(c, t.at) && ContextDistinct(c) && ContextFoot(c) !! Foot(t)
    ensures Matches(Plug(c, t)) && Distinct(Plug(c, t))
    ensures Foot(Plug(c, t)) == ContextFoot(c) + Foot(t)
  {
    hide Matches, ContextMatches;
    PlugMatches(c, t);
    PlugDistinct(c, t);
    PlugFoot(c, t);
  }

  /** `*to = *from`, where from is the top cell of t. */
  method Copy<V>(from: Cell<V>, to: Cell<V>, ghost t: Tree<V>)
    requires t.at == from && Matches(t) && Distinct(t) && to !in Foot(t)
    modifies to
    ensures to.u == from.u && to.v == from.v
    ensures Matches(Moved(t, to)) && Distinct(Moved(t, to))
    ensures Foot(Moved(t, to)) == Foot(t) - {from} + {to}
  {
    to.u, to.v := from.u, from.v;
  }

  /** The new node of an insertion, once its child on k's side holds k and the
      other child holds a copy of the cell it displaces. */
  lemma SplitInHeap<V>(sub: Tree<V>, k: Key, v: V, d: nat, n: Node<V>)
    requires sub.at.u == Ptr(n) && sub.at.v == None && NodeTests(n, d)
    requires n.Child(KeyBit(k, d)).u == Str(k) && n.Child(KeyBit(k, d)).v == Some(v)
    requires var moved := Moved(sub, n.Child(!KeyBit(k, d)));
      && Matches(moved) && Distinct(moved)
      && {sub.at as object, n, n.Child(KeyBit(k, d))} !! Foot(moved)
    requires sub.at != n.Child(KeyBit(k, d))
    ensures var s := Split(sub, k, v, d, n);
      && Matches(s) && Distinct(s)
      && Foot(s) == Foot(Moved(sub, n.Child(!KeyBit(k, d)))) + {sub.at as object, n, n.Child(KeyBit(k, d))}
  {
    hide KeyBit, NodeTests;
  }

  /** Splitting at the hole is inserting into the whole tree. */
  lemma InsertHere<V>(c: Context<V>, sub: Tree<V>, k: Key, v: V, d: nat, n: Node<V>)
    requires CritBit(Plug(c, sub))
    requires Follows(c, k) && TestsUpTo(c, d) && (sub.Leaf? || sub.pos > d)
    requires FirstDifference(Closest(Plug(c, sub), k).key, k, d)
    ensures var t, s := Plug(c, sub), Plug(c, Split(sub, k, v, d, n));
      && Split(sub, k, v, d, n).at == sub.at && s.at == t.at
      && CritBit(s) && k !in Model(t) && Model(s) == Model(t)[k := v]
  {
    hide KeyBit, CritBit, FirstDifference;
    PlugInsert(c, sub, k, v, d, n);
    InsertUpdatesModel(Plug(c, sub), k, v, d, n);
    ModelKeys(Plug(c, sub));
    PlugStart(c, sub, Split(sub, k, v, d, n));
  }

  lemma AssignHere<V>(c: Context<V>, leaf: Tree<V>, k: Key, v: V)
    requires CritBit(Plug(c, leaf)) && Follows(c, k)
    requires leaf.Leaf? && leaf.key == k
    ensures var t, s := Plug(c, leaf), Plug(c, leaf.(val := v));
      && s.at == t.at && CritBit(s) && k in Model(t) && Model(s) == Model(t)[k := v]
  {
    hide KeyBit, CritBit;
    var t := Plug(c, leaf);
    PlugClosest(c, leaf, k);
    ClosestIsExact(t, k);
    AssignUpdatesModel(t, k, v);
    PlugAssign(c, leaf, k, v);
    PlugStart(c, leaf, leaf.(val := v));
  }

  lemma TopInFoot<V>(t: Tree<V>)
    ensures t.at in Foot(t)
  {
  }

  /** Raising the sibling of k's leaf into the parent's cell is removing k from
      the whole tree. */
  lemma RemoveHere<V>(c: Context<V>, leaf: Tree<V>, k: Key)
    requires CritBit(Plug(c, leaf)) && Follows(c, k) && c.In?
    requires leaf.Leaf? && leaf.key == k
    ensures var t, s := Plug(c, leaf), Plug(c.outer, Moved(c.other, c.at));
      && s.at == t.at && CritBit(s)
      && k in Model(t) && Model(t)[k] == leaf.val && Model(s) == Model(t) - {k}
  {
    hide KeyBit, CritBit;
    var t := Plug(c, leaf);
    PlugClosest(c, leaf, k);
    ClosestIsExact(t, k);
    PlugRemove(c.outer, Fill(c, leaf), k);
    RemoveUpdatesModel(t, k);
    PlugStart(c.outer, Fill(c, leaf), Moved(c.other, c.at));
  }

  /** A context with a node on top, taken apart one level higher. */
  lemma TakeOutParent<V>(c: Context<V>, t: Tree<V>)
    requires c.In? && Matches(Plug(c, t)) && Distinct(Plug(c, t))
    ensures c.at.u == Ptr(c.node) && c.node.Child(!c.direction) == c.other.at
    ensures Matches(c.other) && Distinct(c.other) && c.at !in Foot(c.other) && c.other.at in Foot(c.other)
    ensures ContextMatches(c.outer, c.at) && ContextDistinct(c.outer)
    ensures ContextFoot(c.outer) !! Foot(c.other) && c.at !in ContextFoot(c.outer)
    ensures Foot(c.other) + {c.at} + ContextFoot(c.outer) <= Foot(Plug(c, t))
  {
    TakeOut(c, t);
    TopInFoot(c.other);
  }

  /** The source tells leaves from nodes by the value pointer. */
  lemma NodeInHeap<V>(t: Tree<V>)
    requires Matches(t)
    ensures t.at.v == None <==> t.Inner?
    ensures t.Leaf? ==> t.at.u == Str(t.key) && t.at.v == Some(t.val)
    ensures t.Inner? ==>
      && t.at.u == Ptr(t.node) && t.node.child0 == t.left.at && t.node.child1 == t.right.at
      && Matches(t.left) && Matches(t.right)
      && Foot(t.left) + Foot(t.right) <= Foot(t)
  {
  }
}
