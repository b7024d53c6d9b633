/** The dictionary: a crit-bit tree changed in place, refining a finite map. */
module CritBitDict {
  import opened Common
  import opened KeyBits
  import opened CritBitTree
  import opened CritBitHeap

  class Dict<V> {
    const dict: Cell<V>
    var size: nat
    /** Whether a free callback is set, and the values it has been given. */
    var freeCb: bool
    var freed: seq<V>
    ghost var tree: Option<Tree<V>>
    ghost var Repr: set<object>

    /** The tree in the heap is a crit-bit tree. */
    ghost predicate Shaped()
      reads this, Repr
    {
      && this in Repr && dict in Repr
      && match tree
         case None => dict.u == Null && dict.v == None
         case Some(t) =>
           && t.at == dict && Repr == {this} + Foot(t) && this !in Foot(t)
           && Matches(t) && Distinct(t) && CritBit(t)
    }

    ghost predicate Valid()
      reads this, Repr
    {
      Shaped() && size == |Map()|
    }

    /** The abstract value: a finite map from keys to (non-NULL) values. */
    ghost function Map(): map<Key, V>
      reads this
    {
      match tree
      case None => map[]
      case Some(t) => Model(t)
    }

    /** The pairs in the order of the tree's leaves. */
    ghost function Pairs(): seq<(Key, V)>
      reads this
    {
      match tree
      case None => []
      case Some(t) => InOrder(t)
    }

    constructor ()
      ensures Valid() && fresh(Repr) && Map() == map[]
      ensures !freeCb && freed == []
    {
      dict := new Cell(Null, None);
      size := 0;
      freeCb, freed := false, [];
      tree := None;
      Repr := {this, dict};
    }

    method Length() returns (n: nat)
      requires Valid()
      ensures n == |Map()|
    {
      n := size;
    }

    /** Walk from the root to the leaf closest to k. */
    method Closest(k: Key) returns (n: Cell<V>, ghost c: Context<V>, ghost leaf: Tree<V>)
      requires Shaped() && tree.Some?
      ensures leaf == CritBitTree.Closest(tree.value, k) && leaf.at == n && Matches(leaf)
      ensures Plug(c, leaf) == tree.value && Follows(c, k) && n in Repr
    {
      hide KeyBit, CritBit, Distinct;
      n := dict;
      c, leaf := Hole, tree.value;
      while n.v == None
        invariant leaf.at == n && Matches(leaf)
        invariant Plug(c, leaf) == tree.value && Follows(c, k)
        invariant Shaped()
        decreases leaf
      {
        var node := n.u.n;
        var direction := false;
        if node.byteIdx < |k| {
          direction := BitOf(k[node.byteIdx], node.bitIdx);
        }
        DirectionIsKeyBit(k, node.byteIdx, node.bitIdx);
        c := In(leaf.at, leaf.node, leaf.pos, direction, leaf.Child(!direction), c);
        leaf := leaf.Child(direction);
        n := node.Child(direction);
      }
      PlugClosest(c, leaf, k);
      TakeOut(c, leaf);
    }

    method Get(k: Key) returns (r: Option<V>)
      requires Shaped()
      ensures r == if k in Map() then Some(Map()[k]) else None
    {
      hide KeyBit, CritBit, Distinct;
      if dict.u == Null {
        return None;
      }
      var n, c, leaf := Closest(k);
      ClosestIsExact(tree.value, k);
      ModelKeys(tree.value);
      r := if n.u.s == k then n.v else None;
    }

    /** strcmp-style scan for the first differing byte; None when equal. */
    static method FirstDifferingByte(x: Key, k: Key) returns (r: Option<nat>)
      ensures r == None <==> x == k
      ensures r.Some? ==> DiffersAt(x, k, r.value)
    {
      var byteIdx := 0;
      while CharAt(x, byteIdx) == CharAt(k, byteIdx)
        invariant byteIdx <= |x| && byteIdx <= |k| && x[..byteIdx] == k[..byteIdx]
        decreases |k| - byteIdx
      {
        if CharAt(k, byteIdx) == 0 {
          assert x[..byteIdx] == x && k[..byteIdx] == k;
          return None;
        }
        byteIdx := byteIdx + 1;
      }
      r := Some(byteIdx);
    }

    static method HighestBit(x: bv8) returns (bitIdx: nat)
      ensures bitIdx == TopBit(x)
    {
      var diff := x >> 1;
      bitIdx := 0;
      while diff != 0
        invariant TopBit(x) == if diff == 0 then bitIdx else bitIdx + 1 + TopBit(diff)
        decreases diff
      {
        diff := diff >> 1;
        bitIdx := bitIdx + 1;
      }
    }

    /** Record that the subtree at the hole of c is now s. */
    ghost method Regrow(c: Context<V>, s: Tree<V>)
      requires Matches(s) && Distinct(s)
      requires ContextMatches(c, s.at) && ContextDistinct(c) && ContextFoot(c) !! Foot(s)
      requires CritBit(Plug(c, s)) && Plug(c, s).at == dict
      requires this !in ContextFoot(c) && this !in Foot(s)
      modifies this`tree, this`Repr
      ensures tree == Some(Plug(c, s)) && Repr == {this} + ContextFoot(c) + Foot(s)
      ensures Shaped()
    {
      hide KeyBit, CritBit, Matches, Distinct, ContextMatches, ContextDistinct, Foot, ContextFoot, Plug;
      PutIn(c, s);
      TopInFoot(Plug(c, s));
      tree := Some(Plug(c, s));
      Repr := {this} + Foot(Plug(c, s));
    }

    /** Store a new value in the leaf that holds k. */
    method Overwrite(n: Cell<V>, k: Key, v: V, ghost c: Context<V>, ghost leaf: Tree<V>)
      requires Valid() && tree.Some?
      requires leaf.Leaf? && leaf.at == n && leaf.key == k && Matches(leaf)
      requires Plug(c, leaf) == tree.value && Follows(c, k)
      modifies this, n
      ensures Valid() && Repr == old(Repr) && freeCb == old(freeCb)
      ensures Map() == old(Map())[k := v]
      ensures k in old(Map())
      ensures freed == old(freed) + if freeCb then [old(Map())[k]] else []
    {
      hide KeyBit, CritBit, Matches, Distinct, ContextMatches, ContextDistinct, Foot, ContextFoot;
      hide Plug, Follows, Assign, Model, Keys, CritBitTree.Closest;
      ghost var t := tree.value;
      ghost var leaf' := leaf.(val := v);
      LookUp(t, leaf, c, k);
      AssignHere(c, leaf, k, v);
      TakeOut(c, leaf);
      LeafInHeap(leaf);
      if freeCb {
        freed := freed + [n.v.value];
      }
      n.v := Some(v);
      LeafInHeap(leaf');
      Regrow(c, leaf');
      SameSize(Model(t), k, v);
    }

    static lemma SameSize(m: map<Key, V>, k: Key, v: V)
      requires k in m
      ensures |m[k := v]| == |m|
    {
      assert m[k := v].Keys == m.Keys;
    }

    /** What reaching k's own leaf says about the map. */
    static lemma LookUp(t: Tree<V>, leaf: Tree<V>, c: Context<V>, k: Key)
      requires CritBit(t) && Plug(c, leaf) == t && Follows(c, k) && leaf.Leaf?
      ensures k in Keys(t) <==> leaf.key == k
      ensures Keys(t) == Model(t).Keys
      ensures leaf.key in Model(t) && Model(t)[leaf.key] == leaf.val
    {
      hide KeyBit, CritBit;
      PlugClosest(c, leaf, k);
      ClosestIsExact(t, k);
      ModelKeys(t);
    }

    /** The second walk of dict_set: where to insert is not at the closest key
        but at the first node that tests a later position.  It is the one place of
        its kind, and the nodes above it all test earlier positions. */
    method FindSplice(k: Key, byteIdx: nat, bitIdx: nat)
      returns (n: Cell<V>, ghost c: Context<V>, ghost sub: Tree<V>)
      requires Shaped() && tree.Some? && bitIdx < 8
      requires FirstDifference(CritBitTree.Closest(tree.value, k).key, k, Position(byteIdx, bitIdx))
      ensures Plug(c, sub) == tree.value && sub.at == n && Matches(sub)
      ensures Follows(c, k) && TestsBefore(c, Position(byteIdx, bitIdx))
      ensures sub.Leaf? || sub.pos > Position(byteIdx, bitIdx)
      ensures (c, sub) == Walk(Hole, tree.value, k, Position(byteIdx, bitIdx))
      ensures n in Repr
    {
      hide KeyBit, CritBit, Distinct, FirstDifference;
      n := dict;
      c, sub := Hole, tree.value;
      while n.v == None
        invariant sub.at == n && Matches(sub)
        invariant Plug(c, sub) == tree.value
        invariant Follows(c, k) && TestsUpTo(c, Position(byteIdx, bitIdx))
        invariant Shaped()
        decreases sub
      {
        var node := n.u.n;
        if node.byteIdx > byteIdx { break; }
        if node.byteIdx == byteIdx && node.bitIdx < bitIdx { break; }
        var direction := false;
        if node.byteIdx < |k| {
          direction := BitOf(k[node.byteIdx], node.bitIdx);
        }
        DirectionIsKeyBit(k, node.byteIdx, node.bitIdx);
        c := In(sub.at, sub.node, sub.pos, direction, sub.Child(!direction), c);
        sub := sub.Child(direction);
        n := node.Child(direction);
      }
      TakeOut(c, sub);
      WalkFromTop(c, sub, k, Position(byteIdx, bitIdx));
      PlugClosest(c, sub, k);
      AncestorsTestBefore(c, sub, k, Position(byteIdx, bitIdx));
    }

    method Insert(k: Key, v: V, byteIdx: nat)
      requires Valid() && tree.Some?
      requires DiffersAt(CritBitTree.Closest(tree.value, k).key, k, byteIdx)
      modifies Repr
      ensures Valid() && fresh(Repr - old(Repr))
      ensures k !in old(Map()) && Map() == old(Map())[k := v]
      ensures freeCb == old(freeCb) && freed == old(freed)
    {
      hide KeyBit, CritBit, Matches, Distinct, ContextMatches, ContextDistinct, Foot, ContextFoot;
      hide Plug, Follows, TestsBefore, Walk, Model, CritBitTree.Closest, FirstDifference, DiffersAt;
      hide CharAt;
      hide NodeTests, Position, TopBit, BitOf;
      ghost var t := tree.value;
      var closest, c0, leaf := Closest(k);
      LeafInHeap(leaf);
      var bitIdx, newDir := DifferingBit(closest.u.s, k, byteIdx);
      var newn, leafCell, otherCell := NewNode(k, v, byteIdx, bitIdx, newDir);
      var n, c, sub := FindSplice(k, byteIdx, bitIdx);
      Splice(k, v, n, newn, otherCell, leafCell, Position(byteIdx, bitIdx), c, sub);
    }

    /** Which bit differs, and which way k goes there. */
    static method DifferingBit(x: Key, k: Key, byteIdx: nat) returns (bitIdx: nat, newDir: bool)
      requires DiffersAt(x, k, byteIdx)
      ensures bitIdx < 8 && FirstDifference(x, k, Position(byteIdx, bitIdx))
      ensures newDir == KeyBit(k, Position(byteIdx, bitIdx))
    {
      bitIdx := HighestBit(CharAt(x, byteIdx) ^ CharAt(k, byteIdx));
      DifferenceFound(x, k, byteIdx);
      newDir := BitOf(CharAt(k, byteIdx), bitIdx);
      ZeroHasNoBits();
      DirectionIsKeyBit(k, byteIdx, bitIdx);
    }

    static method NewNode(k: Key, v: V, byteIdx: nat, bitIdx: nat, newDir: bool)
      returns (newn: Node<V>, leafCell: Cell<V>, otherCell: Cell<V>)
      requires bitIdx < 8
      ensures fresh(newn) && fresh(leafCell) && fresh(otherCell) && leafCell != otherCell
      ensures NodeTests(newn, Position(byteIdx, bitIdx))
      ensures newn.Child(newDir) == leafCell && newn.Child(!newDir) == otherCell
      ensures leafCell.u == Str(k) && leafCell.v == Some(v)
    {
      leafCell := new Cell(Str(k), Some(v));
      otherCell := new Cell(Null, None);
      newn := new Node(byteIdx, bitIdx,
                       if newDir then otherCell else leafCell,
                       if newDir then leafCell else otherCell);
    }

    /** Link the new node in at n, above what n held. */
    method Splice(k: Key, v: V, n: Cell<V>, newn: Node<V>, otherCell: Cell<V>, leafCell: Cell<V>,
                  ghost d: nat, ghost c: Context<V>, ghost sub: Tree<V>)
      requires Valid() && tree.Some? && Plug(c, sub) == tree.value && sub.at == n
      requires Follows(c, k) && TestsBefore(c, d) && (sub.Leaf? || sub.pos > d)
      requires FirstDifference(CritBitTree.Closest(tree.value, k).key, k, d)
      requires newn !in Repr && otherCell !in Repr && leafCell !in Repr && otherCell != leafCell
      requires NodeTests(newn, d)
      requires newn.Child(KeyBit(k, d)) == leafCell && newn.Child(!KeyBit(k, d)) == otherCell
      requires leafCell.u == Str(k) && leafCell.v == Some(v)
      modifies this, n, otherCell
      ensures Valid() && Repr == old(Repr) + {newn, otherCell, leafCell}
      ensures k !in old(Map()) && Map() == old(Map())[k := v]
      ensures freeCb == old(freeCb) && freed == old(freed)
    {
      hide KeyBit, CritBit, Matches, Distinct, ContextMatches, ContextDistinct, Foot, ContextFoot;
      hide Plug, Follows, TestsUpTo, TestsBefore, CritBitTree.Insert, Split, Model, CritBitTree.Closest, FirstDifference;
      hide NodeTests, Position;
      TakeOut(c, sub);
      BeforeIsUpTo(c, d);
      InsertHere(c, sub, k, v, d, newn);
      LinkIn(k, v, n, newn, otherCell, leafCell, d, c, sub, Repr);
      size := size + 1;
      Regrow(c, Split(sub, k, v, d, newn));
    }

    /** What n held moves below the new node, and n comes to hold that node. */
    static method LinkIn(k: Key, v: V, n: Cell<V>, newn: Node<V>, otherCell: Cell<V>, leafCell: Cell<V>,
                         ghost d: nat, ghost c: Context<V>, ghost sub: Tree<V>, ghost repr: set<object>)
      requires ContextFoot(c) <= repr
      requires sub.at == n && n in Foot(sub) && Matches(sub) && Distinct(sub)
      requires ContextMatches(c, n) && ContextFoot(c) !! Foot(sub)
      requires {newn as object, otherCell, leafCell} !! ContextFoot(c) + Foot(sub) && otherCell != leafCell
      requires NodeTests(newn, d)
      requires newn.Child(KeyBit(k, d)) == leafCell && newn.Child(!KeyBit(k, d)) == otherCell
      requires leafCell.u == Str(k) && leafCell.v == Some(v)
      modifies n, otherCell
      ensures var s := Split(sub, k, v, d, newn);
        && s.at == n && Matches(s) && Distinct(s) && ContextMatches(c, n)
        && Foot(s) == Foot(sub) + {newn as object, otherCell, leafCell}
    {
      hide KeyBit, Matches, Distinct, ContextMatches, Foot, ContextFoot, NodeTests, Moved;
      assert n !in ContextFoot(c) && otherCell !in ContextFoot(c);
      Copy(n, otherCell, sub);
      n.u := Ptr(newn);
      n.v := None;
      SplitInHeap(sub, k, v, d, newn);
    }

    lemma NullIsEmpty()
      requires Shaped()
      ensures dict.u == Null <==> tree == None
    {
      hide KeyBit, CritBit, Distinct;
    }

    method SetFirst(k: Key, v: V)
      requires Valid() && dict.u == Null
      modifies this, dict
      ensures Valid() && Repr <= old(Repr) && freeCb == old(freeCb) && freed == old(freed)
      ensures old(Map()) == map[] && Map() == map[k := v]
    {
      hide KeyBit, AllBits, AllAgree, Matches, Distinct, Foot;
      NullIsEmpty();
      dict.u := Str(k);
      dict.v := Some(v);
      size := size + 1;
      LeafInHeap(Leaf(dict, k, v));
      tree := Some(Leaf(dict, k, v));
      Repr := {this, dict};
    }

    method Set(k: Key, value: Option<V>) returns (ok: bool)
      requires Valid()
      modifies Repr
      ensures Valid() && fresh(Repr - old(Repr))
      ensures ok == value.Some? && freeCb == old(freeCb)
      ensures !ok ==> Map() == old(Map()) && freed == old(freed)
      ensures ok ==> Map() == old(Map())[k := value.value]
      ensures ok ==> freed == old(freed) + if freeCb && k in old(Map()) then [old(Map())[k]] else []
    {
      hide KeyBit, CritBit, Matches, Distinct, Foot, ContextMatches;
      NullIsEmpty();
      if value == None {
        return false;
      }
      if dict.u == Null {
        SetFirst(k, value.value);
        return true;
      }
      var n, c, leaf := Closest(k);
      LeafInHeap(leaf);
      var byteIdx := FirstDifferingByte(n.u.s, k);
      if byteIdx == None {
        Overwrite(n, k, value.value, c, leaf);
      } else {
        Insert(k, value.value, byteIdx.value);
      }
      ok := true;
    }

    method Del(k: Key) returns (value: Option<V>)
      requires Valid()
      modifies Repr
      ensures Valid() && Repr <= old(Repr)
      ensures value == if k in old(Map()) then Some(old(Map())[k]) else None
      ensures Map() == old(Map()) - {k}
      ensures freeCb == old(freeCb) && freed == old(freed)
    {
      hide KeyBit, CritBit, Matches, Distinct, Foot, ContextMatches, Plug, Follows;
      NullIsEmpty();
      if dict.u == Null {
        return None;
      }
      var n, parent, direction, c, leaf := ClosestAndParent(k);
      LookUp(tree.value, leaf, c, k);
      LeafInHeap(leaf);
      if n.u.s != k {
        return None;
      }
      value := n.v;
      if parent == null {
        DelLast(k, n, leaf);
      } else {
        Raise(k, parent, direction, c, leaf);
      }
    }

    /** Reset the last item in the dictionary. */
    method DelLast(k: Key, n: Cell<V>, ghost leaf: Tree<V>)
      requires Valid() && tree == Some(leaf) && leaf.Leaf? && leaf.key == k && n == dict
      modifies this, n
      ensures Valid() && Repr == {this, dict}
      ensures Map() == old(Map()) - {k}
      ensures freeCb == old(freeCb) && freed == old(freed)
    {
      hide KeyBit, AllBits, AllAgree;
      size := size - 1;
      n.u := Null;
      n.v := None;
      tree := None;
      Repr := {this, dict};
    }

    /** Put the leaf's sibling in the place of the node above both. */
    method Raise(k: Key, parent: Cell<V>, direction: bool, ghost c: Context<V>, ghost leaf: Tree<V>)
      requires Valid() && tree.Some? && Plug(c, leaf) == tree.value && Follows(c, k)
      requires leaf.Leaf? && leaf.key == k
      requires c.In? && c.at == parent && c.direction == direction
      modifies this, parent
      ensures Valid() && Repr <= old(Repr)
      ensures Map() == old(Map()) - {k}
      ensures freeCb == old(freeCb) && freed == old(freed)
    {
      hide KeyBit, CritBit, Matches, Distinct, ContextMatches, ContextDistinct, Foot, ContextFoot;
      hide Plug, Follows, Model;
      RemoveHere(c, leaf, k);
      TakeOutParent(c, leaf);
      size := size - 1;
      var node := parent.u.n;
      Copy(node.Child(!direction), parent, c.other);
      Regrow(c.outer, Moved(c.other, c.at));
    }

    /** The walk of dict_del: the closest leaf, and its parent's cell. */
    method ClosestAndParent(k: Key)
      returns (n: Cell<V>, parent: Cell?<V>, direction: bool, ghost c: Context<V>, ghost leaf: Tree<V>)
      requires Shaped() && tree.Some?
      ensures leaf.Leaf? && leaf.at == n && Matches(leaf) && n in Repr
      ensures Plug(c, leaf) == tree.value && Follows(c, k)
      ensures parent == null ==> tree.value == leaf && n == dict
      ensures parent != null ==> c.In?
      ensures parent != null ==> parent in Repr && c.at == parent && c.direction == direction
    {
      hide KeyBit, CritBit, Distinct;
      n, parent, direction := dict, null, false;
      c, leaf := Hole, tree.value;
      while n.v == None
        invariant leaf.at == n && Matches(leaf)
        invariant Plug(c, leaf) == tree.value && Follows(c, k)
        invariant parent == null <==> c.Hole?
        invariant parent != null ==> c.at == parent && c.direction == direction
        invariant Shaped()
        decreases leaf
      {
        parent := n;
        var node := n.u.n;
        direction := false;
        if node.byteIdx < |k| {
          direction := BitOf(k[node.byteIdx], node.bitIdx);
        }
        DirectionIsKeyBit(k, node.byteIdx, node.bitIdx);
        c := In(leaf.at, leaf.node, leaf.pos, direction, leaf.Child(!direction), c);
        leaf := leaf.Child(direction);
        n := node.Child(direction);
      }
      TakeOut(c, leaf);
      if c.In? {
        TakeOutParent(c, leaf);
      }
    }

    /** The recursive `clear`: hand every value to the callback, left to right. */
    method ClearCell(n: Cell<V>, ghost t: Tree<V>)
      requires t.at == n && Matches(t) && this !in Foot(t) && Foot(t) <= Repr
      modifies this`freed
      ensures freed == old(freed) + if freeCb then Values(InOrder(t)) else []
      decreases t
    {
      hide KeyBit, Foot, Matches, InOrder, Values;
      NodeInHeap(t);
      CellsBelow(t);
      ValuesBelow(t);
      if n.v == None {
        ClearCell(n.u.n.child0, t.left);
        ClearCell(n.u.n.child1, t.right);
      } else if freeCb {
        freed := freed + [n.v.value];
      }
    }

    method Clear()
      requires Valid()
      modifies Repr
      ensures Valid() && Repr <= old(Repr) && Map() == map[]
      ensures freeCb == old(freeCb)
      ensures freed == old(freed) + if freeCb then Values(old(Pairs())) else []
    {
      hide KeyBit, CritBit, Matches, Distinct;
      NullIsEmpty();
      if dict.u != Null {
        ClearCell(dict, tree.value);
      }
      dict.u := Null;
      dict.v := None;
      size := 0;
      tree := None;
      Repr := {this, dict};
    }

    /** get_prefix: the cell of the subtree of matching keys, or an empty cell. */
    method GetPrefix(prefix: Key) returns (top: Cell<V>, ghost sub: Option<Tree<V>>)
      requires Shaped()
      ensures match MatchingTree(prefix)
              case Some(t) => top == t.at && Matches(t) && Foot(t) <= Repr
              case None => top.u == Null && top.v == None
      ensures sub == MatchingTree(prefix)
    {
      hide KeyBit, Distinct, Foot, ContextMatches, ContextDistinct, ContextFoot, AllBits, AllAgree;
      NullIsEmpty();
      if dict.u == Null {
        return dict, None;
      }
      top := dict;
      var n := dict;
      ghost var t := tree.value;
      ghost var c, cur := Hole, t;
      ghost var cTop, curTop := c, cur;
      while n.v == None
        invariant cur.at == n && Matches(cur) && CritBit(cur)
        invariant Plug(c, cur) == t && Follows(c, prefix)
        invariant Plug(cTop, curTop) == t && curTop.at == top
        invariant
          || (curTop == cur && Top(t, prefix) == Top(cur, prefix))
          || (curTop == Top(t, prefix) && (cur.Inner? ==> cur.pos >= 8 * |prefix|))
        invariant Shaped()
        decreases cur
      {
        var node := n.u.n;
        var ch := 0;
        if node.byteIdx < |prefix| {
          ch := prefix[node.byteIdx];
        }
        var direction := BitOf(ch, node.bitIdx);
        ZeroHasNoBits();
        DirectionIsKeyBit(prefix, node.byteIdx, node.bitIdx);
        if cur.Child(direction).Inner? {
          PositionsIncrease(cur, direction);
        }
        c := In(cur.at, cur.node, cur.pos, direction, cur.Child(!direction), c);
        cur := cur.Child(direction);
        n := node.Child(direction);
        if ch != 0 {
          top := n;
          cTop, curTop := c, cur;
        }
      }
      PlugClosest(c, cur, prefix);
      TakeOut(cTop, curTop);
      if !(|prefix| <= |n.u.s| && n.u.s[..|prefix|] == prefix) {
        top := new Cell(Null, None);
        return top, None;
      }
      sub := Some(curTop);
    }

    ghost function MatchingTree(prefix: Key): Option<Tree<V>>
      reads this
    {
      if tree.Some? && HasPrefix(CritBitTree.Closest(tree.value, prefix).key, prefix)
      then Some(Top(tree.value, prefix)) else None
    }
  }

  ghost function Values<V>(pairs: seq<(Key, V)>): seq<V> {
    seq(|pairs|, i requires 0 <= i < |pairs| => pairs[i].1)
  }

  lemma CellsBelow<V>(t: Tree<V>)
    ensures t.at in Foot(t) && (t.Inner? ==> t.node in Foot(t))
  {
  }

  lemma ValuesBelow<V>(t: Tree<V>)
    ensures t.Leaf? ==> Values(InOrder(t)) == [t.val]
    ensures t.Inner? ==> Values(InOrder(t)) == Values(InOrder(t.left)) + Values(InOrder(t.right))
  {
    hide Values;
    if t.Inner? {
      ValuesJoin(InOrder(t.left), InOrder(t.right));
    } else {
      OneValue(t.key, t.val);
    }
  }

  lemma OneValue<V>(k: Key, v: V)
    ensures Values([(k, v)]) == [v]
  {
  }

  lemma ValuesJoin<V>(l: seq<(Key, V)>, r: seq<(Key, V)>)
    ensures Values(l + r) == Values(l) + Values(r)
  {
  }
}
