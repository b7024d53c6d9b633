/** The doubly linked list, changed in place, refining a sequence. */
module AdList {
  import opened Common

  class Node<T> {
    var prev: Node?<T>
    var next: Node?<T>
    const value: T

    constructor (value: T)
      ensures this.value == value
    {
      this.value := value;
      prev, next := null, null;
    }
  }

  /** The node before position i of a list of nodes, null at the front. */
  ghost function Before<T>(nodes: seq<Node<T>>, i: nat): Node?<T>
    requires i <= |nodes|
  {
    if i == 0 then null else nodes[i - 1]
  }

  /** The node at position i, null past the end. */
  ghost function From<T>(nodes: seq<Node<T>>, i: nat): Node?<T>
    requires i <= |nodes|
  {
    if i == |nodes| then null else nodes[i]
  }

  ghost predicate Unrepeated<T>(nodes: seq<Node<T>>) {
    forall i, j :: 0 <= i < j < |nodes| ==> nodes[i] != nodes[j]
  }

  ghost predicate PrevLinked<T>(nodes: seq<Node<T>>, repr: set<Node<T>>)
    reads repr
  {
    forall i :: 0 <= i < |nodes| ==> nodes[i] in repr && nodes[i].prev == Before(nodes, i)
  }

  ghost predicate NextLinked<T>(nodes: seq<Node<T>>, repr: set<Node<T>>)
    reads repr
  {
    forall i :: 0 <= i < |nodes| ==> nodes[i] in repr && nodes[i].next == From(nodes, i + 1)
  }

  /** The nodes are distinct and chained both ways, in this order. */
  ghost predicate Chain<T>(nodes: seq<Node<T>>, repr: set<Node<T>>)
    reads repr
  {
    Unrepeated(nodes) && PrevLinked(nodes, repr) && NextLinked(nodes, repr)
  }

  ghost function Values<T>(nodes: seq<Node<T>>): seq<T> {
    seq(|nodes|, i requires 0 <= i < |nodes| => nodes[i].value)
  }

  function Without<T>(s: seq<T>, i: nat): seq<T>
    requires i < |s|
  {
    s[..i] + s[i + 1..]
  }

  function With<T>(s: seq<T>, i: nat, x: T): seq<T>
    requires i <= |s|
  {
    s[..i] + [x] + s[i..]
  }

  function Rotated<T>(s: seq<T>): seq<T> {
    if |s| <= 1 then s else [s[|s| - 1]] + s[..|s| - 1]
  }

  /** The three changes, from the parts of the sequence. */
  lemma ChangesMean<T>(s: seq<T>, t: seq<T>, x: T)
    ensures Without(s + [x] + t, |s|) == s + t
    ensures With(s + t, |s|, x) == s + [x] + t
    ensures Rotated(s + [x]) == [x] + s
  {
    assert (s + [x] + t)[..|s|] == s && (s + [x] + t)[|s| + 1..] == t;
    assert (s + t)[..|s|] == s && (s + t)[|s|..] == t;
    assert (s + [x])[..|s|] == s;
  }

  /** The node at position i stands nowhere else. */
  lemma OnlyAt<T>(nodes: seq<Node<T>>, i: nat)
    requires Unrepeated(nodes) && i < |nodes|
    ensures forall j :: 0 <= j < |nodes| && j != i ==> nodes[j] != nodes[i]
    ensures Before(nodes, i + 1) == nodes[i] && From(nodes, i) == nodes[i]
  {
  }

  lemma AtEnds<T>(nodes: seq<Node<T>>)
    ensures Before(nodes, 0) == null && From(nodes, |nodes|) == null
  {
  }

  // ----- taking a node out -----

  lemma EndsWithout<T>(nodes: seq<Node<T>>, i: nat)
    requires i < |nodes|
    ensures |Without(nodes, i)| == |nodes| - 1
    ensures forall j :: 0 <= j < |nodes| - 1 ==> Without(nodes, i)[j] == nodes[if j < i then j else j + 1]
    ensures forall j :: 0 <= j < |nodes| ==>
      && Before(Without(nodes, i), j) == Before(nodes, if j <= i then j else j + 1)
      && From(Without(nodes, i), j) == From(nodes, if j < i then j else j + 1)
  {
  }

  /** A chain, but for the neighbours of position i, which point past it. */
  ghost predicate Bypassed<T>(nodes: seq<Node<T>>, repr: set<Node<T>>, i: nat)
    requires i < |nodes|
    reads repr
  {
    forall j :: 0 <= j < |nodes| ==>
      && nodes[j] in repr
      && nodes[j].prev == Before(nodes, if j == i + 1 then i else j)
      && nodes[j].next == From(nodes, if j == i - 1 then i + 1 else j + 1)
  }

  lemma BypassedLinks<T>(nodes: seq<Node<T>>, repr: set<Node<T>>, i: nat)
    requires i < |nodes| && Bypassed(nodes, repr, i)
    ensures PrevLinked(Without(nodes, i), repr) && NextLinked(Without(nodes, i), repr)
  {
    hide Before, From, Without;
    EndsWithout(nodes, i);
  }

  lemma WithoutUnrepeated<T>(nodes: seq<Node<T>>, i: nat)
    requires Unrepeated(nodes) && i < |nodes|
    ensures Unrepeated(Without(nodes, i))
  {
    hide Before, From, Without;
    EndsWithout(nodes, i);
  }

  // ----- putting a node in -----

  lemma EndsWith<T>(nodes: seq<Node<T>>, i: nat, node: Node<T>)
    requires i <= |nodes|
    ensures |With(nodes, i, node)| == |nodes| + 1
    ensures forall j :: 0 <= j <= |nodes| ==>
      With(nodes, i, node)[j] == if j == i then node else nodes[if j < i then j else j - 1]
    ensures forall j :: 0 <= j <= |nodes| + 1 ==>
      && Before(With(nodes, i, node), j) == (if j == i + 1 then node else Before(nodes, if j <= i then j else j - 1))
      && From(With(nodes, i, node), j) == (if j == i then node else From(nodes, if j < i then j else j - 1))
  {
  }

  /** A chain, but for the neighbours of position i, which point to the node
      that is to stand there. */
  ghost predicate Spliced<T>(nodes: seq<Node<T>>, repr: set<Node<T>>, i: nat, node: Node<T>)
    requires i <= |nodes|
    reads repr
  {
    && node in repr && node.prev == Before(nodes, i) && node.next == From(nodes, i)
    && forall j :: 0 <= j < |nodes| ==>
      && nodes[j] in repr
      && nodes[j].prev == (if j == i then node else Before(nodes, j))
      && nodes[j].next == (if j == i - 1 then node else From(nodes, j + 1))
  }

  lemma SplicedLinks<T>(nodes: seq<Node<T>>, repr: set<Node<T>>, i: nat, node: Node<T>)
    requires i <= |nodes| && Spliced(nodes, repr, i, node)
    ensures PrevLinked(With(nodes, i, node), repr) && NextLinked(With(nodes, i, node), repr)
  {
    hide Before, From, With;
    EndsWith(nodes, i, node);
  }

  lemma WithUnrepeated<T>(nodes: seq<Node<T>>, i: nat, node: Node<T>)
    requires Unrepeated(nodes) && i <= |nodes| && node !in nodes
    ensures Unrepeated(With(nodes, i, node))
  {
    hide Before, From, With;
    EndsWith(nodes, i, node);
  }

  // ----- turning the list -----

  lemma EndsRotated<T>(nodes: seq<Node<T>>)
    requires |nodes| > 1
    ensures var n, after := |nodes|, Rotated(nodes);
      && |after| == n
      && (forall j :: 0 <= j < n ==> after[j] == nodes[if j == 0 then n - 1 else j - 1])
      && (forall j :: 1 < j <= n ==> Before(after, j) == Before(nodes, j - 1))
      && (forall j :: 0 < j < n ==> From(after, j) == From(nodes, j - 1))
      && Before(after, 0) == null == From(after, n)
      && Before(after, 1) == nodes[n - 1] == From(after, 0)
  {
  }

  /** A chain, but for its last node, which is linked in front of the first. */
  ghost predicate Turned<T>(nodes: seq<Node<T>>, repr: set<Node<T>>)
    requires |nodes| > 1
    reads repr
  {
    var n := |nodes|;
    forall j :: 0 <= j < n ==>
      && nodes[j] in repr
      && nodes[j].prev == (if j == 0 then nodes[n - 1] else if j == n - 1 then null else Before(nodes, j))
      && nodes[j].next == (if j == n - 2 then null else From(nodes, if j == n - 1 then 0 else j + 1))
  }

  lemma TurnedLinks<T>(nodes: seq<Node<T>>, repr: set<Node<T>>)
    requires |nodes| > 1 && Turned(nodes, repr)
    ensures PrevLinked(Rotated(nodes), repr) && NextLinked(Rotated(nodes), repr)
  {
    hide Before, From, Rotated;
    EndsRotated(nodes);
  }

  lemma RotatedUnrepeated<T>(nodes: seq<Node<T>>)
    requires Unrepeated(nodes) && |nodes| > 1
    ensures Unrepeated(Rotated(nodes))
  {
    hide Before, From, Rotated;
    EndsRotated(nodes);
  }

  lemma ValuesOfWithout<T>(nodes: seq<Node<T>>, i: nat)
    requires i < |nodes|
    ensures Values(Without(nodes, i)) == Without(Values(nodes), i)
  {
    ValuesLength(nodes);
    assert forall j :: 0 <= j < |nodes| - 1 ==> Without(nodes, i)[j] == nodes[if j < i then j else j + 1];
    assert forall j :: 0 <= j < |nodes| - 1 ==> Without(Values(nodes), i)[j] == Values(nodes)[if j < i then j else j + 1];
  }

  lemma ValuesOfWith<T>(nodes: seq<Node<T>>, i: nat, node: Node<T>)
    requires i <= |nodes|
    ensures Values(With(nodes, i, node)) == With(Values(nodes), i, node.value)
  {
    ValuesLength(nodes);
    var w, v := With(nodes, i, node), With(Values(nodes), i, node.value);
    assert forall j :: 0 <= j < i ==> w[j] == nodes[j] && v[j] == Values(nodes)[j];
    assert forall j :: i < j < |nodes| + 1 ==> w[j] == nodes[j - 1] && v[j] == Values(nodes)[j - 1];
  }

  lemma ValuesOfRotated<T>(nodes: seq<Node<T>>)
    ensures Values(Rotated(nodes)) == Rotated(Values(nodes))
  {
    hide Rotated;
    RotatedLength(nodes);
    RotatedLength(Values(nodes));
    forall j | 0 <= j < |nodes| ensures Values(Rotated(nodes))[j] == Rotated(Values(nodes))[j] {
      RotatedAt(nodes, j);
      RotatedAt(Values(nodes), j);
    }
  }

  lemma RotatedLength<T>(s: seq<T>)
    ensures |Rotated(s)| == |s|
  {
  }

  lemma RotatedAt<T>(s: seq<T>, j: nat)
    requires j < |s|
    ensures |Rotated(s)| == |s| && Rotated(s)[j] == s[if j == 0 then |s| - 1 else j - 1]
  {
  }

  // ----- the list -----

  class List<T> {
    var head: Node?<T>
    var tail: Node?<T>
    var len: nat
    /** Whether a free method is set, and the values it has been given. */
    var freeCb: bool
    var freed: seq<T>
    ghost var nodes: seq<Node<T>>
    ghost var repr: set<Node<T>>

    ghost predicate Valid()
      reads this, repr
    {
      && len == |nodes| && head == From(nodes, 0) && tail == Before(nodes, |nodes|)
      && Chain(nodes, repr)
    }

    /** The abstract value. */
    ghost function Contents(): seq<T>
      reads this
    {
      Values(nodes)
    }

    lemma ContentsAt(i: nat)
      requires i < |nodes|
      ensures |Contents()| == |nodes| && Contents()[i] == nodes[i].value
    {
    }

    constructor ()
      ensures Valid() && Contents() == [] && repr == {} && !freeCb && freed == []
    {
      freeCb, freed := false, [];
      head, tail, len, nodes, repr := null, null, 0, [], {};
    }

    method SetFreeMethod(freeCb: bool)
      requires Valid()
      modifies this`freeCb
      ensures Valid() && this.freeCb == freeCb
    {
      this.freeCb := freeCb;
    }

    method AddNodeHead(value: T)
      requires Valid()
      modifies this, repr
      ensures Valid() && fresh(repr - old(repr))
      ensures Contents() == [value] + old(Contents())
      ensures freeCb == old(freeCb) && freed == old(freed)
    {
      hide Unrepeated, With, Before, From, Values;
      var node := new Node(value);
      AtEnds(nodes);
      if len == 0 {
        head, tail := node, node;
        node.prev, node.next := null, null;
      } else {
        OnlyAt(nodes, 0);
        node.prev := null;
        node.next := head;
        head.prev := node;
        head := node;
      }
      len := len + 1;
      WithAtEnds(Contents(), value);
      Settle(node, 0);
    }

    method AddNodeTail(value: T)
      requires Valid()
      modifies this, repr
      ensures Valid() && fresh(repr - old(repr))
      ensures Contents() == old(Contents()) + [value]
      ensures freeCb == old(freeCb) && freed == old(freed)
    {
      hide Unrepeated, With, Before, From, Values;
      var node := new Node(value);
      AtEnds(nodes);
      if len == 0 {
        head, tail := node, node;
        node.prev, node.next := null, null;
      } else {
        OnlyAt(nodes, |nodes| - 1);
        node.prev := tail;
        node.next := null;
        tail.next := node;
        tail := node;
      }
      len := len + 1;
      WithAtEnds(Contents(), value);
      ValuesLength(nodes);
      Settle(node, |nodes|);
    }

    /** listInsertNode: next to the node at position i. */
    method InsertNode(oldNode: Node<T>, value: T, after: bool, ghost i: nat)
      requires Valid() && i < |nodes| && nodes[i] == oldNode
      modifies this, repr
      ensures Valid() && fresh(repr - old(repr))
      ensures Contents() == With(old(Contents()), if after then i + 1 else i, value)
      ensures freeCb == old(freeCb) && freed == old(freed)
    {
      hide Unrepeated, With, Before, From, Values;
      var node := new Node(value);
      Neighbours(nodes, i);
      Neighbours(nodes, i + 1);
      OnlyAt(nodes, 0);
      OnlyAt(nodes, |nodes| - 1);
      if after {
        node.prev := oldNode;
        node.next := oldNode.next;
        if tail == oldNode {
          tail := node;
        }
      } else {
        node.next := oldNode;
        node.prev := oldNode.prev;
        if head == oldNode {
          head := node;
        }
      }
      JoinIn(node, if after then i + 1 else i);
    }

    /** The second half of listInsertNode: the neighbours of the new node. */
    method JoinIn(node: Node<T>, ghost at: nat)
      requires Chain(nodes, repr) && len == |nodes| && at <= |nodes| && node !in repr
      requires node.prev == Before(nodes, at) && node.next == From(nodes, at)
      requires head == (if at == 0 then node else From(nodes, 0))
      requires tail == (if at == |nodes| then node else Before(nodes, |nodes|))
      modifies `len, `nodes, `repr, repr
      ensures Valid() && repr == old(repr) + {node} && nodes == With(old(nodes), at, node)
      ensures Contents() == With(old(Contents()), at, node.value)
    {
      hide Unrepeated, With, Before, From, Values;
      Neighbours(nodes, at);
      if node.prev != null {
        node.prev.next := node;
      }
      if node.next != null {
        node.next.prev := node;
      }
      len := len + 1;
      Settle(node, at);
    }

    /** The links are in place: the node now stands at position at. */
    ghost method Settle(node: Node<T>, at: nat)
      requires at <= |nodes| && len == |nodes| + 1 && node !in nodes
      requires Unrepeated(nodes) && Spliced(nodes, repr + {node}, at, node)
      requires head == (if at == 0 then node else From(nodes, 0))
      requires tail == (if at == |nodes| then node else Before(nodes, |nodes|))
      modifies `nodes, `repr
      ensures Valid() && repr == old(repr) + {node} && nodes == With(old(nodes), at, node)
      ensures Contents() == With(old(Contents()), at, node.value)
    {
      hide Unrepeated, With, Before, From, Values, Spliced, PrevLinked, NextLinked;
      SplicedLinks(nodes, repr + {node}, at, node);
      WithUnrepeated(nodes, at, node);
      EndsWith(nodes, at, node);
      ValuesOfWith(nodes, at, node);
      repr := repr + {node};
      nodes := With(nodes, at, node);
    }

    /** listDelNode: the node at position i. */
    method DelNode(node: Node<T>, ghost i: nat)
      requires Valid() && i < |nodes| && nodes[i] == node
      modifies this, repr
      ensures Valid() && repr == old(repr) && nodes == Without(old(nodes), i)
      ensures Contents() == Without(old(Contents()), i)
      ensures freeCb == old(freeCb) && freed == old(freed) + if freeCb then [node.value] else []
    {
      hide Unrepeated, Without, Before, From, Values;
      Neighbours(nodes, i);
      Neighbours(nodes, i + 1);
      if node.prev != null {
        node.prev.next := node.next;
      } else {
        head := node.next;
      }
      if node.next != null {
        node.next.prev := node.prev;
      } else {
        tail := node.prev;
      }
      if freeCb {
        freed := freed + [node.value];
      }
      len := len - 1;
      Forget(i);
    }

    /** The links bypass position i: its node is no longer in the list. */
    ghost method Forget(i: nat)
      requires i < |nodes| && len == |nodes| - 1 && Unrepeated(nodes) && Bypassed(nodes, repr, i)
      requires head == From(nodes, if i == 0 then 1 else 0)
      requires tail == Before(nodes, if i == |nodes| - 1 then i else |nodes|)
      modifies `nodes
      ensures Valid() && nodes == Without(old(nodes), i)
      ensures Contents() == Without(old(Contents()), i)
    {
      hide Unrepeated, Without, Before, From, Values, Bypassed, PrevLinked, NextLinked;
      BypassedLinks(nodes, repr, i);
      WithoutUnrepeated(nodes, i);
      EndsWithout(nodes, i);
      ValuesOfWithout(nodes, i);
      nodes := Without(nodes, i);
    }

    /** listRotate: the last element becomes the first. */
    method Rotate()
      requires Valid()
      modifies this, repr
      ensures Valid() && repr == old(repr) && nodes == Rotated(old(nodes))
      ensures Contents() == Rotated(old(Contents()))
      ensures freeCb == old(freeCb) && freed == old(freed)
    {
      ValuesOfRotated(nodes);
      if len <= 1 {
        return;
      }
      RotateMany();
    }

    method RotateMany()
      requires Valid() && len > 1
      modifies this, repr
      ensures Valid() && repr == old(repr) && nodes == Rotated(old(nodes))
      ensures freeCb == old(freeCb) && freed == old(freed)
    {
      hide Unrepeated, Rotated, Before, From, Values;
      var last := tail;
      AtEnds(nodes);
      OnlyAt(nodes, 0);
      OnlyAt(nodes, |nodes| - 2);
      OnlyAt(nodes, |nodes| - 1);
      tail := last.prev;
      tail.next := null;
      head.prev := last;
      last.prev := null;
      last.next := head;
      head := last;
      TurnedLinks(nodes, repr);
      RotatedUnrepeated(nodes);
      EndsRotated(nodes);
      nodes := Rotated(nodes);
    }

    /** listIndex: from the head for 0, 1, ..., from the tail for -1, -2, ... */
    method Index(index: int) returns (n: Node?<T>)
      requires Valid()
      ensures
        var at := if index < 0 then |nodes| + index else index;
        n == if 0 <= at < |nodes| then nodes[at] else null
    {
      if index < 0 {
        var left: int := -index - 1;
        n := tail;
        ghost var at: int := |nodes| - 1;
        while left != 0 && n != null
          invariant left >= 0 && at - left == |nodes| + index && -1 <= at < |nodes|
          invariant n == Before(nodes, at + 1)
          decreases left
        {
          n := n.prev;
          left := left - 1;
          at := at - 1;
        }
      } else {
        var left: int := index;
        n := head;
        ghost var at: int := 0;
        while left != 0 && n != null
          invariant left >= 0 && at + left == index && 0 <= at <= |nodes|
          invariant n == From(nodes, at)
          decreases left
        {
          n := n.next;
          left := left - 1;
          at := at + 1;
        }
      }
    }

    /** listRelease: the free method, if any, gets the values node by node. */
    method Release()
      requires Valid()
      modifies this`freed
      ensures freed == old(freed) + if freeCb then Contents() else []
    {
      hide Unrepeated, PrevLinked, NextLinked, Values, Before;
      ValuesLength(nodes);
      var current := head;
      var left := len;
      while left > 0
        invariant 0 <= left <= len && Chain(nodes, repr)
        invariant freed == old(freed) + if freeCb then Contents()[..len - left] else []
        invariant current == From(nodes, len - left)
      {
        StepAlong(nodes, repr, len - left);
        var next := current.next;
        if freeCb {
          freed := freed + [current.value];
        }
        current := next;
        left := left - 1;
      }
    }

    /** listSearchKey: the first node whose value matches. */
    method SearchKey(matches: T -> bool) returns (node: Node?<T>)
      requires Valid()
      ensures node == null ==> forall v :: v in Contents() ==> !matches(v)
      ensures node != null ==> exists i :: 0 <= i < |nodes| && node == nodes[i] && First(nodes, matches, i)
    {
      hide Unrepeated, PrevLinked, NextLinked, Values;
      var iter := new Iter(this, true);
      ghost var at := 0;
      node := iter.Next(nodes, repr, at);
      while node != null
        invariant at <= |nodes| && node == From(nodes, at)
        invariant iter.Stands(nodes, if at < |nodes| then at + 1 else at) && iter.forwards
        invariant forall j :: 0 <= j < at ==> !matches(nodes[j].value)
        decreases |nodes| - at
      {
        if matches(node.value) {
          assert First(nodes, matches, at);
          return;
        }
        at := at + 1;
        node := iter.Next(nodes, repr, at);
      }
      NoneMatches(nodes, matches);
    }
  }

  ghost predicate First<T>(nodes: seq<Node<T>>, matches: T -> bool, i: nat)
    requires i < |nodes|
  {
    matches(nodes[i].value) && forall j :: 0 <= j < i ==> !matches(nodes[j].value)
  }

  lemma NoneMatches<T>(nodes: seq<Node<T>>, matches: T -> bool)
    requires forall j :: 0 <= j < |nodes| ==> !matches(nodes[j].value)
    ensures forall v :: v in Values(nodes) ==> !matches(v)
  {
  }

  /** The first n elements can be duplicated. */
  predicate Duplicable<T>(s: seq<T>, dup: T -> Option<T>, n: nat) {
    n <= |s| && forall i :: 0 <= i < n ==> dup(s[i]).Some?
  }

  function Duplicates<T>(s: seq<T>, dup: T -> Option<T>, n: nat): seq<T>
    requires Duplicable(s, dup, n)
  {
    seq(n, i requires 0 <= i < n => dup(s[i]).value)
  }

  lemma OneDuplicateMore<T>(s: seq<T>, dup: T -> Option<T>, n: nat)
    requires n < |s| && Duplicable(s, dup, n)
    ensures dup(s[n]).Some? ==> Duplicable(s, dup, n + 1)
    ensures dup(s[n]).Some? ==> Duplicates(s, dup, n + 1) == Duplicates(s, dup, n) + [dup(s[n]).value]
  {
  }

  /** listDup.  The duplicate method may return NULL: then the copies made so far
      are released, through the free method taken over from the original, and
      there is no list.  A list without a duplicate method copies the values, as
      with v => Some(v). */
  method Dup<T>(orig: List<T>, dup: T -> Option<T>) returns (copy: Option<List<T>>, n: nat, freed: seq<T>)
    requires orig.Valid()
    ensures n <= |orig.Contents()| && Duplicable(orig.Contents(), dup, n)
    ensures copy.Some? <==> n == |orig.Contents()|
    ensures copy.Some? ==>
      && fresh(copy.value) && fresh(copy.value.repr) && copy.value.Valid()
      && copy.value.Contents() == Duplicates(orig.Contents(), dup, n)
      && copy.value.freeCb == orig.freeCb && copy.value.freed == [] && freed == []
    ensures copy.None? ==>
      && dup(orig.Contents()[n]).None?
      && freed == if orig.freeCb then Duplicates(orig.Contents(), dup, n) else []
  {
    hide Chain, Values, Duplicates, Duplicable, List.Valid;
    var list := new List<T>();
    list.SetFreeMethod(orig.freeCb);
    NoDuplicates(orig.Contents(), dup);
    n := CopyInto(orig, list, dup);
    if n < orig.len {
      LenIs(orig);
      list.Release();
      return None, n, list.freed;
    }
    LenIs(orig);
    copy, freed := Some(list), [];
  }

  /** The loop of listDup: how many values it copies to the end of the new list. */
  method CopyInto<T>(orig: List<T>, list: List<T>, dup: T -> Option<T>) returns (n: nat)
    requires orig.Valid() && list.Valid() && list.Contents() == []
    requires list != orig && list.repr !! orig.repr
    modifies list, list.repr
    ensures list.Valid() && fresh(list.repr - old(list.repr))
    ensures list.freeCb == old(list.freeCb) && list.freed == old(list.freed)
    ensures Duplicable(orig.Contents(), dup, n) && list.Contents() == Duplicates(orig.Contents(), dup, n)
    ensures n <= |orig.Contents()| && (n < |orig.Contents()| ==> dup(orig.Contents()[n]).None?)
  {
    hide Chain, Values, Before, From, Duplicates, Duplicable, List.Valid;
    ValuesLength(orig.nodes);
    ValidIsChain(orig);
    var iter := new Iter(orig, true);
    n := 0;
    NoDuplicates(orig.Contents(), dup);
    var node := iter.Next(orig.nodes, orig.repr, n);
    FromIs(orig.nodes, n);
    while node != null
      invariant n <= |orig.nodes| && Chain(orig.nodes, orig.repr)
      invariant if n < |orig.nodes| then node == orig.nodes[n] else node == null
      invariant iter.Stands(orig.nodes, if n < |orig.nodes| then n + 1 else n) && iter.forwards && fresh(iter)
      invariant list.Valid() && fresh(list.repr - old(list.repr))
      invariant list.freeCb == old(list.freeCb) && list.freed == old(list.freed)
      invariant Duplicable(orig.Contents(), dup, n) && list.Contents() == Duplicates(orig.Contents(), dup, n)
      decreases |orig.nodes| - n
    {
      StepAlong(orig.nodes, orig.repr, n);
      OneDuplicateMore(orig.Contents(), dup, n);
      var value := dup(node.value);
      if value.None? {
        return;
      }
      list.AddNodeTail(value.value);
      n := n + 1;
      node := iter.Next(orig.nodes, orig.repr, n);
      FromIs(orig.nodes, n);
    }
  }

  lemma LenIs<T>(list: List<T>)
    requires list.Valid()
    ensures list.len == |list.Contents()|
  {
  }

  lemma ValidIsChain<T>(list: List<T>)
    requires list.Valid()
    ensures Chain(list.nodes, list.repr)
  {
  }

  lemma FromIs<T>(nodes: seq<Node<T>>, i: nat)
    requires i <= |nodes|
    ensures From(nodes, i) == if i < |nodes| then nodes[i] else null
  {
  }

  lemma NoDuplicates<T>(s: seq<T>, dup: T -> Option<T>)
    ensures Duplicable(s, dup, 0) && Duplicates(s, dup, 0) == []
  {
  }

  // ----- deleting while iterating -----

  /** The elements of s whose numbers are not dropped, in order. */
  function Kept<T>(s: seq<T>, drop: nat -> bool): seq<T> {
    if s == [] then []
    else
      var n := |s| - 1;
      Kept(s[..n], drop) + if drop(n) then [] else [s[n]]
  }

  /** The elements of s whose numbers are dropped, in order. */
  function Dropped<T>(s: seq<T>, drop: nat -> bool): seq<T> {
    if s == [] then []
    else
      var n := |s| - 1;
      Dropped(s[..n], drop) + if drop(n) then [s[n]] else []
  }

  function Reversed<T>(s: seq<T>): (r: seq<T>)
    ensures |r| == |s| && forall i :: 0 <= i < |s| ==> r[i] == s[|s| - 1 - i]
  {
    seq(|s|, i requires 0 <= i < |s| => s[|s| - 1 - i])
  }

  lemma ReversedMore<T>(s: seq<T>, v: T)
    ensures Reversed(s + [v]) == [v] + Reversed(s)
  {
  }

  lemma OneMore<T>(s: seq<T>, v: T, drop: nat -> bool)
    ensures Kept(s + [v], drop) == if drop(|s|) then Kept(s, drop) else Kept(s, drop) + [v]
    ensures Dropped(s + [v], drop) == if drop(|s|) then Dropped(s, drop) + [v] else Dropped(s, drop)
  {
    assert (s + [v])[..|s|] == s;
  }

  /** What is kept and dropped when nothing is to go, everything, or one element. */
  lemma KeptMeans<T>(s: seq<T>, drop: nat -> bool, i: nat)
    ensures (forall j: nat :: !drop(j)) ==> Kept(s, drop) == s && Dropped(s, drop) == []
    ensures (forall j: nat :: drop(j)) ==> Kept(s, drop) == [] && Dropped(s, drop) == s
    ensures i < |s| && (forall j: nat :: drop(j) <==> j == i) ==>
      Kept(s, drop) == s[..i] + s[i + 1..] && Dropped(s, drop) == [s[i]]
  {
    hide Kept, Dropped;
    if forall j: nat :: !drop(j) {
      NoneDropped(s, drop);
    }
    if forall j: nat :: drop(j) {
      AllDropped(s, drop);
    }
    if i < |s| && forall j: nat :: drop(j) <==> j == i {
      OneDropped(s, drop, i);
    }
  }

  lemma {:induction false} NoneDropped<T>(s: seq<T>, drop: nat -> bool)
    requires forall j :: 0 <= j < |s| ==> !drop(j)
    ensures Kept(s, drop) == s && Dropped(s, drop) == []
  {
    if s != [] {
      NoneDropped(s[..|s| - 1], drop);
    }
  }

  lemma {:induction false} AllDropped<T>(s: seq<T>, drop: nat -> bool)
    requires forall j :: 0 <= j < |s| ==> drop(j)
    ensures Kept(s, drop) == [] && Dropped(s, drop) == s
  {
    if s != [] {
      AllDropped(s[..|s| - 1], drop);
    }
  }

  lemma {:induction false} OneDropped<T>(s: seq<T>, drop: nat -> bool, i: nat)
    requires i < |s| && forall j :: 0 <= j < |s| ==> (drop(j) <==> j == i)
    ensures Kept(s, drop) == s[..i] + s[i + 1..] && Dropped(s, drop) == [s[i]]
  {
    var n := |s| - 1;
    if i == n {
      NoneDropped(s[..n], drop);
    } else {
      OneDropped(s[..n], drop, i);
      assert s[..n][..i] == s[..i] && s[..n][i + 1..] + [s[n]] == s[i + 1..];
    }
  }

  /** Where a deletion at i leaves both ends of the gap. */
  lemma AfterDeletion<T>(nodes: seq<Node<T>>, i: nat)
    requires i < |nodes|
    ensures |Without(nodes, i)| == |nodes| - 1
    ensures From(Without(nodes, i), i) == From(nodes, i + 1)
    ensures Before(Without(nodes, i), i) == Before(nodes, i)
  {
  }

  lemma EndOrNode<T>(nodes: seq<Node<T>>, i: nat)
    requires i <= |nodes|
    ensures From(nodes, i) == null <==> i == |nodes|
    ensures Before(nodes, i) == null <==> i == 0
    ensures i < |nodes| ==> From(nodes, i) == nodes[i]
    ensures i > 0 ==> Before(nodes, i) == nodes[i - 1]
  {
  }

  lemma NothingYet<T>(s: seq<T>, drop: nat -> bool)
    ensures s == [] ==> Kept(s, drop) == [] && Dropped(s, drop) == []
  {
  }

  /** An iteration from the head that deletes some of the nodes it is handed, the
      i-th one if drop(i): it still visits every original element exactly once, in
      order. */
  method Sweep<T>(list: List<T>, drop: nat -> bool) returns (visited: seq<T>)
    requires list.Valid()
    modifies list, list.repr
    ensures list.Valid() && list.repr == old(list.repr)
    ensures visited == old(list.Contents()) && list.Contents() == Kept(visited, drop)
    ensures list.freed == old(list.freed) + if list.freeCb then Dropped(visited, drop) else []
  {
    hide Without, Values, From, Before, Sweeping, List.Valid, List.Contents, Iter.Stands;
    ghost var orig, lost: seq<T> := list.Contents(), [];
    visited := [];
    SweepStarts(orig, drop);
    var iter, node := StartForward(list);
    ghost var at: nat := 0;
    while node != null
      invariant list.Valid() && list.repr == old(list.repr) && |list.nodes| == |list.Contents()|
      invariant at <= |list.nodes| && node == From(list.nodes, at) && fresh(iter)
      invariant iter.Stands(list.nodes, if at < |list.nodes| then at + 1 else at) && iter.forwards
      invariant Sweeping(orig, visited, list.Contents(), lost, drop, at) && list.freeCb == old(list.freeCb)
      invariant list.freed == old(list.freed) + if list.freeCb then lost else []
      decreases |orig| - |visited|
    {
      EndOrNode(list.nodes, at);
      list.ContentsAt(at);
      SweepStep(orig, visited, list.Contents(), lost, drop, at);
      lost := lost + if drop(|visited|) then [node.value] else [];
      visited := visited + [node.value];
      node, at := PassForward(list, iter, node, at, drop(|visited| - 1));
    }
    EndOrNode(list.nodes, at);
    SweepEnds(orig, visited, list.Contents(), lost, drop, at);
  }

  method StartForward<T>(list: List<T>) returns (iter: Iter<T>, node: Node?<T>)
    requires list.Valid()
    ensures fresh(iter) && iter.forwards && node == From(list.nodes, 0)
    ensures iter.Stands(list.nodes, if 0 < |list.nodes| then 1 else 0) && |list.nodes| == |list.Contents()|
  {
    hide Unrepeated, PrevLinked, NextLinked, Values;
    iter := new Iter(list, true);
    node := iter.Next(list.nodes, list.repr, 0);
    ValuesLength(list.nodes);
  }

  /** Delete the node just visited, or not, and take the next one. */
  method PassForward<T>(list: List<T>, iter: Iter<T>, node: Node<T>, ghost at: nat, remove: bool)
    returns (next: Node?<T>, ghost at': nat)
    requires list.Valid() && at < |list.nodes| && node == list.nodes[at]
    requires iter.forwards && iter.Stands(list.nodes, at + 1)
    modifies list, list.repr, iter
    ensures list.Valid() && list.repr == old(list.repr) && list.freeCb == old(list.freeCb)
    ensures list.Contents() == if remove then Without(old(list.Contents()), at) else old(list.Contents())
    ensures |list.nodes| == |list.Contents()|
    ensures list.freed == old(list.freed) + if remove && list.freeCb then [node.value] else []
    ensures at' == (if remove then at else at + 1) && at' <= |list.nodes| && next == From(list.nodes, at')
    ensures iter.forwards && iter.Stands(list.nodes, if at' < |list.nodes| then at' + 1 else at')
  {
    hide Unrepeated, PrevLinked, NextLinked, Without, Values, From;
    at' := if remove then at else at + 1;
    if remove {
      AfterDeletion(list.nodes, at);
      list.DelNode(node, at);
    }
    ValuesLength(list.nodes);
    next := iter.Next(list.nodes, list.repr, at');
  }

  /** What has been visited, what is still in the list and what has been deleted, when
      the next node is at position `at`. */
  ghost predicate Sweeping<T>(orig: seq<T>, visited: seq<T>, contents: seq<T>, lost: seq<T>, drop: nat -> bool, at: nat) {
    && |visited| <= |orig| && visited == orig[..|visited|] && lost == Dropped(visited, drop)
    && contents == Kept(visited, drop) + orig[|visited|..] && |Kept(visited, drop)| == at
  }

  lemma SweepStarts<T>(orig: seq<T>, drop: nat -> bool)
    ensures Sweeping(orig, [], orig, [], drop, 0)
  {
  }

  /** What one round keeps and what is left. */
  lemma SweepStep<T>(orig: seq<T>, visited: seq<T>, contents: seq<T>, lost: seq<T>, drop: nat -> bool, at: nat)
    requires Sweeping(orig, visited, contents, lost, drop, at) && at < |contents|
    ensures |visited| < |orig|
    ensures
      var v, gone := contents[at], drop(|visited|);
      Sweeping(orig, visited + [v], if gone then Without(contents, at) else contents,
               lost + (if gone then [v] else []), drop, if gone then at else at + 1)
  {
    hide Kept, Dropped, Without;
    OneMore(visited, contents[at], drop);
    NextOf(Kept(visited, drop), orig, |visited|, contents);
  }

  /** The element after what has been kept is the next of the original ones. */
  lemma NextOf<T>(kept: seq<T>, orig: seq<T>, n: nat, contents: seq<T>)
    requires n <= |orig| && contents == kept + orig[n..] && |kept| < |contents|
    ensures n < |orig| && contents[|kept|] == orig[n] && orig[..n] + [orig[n]] == orig[..n + 1]
    ensures Without(contents, |kept|) == kept + orig[n + 1..]
    ensures contents == kept + [orig[n]] + orig[n + 1..]
  {
    assert orig[n..] == [orig[n]] + orig[n + 1..];
  }

  lemma SweepEnds<T>(orig: seq<T>, visited: seq<T>, contents: seq<T>, lost: seq<T>, drop: nat -> bool, at: nat)
    requires Sweeping(orig, visited, contents, lost, drop, at) && at == |contents|
    ensures visited == orig && contents == Kept(visited, drop) && lost == Dropped(visited, drop)
  {
    hide Kept, Dropped;
  }

  /** The same from the tail: the elements are visited in reverse. */
  method SweepBack<T>(list: List<T>, drop: nat -> bool) returns (visited: seq<T>)
    requires list.Valid()
    modifies list, list.repr
    ensures list.Valid() && list.repr == old(list.repr)
    ensures visited == Reversed(old(list.Contents())) && list.Contents() == Reversed(Kept(visited, drop))
    ensures list.freed == old(list.freed) + if list.freeCb then Dropped(visited, drop) else []
  {
    hide Unrepeated, PrevLinked, NextLinked, Kept, Dropped, Without, Values, Reversed, From, Before;
    ghost var orig := list.Contents();
    visited := [];
    NothingYet(visited, drop);
    BackStarts(orig);
    ValuesLength(list.nodes);
    var iter := new Iter(list, false);
    ghost var left: nat := |orig|;
    var node := iter.Next(list.nodes, list.repr, left);
    while node != null
      invariant list.Valid() && list.repr == old(list.repr)
      invariant left <= |list.nodes| && node == Before(list.nodes, left) && fresh(iter)
      invariant iter.Stands(list.nodes, if left > 0 then left - 1 else left) && !iter.forwards
      invariant left <= |orig| && visited == Reversed(orig[left..])
      invariant list.freed == old(list.freed) + if list.freeCb then Dropped(visited, drop) else []
      invariant list.Contents() == orig[..left] + Reversed(Kept(visited, drop))
      decreases left
    {
      EndOrNode(list.nodes, left);
      BackStep(list.nodes, left, orig, visited, drop);
      visited := visited + [node.value];
      left := left - 1;
      if drop(|visited| - 1) {
        AfterDeletion(list.nodes, left);
        list.DelNode(node, left);
      }
      node := iter.Next(list.nodes, list.repr, left);
    }
    EndOrNode(list.nodes, left);
    BackEnds(orig);
  }

  lemma BackEnds<T>(orig: seq<T>)
    ensures orig[0..] == orig && forall s: seq<T> :: orig[..0] + s == s
  {
  }

  lemma BackStarts<T>(orig: seq<T>)
    ensures Reversed(orig[|orig|..]) == [] && orig[..|orig|] + Reversed([]) == orig && orig[0..] == orig
  {
  }

  lemma BackStep<T>(nodes: seq<Node<T>>, left: nat, orig: seq<T>, visited: seq<T>, drop: nat -> bool)
    requires 0 < left <= |nodes| && left <= |orig| && visited == Reversed(orig[left..])
    requires Values(nodes) == orig[..left] + Reversed(Kept(visited, drop))
    ensures orig[left - 1] == nodes[left - 1].value
    ensures
      var v := nodes[left - 1].value;
      var visited' := visited + [v];
      && visited' == Reversed(orig[left - 1..])
      && if drop(|visited|)
         then
           && Without(Values(nodes), left - 1) == orig[..left - 1] + Reversed(Kept(visited', drop))
           && Dropped(visited', drop) == Dropped(visited, drop) + [v]
         else
           && Values(nodes) == orig[..left - 1] + Reversed(Kept(visited', drop))
           && Dropped(visited', drop) == Dropped(visited, drop)
  {
    hide Kept, Dropped;
    var v := nodes[left - 1].value;
    assert Values(nodes)[left - 1] == v;
    OneMore(visited, v, drop);
    ReversedMore(Kept(visited, drop), v);
    assert orig[left - 1..] == [v] + orig[left..];
    assert orig[..left] == orig[..left - 1] + [v];
  }

  /** listIter.  A forward iterator stands at the node it returns next; a
      backward one as well, counted from the tail. */
  class Iter<T> {
    var next: Node?<T>
    var forwards: bool

    constructor (list: List<T>, forwards: bool)
      requires list.Valid()
      ensures this.forwards == forwards
      ensures Stands(list.nodes, if forwards then 0 else |list.nodes|)
    {
      next := if forwards then list.head else list.tail;
      this.forwards := forwards;
    }

    /** Forwards, positions i and up are still to come; backwards, those below i. */
    ghost predicate Stands(nodes: seq<Node<T>>, i: nat)
      reads this
    {
      i <= |nodes| && next == if forwards then From(nodes, i) else Before(nodes, i)
    }

    method Next(ghost nodes: seq<Node<T>>, ghost repr: set<Node<T>>, ghost i: nat) returns (current: Node?<T>)
      requires Chain(nodes, repr) && Stands(nodes, i)
      modifies this
      ensures forwards == old(forwards)
      ensures current == if forwards then From(nodes, i) else Before(nodes, i)
      ensures forwards ==> Stands(nodes, if i < |nodes| then i + 1 else i)
      ensures !forwards ==> Stands(nodes, if i > 0 then i - 1 else i)
    {
      current := next;
      if current != null {
        next := if forwards then current.next else current.prev;
      }
    }
  }

  lemma StepAlong<T>(nodes: seq<Node<T>>, repr: set<Node<T>>, i: nat)
    requires Chain(nodes, repr) && i < |nodes|
    ensures nodes[i].next == From(nodes, i + 1) && |Values(nodes)| == |nodes|
    ensures Values(nodes)[i] == nodes[i].value && Values(nodes)[..i + 1] == Values(nodes)[..i] + [nodes[i].value]
  {
    hide Unrepeated, PrevLinked;
  }

  lemma ValuesLength<T>(nodes: seq<Node<T>>)
    ensures |Values(nodes)| == |nodes|
  {
  }

  /** The nodes on either side of the gap before position i. */
  lemma Neighbours<T>(nodes: seq<Node<T>>, i: nat)
    requires Unrepeated(nodes) && i <= |nodes|
    ensures Before(nodes, i) == (if i > 0 then nodes[i - 1] else null)
    ensures From(nodes, i) == (if i < |nodes| then nodes[i] else null)
    ensures i > 0 ==> forall j :: 0 <= j < |nodes| && j != i - 1 ==> nodes[j] != nodes[i - 1]
    ensures i < |nodes| ==> forall j :: 0 <= j < |nodes| && j != i ==> nodes[j] != nodes[i]
  {
  }

  lemma WithAtEnds<T>(s: seq<T>, x: T)
    ensures With(s, 0, x) == [x] + s && With(s, |s|, x) == s + [x]
  {
  }
}
