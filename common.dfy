/**
 * Shared utilities of the library (src/common.h, src/common.c; the older
 * common.c at the repository root holds the same functions, line for line).
 *
 * ALIGN and RESIDUAL are C macros over `int`, so they use C division, which
 * truncates toward zero.  The singly linked ID lists (`struct node_list`)
 * are modelled by the sequence of their nodes from `first` to `last`;
 * `first == NULL` is the empty sequence.
 */
module Common {
  import opened Wrappers

  // ---------------------------------------------------------------------
  // ALIGN and RESIDUAL
  // ---------------------------------------------------------------------

  /** C integer division: the quotient truncated toward zero. */
  function CDiv(a: int, b: int): int
    requires b != 0
  {
    if a >= 0 && b > 0 then a / b
    else if a >= 0 then -(a / -b)
    else if b > 0 then -(-a / b)
    else -a / -b
  }

  /** C remainder: it takes the sign of the dividend. */
  function CMod(a: int, b: int): int
    requires b != 0
  {
    if a >= 0 && b > 0 then a % b
    else if a >= 0 then a % -b
    else if b > 0 then -(-a % b)
    else -(-a % -b)
  }

  /** The C identity a == b * (a / b) + a % b holds for the modelled operators. */
  lemma CDivMod(a: int, b: int)
    requires b != 0
    ensures a == b * CDiv(a, b) + CMod(a, b)
    ensures a >= 0 ==> 0 <= CMod(a, b) < (if b > 0 then b else -b)
  {
    if a >= 0 && b > 0 {
    } else if a >= 0 {
      assert a == -b * (a / -b) + a % -b;
    } else if b > 0 {
      assert -a == b * (-a / b) + -a % b;
    } else {
      assert -a == -b * (-a / -b) + -a % -b;
    }
  }

  /** ALIGN(a, b): a / b rounded up when b does not divide a. */
  function Align(a: int, b: int): int
    requires b != 0
  {
    if CMod(a, b) == 0 then CDiv(a, b) else CDiv(a, b) + 1
  }

  /** RESIDUAL(a, b) == b * ALIGN(a, b) - a. */
  function Residual(a: int, b: int): int
    requires b != 0
  {
    b * Align(a, b) - a
  }

  /** For a >= 0 and b > 0, ALIGN(a, b) is the ceiling of a / b: the least k with k * b >= a. */
  lemma AlignIsCeiling(a: int, b: int)
    requires a >= 0 && b > 0
    ensures Align(a, b) * b >= a
    ensures a > 0 ==> (Align(a, b) - 1) * b < a
    ensures Align(a, b) >= 0
  {
    CDivMod(a, b);
  }

  /** RESIDUAL is the padding up to the next multiple of b: it lies in [0, b). */
  lemma ResidualBounds(a: int, b: int)
    requires a >= 0 && b > 0
    ensures 0 <= Residual(a, b) < b
  {
    CDivMod(a, b);
  }

  /** RESIDUAL(a, b) is zero exactly when b divides a. */
  lemma ResidualZero(a: int, b: int)
    requires a >= 0 && b > 0
    ensures Residual(a, b) == 0 <==> a % b == 0
  {
    CDivMod(a, b);
  }

  // ---------------------------------------------------------------------
  // has_item
  // ---------------------------------------------------------------------

  /**
   * has_item: the first index below length holding item, or -1.  A length
   * of zero or less searches nothing.
   */
  method HasItem(a: array<int>, item: int, length: int) returns (index: int)
    requires length <= a.Length
    ensures index == -1 || 0 <= index < length
    ensures index == -1 <==> forall i :: 0 <= i < length ==> a[i] != item
    ensures index >= 0 ==> a[index] == item && forall i :: 0 <= i < index ==> a[i] != item
  {
    index := -1;
    var i := 0;
    while i < length
      invariant 0 <= i <= if length < 0 then 0 else length
      invariant forall k :: 0 <= k < i ==> a[k] != item
    {
      if item == a[i] {
        index := i;
        break;
      }
      i := i + 1;
    }
  }

  // ---------------------------------------------------------------------
  // Singly linked ID lists
  // ---------------------------------------------------------------------

  /** A list node: the ID it carries and the coefficient used by the bipartite graph. */
  datatype Node = Node(data: int, ce: bv8)

  /** Position of the first node carrying data, or -1. */
  function IndexOfData(l: seq<Node>, data: int): (r: int)
    ensures -1 <= r < |l|
    ensures r == -1 <==> forall i :: 0 <= i < |l| ==> l[i].data != data
    ensures r >= 0 ==> l[r].data == data && forall i :: 0 <= i < r ==> l[i].data != data
  {
    if |l| == 0 then -1
    else if l[0].data == data then 0
    else
      var r := IndexOfData(l[1..], data);
      if r == -1 then -1 else r + 1
  }

  /** Some node carries data. */
  predicate HasData(l: seq<Node>, data: int)
  {
    exists i :: 0 <= i < |l| && l[i].data == data
  }

  /** The list after remove_from_list: the first node carrying data unlinked, if there is one. */
  function Removed(l: seq<Node>, data: int): (r: seq<Node>)
  {
    var k := IndexOfData(l, data);
    if k == -1 then l else l[..k] + l[k + 1..]
  }

  /** No two nodes carry the same ID (the condition remove_from_list is documented for). */
  predicate UniqueData(l: seq<Node>)
  {
    forall i, j :: 0 <= i < j < |l| ==> l[i].data != l[j].data
  }

  /** The nodes not carrying data, in their original order. */
  function Without(l: seq<Node>, data: int): (r: seq<Node>)
    ensures |r| <= |l|
  {
    if |l| == 0 then []
    else if l[0].data == data then Without(l[1..], data)
    else [l[0]] + Without(l[1..], data)
  }

  /** Removing an absent ID changes nothing; removing a present one shortens the list by one node. */
  lemma RemovedLength(l: seq<Node>, data: int)
    ensures HasData(l, data) ==> |Removed(l, data)| == |l| - 1
    ensures !HasData(l, data) ==> Removed(l, data) == l
  {
    var k := IndexOfData(l, data);
    if HasData(l, data) {
      var i :| 0 <= i < |l| && l[i].data == data;
      assert k != -1;
    }
  }

  /** With unique IDs, remove_from_list deletes exactly the nodes carrying data, keeping the order of the rest. */
  lemma {:induction false} RemovedIsWithout(l: seq<Node>, data: int)
    requires UniqueData(l)
    ensures Removed(l, data) == Without(l, data)
    decreases |l|
  {
    if |l| == 0 {
    } else if l[0].data == data {
      assert IndexOfData(l, data) == 0;
      NoneLeft(l[1..], data);
    } else {
      var t := l[1..];
      assert UniqueData(t);
      RemovedIsWithout(t, data);
      var k := IndexOfData(t, data);
      assert IndexOfData(l, data) == if k == -1 then -1 else k + 1;
      if k != -1 {
        assert l[..k + 1] == [l[0]] + t[..k];
        assert l[k + 2..] == t[k + 1..];
      }
    }
  }

  /** Without removes nothing from a list where data does not occur. */
  lemma {:induction false} NoneLeft(l: seq<Node>, data: int)
    requires forall i :: 0 <= i < |l| ==> l[i].data != data
    ensures Without(l, data) == l
    decreases |l|
  {
    if |l| > 0 {
      NoneLeft(l[1..], data);
    }
  }

  /** With unique IDs, the removed ID is gone afterwards. */
  lemma RemovedAbsent(l: seq<Node>, data: int)
    requires UniqueData(l)
    ensures !HasData(Removed(l, data), data)
  {
    RemovedIsWithout(l, data);
    WithoutAbsent(l, data);
  }

  lemma {:induction false} WithoutAbsent(l: seq<Node>, data: int)
    ensures !HasData(Without(l, data), data)
    decreases |l|
  {
    if |l| > 0 {
      WithoutAbsent(l[1..], data);
    }
  }

  /** Appending a node with a fresh ID and then removing that ID gives the list back. */
  lemma AppendThenRemove(l: seq<Node>, nd: Node)
    requires !HasData(l, nd.data)
    ensures Removed(l + [nd], nd.data) == l
  {
    var l' := l + [nd];
    var r := IndexOfData(l', nd.data);
    assert l'[|l|].data == nd.data;
    assert l'[..|l|] == l;
  }

  /** A `struct node_list`: its nodes from first to last. */
  class NodeList {
    var nodes: seq<Node>

    /** The head node (`first`), None for NULL. */
    function First(): (r: Option<Node>)
      reads this
      ensures r.None? <==> |nodes| == 0
      ensures r.Some? ==> r.value == nodes[0]
    {
      if |nodes| == 0 then None else Some(nodes[0])
    }

    /** The tail node (`last`), None for NULL. */
    function Last(): (r: Option<Node>)
      reads this
      ensures r.None? <==> |nodes| == 0
      ensures r.Some? ==> r.value == nodes[|nodes| - 1]
    {
      if |nodes| == 0 then None else Some(nodes[|nodes| - 1])
    }

    /** A freshly allocated list: first == last == NULL. */
    constructor ()
      ensures nodes == []
    {
      nodes := [];
    }

    /** append_to_list: nd becomes the last node; on an empty list it is also the first. */
    method Append(nd: Node)
      modifies this
      ensures nodes == old(nodes) + [nd]
      ensures Last() == Some(nd)
      ensures old(|nodes|) == 0 ==> First() == Some(nd)
      ensures old(|nodes|) > 0 ==> First() == old(First())
    {
      nodes := nodes + [nd];
    }

    /**
     * remove_from_list: walks the list; unlinks the first node carrying
     * data and returns 0, or returns -1 with the list unchanged.
     */
    method Remove(data: int) returns (r: int)
      modifies this
      ensures nodes == Removed(old(nodes), data)
      ensures r == 0 <==> HasData(old(nodes), data)
      ensures r == -1 <==> !HasData(old(nodes), data)
    {
      var i := 0;
      while i < |nodes|
        invariant 0 <= i <= |nodes|
        invariant forall k :: 0 <= k < i ==> nodes[k].data != data
      {
        if nodes[i].data == data {
          assert IndexOfData(nodes, data) == i;
          nodes := nodes[..i] + nodes[i + 1..];
          return 0;
        }
        i := i + 1;
      }
      assert IndexOfData(nodes, data) == -1;
      return -1;
    }

    /** exist_in_list: 1 if some node carries data, else 0. */
    method Exist(data: int) returns (r: int)
      ensures r == 1 <==> HasData(nodes, data)
      ensures r == 0 <==> !HasData(nodes, data)
    {
      var i := 0;
      while i < |nodes|
        invariant 0 <= i <= |nodes|
        invariant forall k :: 0 <= k < i ==> nodes[k].data != data
      {
        if nodes[i].data == data {
          return 1;
        }
        i := i + 1;
      }
      return 0;
    }

    /** clear_list: every node released, first == last == NULL (free_list also releases the header). */
    method Clear()
      modifies this
      ensures nodes == [] && First().None? && Last().None?
    {
      nodes := [];
    }
  }
}
