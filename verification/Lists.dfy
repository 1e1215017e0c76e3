/**
 The singly linked lists with a head and a tail pointer that headers, content
 type parameters and generated list fields are kept in.
 */
module Lists {

  datatype Option<+T> = None | Some(value: T)

  /** A header or parameter, as in hpair_t. */
  datatype Pair = Pair(key: string, value: string)

  /** Concatenation is associative. */
  lemma Assoc<T>(a: seq<T>, b: seq<T>, c: seq<T>)
    ensures a + (b + c) == a + b + c
  {
  }

  class Node<T> {
    var value: T
    var next: Node?<T>

    constructor (value: T)
      ensures this.value == value && next == null
    {
      this.value, next := value, null;
    }
  }

  class LinkedList<T> {
    var head: Node?<T>
    var tail: Node?<T>
    ghost var nodes: seq<Node<T>>
    ghost var repr: set<object>

    ghost predicate Valid()
      reads this, repr
      ensures Valid() ==> this in repr
    {
      && this in repr && (forall i :: 0 <= i < |nodes| ==> nodes[i] in repr)
      && (nodes == [] ==> head == null && tail == null)
      && (nodes != [] ==> head == nodes[0] && tail == nodes[|nodes| - 1] && nodes[|nodes| - 1].next == null)
      && (forall i :: 0 <= i < |nodes| - 1 ==> nodes[i].next == nodes[i + 1])
      && (forall i, j :: 0 <= i < j < |nodes| ==> nodes[i] != nodes[j])
    }

    /** The values in list order. */
    ghost function Values(): (r: seq<T>)
      requires Valid()
      reads this, repr
      ensures |r| == |nodes| && forall i :: 0 <= i < |r| ==> r[i] == nodes[i].value
    {
      seq(|nodes|, i requires 0 <= i < |nodes| && nodes[i] in repr reads this, repr => nodes[i].value)
    }

    /** The node at index `i`, or null at the end. */
    ghost function At(i: nat): Node?<T>
      reads this
    {
      if i < |nodes| then nodes[i] else null
    }

    lemma Links(i: nat)
      requires Valid()
      ensures head == At(0) && |Values()| == |nodes|
      ensures i < |nodes| ==> At(i) != null && At(i).next == At(i + 1) && At(i).value == Values()[i]
    {
    }

    constructor ()
      ensures Valid() && fresh(repr) && Values() == []
    {
      head, tail, nodes, repr := null, null, [], {this};
    }

    /** Links a new node behind the last one. */
    method Append(value: T)
      requires Valid()
      modifies repr
      ensures Valid() && fresh(repr - old(repr)) && Values() == old(Values()) + [value]
    {
      var node := new Node(value);
      if tail != null {
        tail.next := node;
      }
      if head == null {
        head := node;
      }
      tail := node;
      nodes, repr := nodes + [node], repr + {node};
    }
  }

  /** The value of the first pair with the key; keys are compared exactly, as strcmp does. */
  function FirstValue(pairs: seq<Pair>, key: string): (r: Option<string>)
    ensures r.None? <==> forall p :: p in pairs ==> p.key != key
    ensures r.Some? ==> Pair(key, r.value) in pairs
  {
    if pairs == [] then None
    else if pairs[0].key == key then Some(pairs[0].value)
    else FirstValue(pairs[1..], key)
  }

  lemma FirstValueSkips(pairs: seq<Pair>, i: nat, key: string)
    requires i <= |pairs|
    ensures i == |pairs| ==> FirstValue(pairs[i..], key) == None
    ensures i < |pairs| && pairs[i].key == key ==> FirstValue(pairs[i..], key) == Some(pairs[i].value)
    ensures i < |pairs| && pairs[i].key != key ==> FirstValue(pairs[i..], key) == FirstValue(pairs[i + 1..], key)
  {
    if i < |pairs| {
      assert pairs[i..][1..] == pairs[i + 1..];
    }
  }

  /** hpairnode_get: walks the list to the first pair with the key. */
  method Get(list: LinkedList<Pair>, key: string) returns (r: Option<string>)
    requires list.Valid()
    ensures r == FirstValue(list.Values(), key)
  {
    hide FirstValue, LinkedList.Valid, LinkedList.Values;
    var node := list.head;
    ghost var i := 0;
    ghost var pairs := list.Values();
    assert pairs[0..] == pairs;
    list.Links(0);
    while node != null
      invariant i <= |pairs| == |list.nodes| && node == list.At(i)
      invariant FirstValue(pairs, key) == FirstValue(pairs[i..], key)
      decreases |pairs| - i
    {
      list.Links(i);
      FirstValueSkips(pairs, i, key);
      if node.value.key == key {
        return Some(node.value.value);
      }
      node, i := node.next, i + 1;
    }
    FirstValueSkips(pairs, i, key);
    return None;
  }
}
