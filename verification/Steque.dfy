/** The steque (pr1/mtgf/steque.c): a singly linked list with a pointer to its last node,
    which is a queue and a stack in one.  Its contents are a sequence, front first. */
module StequeList {

  /** The result of an operation that ends the process on underflow. */
  datatype Outcome<T> = Item(item: T) | ExitFailure

  class Node<T> {
    var item: T
    var next: Node?<T>

    constructor (item: T, next: Node?<T>)
      ensures this.item == item && this.next == next
    {
      this.item, this.next := item, next;
    }
  }

  /** The front element moves to the back. */
  function Rotate<T>(s: seq<T>): seq<T> {
    if s == [] then [] else s[1..] + [s[0]]
  }

  function RotateTimes<T>(s: seq<T>, k: nat): seq<T> {
    if k == 0 then s else Rotate(RotateTimes(s, k - 1))
  }

  lemma {:induction false} RotateTimesShifts<T>(s: seq<T>, k: nat)
    requires k <= |s|
    ensures RotateTimes(s, k) == s[k..] + s[..k]
  {
    if k == 0 {
    } else {
      RotateTimesShifts(s, k - 1);
      assert s[k - 1..] == [s[k - 1]] + s[k..];
      assert s[..k] == s[..k - 1] + [s[k - 1]];
    }
  }

  /** As many cycles as there are elements restore the order. */
  lemma FullCycleRestores<T>(s: seq<T>)
    ensures RotateTimes(s, |s|) == s
  {
    RotateTimesShifts(s, |s|);
  }

  class Steque<T> {
    var front: Node?<T>
    var back: Node?<T>
    var N: int
    ghost var nodes: seq<Node<T>>

    /** `nodes` are the list's nodes in order; they are pairwise different, so that the list
        ends, and it ends at `back`. */
    ghost predicate Valid()
      reads this, nodes
    {
      && N == |nodes|
      && (forall i, j :: 0 <= i < j < |nodes| ==> nodes[i] != nodes[j])
      && (nodes == [] ==> front == null && back == null)
      && (nodes != [] ==> front == nodes[0] && back == nodes[|nodes| - 1] && back.next == null)
      && (forall i, j :: 0 <= i < |nodes| - 1 && j == i + 1 ==> nodes[i].next == nodes[j])
    }

    ghost function Contents(): seq<T>
      reads this, nodes
    {
      seq(|nodes|, i requires 0 <= i < |nodes| reads this, nodes => nodes[i].item)
    }

    constructor ()
      ensures Valid() && fresh(nodes) && Contents() == []
    {
      front, back, N := null, null, 0;
      nodes := [];
    }

    method Enqueue(item: T)
      requires Valid()
      modifies this, nodes
      ensures Valid() && fresh(set n | n in nodes && n !in old(nodes))
      ensures Contents() == old(Contents()) + [item]
    {
      var node := new Node(item, null);
      if back == null {
        front := node;
      } else {
        back.next := node;
      }
      back := node;
      N := N + 1;
      nodes := nodes + [node];
    }

    method Push(item: T)
      requires Valid()
      modifies this
      ensures Valid() && fresh(set n | n in nodes && n !in old(nodes))
      ensures Contents() == [item] + old(Contents())
    {
      var node := new Node(item, front);
      if back == null {
        back := node;
      }
      front := node;
      N := N + 1;
      nodes := [node] + nodes;
    }

    method Size() returns (n: int)
      requires Valid()
      ensures n == |Contents()|
    {
      n := N;
    }

    method IsEmpty() returns (b: bool)
      requires Valid()
      ensures b <==> Contents() == []
    {
      b := N == 0;
      assert |Contents()| == N;
    }

    /** Popping an empty steque ends the process. */
    method Pop() returns (r: Outcome<T>)
      requires Valid()
      modifies this
      ensures Valid() && forall n :: n in nodes ==> n in old(nodes)
      ensures if old(Contents()) == [] then r == ExitFailure && Contents() == []
              else r == Item(old(Contents())[0]) && Contents() == old(Contents())[1..]
    {
      if front == null {
        assert Contents() == [];
        return ExitFailure;
      }
      assert Contents()[0] == front.item;
      r := Item(front.item);
      front := front.next;
      if front == null {
        back := null;
      }
      N := N - 1;
      nodes := nodes[1..];
    }

    method Cycle()
      requires Valid()
      modifies this, nodes
      ensures Valid() && forall n :: n in nodes ==> n in old(nodes)
      ensures Contents() == Rotate(old(Contents()))
    {
      if back == null {
        assert Contents() == [];
        return;
      }
      ghost var was, n := nodes, |nodes|;
      back.next := front;
      back := front;
      front := front.next;
      back.next := null;
      nodes := was[1..] + [was[0]];
      assert forall i :: 0 <= i < n - 1 ==> nodes[i] == was[i + 1];
      assert Contents() == Rotate(old(Contents()));
    }

    method Front() returns (r: Outcome<T>)
      requires Valid()
      ensures r == if Contents() == [] then ExitFailure else Item(Contents()[0])
    {
      if front == null {
        assert Contents() == [];
        return ExitFailure;
      }
      assert Contents()[0] == front.item;
      return Item(front.item);
    }

    method Destroy()
      requires Valid()
      modifies this
      ensures Valid() && Contents() == [] && front == null && back == null
    {
      var empty := IsEmpty();
      while !empty
        invariant Valid() && (empty <==> Contents() == [])
        invariant forall n :: n in nodes ==> n in old(nodes)
        decreases N
      {
        assert |Contents()| == N;
        var _ := Pop();
        empty := IsEmpty();
      }
    }
  }
}
