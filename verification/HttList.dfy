/**
 The intrusive circular doubly linked list of htt_rx.c.  `htt_rx_hash_entry`
 embeds its `htt_list_node`; here the entry and its embedded node are one object,
 so going from a node back to its entry is the identity.
 */
module HttList {
  import opened Nbufs

  class ListNode {
    var prev: ListNode
    var next: ListNode
    var paddr: Paddr
    var netbuf: Nbuf?
    const fromlist: bool  // pre-allocated with the bucket, not from the heap

    /** `htt_list_init` for a list head; an entry is linked by ListAddTail before any use. */
    constructor (fromlist: bool)
      ensures prev == this && next == this && this.fromlist == fromlist
    {
      prev, next := this, this;
      paddr, netbuf := 0, null;
      this.fromlist := fromlist;
    }
  }

  /** `head` is the sentinel of a circular doubly linked list holding exactly `s`, in order. */
  ghost predicate IsRing(head: ListNode, s: seq<ListNode>)
    reads head, s
  {
    && head !in s
    && Distinct(s)
    && head.next == (if s == [] then head else s[0])
    && head.prev == (if s == [] then head else s[|s| - 1])
    && (forall i {:trigger s[i].next} :: 0 <= i < |s| ==> s[i].next == (if i + 1 < |s| then s[i + 1] else head))
    && (forall i {:trigger s[i].prev} :: 0 <= i < |s| ==> s[i].prev == (if 0 < i then s[i - 1] else head))
  }

  ghost predicate Apart(head: ListNode, s: seq<ListNode>, otherHead: ListNode, other: seq<ListNode>) {
    head != otherHead && otherHead !in s && forall n :: n in other ==> n != head && n !in s
  }

  /** `other` is any second list sharing no node with this one; it is not disturbed. */
  method ListAddTail(head: ListNode, node: ListNode, ghost s: seq<ListNode>,
                     ghost otherHead: ListNode, ghost other: seq<ListNode>)
    requires IsRing(head, s) && node != head && node !in s
    requires IsRing(otherHead, other) && Apart(head, s, otherHead, other) && node != otherHead && node !in other
    modifies head`prev, head.prev`next, node`prev, node`next
    ensures IsRing(head, s + [node]) && IsRing(otherHead, other)
  {
    head.prev.next := node;
    node.prev := head.prev;
    node.next := head;
    head.prev := node;
  }

  method ListRemove(node: ListNode, ghost head: ListNode, ghost s: seq<ListNode>, ghost k: nat,
                    ghost otherHead: ListNode, ghost other: seq<ListNode>)
    requires IsRing(head, s) && k < |s| && node == s[k]
    requires IsRing(otherHead, other) && Apart(head, s, otherHead, other)
    modifies node.prev`next, node.next`prev
    ensures IsRing(head, s[..k] + s[k + 1..]) && IsRing(otherHead, other)
  {
    assert node.prev == head || node.prev in s;
    assert node.next == head || node.next in s;
    node.prev.next := node.next;
    node.next.prev := node.prev;
  }
}
