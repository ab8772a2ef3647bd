/** The hlist of list.h: a single-pointer head, and nodes that remember the
    location that points at them rather than their predecessor. */
module HList {
  import opened Basics

  /** A location that can hold a node pointer: `&head->first`, `&node->next`, no
      location (an unhashed node), or the poison left by hlist_del. */
  datatype Slot = Unhashed | FirstOf(head: Head) | NextOf(node: Node) | Poison

  class Head {
    var first: Node?

    constructor ()
      ensures Chain(this, [])
    {
      first := null;
    }
  }

  class Node {
    var next: Node?
    var pprev: Slot

    constructor ()
      ensures next == null && pprev.Unhashed?
    {
      next, pprev := null, Unhashed;
    }
  }

  /** `*slot` */
  function Load(slot: Slot): Node?
    requires slot.FirstOf? || slot.NextOf?
    reads if slot.FirstOf? then {slot.head} else {}
    reads if slot.NextOf? then {slot.node} else {}
  {
    if slot.FirstOf? then slot.head.first else slot.node.next
  }

  /** `*slot = node` */
  method Store(slot: Slot, node: Node?)
    requires slot.FirstOf? || slot.NextOf?
    modifies if slot.FirstOf? then {slot.head} else {}
    modifies if slot.NextOf? then {slot.node} else {}
    ensures Load(slot) == node
    ensures slot.NextOf? ==> slot.node.pprev == old(slot.node.pprev)
  {
    match slot
    case FirstOf(head) => head.first := node;
    case NextOf(n) => n.next := node;
  }

  /** The node at place `i`, null behind the last one. */
  function ChainAt(s: seq<Node>, i: nat): Node? {
    if i < |s| then s[i] else null
  }

  /** The location that leads to place `i`. */
  function Before(head: Head, s: seq<Node>, i: nat): Slot
    requires i <= |s|
  {
    if i == 0 then FirstOf(head) else NextOf(s[i - 1])
  }

  /** The nodes `s` hang on `head` in this order, each knowing the location that
      points at it. */
  ghost predicate Chain(head: Head, s: seq<Node>)
    reads head, set x | x in s
  {
    && NoDup(s) && head.first == ChainAt(s, 0)
    && forall i :: 0 <= i < |s| ==> s[i].next == ChainAt(s, i + 1) && s[i].pprev == Before(head, s, i)
  }

  /** What pprev is for: the location it names holds this very node, and every
      such location belongs to the list. */
  lemma PprevPointsBack(head: Head, s: seq<Node>, k: nat)
    requires Chain(head, s) && k < |s|
    ensures s[k].pprev.FirstOf? || s[k].pprev.NextOf?
    ensures Load(s[k].pprev) == s[k]
    ensures s[k].pprev == FirstOf(head) || (s[k].pprev.NextOf? && s[k].pprev.node in s)
  {
    if k > 0 {
      assert s[k - 1].next == ChainAt(s, k);
    }
  }

  /** A chain, spelled out. */
  lemma Links(head: Head, s: seq<Node>)
    requires Chain(head, s)
    ensures NoDup(s) && head.first == ChainAt(s, 0)
    ensures forall i :: 0 <= i < |s| ==> s[i].next == ChainAt(s, i + 1) && s[i].pprev == Before(head, s, i)
  {
  }

  lemma InFacts(head: Head, s: seq<Node>, k: nat, node: Node)
    requires NoDup(s) && k <= |s| && node !in s
    ensures var t := In(s, k, node);
      && NoDup(t) && |t| == |s| + 1 && t[k] == node && ChainAt(t, k + 1) == ChainAt(s, k)
      && (forall i :: 0 <= i < k ==> t[i] == s[i]) && (forall i :: k <= i < |s| ==> t[i + 1] == s[i])
      && Before(head, t, k) == Before(head, s, k)
  {
    var t := In(s, k, node);
    forall i, j | 0 <= i < j < |t| ensures t[i] != t[j] {
      assert i < k ==> t[i] == s[i];
      assert i > k ==> t[i] == s[i - 1];
      assert j < k ==> t[j] == s[j];
      assert j > k ==> t[j] == s[j - 1];
    }
  }

  lemma OutFacts(head: Head, s: seq<Node>, k: nat)
    requires NoDup(s) && k < |s|
    ensures var t := Out(s, k);
      && NoDup(t) && |t| == |s| - 1 && s[k] !in t && ChainAt(t, k) == ChainAt(s, k + 1)
      && (forall i :: 0 <= i < k ==> t[i] == s[i]) && (forall i :: k < i < |s| ==> t[i - 1] == s[i])
      && Before(head, t, k) == Before(head, s, k)
  {
    var t := Out(s, k);
    forall i | 0 <= i < |t| ensures t[i] == s[if i < k then i else i + 1] {
    }
  }

  // ------------------------------------------------------------------
  // Insertion
  // ------------------------------------------------------------------

  /** The links of a chain into which `node` was just tied at place `k`. */
  lemma Tied(head: Head, s: seq<Node>, t: seq<Node>, k: nat, node: Node)
    requires NoDup(s) && k <= |s| && node !in s && t == In(s, k, node)
    requires node.next == ChainAt(s, k) && node.pprev == Before(head, s, k)
    requires if k == 0 then head.first == node else head.first == ChainAt(s, 0) && s[k - 1].next == node
    requires k < |s| ==> s[k].pprev == NextOf(node)
    requires forall i :: 0 <= i < |s| && i != k - 1 ==> s[i].next == ChainAt(s, i + 1)
    requires forall i :: 0 <= i < |s| && i != k ==> s[i].pprev == Before(head, s, i)
    ensures Chain(head, t)
  {
    InFacts(head, s, k, node);
    hide In;
    forall i | 0 <= i < |t| ensures t[i].next == ChainAt(t, i + 1) && t[i].pprev == Before(head, t, i) {
      if i < k {
        assert t[i] == s[i];
        assert i + 1 < k ==> t[i + 1] == s[i + 1];
        assert i > 0 ==> t[i - 1] == s[i - 1];
      } else if i > k {
        assert t[i] == s[i - 1];
        assert i + 1 < |t| ==> t[i + 1] == s[i];
        assert i > k + 1 ==> t[i - 1] == s[i - 2];
      }
    }
    assert k > 0 ==> t[0] == s[0];
  }

  /** hlist_add_head. */
  method AddHead(node: Node, head: Head, ghost s: seq<Node>)
    requires Chain(head, s) && node !in s
    modifies node, head, if head.first != null then {head.first} else {}
    ensures Chain(head, [node] + s)
  {
    var first := head.first;
    node.next := first;
    if first != null {
      first.pprev := NextOf(node);
    }
    head.first := node;
    node.pprev := FirstOf(head);
    Tied(head, s, In(s, 0, node), 0, node);
    assert In(s, 0, node) == [node] + s;
  }

  /** hlist_add_before, which never sees the head. */
  method AddBefore(node: Node, next: Node, ghost head: Head, ghost s: seq<Node>, ghost k: nat)
    requires Chain(head, s) && k < |s| && s[k] == next && node !in s
    modifies node, next, head, if k > 0 then {s[k - 1]} else {}
    ensures Chain(head, In(s, k, node))
  {
    hide In, ChainAt, Before;
    Links(head, s);
    CutFacts(head, s, k);
    hide Chain;
    node.pprev := next.pprev;
    node.next := next;
    next.pprev := NextOf(node);
    assert forall i :: 0 <= i < |s| && i != k ==> s[i].pprev == Before(head, s, i);
    assert forall i :: 0 <= i < |s| ==> s[i].next == ChainAt(s, i + 1);
    Store(node.pprev, node);
    Tied(head, s, In(s, k, node), k, node);
  }

  /** hlist_add_behind. */
  method AddBehind(node: Node, prev: Node, ghost head: Head, ghost s: seq<Node>, ghost k: nat)
    requires Chain(head, s) && k < |s| && s[k] == prev && node !in s
    modifies node, prev, if prev.next != null then {prev.next} else {}
    ensures Chain(head, In(s, k + 1, node))
  {
    node.next := prev.next;
    prev.next := node;
    node.pprev := NextOf(prev);
    if node.next != null {
      node.next.pprev := NextOf(node);
    }
    Tied(head, s, In(s, k + 1, node), k + 1, node);
  }

  // ------------------------------------------------------------------
  // Deletion
  // ------------------------------------------------------------------

  /** __hlist_del: exactly this node goes, without anyone naming the head. */
  method Unlink(node: Node, ghost head: Head, ghost s: seq<Node>, ghost k: nat)
    requires Chain(head, s) && k < |s| && s[k] == node
    modifies head, if k > 0 then {s[k - 1]} else {}
    modifies if node.next != null then {node.next} else {}
    ensures Chain(head, Out(s, k)) && node !in Out(s, k)
    ensures node.next == old(node.next) && node.pprev == old(node.pprev)
  {
    hide Out, ChainAt, Before;
    Links(head, s);
    CutFacts(head, s, k);
    hide Chain;
    var next, pprev := node.next, node.pprev;
    Store(pprev, next);
    assert forall i :: 0 <= i < |s| && i != k - 1 ==> s[i].next == ChainAt(s, i + 1);
    assert forall i :: 0 <= i < |s| ==> s[i].pprev == Before(head, s, i);
    if next != null {
      next.pprev := pprev;
    }
    Untied(head, s, k);
  }

  /** The node at place `k`, its two links, and who is who around it. */
  lemma CutFacts(head: Head, s: seq<Node>, k: nat)
    requires Chain(head, s) && k < |s|
    ensures s[k].pprev == Before(head, s, k) && s[k].next == ChainAt(s, k + 1)
    ensures if k == 0 then Before(head, s, k) == FirstOf(head) else Before(head, s, k) == NextOf(s[k - 1])
    ensures s[k].next != null <==> k + 1 < |s|
    ensures k + 1 < |s| ==> s[k].next == s[k + 1]
    ensures k > 0 ==> head.first == s[0]
    ensures ChainAt(s, 0) == s[0] && ChainAt(s, k) == s[k]
  {
  }

  /** The links of a chain from which place `k` was just cut out. */
  lemma Untied(head: Head, s: seq<Node>, k: nat)
    requires NoDup(s) && k < |s|
    requires if k == 0 then head.first == ChainAt(s, 1)
             else head.first == ChainAt(s, 0) && s[k - 1].next == ChainAt(s, k + 1)
    requires k + 1 < |s| ==> s[k + 1].pprev == Before(head, s, k)
    requires forall i :: 0 <= i < |s| && i != k && i != k - 1 ==> s[i].next == ChainAt(s, i + 1)
    requires forall i :: 0 <= i < |s| && i != k && i != k + 1 ==> s[i].pprev == Before(head, s, i)
    ensures Chain(head, Out(s, k)) && s[k] !in Out(s, k)
  {
    var t := Out(s, k);
    OutFacts(head, s, k);
    hide Out;
    forall i | 0 <= i < |t| ensures t[i].next == ChainAt(t, i + 1) && t[i].pprev == Before(head, t, i) {
      if i < k {
        assert t[i] == s[i];
        assert i + 1 < k ==> t[i + 1] == s[i + 1];
        assert i > 0 ==> t[i - 1] == s[i - 1];
      } else {
        assert t[i] == s[i + 1];
        assert i + 1 < |t| ==> t[i + 1] == s[i + 2];
        assert i > k ==> t[i - 1] == s[i];
      }
    }
    assert k > 0 ==> t[0] == s[0];
  }

  /** hlist_del. */
  method Delete(node: Node, ghost head: Head, ghost s: seq<Node>, ghost k: nat)
    requires Chain(head, s) && k < |s| && s[k] == node
    modifies node, head, if k > 0 then {s[k - 1]} else {}
    modifies if node.next != null then {node.next} else {}
    ensures Chain(head, Out(s, k)) && node !in Out(s, k) && node.pprev.Poison? && node.next == null
  {
    hide Chain, Out;
    Unlink(node, head, s, k);
    node.next := null;
    node.pprev := Poison;
  }

  /** hlist_del_init: taking out a node that is on no list does nothing, so it can
      be done twice. */
  method DeleteInit(node: Node, ghost head: Head, ghost s: seq<Node>, ghost k: nat)
    requires Chain(head, s) && (if node.pprev.Unhashed? then node !in s else k < |s| && s[k] == node)
    modifies node, head, if 0 < k < |s| then {s[k - 1]} else {}
    modifies if node.next != null then {node.next} else {}
    ensures Chain(head, if old(node.pprev).Unhashed? then s else Out(s, k))
    ensures node.pprev.Unhashed? && (old(node.pprev).Unhashed? || node.next == null)
  {
    hide Chain, Out;
    if !node.pprev.Unhashed? {
      Unlink(node, head, s, k);
      node.next := null;
      node.pprev := Unhashed;
    }
  }

  /** hlist_move_list: the whole list changes heads. */
  method MoveList(was: Head, head: Head, ghost s: seq<Node>)
    requires Chain(was, s) && Chain(head, []) && was != head
    modifies was, head, if was.first != null then {was.first} else {}
    ensures Chain(head, s) && Chain(was, [])
  {
    head.first := was.first;
    if head.first != null {
      head.first.pprev := FirstOf(head);
    }
    was.first := null;
    forall i | 0 <= i < |s| ensures s[i].next == ChainAt(s, i + 1) && s[i].pprev == Before(head, s, i) {
      assert old(s[i].pprev) == Before(was, s, i);
    }
  }

  predicate IsEmpty(head: Head)
    reads head
  {
    head.first == null
  }

  /** hlist_is_singular_node. */
  predicate IsSingular(node: Node, head: Head)
    reads node
  {
    node.next == null && node.pprev == FirstOf(head)
  }

  lemma TestsAreExact(head: Head, s: seq<Node>, k: nat)
    requires Chain(head, s)
    ensures IsEmpty(head) <==> s == []
    ensures k < |s| ==> (IsSingular(s[k], head) <==> |s| == 1)
  {
    if k < |s| {
      assert s[k].next == ChainAt(s, k + 1) && s[k].pprev == Before(head, s, k);
    }
  }
}
