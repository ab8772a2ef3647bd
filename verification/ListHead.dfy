/** The intrusive circular list of list.h. Nodes are objects that point at each
    other; a head stands for the sequence of entries on its ring. */
module ListHead {
  import opened Basics

  /** struct list_head. A null link is a poisoned one: following it is a fault. */
  class ListHead {
    var prev: ListHead?
    var next: ListHead?

    /** INIT_LIST_HEAD. */
    constructor ()
      ensures Ring(this, [])
    {
      prev, next := this, this;
    }
  }

  /** The node at place `i` of the ring; the places before the first entry and
      behind the last one are the head. */
  function RingAt(head: ListHead, s: seq<ListHead>, i: int): ListHead {
    if 0 <= i < |s| then s[i] else head
  }

  ghost predicate Distinct(head: ListHead, s: seq<ListHead>) {
    NoDup(s) && head !in s
  }

  /** `head` and the entries `s` form a closed ring in this order, no node twice:
      from every place the links lead to the next one and back. */
  ghost predicate Ring(head: ListHead, s: seq<ListHead>)
    reads head, s
  {
    && Distinct(head, s)
    && forall i :: -1 <= i < |s| ==>
         RingAt(head, s, i).next == RingAt(head, s, i + 1) && RingAt(head, s, i + 1).prev == RingAt(head, s, i)
  }

  lemma PlacesDiffer(head: ListHead, s: seq<ListHead>, i: int, j: int)
    requires Distinct(head, s) && i != j
    ensures -1 <= i < |s| && -1 <= j < |s| ==> RingAt(head, s, i) != RingAt(head, s, j)
    ensures 0 <= i <= |s| && 0 <= j <= |s| ==> RingAt(head, s, i) != RingAt(head, s, j)
  {
  }

  // ------------------------------------------------------------------
  // Insertion
  // ------------------------------------------------------------------

  /** __list_add: between two consecutive nodes, which may be one and the same. */
  method AddBetween(node: ListHead, prev: ListHead, next: ListHead)
    requires node != prev && node != next
    modifies node`prev, node`next, prev`next, next`prev
    ensures next.prev == node && node.next == next && node.prev == prev && prev.next == node
  {
    next.prev := node;
    node.next := next;
    node.prev := prev;
    prev.next := node;
  }

  lemma InDistinct(head: ListHead, s: seq<ListHead>, k: nat, node: ListHead)
    requires Distinct(head, s) && k <= |s| && node != head && node !in s
    ensures Distinct(head, In(s, k, node))
  {
    var t := In(s, k, node);
    forall i, j | 0 <= i < j < |t| ensures t[i] != t[j] {
      assert i < k ==> t[i] == s[i];
      assert i > k ==> t[i] == s[i - 1];
      assert j < k ==> t[j] == s[j];
      assert j > k ==> t[j] == s[j - 1];
    }
  }

  lemma InPlaces(head: ListHead, s: seq<ListHead>, k: nat, node: ListHead, i: int)
    requires k <= |s| && -1 <= i <= |s| + 1
    ensures RingAt(head, In(s, k, node), i) ==
            if i < k then RingAt(head, s, i) else if i == k then node else RingAt(head, s, i - 1)
  {
  }

  /** Linking a new node in front of place `k`. */
  method Insert(node: ListHead, head: ListHead, ghost s: seq<ListHead>, ghost k: nat, prev: ListHead, next: ListHead)
    requires Ring(head, s) && node != head && node !in s && k <= |s|
    requires prev == RingAt(head, s, k - 1) && next == RingAt(head, s, k)
    modifies node, prev, next
    ensures Ring(head, In(s, k, node))
  {
    hide Distinct, RingAt, In;
    assert forall i :: -1 <= i < |s| ==>
             RingAt(head, s, i).next == RingAt(head, s, i + 1) && RingAt(head, s, i + 1).prev == RingAt(head, s, i);
    NotAt(head, s, node, k - 1);
    NotAt(head, s, node, k);
    AddBetween(node, prev, next);
    ghost var t := In(s, k, node);
    InDistinct(head, s, k, node);
    InLength(s, k, node);
    forall i | -1 <= i < |t|
      ensures RingAt(head, t, i).next == RingAt(head, t, i + 1) && RingAt(head, t, i + 1).prev == RingAt(head, t, i)
    {
      InPlaces(head, s, k, node, i);
      InPlaces(head, s, k, node, i + 1);
      if i < k - 1 {
        PlacesDiffer(head, s, i, k - 1);
        PlacesDiffer(head, s, i + 1, k);
        NotAt(head, s, node, i);
        NotAt(head, s, node, i + 1);
        assert old(RingAt(head, s, i).next) == RingAt(head, s, i + 1) &&
               old(RingAt(head, s, i + 1).prev) == RingAt(head, s, i);
      } else if i > k {
        PlacesDiffer(head, s, i - 1, k - 1);
        PlacesDiffer(head, s, i, k);
        NotAt(head, s, node, i - 1);
        NotAt(head, s, node, i);
        assert old(RingAt(head, s, i - 1).next) == RingAt(head, s, i) &&
               old(RingAt(head, s, i).prev) == RingAt(head, s, i - 1);
      }
    }
  }

  lemma InLength(s: seq<ListHead>, k: nat, node: ListHead)
    requires k <= |s|
    ensures |In(s, k, node)| == |s| + 1
  {
  }

  lemma NotAt(head: ListHead, s: seq<ListHead>, node: ListHead, i: int)
    requires node != head && node !in s
    ensures RingAt(head, s, i) != node
  {
  }

  /** list_add: the entry becomes the first. */
  method Add(node: ListHead, head: ListHead, ghost s: seq<ListHead>)
    requires Ring(head, s) && node != head && node !in s
    modifies node, head, head.next
    ensures Ring(head, [node] + s)
  {
    assert RingAt(head, s, -1).next == RingAt(head, s, -1 + 1);
    Insert(node, head, s, 0, head, head.next);
    assert In(s, 0, node) == [node] + s;
  }

  /** list_add_tail: the entry becomes the last. */
  method AddTail(node: ListHead, head: ListHead, ghost s: seq<ListHead>)
    requires Ring(head, s) && node != head && node !in s
    modifies node, head, head.prev
    ensures Ring(head, s + [node])
  {
    assert RingAt(head, s, |s| - 1).next == RingAt(head, s, |s| - 1 + 1);
    Insert(node, head, s, |s|, head.prev, head);
    assert In(s, |s|, node) == s + [node];
  }

  // ------------------------------------------------------------------
  // Deletion
  // ------------------------------------------------------------------

  /** __list_del: the two neighbours, which may be one and the same, close up. */
  method Bridge(prev: ListHead, next: ListHead)
    modifies prev`next, next`prev
    ensures next.prev == prev && prev.next == next
  {
    next.prev := prev;
    prev.next := next;
  }

  /** Taking out the entry at place `k`; its own links stay as they were. */
  method CutOut(entry: ListHead, ghost head: ListHead, ghost s: seq<ListHead>, ghost k: nat)
    requires Ring(head, s) && k < |s| && s[k] == entry
    modifies entry.prev, entry.next
    ensures Ring(head, Out(s, k))
    ensures entry.prev == old(entry.prev) && entry.next == old(entry.next)
  {
    hide Distinct, RingAt, Out;
    Neighbours(head, s, k);
    assert forall i :: -1 <= i < |s| ==>
             RingAt(head, s, i).next == RingAt(head, s, i + 1) && RingAt(head, s, i + 1).prev == RingAt(head, s, i);
    Bridge(entry.prev, entry.next);
    ghost var t := Out(s, k);
    OutDistinct(head, s, k);
    forall i | -1 <= i < |t|
      ensures RingAt(head, t, i).next == RingAt(head, t, i + 1) && RingAt(head, t, i + 1).prev == RingAt(head, t, i)
    {
      OutPlaces(head, s, k, i);
      OutPlaces(head, s, k, i + 1);
      if i < k - 1 {
        PlacesDiffer(head, s, i, k - 1);
        PlacesDiffer(head, s, i + 1, k + 1);
        assert old(RingAt(head, s, i).next) == RingAt(head, s, i + 1) &&
               old(RingAt(head, s, i + 1).prev) == RingAt(head, s, i);
      } else if i >= k {
        PlacesDiffer(head, s, i + 1, k - 1);
        PlacesDiffer(head, s, i + 2, k + 1);
        assert old(RingAt(head, s, i + 1).next) == RingAt(head, s, i + 2) &&
               old(RingAt(head, s, i + 2).prev) == RingAt(head, s, i + 1);
      }
    }
  }

  lemma Neighbours(head: ListHead, s: seq<ListHead>, k: nat)
    requires Ring(head, s) && k < |s|
    ensures RingAt(head, s, k) == s[k] && s[k].prev == RingAt(head, s, k - 1) && s[k].next == RingAt(head, s, k + 1)
    ensures s[k].prev != s[k] && s[k].next != s[k]
  {
    assert RingAt(head, s, k - 1).next == RingAt(head, s, k - 1 + 1);
    PlacesDiffer(head, s, k - 1, k);
    PlacesDiffer(head, s, k + 1, k);
  }

  lemma OutDistinct(head: ListHead, s: seq<ListHead>, k: nat)
    requires Distinct(head, s) && k < |s|
    ensures Distinct(head, Out(s, k)) && |Out(s, k)| == |s| - 1 && s[k] !in Out(s, k)
  {
    var t := Out(s, k);
    forall i | 0 <= i < |t| ensures t[i] == s[if i < k then i else i + 1] {
    }
  }

  lemma OutPlaces(head: ListHead, s: seq<ListHead>, k: nat, i: int)
    requires k < |s| && -1 <= i <= |s|
    ensures RingAt(head, Out(s, k), i) == if i < k then RingAt(head, s, i) else RingAt(head, s, i + 1)
  {
  }

  /** list_del: the entry is left poisoned. No head is needed. */
  method Delete(entry: ListHead, ghost head: ListHead, ghost s: seq<ListHead>, ghost k: nat)
    requires Ring(head, s) && k < |s| && s[k] == entry
    modifies entry, entry.prev, entry.next
    ensures Ring(head, Out(s, k)) && entry.prev == null && entry.next == null
  {
    Neighbours(head, s, k);
    OutDistinct(head, s, k);
    hide Distinct, RingAt, Out;
    CutOut(entry, head, s, k);
    entry.next := null;
    entry.prev := null;
  }

  /** list_del_init: the entry is left as an empty list of its own. */
  method DeleteInit(entry: ListHead, ghost head: ListHead, ghost s: seq<ListHead>, ghost k: nat)
    requires Ring(head, s) && k < |s| && s[k] == entry
    modifies entry, entry.prev, entry.next
    ensures Ring(head, Out(s, k)) && Ring(entry, [])
  {
    Neighbours(head, s, k);
    OutDistinct(head, s, k);
    CutOut(entry, head, s, k);
    entry.next := entry;
    entry.prev := entry;
  }

  // ------------------------------------------------------------------
  // Replacing and moving
  // ------------------------------------------------------------------

  /** The ring with `node` put at place `k`; place -1 is the head. */
  function HeadWith(head: ListHead, k: int, node: ListHead): ListHead {
    if k == -1 then node else head
  }

  function With(s: seq<ListHead>, k: int, node: ListHead): seq<ListHead>
    requires -1 <= k < |s|
  {
    if k == -1 then s else s[k := node]
  }

  lemma WithDistinct(head: ListHead, s: seq<ListHead>, k: int, node: ListHead)
    requires Distinct(head, s) && -1 <= k < |s| && node != head && node !in s
    ensures Distinct(HeadWith(head, k, node), With(s, k, node)) && |With(s, k, node)| == |s|
  {
  }

  lemma WithPlaces(head: ListHead, s: seq<ListHead>, k: int, node: ListHead, i: int)
    requires -1 <= k < |s| && -1 <= i <= |s|
    ensures RingAt(HeadWith(head, k, node), With(s, k, node), i) ==
            if i == k || (k == -1 && i == |s|) then node else RingAt(head, s, i)
  {
  }

  /** list_replace: `node` takes the place of `was`, an entry or the head. A head
      hands over its whole ring; an empty one leaves the new head empty. */
  method Replace(was: ListHead, node: ListHead, ghost head: ListHead, ghost s: seq<ListHead>, ghost k: int)
    requires Ring(head, s) && -1 <= k < |s| && was == RingAt(head, s, k) && node != head && node !in s
    modifies node, was.next, was.prev
    ensures Ring(HeadWith(head, k, node), With(s, k, node))
  {
    hide Distinct, RingAt, With, HeadWith;
    Around(head, s, k, node);
    node.next := was.next;
    node.next.prev := node;
    node.prev := was.prev;
    node.prev.next := node;
    ghost var h, t := HeadWith(head, k, node), With(s, k, node);
    WithDistinct(head, s, k, node);
    forall i | -1 <= i < |t|
      ensures RingAt(h, t, i).next == RingAt(h, t, i + 1) && RingAt(h, t, i + 1).prev == RingAt(h, t, i)
    {
      WithPlaces(head, s, k, node, i);
      WithPlaces(head, s, k, node, i + 1);
      RingEnds(head, s);
      NotAt(head, s, node, i);
      NotAt(head, s, node, i + 1);
      assert old(RingAt(head, s, i).next) == RingAt(head, s, i + 1) &&
             old(RingAt(head, s, i + 1).prev) == RingAt(head, s, i);
      if i != k {
        PlacesDiffer(head, s, i, k);
      }
      if k >= 0 && i != k - 1 {
        PlacesDiffer(head, s, i, k - 1);
        PlacesDiffer(head, s, i + 1, k);
      }
      if i != k {
        PlacesDiffer(head, s, i + 1, k + 1);
      }
      if k == -1 && i != |s| - 1 {
        PlacesDiffer(head, s, i, |s| - 1);
      }
    }
  }

  lemma RingEnds(head: ListHead, s: seq<ListHead>)
    ensures RingAt(head, s, -1) == head == RingAt(head, s, |s|)
    ensures forall i :: 0 <= i < |s| ==> RingAt(head, s, i) == s[i]
  {
  }

  /** The node at place `k` between its neighbours; the head's predecessor is the
      last place. */
  lemma Around(head: ListHead, s: seq<ListHead>, k: int, node: ListHead)
    requires Ring(head, s) && -1 <= k < |s| && node != head && node !in s
    ensures RingAt(head, s, k).next == RingAt(head, s, k + 1) != node
    ensures RingAt(head, s, k).prev == RingAt(head, s, if k == -1 then |s| - 1 else k - 1) != node
    ensures RingAt(head, s, k) != node
  {
    assert RingAt(head, s, k).next == RingAt(head, s, k + 1);
    var j := if k == -1 then |s| - 1 else k - 1;
    assert RingAt(head, s, j + 1).prev == RingAt(head, s, j);
  }

  /** list_replace_init: what was replaced is left as an empty list. */
  method ReplaceInit(was: ListHead, node: ListHead, ghost head: ListHead, ghost s: seq<ListHead>, ghost k: int)
    requires Ring(head, s) && -1 <= k < |s| && was == RingAt(head, s, k) && node != head && node !in s
    modifies node, was, was.next, was.prev
    ensures Ring(HeadWith(head, k, node), With(s, k, node)) && Ring(was, [])
  {
    Replaced(head, s, k, node);
    Replace(was, node, head, s, k);
    was.next := was;
    was.prev := was;
  }

  lemma Replaced(head: ListHead, s: seq<ListHead>, k: int, node: ListHead)
    requires Distinct(head, s) && -1 <= k < |s| && node != head && node !in s
    ensures RingAt(head, s, k) != HeadWith(head, k, node) && RingAt(head, s, k) !in With(s, k, node)
  {
  }

  /** list_move: to the front of `head`, which is the entry's own list (then `t`
      is that list without it) or another one. */
  method Move(entry: ListHead, head: ListHead, ghost from: ListHead, ghost s: seq<ListHead>, ghost k: nat,
              ghost t: seq<ListHead>)
    requires Ring(from, s) && k < |s| && s[k] == entry
    requires if head == from then t == Out(s, k) else Ring(head, t) && Apart(from, s, head, t)
    modifies entry, entry.prev, entry.next, head, head.next
    ensures Ring(head, [entry] + t)
    ensures head != from ==> Ring(from, Out(s, k))
  {
    Leave(entry, head, from, s, k, t);
    RingTurn(head, t);
    OutDistinct(from, s, k);
    assert head.next == head || head.next in t;
    assert forall x :: x in Out(s, k) ==> x in s;
    Add(entry, head, t);
  }

  /** list_move_tail. */
  method MoveTail(entry: ListHead, head: ListHead, ghost from: ListHead, ghost s: seq<ListHead>, ghost k: nat,
                  ghost t: seq<ListHead>)
    requires Ring(from, s) && k < |s| && s[k] == entry
    requires if head == from then t == Out(s, k) else Ring(head, t) && Apart(from, s, head, t)
    modifies entry, entry.prev, entry.next, head, head.prev
    ensures Ring(head, t + [entry])
    ensures head != from ==> Ring(from, Out(s, k))
  {
    Leave(entry, head, from, s, k, t);
    RingTurn(head, t);
    OutDistinct(from, s, k);
    assert head.prev == head || head.prev in t;
    assert forall x :: x in Out(s, k) ==> x in s;
    AddTail(entry, head, t);
  }

  /** Two rings without a common node. */
  ghost predicate Apart(from: ListHead, s: seq<ListHead>, head: ListHead, t: seq<ListHead>) {
    head != from && head !in s && from !in t && forall x :: x in s ==> x !in t
  }

  /** The first half of a move: out of the old list, not yet on the new one. */
  method Leave(entry: ListHead, head: ListHead, ghost from: ListHead, ghost s: seq<ListHead>, ghost k: nat,
               ghost t: seq<ListHead>)
    requires Ring(from, s) && k < |s| && s[k] == entry
    requires if head == from then t == Out(s, k) else Ring(head, t) && Apart(from, s, head, t)
    modifies entry.prev, entry.next
    ensures Ring(head, t) && entry != head && entry !in t
    ensures head != from ==> Ring(from, Out(s, k)) && head.next == old(head.next) && head.prev == old(head.prev)
    ensures head == from ==> head.next == (if k == 0 then old(entry.next) else old(head.next))
    ensures head == from ==> head.prev == (if k == |s| - 1 then old(entry.prev) else old(head.prev))
  {
    Neighbours(from, s, k);
    OutDistinct(from, s, k);
    ghost var prev, next := entry.prev, entry.next;
    OutPlaces(from, s, k, 0);
    OutPlaces(from, s, k, |s| - 2);
    RingTurn(from, s);
    if head != from {
      assert prev != head && prev !in t && next != head && next !in t;
    }
    CutOut(entry, from, s, k);
    if head == from {
      RingTurn(from, Out(s, k));
    }
  }

  /** Where the head's own links lead. */
  lemma RingTurn(head: ListHead, s: seq<ListHead>)
    requires Ring(head, s)
    ensures head.next == RingAt(head, s, 0) && head.prev == RingAt(head, s, |s| - 1)
  {
    assert RingAt(head, s, -1).next == RingAt(head, s, -1 + 1);
    assert RingAt(head, s, |s| - 1 + 1).prev == RingAt(head, s, |s| - 1);
  }

  // ------------------------------------------------------------------
  // Tests
  // ------------------------------------------------------------------

  predicate IsEmpty(head: ListHead)
    reads head
  {
    head.next == head
  }

  predicate IsLast(entry: ListHead, head: ListHead)
    reads entry
  {
    entry.next == head
  }

  predicate IsSingular(head: ListHead)
    reads head
  {
    !IsEmpty(head) && head.next == head.prev
  }

  /** The tests look at one or two links and say something about the whole ring. */
  lemma TestsAreExact(head: ListHead, s: seq<ListHead>, k: nat)
    requires Ring(head, s)
    ensures IsEmpty(head) <==> s == []
    ensures IsSingular(head) <==> |s| == 1
    ensures k < |s| ==> (IsLast(s[k], head) <==> k == |s| - 1)
  {
    assert RingAt(head, s, -1).next == RingAt(head, s, 0);
    assert RingAt(head, s, |s| - 1 + 1).prev == RingAt(head, s, |s| - 1);
    if k < |s| {
      Neighbours(head, s, k);
    }
  }

  // ------------------------------------------------------------------
  // Cursors
  // ------------------------------------------------------------------

  /** The list in the middle of a safe walk: what was kept, then what is ahead. */
  function Mid(kept: seq<ListHead>, s: seq<ListHead>, i: nat): seq<ListHead>
    requires i <= |s|
  {
    kept + s[i..]
  }

  /** What the list will be when the walk is over. */
  function Goal(kept: seq<ListHead>, s: seq<ListHead>, i: nat, stays: ListHead -> bool): seq<ListHead>
    requires i <= |s|
  {
    kept + Filter(s[i..], stays)
  }

  /** list_for_each_safe with deletion of the current entry: the cursor that is
      one ahead never stands on a deleted node, and what stays keeps its order. */
  method KeepIf(head: ListHead, ghost s: seq<ListHead>, stays: ListHead -> bool)
    requires Ring(head, s)
    modifies {head} + set x | x in s
    ensures Ring(head, Filter(s, stays))
  {
    hide Ring, RingAt, Filter, Mid, Goal;
    ghost var kept: seq<ListHead>, i := [], 0;
    SafeStart(head, s, stays);
    var pos := head.next;
    CursorNext(pos, head, kept, s, i);
    var n := pos.next;
    while pos != head
      invariant 0 <= i <= |s| && Ring(head, Mid(kept, s, i)) && Goal(kept, s, i, stays) == Filter(s, stays)
      invariant pos == RingAt(head, s, i) && (i < |s| ==> n == RingAt(head, s, i + 1))
      invariant forall x :: x in kept ==> x in s
      decreases |s| - i
    {
      RingEnds(head, s);
      SafeStep(head, kept, s, i, stays);
      if !stays(pos) {
        DeleteCurrent(pos, head, kept, s, i);
      } else {
        kept := kept + [s[i]];
      }
      i := i + 1;
      pos := n;
      CursorNext(pos, head, kept, s, i);
      n := pos.next;
    }
    SafeEnd(head, kept, s, i, stays);
  }

  lemma SafeStart(head: ListHead, s: seq<ListHead>, stays: ListHead -> bool)
    requires Ring(head, s)
    ensures Mid([], s, 0) == s && Goal([], s, 0, stays) == Filter(s, stays) && head.next == RingAt(head, s, 0)
  {
    RingTurn(head, s);
    assert s[0..] == s;
  }

  /** One step of the safe walk, on the sequences. */
  lemma SafeStep(head: ListHead, kept: seq<ListHead>, s: seq<ListHead>, i: nat, stays: ListHead -> bool)
    requires i < |s|
    ensures Mid(kept, s, i) == Mid(kept + [s[i]], s, i + 1)
    ensures Goal(kept, s, i, stays) == Goal(if stays(s[i]) then kept + [s[i]] else kept, s, i + 1, stays)
  {
    assert s[i..] == [s[i]] + s[i + 1..];
    assert kept + ([s[i]] + Filter(s[i + 1..], stays)) == (kept + [s[i]]) + Filter(s[i + 1..], stays);
  }

  /** A cursor is back on the head exactly when it has passed every entry. */
  lemma SafeEnd(head: ListHead, kept: seq<ListHead>, s: seq<ListHead>, i: nat, stays: ListHead -> bool)
    requires i <= |s| && Ring(head, Mid(kept, s, i))
    ensures RingAt(head, s, i) == head <==> i == |s|
    ensures i == |s| ==> Mid(kept, s, i) == Goal(kept, s, i, stays)
  {
    if i < |s| {
      assert Mid(kept, s, i)[|kept|] == s[i];
    }
  }

  /** list_del on the entry under a safe cursor. */
  method DeleteCurrent(pos: ListHead, ghost head: ListHead, ghost kept: seq<ListHead>, ghost s: seq<ListHead>,
                       ghost i: nat)
    requires i < |s| && pos == s[i] && Ring(head, Mid(kept, s, i)) && forall x :: x in kept ==> x in s
    modifies {head} + set x | x in s
    ensures Ring(head, Mid(kept, s, i + 1))
  {
    hide Ring, RingAt, Out;
    ghost var all := Mid(kept, s, i);
    OutMid(kept, s, i);
    Neighbours(head, all, |kept|);
    Member(head, all, |kept| - 1);
    Member(head, all, |kept| + 1);
    Delete(pos, head, all, |kept|);
  }

  lemma OutMid(kept: seq<ListHead>, s: seq<ListHead>, i: nat)
    requires i < |s|
    ensures var all := Mid(kept, s, i);
      |kept| < |all| && all[|kept|] == s[i] && Out(all, |kept|) == Mid(kept, s, i + 1)
  {
  }

  lemma Member(head: ListHead, s: seq<ListHead>, i: int)
    ensures RingAt(head, s, i) == head || RingAt(head, s, i) in s
  {
  }

  /** Where the link of a cursor on the ring leads. */
  lemma CursorNext(pos: ListHead, head: ListHead, kept: seq<ListHead>, s: seq<ListHead>, i: nat)
    requires i <= |s| && Ring(head, Mid(kept, s, i)) && pos == RingAt(head, s, i)
    ensures pos.next != null && (i < |s| ==> pos.next == RingAt(head, s, i + 1))
  {
    var all := Mid(kept, s, i);
    RingTurn(head, all);
    if i < |s| {
      assert RingAt(head, all, |kept|) == s[i];
      assert RingAt(head, all, |kept|).next == RingAt(head, all, |kept| + 1);
      assert RingAt(head, all, |kept| + 1) == RingAt(head, s, i + 1);
    }
  }

  /** The first `n` nodes of `extra` after each was put in front in turn. */
  function Pushed(extra: seq<ListHead>, n: nat): (r: seq<ListHead>)
    requires n <= |extra|
    ensures |r| == n && forall x :: x in r ==> x in extra[..n]
  {
    if n == 0 then [] else [extra[n - 1]] + Pushed(extra, n - 1)
  }

  /** list_for_each while the body puts new nodes at the front: the walk sees
      exactly the entries the list had when it began, and none of the new ones. */
  method WalkWhileAdding(head: ListHead, ghost s: seq<ListHead>, extra: seq<ListHead>)
    returns (visited: seq<ListHead>)
    requires Ring(head, s) && Distinct(head, extra) && forall x :: x in extra ==> x !in s
    modifies {head} + (set x | x in s) + set x | x in extra
    ensures visited == s
    ensures Ring(head, Pushed(extra, Min(|s|, |extra|)) + s)
  {
    hide Ring, Distinct, RingAt, Pushed;
    visited := [];
    ghost var i := 0;
    WalkStart(head, s, extra);
    var pos := head.next;
    while pos != head
      invariant 0 <= i <= |s| && visited == s[..i] && pos == RingAt(head, s, i)
      invariant Ring(head, Pushed(extra, Min(i, |extra|)) + s)
      decreases |s| - i
    {
      RingEnds(head, s);
      assert s[..i] + [s[i]] == s[..i + 1];
      visited := visited + [pos];
      if |visited| <= |extra| {
        AddFresh(extra[|visited| - 1], head, s, extra, i);
      }
      i := i + 1;
      WalkNext(head, Pushed(extra, Min(i, |extra|)), s, i - 1);
      pos := pos.next;
    }
    WalkEnd(head, Pushed(extra, Min(i, |extra|)), s, i);
    assert s[..|s|] == s;
  }

  lemma WalkStart(head: ListHead, s: seq<ListHead>, extra: seq<ListHead>)
    requires Ring(head, s)
    ensures head.next == RingAt(head, s, 0) && Ring(head, Pushed(extra, 0) + s)
  {
    RingTurn(head, s);
    assert Pushed(extra, 0) + s == s;
  }

  /** From an entry of the old list the walk goes to the next entry of the old
      list, whatever stands in front. */
  lemma WalkNext(head: ListHead, added: seq<ListHead>, s: seq<ListHead>, i: nat)
    requires Ring(head, added + s) && i < |s|
    ensures RingAt(head, s, i) == s[i] && s[i].next == RingAt(head, s, i + 1)
  {
    var all, k := added + s, |added| + i;
    assert RingAt(head, all, k).next == RingAt(head, all, k + 1);
    assert RingAt(head, all, k) == s[i] && RingAt(head, all, k + 1) == RingAt(head, s, i + 1);
  }

  lemma WalkEnd(head: ListHead, added: seq<ListHead>, s: seq<ListHead>, i: nat)
    requires Ring(head, added + s) && i <= |s|
    ensures RingAt(head, s, i) == head <==> i == |s|
  {
    if i < |s| {
      assert (added + s)[|added| + i] == s[i];
    }
  }

  /** One addition during the walk. */
  method AddFresh(node: ListHead, head: ListHead, ghost s: seq<ListHead>, ghost extra: seq<ListHead>, ghost i: nat)
    requires i < |extra| && node == extra[i] && Ring(head, Pushed(extra, i) + s)
    requires Distinct(head, extra) && forall x :: x in extra ==> x !in s
    modifies {head} + (set x | x in s) + set x | x in extra
    ensures Ring(head, Pushed(extra, i + 1) + s)
  {
    ghost var all := Pushed(extra, i) + s;
    assert node !in extra[..i];
    assert node !in all;
    RingTurn(head, all);
    assert head.next == head || head.next in all;
    hide Ring;
    Add(node, head, all);
    assert [node] + all == Pushed(extra, i + 1) + s;
  }
}
