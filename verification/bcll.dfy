/** The intrusive circular doubly-linked list of libsign (src/lib/bcll.h).
    A list is a head link; its elements are links embedded in other
    structures. The list a head stands for is given by a ghost sequence
    `xs`: following `next` from the head visits `xs` in order and comes back
    to the head, and `prev` runs the other way. Every operation rewires the
    links in place and is specified by what it does to that sequence. */
module Bcll {

  /** A `bcll_t`: one link of a ring, either a list head or an element. */
  class Link {
    var next: Link?
    var prev: Link?

    /** A link as BCLL_DECLARE defines it: linked to itself both ways,
        which is how an empty list looks. */
    constructor ()
      ensures next == this && prev == this
    {
      new;
      next := this;
      prev := this;
    }
  }

  /** Following `next` from `head` visits exactly the links `xs`, in order,
      and then `head` again; `prev` is the reverse of `next`. */
  ghost predicate IsRing(head: Link, xs: seq<Link>)
    reads {head} + set x | x in xs
  {
    Distinct(head, xs) && Linked(head, xs)
  }

  /** The head and the elements are pairwise different links. */
  ghost predicate Distinct(head: Link, xs: seq<Link>)
  {
    && head !in xs
    && (forall i, j :: 0 <= i < j < |xs| ==> xs[i] != xs[j])
  }

  /** `next` and `prev` join the head and the elements into one cycle, in order. */
  ghost predicate Linked(head: Link, xs: seq<Link>)
    reads {head} + set x | x in xs
  {
    && (if xs == [] then head.next == head && head.prev == head
        else
          && head.next == xs[0] && xs[0].prev == head
          && xs[|xs| - 1].next == head && head.prev == xs[|xs| - 1])
    && (forall i :: 0 <= i < |xs| - 1 ==> xs[i].next == xs[i + 1] && xs[i + 1].prev == xs[i])
  }

  /** The ring invariant of bcll.h: the neighbours of every link of the
      ring are again links of the ring and point back at it. */
  lemma RingIsDoublyLinked(head: Link, xs: seq<Link>)
    requires IsRing(head, xs)
    ensures forall i :: 0 <= i < |[head] + xs| ==>
      var n := ([head] + xs)[i];
      && n.next != null && n.prev != null
      && n.next.prev == n && n.prev.next == n
      && n.next in [head] + xs && n.prev in [head] + xs
  {
    var r := [head] + xs;
    forall i | 0 <= i < |r|
      ensures r[i].next != null && r[i].prev != null
      ensures r[i].next.prev == r[i] && r[i].prev.next == r[i]
      ensures r[i].next in r && r[i].prev in r
    {
      if xs != [] {
        if i == 0 {
          assert r[i] == head;
          assert head.prev == r[|r| - 1];
        } else {
          assert r[i] == xs[i - 1];
          if i < |xs| {
            assert r[i].next == r[i + 1];
          }
          if i > 1 {
            assert r[i].prev == xs[i - 2];
          }
        }
      }
    }
  }

  /** bcll_init: the head becomes the empty list. */
  method Init(head: Link)
    modifies head
    ensures IsRing(head, [])
  {
    head.next := head;
    head.prev := head;
  }

  /** __bcll_add(at, entry): links `entry` in right after `at`, where `at`
      is the head (k == 0) or the element just before position k. */
  method InsertAfter(at: Link, entry: Link, ghost head: Link, ghost xs: seq<Link>, ghost k: nat)
    requires IsRing(head, xs) && k <= |xs|
    requires at == if k == 0 then head else xs[k - 1]
    requires entry != head && entry !in xs
    modifies at, at.next, entry
    ensures IsRing(head, xs[..k] + [entry] + xs[k..])
  {
    var next := at.next;
    assert next == if k == |xs| then head else xs[k];
    next.prev := entry;
    entry.next := next;
    at.next := entry;
    entry.prev := at;
    ghost var ys := xs[..k] + [entry] + xs[k..];
    assert ys[k] == entry;
    forall i | 0 <= i < |ys| - 1
      ensures ys[i].next == ys[i + 1] && ys[i + 1].prev == ys[i]
    {
      if i < k - 1 {
        assert ys[i] == xs[i] && ys[i + 1] == xs[i + 1];
      } else if i == k - 1 {
        assert ys[i] == at;
      } else if i == k {
        assert ys[i + 1] == xs[k];
      } else {
        assert ys[i] == xs[i - 1] && ys[i + 1] == xs[i];
      }
    }
  }

  /** bcll_add: `entry` becomes the first element; the others keep their order. */
  method Add(head: Link, entry: Link, ghost xs: seq<Link>)
    requires IsRing(head, xs)
    requires entry != head && entry !in xs
    modifies head, head.next, entry
    ensures IsRing(head, [entry] + xs)
  {
    InsertAfter(head, entry, head, xs, 0);
    assert xs[..0] + [entry] + xs[0..] == [entry] + xs;
  }

  /** bcll_add_tail: `entry` becomes the last element, just before the head. */
  method AddTail(head: Link, entry: Link, ghost xs: seq<Link>)
    requires IsRing(head, xs)
    requires entry != head && entry !in xs
    modifies head, head.prev, entry
    ensures IsRing(head, xs + [entry])
  {
    InsertAfter(head.prev, entry, head, xs, |xs|);
    assert xs[..|xs|] + [entry] + xs[|xs|..] == xs + [entry];
  }

  /** bcll_del: the neighbours of `entry` become adjacent and the other
      elements keep their order; `entry` itself still points at its old
      neighbours. */
  method Del(entry: Link, ghost head: Link, ghost xs: seq<Link>, ghost k: nat)
    requires IsRing(head, xs) && k < |xs| && xs[k] == entry
    modifies entry.prev, entry.next
    ensures IsRing(head, xs[..k] + xs[k + 1..])
    ensures entry.next == old(entry.next) && entry.prev == old(entry.prev)
  {
    var before, after := entry.prev, entry.next;
    assert before == if k == 0 then head else xs[k - 1];
    assert after == if k == |xs| - 1 then head else xs[k + 1];
    before.next := after;
    after.prev := before;
    ghost var ys := xs[..k] + xs[k + 1..];
    forall i | 0 <= i < |ys| - 1
      ensures ys[i].next == ys[i + 1] && ys[i + 1].prev == ys[i]
    {
      if i < k - 1 {
        assert ys[i] == xs[i] && ys[i + 1] == xs[i + 1];
      } else if i == k - 1 {
        assert ys[i] == before && ys[i + 1] == after;
      } else {
        assert ys[i] == xs[i + 1] && ys[i + 1] == xs[i + 2];
      }
    }
  }

  /** bcll_del_init: like bcll_del, and `entry` is left as an empty ring of its own. */
  method DelInit(entry: Link, ghost head: Link, ghost xs: seq<Link>, ghost k: nat)
    requires IsRing(head, xs) && k < |xs| && xs[k] == entry
    modifies entry, entry.prev, entry.next
    ensures IsRing(head, xs[..k] + xs[k + 1..])
    ensures IsRing(entry, [])
  {
    Del(entry, head, xs, k);
    Init(entry);
  }

  /** bcll_for_each_link: starting at head.next and stopping on return to
      the head, the loop visits the elements in `next` order. */
  method ForEachLink(head: Link, ghost xs: seq<Link>) returns (visited: seq<Link>)
    requires IsRing(head, xs)
    ensures visited == xs
  {
    visited := [];
    var p := head.next;
    while p != head
      invariant |visited| <= |xs|
      invariant visited == xs[..|visited|]
      invariant p == if |visited| < |xs| then xs[|visited|] else head
      decreases |xs| - |visited|
    {
      visited := visited + [p];
      p := p.next;
    }
  }

  /** The links among the first n of `xs` that are not in `doomed`, in order. */
  function Kept(xs: seq<Link>, doomed: set<Link>, n: nat): (r: seq<Link>)
    requires n <= |xs|
    ensures |r| <= n
  {
    if n == 0 then []
    else Kept(xs, doomed, n - 1) + (if xs[n - 1] in doomed then [] else [xs[n - 1]])
  }

  /** A link is kept exactly when it is among the first n and is not doomed. */
  lemma {:induction false} KeptMembers(xs: seq<Link>, doomed: set<Link>, n: nat)
    requires n <= |xs|
    ensures forall x :: x in Kept(xs, doomed, n) ==> x in xs[..n] && x !in doomed
    ensures forall x :: x in xs[..n] && x !in doomed ==> x in Kept(xs, doomed, n)
  {
    if n > 0 {
      KeptMembers(xs, doomed, n - 1);
      assert xs[..n] == xs[..n - 1] + [xs[n - 1]];
    }
  }

  /** The neighbours of the element at position k of a ring. */
  lemma RingNeighbours(head: Link, xs: seq<Link>, k: nat)
    requires IsRing(head, xs) && k < |xs|
    ensures xs[k].prev == if k == 0 then head else xs[k - 1]
    ensures xs[k].next == if k == |xs| - 1 then head else xs[k + 1]
  {
  }

  /** The element at position k and both its neighbours are links of the ring. */
  lemma NeighboursInFrame(head: Link, xs: seq<Link>, k: nat)
    requires IsRing(head, xs) && k < |xs|
    ensures xs[k] in {head} + set x | x in xs
    ensures xs[k].prev in {head} + set x | x in xs
    ensures xs[k].next in {head} + set x | x in xs
  {
    RingNeighbours(head, xs, k);
  }

  /** Dropping position |done| of `done + rest` drops the first of `rest`. */
  lemma DropFirstOfRest(done: seq<Link>, rest: seq<Link>)
    requires rest != []
    ensures (done + rest)[..|done|] + (done + rest)[|done| + 1..] == done + rest[1..]
  {
    assert (done + rest)[..|done|] == done;
    assert (done + rest)[|done| + 1..] == rest[1..];
  }

  /** One round of the safe walk: the current link `p`, the first of the
      links still to visit, is unlinked if it is doomed. */
  method RemoveIfDoomed(p: Link, doomed: set<Link>, ghost head: Link, ghost done: seq<Link>, ghost rest: seq<Link>)
    requires IsRing(head, done + rest) && rest != [] && rest[0] == p
    modifies {head} + set x | x in done + rest
    ensures p in doomed ==> IsRing(head, done + rest[1..]) && p.next == p && p.prev == p
    ensures p !in doomed ==> IsRing(head, done + rest)
  {
    ghost var cur := done + rest;
    ghost var k := |done|;
    assert cur[k] == p;
    if p in doomed {
      DropFirstOfRest(done, rest);
      NeighboursInFrame(head, cur, k);
      DelInit(p, head, cur, k);
    }
  }

  /** The links that one round of the safe walk, at position i, may touch
      all belong to `xs`, and the links removed earlier are not among them. */
  lemma SafeWalkFrame(xs: seq<Link>, doomed: set<Link>, i: nat)
    requires forall a, b :: 0 <= a < b < |xs| ==> xs[a] != xs[b]
    requires i < |xs|
    ensures forall x :: x in Kept(xs, doomed, i) ==> x in xs
    ensures forall x :: x in xs[i..] ==> x in xs
    ensures forall x :: x in xs[..i] && x in doomed ==> x !in Kept(xs, doomed, i) && x !in xs[i..]
  {
    KeptMembers(xs, doomed, i);
    forall x | x in Kept(xs, doomed, i)
      ensures x in xs
    {
      assert x in xs[..i];
    }
    forall x | x in xs[..i] && x in doomed
      ensures x !in xs[i..]
    {
      var a :| 0 <= a < i && xs[a] == x;
    }
  }

  /** The state of the safe walk over `xs` before the round at position i:
      the ring holds the survivors of the first i links followed by the
      links not yet visited, and every link removed so far is self-linked. */
  ghost predicate SafeWalkState(head: Link, doomed: set<Link>, xs: seq<Link>, i: nat)
    requires i <= |xs|
    reads {head} + (set x | x in xs) + (set x | x in Kept(xs, doomed, i))
  {
    && (forall a, b :: 0 <= a < b < |xs| ==> xs[a] != xs[b])
    && head !in xs
    && IsRing(head, Kept(xs, doomed, i) + xs[i..])
    && (forall x :: x in xs[..i] && x in doomed ==> x.next == x && x.prev == x)
  }

  /** The walk starts with nothing removed and everything still to visit. */
  lemma SafeWalkStart(head: Link, doomed: set<Link>, xs: seq<Link>)
    requires IsRing(head, xs)
    ensures SafeWalkState(head, doomed, xs, 0)
  {
    assert Kept(xs, doomed, 0) + xs[0..] == xs;
  }

  /** Once every link is visited, the ring holds exactly the survivors. */
  lemma SafeWalkEnd(head: Link, doomed: set<Link>, xs: seq<Link>)
    requires SafeWalkState(head, doomed, xs, |xs|)
    ensures IsRing(head, Kept(xs, doomed, |xs|))
    ensures forall x :: x in xs && x in doomed ==> x.next == x && x.prev == x
  {
    assert xs[..|xs|] == xs;
    assert Kept(xs, doomed, |xs|) + xs[|xs|..] == Kept(xs, doomed, |xs|);
  }

  /** During the walk, the successor of the current link is the next link
      still to visit, or the head once the last one is reached. */
  lemma SafeWalkSuccessor(head: Link, doomed: set<Link>, xs: seq<Link>, i: nat)
    requires i < |xs| && SafeWalkState(head, doomed, xs, i)
    ensures xs[i].next == if i + 1 < |xs| then xs[i + 1] else head
  {
    ghost var done := Kept(xs, doomed, i);
    RingNeighbours(head, done + xs[i..], |done|);
    assert (done + xs[i..])[|done|] == xs[i];
    if i + 1 < |xs| {
      assert (done + xs[i..])[|done| + 1] == xs[i + 1];
    }
  }

  /** The walk starts at the first link to visit, or at the head when
      there is none. */
  lemma SafeWalkFirst(head: Link, doomed: set<Link>, xs: seq<Link>)
    requires SafeWalkState(head, doomed, xs, 0)
    ensures head !in xs
    ensures head.next == if |xs| > 0 then xs[0] else head
  {
    assert Kept(xs, doomed, 0) + xs[0..] == xs;
  }

  /** The body of one round of the safe walk at position i. */
  method SafeRound(p: Link, doomed: set<Link>, ghost head: Link, ghost xs: seq<Link>, ghost i: nat)
    requires i < |xs| && SafeWalkState(head, doomed, xs, i) && p == xs[i]
    modifies {head} + set x | x in xs
    ensures SafeWalkState(head, doomed, xs, i + 1)
  {
    ghost var done := Kept(xs, doomed, i);
    ghost var cur := done + xs[i..];
    SafeWalkFrame(xs, doomed, i);
    assert forall o :: o in done + xs[i..] ==> o in xs;
    RemoveIfDoomed(p, doomed, head, done, xs[i..]);
    forall x | x in xs[..i + 1] && x in doomed
      ensures x.next == x && x.prev == x
    {
      if x != p {
        assert x in xs[..i] && x != head && x !in done + xs[i..];
      }
    }
    assert xs[i..] == [p] + xs[i + 1..];
    if p in doomed {
      assert Kept(xs, doomed, i + 1) == done + [] == done;
    } else {
      assert Kept(xs, doomed, i + 1) + xs[i + 1..] == done + [p] + xs[i + 1..] == cur;
    }
  }

  /** The loop of bcll_for_each_link_safe: the successor is fetched before
      the round runs, so the walk goes on from where the current link was
      even when the round unlinks it. */
  method SafeWalk(head: Link, doomed: set<Link>, ghost xs: seq<Link>) returns (visited: seq<Link>)
    requires SafeWalkState(head, doomed, xs, 0)
    modifies {head} + set x | x in xs
    ensures visited == xs && SafeWalkState(head, doomed, xs, |xs|)
  {
    visited := [];
    SafeWalkFirst(head, doomed, xs);
    var p := head.next;
    var tmp := p.next;
    ghost var i := 0;
    while p != head
      invariant i <= |xs| && SafeWalkState(head, doomed, xs, i)
      invariant head !in xs
      invariant visited == xs[..i]
      invariant p == if i < |xs| then xs[i] else head
      invariant tmp == p.next
      decreases |xs| - i
    {
      SafeWalkSuccessor(head, doomed, xs, i);
      visited := visited + [p];
      SafeRound(p, doomed, head, xs, i);
      p := tmp;
      tmp := p.next;
      i := i + 1;
    }
    assert xs[..i] == xs;
  }

  /** bcll_for_each_link_safe with a body that unlinks the current link
      (bcll_del_init) whenever it is in `doomed`. Because the successor is
      fetched before the body runs, unlinking the current link does not
      disturb the walk: every element is visited in order, the ring ends up
      holding the survivors in their old order, and each removed link is
      left self-linked. */
  method ForEachLinkSafeRemove(head: Link, doomed: set<Link>, ghost xs: seq<Link>) returns (visited: seq<Link>)
    requires IsRing(head, xs)
    modifies {head} + set x | x in xs
    ensures visited == xs
    ensures IsRing(head, Kept(xs, doomed, |xs|))
    ensures forall x :: x in xs && x in doomed ==> x.next == x && x.prev == x
  {
    SafeWalkStart(head, doomed, xs);
    visited := SafeWalk(head, doomed, xs);
    SafeWalkEnd(head, doomed, xs);
  }
}
