/**
  The tail queue of server/queue.h.  A head and an entry have the same layout, a pointer to the next
  element and the address of a pointer to an element, and the macros rely on it; so one class is both.
  The address of a `next` field is the link that has it: writing through `*x.prev` is `x.prev.next := ...`.
 */
module Tailq {
  import opened Sequences

  /**
    The links hold the chain together, the head being its first: each next points at the following link
    and the last at none; each prev points at the link before, and the head's at the last of all.
   */
  ghost predicate Linked(chain: seq<Link>)
    reads chain
  {
    && |chain| > 0 && Distinct(chain)
    && (forall i {:trigger chain[i].next} :: 0 <= i < |chain| - 1 ==> chain[i].next == chain[i + 1])
    && chain[|chain| - 1].next == null
    && (forall i {:trigger chain[i].prev} :: 1 <= i < |chain| ==> chain[i].prev == chain[i - 1])
    && chain[0].prev == chain[|chain| - 1]
  }

  /** The links leave no choice: from a given head they hold together one chain only. */
  lemma LinkedOnce(s: seq<Link>, t: seq<Link>)
    requires Linked(s) && Linked(t) && s[0] == t[0]
    ensures s == t
  {
    var k := 1;
    while s[k - 1].next != null
      invariant 1 <= k <= |s| && k <= |t| && forall i :: 0 <= i < k ==> s[i] == t[i]
      decreases |s| - k
    {
      assert k < |s| && k < |t| && s[k - 1] == t[k - 1];
      k := k + 1;
    }
    assert s[k - 1] == t[k - 1];
    assert k == |s| && k == |t|;
  }

  /** An element's prev is a link of the chain, and that link's prev is one too. */
  lemma PrevLink(chain: seq<Link>, elm: Link)
    requires Linked(chain) && elm in chain[1..]
    ensures elm.prev != null && elm.prev.prev != null
    ensures var k := Position(chain[1..], elm);
            && elm.prev == chain[k]
            && elm.prev.prev == chain[if k == 0 then |chain| - 1 else k - 1]
  {
    var k := Position(chain[1..], elm);
    assert chain[k + 1] == elm;
    if k > 0 {
      assert chain[k].prev == chain[k - 1];
    }
  }

  class Link {
    var next: Link?
    var prev: Link?
    ghost var chain: seq<Link>

    ghost predicate IsQueue()
      reads this, chain
    {
      Linked(chain) && chain[0] == this
    }

    /** The elements in order. */
    ghost function Elems(): seq<Link>
      requires IsQueue()
      reads this, chain
    {
      chain[1..]
    }

    constructor ()
      ensures next == null && prev == null && chain == []
    {
      next, prev, chain := null, null, [];
    }

    method Init()
      modifies this
      ensures IsQueue() && Elems() == []
    {
      next := null;
      prev := this;
      chain := [this];
    }

    method InsertHead(elm: Link)
      requires IsQueue() && elm !in chain
      modifies this, elm, next
      ensures IsQueue() && Elems() == [elm] + old(Elems())
    {
      elm.next := next;
      if elm.next != null {
        next.prev := elm;
      } else {
        prev := elm;
      }
      next := elm;
      elm.prev := this;
      chain := [this, elm] + chain[1..];
    }

    method InsertTail(elm: Link)
      requires IsQueue() && elm !in chain
      modifies this, elm, prev
      ensures IsQueue() && Elems() == old(Elems()) + [elm]
    {
      elm.next := null;
      elm.prev := prev;
      prev.next := elm;
      prev := elm;
      chain := chain + [elm];
    }

    method InsertAfter(listelm: Link, elm: Link)
      requires IsQueue() && elm !in chain && listelm in Elems()
      modifies this, elm, listelm, listelm.next
      ensures IsQueue()
      ensures var k := Position(old(Elems()), listelm) + 1;
              Elems() == Insert(old(Elems()), k, elm)
    {
      hide Distinct, Insert;
      ghost var k := Position(Elems(), listelm) + 2;
      DistinctFrom(chain, 0);
      DistinctFrom(chain, k - 1);
      if k < |chain| { DistinctFrom(chain, k); }
      DistinctInsert(chain, k, elm);
      InsertAt(chain, k, elm);
      elm.next := listelm.next;
      if elm.next != null {
        elm.next.prev := elm;
      } else {
        prev := elm;
      }
      listelm.next := elm;
      elm.prev := listelm;
      chain := Insert(chain, k, elm);
    }

    method Remove(elm: Link)
      requires IsQueue() && elm in Elems()
      modifies this, elm.next, elm.prev
      ensures IsQueue()
      ensures var k := Position(old(Elems()), elm);
              Elems() == Delete(old(Elems()), k)
    {
      hide Distinct, Delete;
      ghost var k := Position(Elems(), elm) + 1;
      DistinctFrom(chain, 0);
      DistinctFrom(chain, k - 1);
      if k + 1 < |chain| { DistinctFrom(chain, k + 1); }
      DistinctDelete(chain, k);
      DeleteAt(chain, k);
      if elm.next != null {
        elm.next.prev := elm.prev;
      } else {
        prev := elm.prev;
      }
      elm.prev.next := elm.next;
      chain := Delete(chain, k);
    }

    /** TAILQ_LAST, reading the tail pointer's target as a head: the last element, or none. */
    function Last(): (r: Link?)
      requires IsQueue()
      reads this, chain
      ensures r == if Elems() == [] then null else Elems()[|Elems()| - 1]
    {
      assert chain[|chain| - 1].prev != null;
      prev.prev.next
    }

    /** TAILQ_PREV of an element, by the same reading: the element before it, or none for the first. */
    function Prev(elm: Link): (r: Link?)
      requires IsQueue() && elm in Elems()
      reads this, chain
      ensures var k := Position(Elems(), elm); r == if k == 0 then null else Elems()[k - 1]
    {
      PrevLink(chain, elm);
      elm.prev.prev.next
    }

    /** TAILQ_FOREACH. */
    method Foreach() returns (visited: seq<Link>)
      requires IsQueue()
      ensures visited == Elems()
    {
      visited := [];
      var x := next;
      ghost var k := 1;
      while x != null
        invariant 1 <= k <= |chain| && x == (if k < |chain| then chain[k] else null)
        invariant visited == chain[1..k]
        decreases |chain| - k
      {
        visited := visited + [x];
        x := x.next;
        k := k + 1;
      }
    }

    /** TAILQ_FOREACH_REVERSE. */
    method ForeachReverse() returns (visited: seq<Link>)
      requires IsQueue()
      ensures visited == Reverse(Elems())
    {
      visited := [];
      var x := Last();
      ghost var k := |chain|;
      while x != null
        invariant 1 <= k <= |chain| && x == (if k > 1 then chain[k - 1] else null)
        invariant visited == Reverse(chain[k..])
        decreases k
      {
        ReverseNext(chain, k);
        visited := visited + [x];
        PositionIs(Elems(), k - 2);
        x := Prev(x);
        k := k - 1;
      }
    }

    method Concat(other: Link)
      requires IsQueue() && other.IsQueue() && Apart(chain, other.chain)
      modifies this, prev, other, other.next
      ensures IsQueue() && Elems() == old(Elems()) + old(other.Elems())
      ensures other.IsQueue() && other.Elems() == [] && Apart(chain, other.chain)
    {
      ghost var mine, theirs := chain, other.chain;
      JoinTails(mine, theirs);
      if other.next != null {
        prev.next := other.next;
        other.next.prev := prev;
        prev := other.prev;
        chain := mine + theirs[1..];
        other.Init();
        assert other.chain == [theirs[0]];
        forall i | 1 <= i < |chain| ensures chain[i].prev == chain[i - 1] {
          if i > |mine| {
            assert theirs[i - |mine| + 1].prev == theirs[i - |mine|];
          }
        }
        forall i | 0 <= i < |chain| - 1 ensures chain[i].next == chain[i + 1] {
          if i >= |mine| {
            assert theirs[i - |mine| + 1].next == theirs[i - |mine| + 2];
          }
        }
      }
    }

    method Swap(other: Link)
      requires IsQueue() && other.IsQueue() && Apart(chain, other.chain)
      modifies this, other, next, other.next
      ensures IsQueue() && Elems() == old(other.Elems())
      ensures other.IsQueue() && other.Elems() == old(Elems()) && Apart(chain, other.chain)
    {
      ghost var mine, theirs := chain, other.chain;
      ExchangeTails(mine, theirs);
      var swapFirst := next;
      var swapLast := prev;
      next := other.next;
      prev := other.prev;
      other.next := swapFirst;
      other.prev := swapLast;
      swapFirst := next;
      if swapFirst != null {
        swapFirst.prev := this;
      } else {
        prev := this;
      }
      swapFirst := other.next;
      if swapFirst != null {
        swapFirst.prev := other;
      } else {
        other.prev := other;
      }
      chain, other.chain := [mine[0]] + theirs[1..], [theirs[0]] + mine[1..];
      forall i | 2 <= i < |chain| ensures chain[i].prev == chain[i - 1] && chain[i - 1].next == chain[i] {
        assert theirs[i].prev == theirs[i - 1] && theirs[i - 1].next == theirs[i];
      }
      forall i | 2 <= i < |other.chain|
        ensures other.chain[i].prev == other.chain[i - 1] && other.chain[i - 1].next == other.chain[i]
      {
        assert mine[i].prev == mine[i - 1] && mine[i - 1].next == mine[i];
      }
    }
  }

  /** TAILQ_INSERT_BEFORE: needs no head. */
  method InsertBefore(listelm: Link, elm: Link, ghost head: Link)
    requires head.IsQueue() && elm !in head.chain && listelm in head.Elems()
    modifies head`chain, elm, listelm, listelm.prev`next
    ensures head.IsQueue()
    ensures var k := Position(old(head.Elems()), listelm);
            head.Elems() == Insert(old(head.Elems()), k, elm)
  {
    hide Distinct, Insert;
    ghost var k := Position(head.Elems(), listelm) + 1;
    DistinctFrom(head.chain, 0);
    DistinctFrom(head.chain, k - 1);
    DistinctFrom(head.chain, k);
    DistinctInsert(head.chain, k, elm);
    InsertAt(head.chain, k, elm);
    elm.prev := listelm.prev;
    elm.next := listelm;
    listelm.prev.next := elm;
    listelm.prev := elm;
    head.chain := Insert(head.chain, k, elm);
  }
}
