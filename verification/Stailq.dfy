/**
  The singly-linked tail queue of server/queue.h: elements only point forward, and the head also keeps
  the address of the last `next`, its own when the queue is empty.
 */
module Stailq {
  import opened Sequences

  /** As for the tail queue, without links back; `last` means something in the head only. */
  ghost predicate Linked(chain: seq<Link>)
    reads chain
  {
    && |chain| > 0 && Distinct(chain)
    && (forall i {:trigger chain[i].next} :: 0 <= i < |chain| - 1 ==> chain[i].next == chain[i + 1])
    && chain[|chain| - 1].next == null
    && chain[0].last == chain[|chain| - 1]
  }

  class Link {
    var next: Link?
    var last: Link?
    ghost var chain: seq<Link>

    ghost predicate IsQueue()
      reads this, chain
    {
      Linked(chain) && chain[0] == this
    }

    /** The elements in order. */
    ghost function Elems(): seq<Link>
      requires IsQueue()
      reads this, chain
    {
      chain[1..]
    }

    constructor ()
      ensures next == null && last == null && chain == []
    {
      next, last, chain := null, null, [];
    }

    method Init()
      modifies this
      ensures IsQueue() && Elems() == []
    {
      next := null;
      last := this;
      chain := [this];
    }

    method InsertHead(elm: Link)
      requires IsQueue() && elm !in chain
      modifies this, elm
      ensures IsQueue() && Elems() == [elm] + old(Elems())
    {
      elm.next := next;
      if elm.next == null {
        last := elm;
      }
      next := elm;
      chain := [this, elm] + chain[1..];
    }

    method InsertTail(elm: Link)
      requires IsQueue() && elm !in chain
      modifies this, elm, last
      ensures IsQueue() && Elems() == old(Elems()) + [elm]
    {
      elm.next := null;
      last.next := elm;
      last := elm;
      chain := chain + [elm];
    }

    method InsertAfter(tqelm: Link, elm: Link)
      requires IsQueue() && elm !in chain && tqelm in Elems()
      modifies this, elm, tqelm
      ensures IsQueue()
      ensures Elems() == Insert(old(Elems()), Position(old(Elems()), tqelm) + 1, elm)
    {
      hide Distinct, Insert;
      ghost var k := Position(Elems(), tqelm) + 2;
      DistinctFrom(chain, 0);
      DistinctFrom(chain, k - 1);
      DistinctInsert(chain, k, elm);
      InsertAt(chain, k, elm);
      elm.next := tqelm.next;
      if elm.next == null {
        last := elm;
      }
      tqelm.next := elm;
      chain := Insert(chain, k, elm);
    }

    method RemoveHead()
      requires IsQueue() && Elems() != []
      modifies this
      ensures IsQueue() && Elems() == old(Elems())[1..]
    {
      next := next.next;
      if next == null {
        last := this;
      }
      chain := [this] + chain[2..];
    }

    /** Removes the element that follows `elm`; there has to be one. */
    method RemoveAfter(elm: Link)
      requires IsQueue() && elm in Elems() && elm != Elems()[|Elems()| - 1]
      modifies this, elm
      ensures IsQueue()
      ensures Elems() == Delete(old(Elems()), Position(old(Elems()), elm) + 1)
    {
      hide Distinct, Delete;
      ghost var k := Position(Elems(), elm) + 2;
      DistinctFrom(chain, 0);
      DistinctFrom(chain, k - 1);
      DistinctDelete(chain, k);
      DeleteAt(chain, k);
      elm.next := elm.next.next;
      if elm.next == null {
        last := elm;
      }
      chain := Delete(chain, k);
    }

    /** STAILQ_REMOVE: walks to the element before `elm`. */
    method Remove(elm: Link)
      requires IsQueue() && elm in Elems()
      modifies this, Elems()
      ensures IsQueue()
      ensures Elems() == Delete(old(Elems()), Position(old(Elems()), elm))
    {
      ghost var k := Position(Elems(), elm);
      PositionIs(Elems(), k);
      if next == elm {
        RemoveHead();
      } else {
        var curelm := next;
        ghost var i := 0;
        while curelm.next != elm
          invariant 0 <= i < k && curelm == Elems()[i]
          decreases k - i
        {
          i := i + 1;
          curelm := curelm.next;
        }
        PositionIs(Elems(), i);
        PositionIs(Elems(), i + 1);
        RemoveAfter(curelm);
      }
    }

    /** STAILQ_LAST, which recovers the element from the address of its next pointer. */
    function Last(): (r: Link?)
      requires IsQueue()
      reads this, chain
      ensures r == if Elems() == [] then null else Elems()[|Elems()| - 1]
    {
      if next == null then null else last
    }

    method Concat(other: Link)
      requires IsQueue() && other.IsQueue() && Apart(chain, other.chain)
      modifies this, last, other
      ensures IsQueue() && Elems() == old(Elems()) + old(other.Elems())
      ensures other.IsQueue() && other.Elems() == [] && Apart(chain, other.chain)
    {
      ghost var mine, theirs := chain, other.chain;
      JoinTails(mine, theirs);
      if other.next != null {
        last.next := other.next;
        last := other.last;
        chain := mine + theirs[1..];
        other.Init();
        assert other.chain == [theirs[0]];
        assert chain[1..] == mine[1..] + theirs[1..];
      } else {
        assert |theirs| == 1;
        assert mine[1..] + theirs[1..] == mine[1..];
      }
    }

    method Swap(other: Link)
      requires IsQueue() && other.IsQueue() && Apart(chain, other.chain)
      modifies this, other
      ensures IsQueue() && Elems() == old(other.Elems())
      ensures other.IsQueue() && other.Elems() == old(Elems()) && Apart(chain, other.chain)
    {
      hide Distinct, Apart;
      ghost var mine, theirs := chain, other.chain;
      ExchangeTails(mine, theirs);
      ApartBack(mine, theirs);
      ApartFrom(mine, theirs, 0);
      ApartFrom(theirs, mine, 0);
      DistinctFrom(mine, 0);
      DistinctFrom(theirs, 0);
      var swapFirst := next;
      var swapLast := last;
      next := other.next;
      last := other.last;
      other.next := swapFirst;
      other.last := swapLast;
      if next == null {
        last := this;
      }
      if other.next == null {
        other.last := other;
      }
      chain, other.chain := [mine[0]] + theirs[1..], [theirs[0]] + mine[1..];
    }
  }

  /** The links leave no choice: from a given head they hold together one chain only. */
  lemma LinkedOnce(s: seq<Link>, t: seq<Link>)
    requires Linked(s) && Linked(t) && s[0] == t[0]
    ensures s == t
  {
    var k := 1;
    while s[k - 1].next != null
      invariant 1 <= k <= |s| && k <= |t| && forall i :: 0 <= i < k ==> s[i] == t[i]
      decreases |s| - k
    {
      assert k < |s| && k < |t| && s[k - 1] == t[k - 1];
      k := k + 1;
    }
    assert s[k - 1] == t[k - 1];
    assert k == |s| && k == |t|;
  }
}
