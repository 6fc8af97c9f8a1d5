/**
  The ring of the last ten commands: slots in an array, the slot to write next, the oldest slot,
  and a flag that tells a full ring from an empty one.
 */
module CircularBuffer {
  import opened Lines
  import opened Wrappers
  import opened FlatIndex
  import opened KernelHeap

  const CAPACITY: nat := 10

  /** A slot: a block and the number of bytes stored in it. */
  datatype Entry = Entry(buffptr: Ptr, size: nat)

  const EMPTY_SLOT := Entry(NULL, 0)

  /** Sizes as the search sees them: a slot without a block counts for nothing. */
  function SlotSizes(es: seq<Entry>): (sizes: seq<nat>)
    ensures |sizes| == |es|
  {
    seq(|es|, i requires 0 <= i < |es| => if es[i].buffptr == NULL then 0 else es[i].size)
  }

  /** What init and add keep of the offsets: they part only before the ring has filled once. */
  ghost predicate OffsetsValid(inOffs: nat, outOffs: nat, full: bool) {
    && inOffs < CAPACITY && outOffs < CAPACITY
    && (full ==> inOffs == outOffs)
    && (!full ==> outOffs == 0)
  }

  /** The slots in use, oldest first. */
  ghost function LiveSlots(slots: seq<Entry>, inOffs: nat, outOffs: nat, full: bool): (es: seq<Entry>)
    requires |slots| == CAPACITY && OffsetsValid(inOffs, outOffs, full)
    ensures |es| == if full then CAPACITY else inOffs
  {
    if full then slots[outOffs..] + slots[..outOffs] else slots[..inOffs]
  }

  /** Writing slot `inOffs` of a ring that is not full, and of one that is. */
  lemma LiveGrows(slots: seq<Entry>, inOffs: nat, e: Entry)
    requires |slots| == CAPACITY && inOffs < CAPACITY
    ensures inOffs + 1 < CAPACITY ==> LiveSlots(slots[inOffs := e], inOffs + 1, 0, false) == slots[..inOffs] + [e]
    ensures inOffs + 1 == CAPACITY ==> LiveSlots(slots[inOffs := e], 0, 0, true) == slots[..inOffs] + [e]
  {
    var after := slots[inOffs := e];
    assert after[..inOffs + 1] == slots[..inOffs] + [e];
    assert after[0..] + after[..0] == after;
  }

  lemma LiveTurns(slots: seq<Entry>, offs: nat, e: Entry)
    requires |slots| == CAPACITY && offs < CAPACITY
    ensures offs + 1 < CAPACITY ==>
              LiveSlots(slots[offs := e], offs + 1, offs + 1, true) == slots[offs + 1..] + slots[..offs] + [e]
    ensures offs + 1 == CAPACITY ==>
              LiveSlots(slots[offs := e], 0, 0, true) == slots[offs + 1..] + slots[..offs] + [e]
  {
    var after := slots[offs := e];
    assert after[offs + 1..] == slots[offs + 1..] && after[..offs + 1] == slots[..offs] + [e];
    assert after[0..] + after[..0] == after;
  }

  lemma LiveAfterAdd(slots: seq<Entry>, inOffs: nat, outOffs: nat, full: bool, e: Entry)
    requires |slots| == CAPACITY && OffsetsValid(inOffs, outOffs, full)
    ensures var o := if full then (outOffs + 1) % CAPACITY else outOffs;
            var i := (inOffs + 1) % CAPACITY;
            && OffsetsValid(i, o, i == o)
            && LiveSlots(slots[inOffs := e], i, o, i == o)
               == LastN(CAPACITY, LiveSlots(slots, inOffs, outOffs, full) + [e])
  {
    LastOfLive(slots, inOffs, outOffs, full, e);
    LiveGrows(slots, inOffs, e);
    LiveTurns(slots, inOffs, e);
    hide LiveSlots;
    assert (inOffs + 1) % CAPACITY == if inOffs + 1 == CAPACITY then 0 else inOffs + 1;
  }

  lemma LastOfLive(slots: seq<Entry>, inOffs: nat, outOffs: nat, full: bool, e: Entry)
    requires |slots| == CAPACITY && OffsetsValid(inOffs, outOffs, full)
    ensures LastN(CAPACITY, LiveSlots(slots, inOffs, outOffs, full) + [e])
            == if full then slots[outOffs + 1..] + slots[..outOffs] + [e] else slots[..inOffs] + [e]
  {
    var live := LiveSlots(slots, inOffs, outOffs, full);
    if full {
      assert live[1..] == slots[outOffs + 1..] + slots[..outOffs];
      assert LastN(CAPACITY, live + [e]) == live[1..] + [e];
    }
  }

  lemma NextSlot(a: nat)
    ensures (a % CAPACITY + 1) % CAPACITY == (a + 1) % CAPACITY
  {
  }

  class Buffer {
    const entry: array<Entry>
    var inOffs: nat
    var outOffs: nat
    var full: bool

    /** Until the ring has filled once, the slots not yet written are empty. */
    ghost predicate Valid()
      reads this, entry
    {
      && entry.Length == CAPACITY
      && OffsetsValid(inOffs, outOffs, full)
      && (!full ==> forall i :: inOffs <= i < CAPACITY ==> entry[i] == EMPTY_SLOT)
    }

    ghost function Live(): (es: seq<Entry>)
      requires Valid()
      reads this, entry
    {
      LiveSlots(entry[..], inOffs, outOffs, full)
    }

    lemma LiveAt(k: nat)
      requires Valid() && k < |Live()|
      ensures Live()[k] == entry[(outOffs + k) % CAPACITY]
    {
      if full && outOffs + k >= CAPACITY {
        assert (outOffs + k) % CAPACITY == outOffs + k - CAPACITY;
      }
    }

    /** The count the search uses and the count the seek call computes are both the live count. */
    lemma CountsAgree()
      requires Valid()
      ensures |Live()| == if full then CAPACITY else inOffs
      ensures |Live()| == if full then CAPACITY else (inOffs - outOffs + CAPACITY) % CAPACITY
    {
    }

    /** Adding up the slots in physical order gives the total of the live ones, however rotated. */
    lemma PhysicalTotal()
      requires Valid()
      ensures Sum(SlotSizes(entry[..])) == Sum(SlotSizes(Live()))
    {
      hide Sum;
      var cut := if full then outOffs else inOffs;
      var a, b := entry[..cut], entry[cut..];
      assert entry[..] == a + b;
      assert SlotSizes(a + b) == SlotSizes(a) + SlotSizes(b);
      SumAppend(SlotSizes(a), SlotSizes(b));
      if full {
        assert SlotSizes(b + a) == SlotSizes(b) + SlotSizes(a);
        SumAppend(SlotSizes(b), SlotSizes(a));
      } else {
        SumOfZeros(SlotSizes(b));
      }
    }

    constructor ()
      ensures Valid() && Live() == [] && fresh(entry)
      ensures entry.Length == 10 && forall i :: 0 <= i < 10 ==> entry[i] == Entry(0, 0)
    {
      entry := new Entry[CAPACITY](_ => EMPTY_SLOT);
      inOffs, outOffs, full := 0, 0, false;
    }

    /** Appends an entry, dropping the oldest when ten are held; an entry without a block is ignored. */
    method AddEntry(e: Entry)
      requires Valid()
      modifies this, entry
      ensures Valid()
      ensures e.buffptr == NULL ==>
                entry[..] == old(entry[..]) && inOffs == old(inOffs) && outOffs == old(outOffs) && full == old(full)
      ensures e.buffptr != NULL ==>
                && entry[..] == old(entry[..])[old(inOffs) := e]
                && Live() == LastN(CAPACITY, old(Live()) + [e])
    {
      if e.buffptr == NULL {
        return;
      }
      LiveAfterAdd(entry[..], inOffs, outOffs, full, e);
      if full && inOffs == outOffs {
        outOffs := (outOffs + 1) % CAPACITY;
      }
      entry[inOffs] := e;
      inOffs := (inOffs + 1) % CAPACITY;
      full := inOffs == outOffs;
    }

    /**
      The slot and offset that hold byte `charOffset` of the live entries laid end to end.
      `entryOffset` is the caller's cell for the offset: it keeps its value when nothing is found.
     */
    method FindEntryOffsetForFpos(charOffset: nat, entryOffsetIn: nat)
      returns (found: Option<nat>, entryOffset: nat)
      requires Valid()
      ensures match Locate(SlotSizes(Live()), charOffset)
              case None => found == None && entryOffset == entryOffsetIn
              case Some(p) => found == Some((outOffs + p.index) % CAPACITY) && entryOffset == p.offset
    {
      ghost var sizes := SlotSizes(Live());
      entryOffset := entryOffsetIn;
      var newOffset := 0;
      var entryCheck := if full then CAPACITY else inOffs;
      var entryPosition := outOffs;
      var i := 0;
      while i < entryCheck
        invariant i <= entryCheck == |sizes|
        invariant entryPosition == (outOffs + i) % CAPACITY
        invariant newOffset == Sum(sizes[..i]) <= charOffset
        invariant forall k :: 0 <= k < i ==> sizes[k] > 0
        invariant entryOffset == entryOffsetIn
      {
        LiveAt(i);
        NextSlot(outOffs + i);
        var e := entry[entryPosition];
        if e.buffptr == NULL || e.size == 0 {
          break;
        }
        if charOffset >= newOffset && charOffset < newOffset + e.size {
          LocateComplete(sizes, charOffset, Place(i, charOffset - newOffset));
          return Some(entryPosition), charOffset - newOffset;
        }
        SumNext(sizes, i);
        newOffset := newOffset + e.size;
        entryPosition := (entryPosition + 1) % CAPACITY;
        i := i + 1;
      }
      LocateStops(sizes, charOffset, i);
      found := None;
    }
  }

  /** A scan that has passed `i` blocks and meets the end or an empty block finds nothing. */
  lemma LocateStops(sizes: seq<nat>, off: nat, i: nat)
    requires i <= |sizes| && Sum(sizes[..i]) <= off
    requires i < |sizes| ==> sizes[i] == 0
    ensures Locate(sizes, off) == None
  {
    LocateSound(sizes, off);
    if Locate(sizes, off).Some? && Locate(sizes, off).value.index < i {
      PlaceBefore(sizes, off, Locate(sizes, off).value, i);
    }
  }

  lemma {:induction false} SumOfZeros(sizes: seq<nat>)
    requires forall i :: 0 <= i < |sizes| ==> sizes[i] == 0
    ensures Sum(sizes) == 0
  {
    if sizes != [] {
      SumOfZeros(sizes[1..]);
    }
  }

  /** Once a block is empty, so is every later one. */
  ghost predicate EmptyOnlyAtEnd(sizes: seq<nat>) {
    forall i, j :: 0 <= i < j < |sizes| && sizes[i] == 0 ==> sizes[j] == 0
  }

  /** The scan loses exactly the bytes from the first empty block on. */
  lemma UsableTotal(sizes: seq<nat>)
    ensures |Usable(sizes)| <= |sizes|
    ensures Sum(sizes) == Sum(Usable(sizes)) + Sum(sizes[|Usable(sizes)|..])
  {
    UsableIsPrefix(sizes);
    var n := |Usable(sizes)|;
    assert sizes == Usable(sizes) + sizes[n..];
    SumAppend(Usable(sizes), sizes[n..]);
  }

  lemma {:induction false} SumPositive(sizes: seq<nat>, j: nat)
    requires j < |sizes| && sizes[j] > 0
    ensures Sum(sizes) > 0
  {
    if j > 0 {
      SumPositive(sizes[1..], j - 1);
    }
  }

  /**
    The header promises that every byte of the entries laid end to end can be found.  The ring itself
    accepts entries of size 0, and then the promise holds exactly when no byte is stored after one.
   */
  lemma SearchFindsAllIff(sizes: seq<nat>)
    ensures (forall off: nat :: off < Sum(sizes) ==> Locate(sizes, off).Some?) <==> EmptyOnlyAtEnd(sizes)
  {
    UsableIsPrefix(sizes);
    UsableTotal(sizes);
    var n := |Usable(sizes)|;
    LocateDomain(sizes, Sum(Usable(sizes)));
    if EmptyOnlyAtEnd(sizes) {
      SumOfZeros(sizes[n..]);
      forall off: nat | off < Sum(sizes) ensures Locate(sizes, off).Some? {
        LocateDomain(sizes, off);
      }
    } else {
      var j :| n < j < |sizes| && sizes[j] > 0;
      SumPositive(sizes[n..], j - n);
    }
  }

  /** An entry of size 0 followed by one of size 5 hides byte 0 of the content. */
  lemma SearchMissesExample()
    ensures Sum([0, 5]) == 5 && Locate([0, 5], 0) == None
  {
    assert [0, 5][1..] == [5] && [5][1..] == [];
  }
}
