/**
  The character device itself: the ring, the pending block and the lock, with the calls that work on
  them in place.  `view` is the device as the reference sees it; `Valid` ties it to the ring slots, the
  pending block and the heap, and every call keeps that tie on every way out.
 */
module CharDevice {
  import opened Lines
  import opened Wrappers
  import opened FlatIndex
  import opened KernelHeap
  import opened CircularBuffer
  import opened DeviceSpec
  import opened Draining
  import opened Seeking
  import opened Returns

  class Mutex {
    var locked: bool

    constructor ()
      ensures !locked
    {
      locked := false;
    }

    method LockInterruptible(interrupted: bool) returns (failed: bool)
      requires !locked
      modifies this
      ensures failed == interrupted && locked == !interrupted
    {
      locked := !interrupted;
      failed := interrupted;
    }

    method Unlock()
      requires locked
      modifies this
      ensures !locked
    {
      locked := false;
    }
  }

  class OpenFile {
    var fPos: nat

    constructor ()
      ensures fPos == 0
    {
      fPos := 0;
    }
  }

  /** Each slot's block holds exactly its command. */
  ghost predicate SlotsHold(mem: map<Ptr, seq<byte>>, live: seq<Entry>, ring: seq<seq<byte>>) {
    && |live| == |ring|
    && forall k :: 0 <= k < |live| ==>
         live[k].buffptr in mem && mem[live[k].buffptr] == ring[k] && live[k].size == |ring[k]|
  }

  /** The pending block may be larger than what is pending; with no block nothing is. */
  ghost predicate PendingHolds(mem: map<Ptr, seq<byte>>, pending: Ptr, pendingLen: nat, bytes: seq<byte>) {
    if pending == NULL then pendingLen == 0 && bytes == []
    else pending in mem && pendingLen <= |mem[pending]| && mem[pending][..pendingLen] == bytes
  }

  /** The slots' blocks and the pending block are all different, and are all that is allocated. */
  ghost predicate Owns(blocks: set<Ptr>, live: seq<Entry>, pending: Ptr) {
    && (forall j, k :: 0 <= j < k < |live| ==> live[j].buffptr != live[k].buffptr)
    && (forall k :: 0 <= k < |live| ==> live[k].buffptr != NULL && live[k].buffptr != pending)
    && blocks == SlotBlocks(live) + (if pending == NULL then {} else {pending})
  }

  ghost function SlotBlocks(live: seq<Entry>): set<Ptr> {
    set e | e in live :: e.buffptr
  }

  lemma SlotBlocksAppend(a: seq<Entry>, b: seq<Entry>)
    ensures SlotBlocks(a + b) == SlotBlocks(a) + SlotBlocks(b)
  {
    forall p | p in SlotBlocks(a) + SlotBlocks(b) ensures p in SlotBlocks(a + b) {
      var e :| (e in a || e in b) && e.buffptr == p;
      assert e in a + b;
    }
  }

  /** Freeing the oldest slot's block leaves the other slots as they are. */
  lemma DropOldest(mem: map<Ptr, seq<byte>>, live: seq<Entry>, ring: seq<seq<byte>>, pending: Ptr)
    requires SlotsHold(mem, live, ring) && Owns(mem.Keys, live, pending) && live != []
    ensures SlotsHold(mem - {live[0].buffptr}, live[1..], ring[1..])
    ensures Owns((mem - {live[0].buffptr}).Keys, live[1..], pending)
  {
    OldestIsAlone(mem.Keys, live, pending);
    OwnsWithoutOldest(mem.Keys, live, pending);
    assert (mem - {live[0].buffptr}).Keys == mem.Keys - {live[0].buffptr};
    hide Owns;
    assert forall k :: 0 <= k < |live| - 1 ==> live[1..][k] == live[k + 1] && ring[1..][k] == ring[k + 1];
  }

  lemma OldestIsAlone(blocks: set<Ptr>, live: seq<Entry>, pending: Ptr)
    requires Owns(blocks, live, pending) && live != []
    ensures forall k :: 0 < k < |live| ==> live[k].buffptr != live[0].buffptr
    ensures live[0].buffptr !in SlotBlocks(live[1..]) && live[0].buffptr != pending
  {
  }

  lemma OwnsWithoutOldest(blocks: set<Ptr>, live: seq<Entry>, pending: Ptr)
    requires Owns(blocks, live, pending) && live != []
    ensures Owns(blocks - {live[0].buffptr}, live[1..], pending)
  {
    var gone, rest := live[0], live[1..];
    OldestIsAlone(blocks, live, pending);
    assert live == [gone] + rest;
    SlotBlocksAppend([gone], rest);
    assert SlotBlocks([gone]) == {gone.buffptr} by { assert gone in [gone]; }
    hide SlotBlocks;
    assert forall k :: 0 <= k < |rest| ==> rest[k] == live[k + 1];
  }

  /** A command in a new block of its own becomes the newest slot. */
  lemma AddNewest(mem: map<Ptr, seq<byte>>, live: seq<Entry>, ring: seq<seq<byte>>, pending: Ptr,
                  e: Entry, c: seq<byte>)
    requires SlotsHold(mem, live, ring) && Owns(mem.Keys, live, pending)
    requires e.buffptr != NULL && e.buffptr !in mem && e.size == |c|
    ensures SlotsHold(mem[e.buffptr := c], live + [e], ring + [c])
    ensures Owns(mem[e.buffptr := c].Keys, live + [e], pending)
  {
    SlotBlocksAppend(live, [e]);
    assert SlotBlocks([e]) == {e.buffptr} by { assert e in [e]; }
  }

  /** What a slot's list becomes when one more is stored: ten are kept. */
  function Pushed<T>(s: seq<T>, x: T): (r: seq<T>)
    requires |s| <= CAPACITY
    ensures r == LastN(CAPACITY, s + [x])
  {
    (if |s| == CAPACITY then s[1..] else s) + [x]
  }

  /** The heap once the block of the slot that is taken over has been freed. */
  function WithoutOldest(mem: map<Ptr, seq<byte>>, live: seq<Entry>): map<Ptr, seq<byte>> {
    if |live| == CAPACITY then mem - {live[0].buffptr} else mem
  }

  lemma RingAfterStore(mem: map<Ptr, seq<byte>>, live: seq<Entry>, ring: seq<seq<byte>>, pending: Ptr,
                       e: Entry, c: seq<byte>)
    requires SlotsHold(mem, live, ring) && Owns(mem.Keys, live, pending) && |live| <= CAPACITY
    requires e.buffptr != NULL && e.buffptr !in mem && e.size == |c|
    ensures SlotsHold(WithoutOldest(mem[e.buffptr := c], live), Pushed(live, e), Pushed(ring, c))
    ensures Owns(WithoutOldest(mem[e.buffptr := c], live).Keys, Pushed(live, e), pending)
    ensures |live| == CAPACITY ==> live[0].buffptr in mem && live[0].buffptr != pending
  {
    AddNewest(mem, live, ring, pending, e, c);
    if |live| == CAPACITY {
      DropOldest(mem[e.buffptr := c], live + [e], ring + [c], pending);
      assert (live + [e])[1..] == live[1..] + [e];
      assert (ring + [c])[1..] == ring[1..] + [c];
    }
  }

  /** The pending block is freed, rewritten, or replaced by a new one; the slots do not notice. */
  lemma SwapPending(mem: map<Ptr, seq<byte>>, live: seq<Entry>, ring: seq<seq<byte>>, pending: Ptr,
                    next: Ptr, block: seq<byte>, after: map<Ptr, seq<byte>>)
    requires SlotsHold(mem, live, ring) && Owns(mem.Keys, live, pending) && NULL !in mem
    requires next == NULL || next == pending || next !in mem
    requires after == if next == NULL then mem - {pending} else (mem - {pending})[next := block]
    ensures SlotsHold(after, live, ring) && Owns(after.Keys, live, next)
  {
    assert forall e :: e in live ==> e.buffptr in SlotBlocks(live);
  }

  lemma NextRing(d: Device, command: seq<byte>, next: Device)
    requires WellFormed(d) && IsCommand(command) && next.stored == d.stored + [command]
    ensures WellFormed(next) && Ring(next) == LastN(CAPACITY, Ring(d) + [command])
  {
    LastNAppend(CAPACITY, d.stored, [command]);
    AllCommandsAppend(d.stored, [command]);
  }

  lemma NoBlocks(slots: seq<Entry>)
    requires slots == []
    ensures SlotBlocks(slots) == {}
  {
  }

  lemma NotAmongSlots(live: seq<Entry>, p: Ptr)
    requires forall k :: 0 <= k < |live| ==> live[k].buffptr != p
    ensures p !in SlotBlocks(live)
  {
  }

  ghost predicate DistinctBlocks(slots: seq<Entry>) {
    forall j, k :: 0 <= j < k < |slots| && slots[j].buffptr != NULL ==> slots[j].buffptr != slots[k].buffptr
  }

  lemma SwapKeepsDistinct(a: seq<Entry>, b: seq<Entry>)
    requires DistinctBlocks(a + b)
    ensures DistinctBlocks(b + a)
  {
    var s, t := a + b, b + a;
    forall j, k | 0 <= j < k < |t| && t[j].buffptr != NULL ensures t[j].buffptr != t[k].buffptr {
      var m, n := if j < |b| then |a| + j else j - |b|, if k < |b| then |a| + k else k - |b|;
      assert t[j] == s[m] && t[k] == s[n] && m != n;
    }
  }

  /** Taking the first slot off the rest of the slots takes off its block and no other. */
  lemma FirstBlock(slots: seq<Entry>, i: nat)
    requires DistinctBlocks(slots) && i < |slots|
    ensures SlotBlocks(slots[i..]) - {NULL} == SlotBlocks(slots[i + 1..]) + {slots[i].buffptr} - {NULL}
    ensures slots[i].buffptr != NULL ==> slots[i].buffptr !in SlotBlocks(slots[i + 1..])
  {
    var e, rest := slots[i], slots[i + 1..];
    assert slots[i..] == [e] + rest;
    SlotBlocksAppend([e], rest);
    assert SlotBlocks([e]) == {e.buffptr} by { assert e in [e]; }
    assert forall k :: 0 <= k < |rest| ==> rest[k] == slots[i + 1 + k];
  }

  /** A user buffer after one more copy: `was` before the read, `now` before the copy, `next` after it. */
  lemma CopiedOn(was: seq<byte>, now: seq<byte>, next: seq<byte>, content: seq<byte>, pos: nat, m: nat, n: nat)
    requires |was| == |now| == |next| && m + n <= |was| && pos + m + n <= |content|
    requires m > 0 ==> now[..m] == content[pos..pos + m]
    requires now[m..] == was[m..]
    requires next[..m] == now[..m] && next[m..m + n] == content[pos + m..pos + m + n] && next[m + n..] == now[m + n..]
    ensures next[..m + n] == content[pos..pos + m + n]
    ensures next[m + n..] == was[m + n..]
  {
    assert next[..m + n] == next[..m] + next[m..m + n];
    SliceNext(content, pos, m, n);
    assert now[m..][n..] == now[m + n..] && was[m..][n..] == was[m + n..];
  }

  class AesdDevice {
    const heap: Heap
    const buffer: Buffer
    const lock: Mutex
    var pending: Ptr
    var pendingLen: nat
    ghost var view: Device

    ghost predicate Valid()
      reads this, heap, buffer, buffer.entry
    {
      && heap.Valid()
      && buffer.Valid()
      && WellFormed(view)
      && SlotsHold(heap.mem, buffer.Live(), Ring(view))
      && PendingHolds(heap.mem, pending, pendingLen, view.pending)
      && Owns(heap.mem.Keys, buffer.Live(), pending)
    }

    constructor ()
      ensures Valid() && !lock.locked
      ensures view == START.device && heap.mem == map[]
      ensures fresh(heap) && fresh(buffer) && fresh(buffer.entry) && fresh(lock)
    {
      heap := new Heap();
      buffer := new Buffer();
      lock := new Mutex();
      pending, pendingLen := NULL, 0;
      view := Device([], []);
    }

    /** The inner loop of write: looks for the first newline in pending, byte by byte. */
    method ScanPending() returns (found: bool, cmdLen: nat, ghost cost: nat)
      requires Valid() && lock.locked
      ensures found <==> FirstNewline(view.pending) < |view.pending|
      ensures cmdLen == if found then FirstNewline(view.pending) + 1 else 0
      ensures cost == if found then cmdLen else |view.pending|
    {
      found, cmdLen, cost := false, 0, 0;
      var i := 0;
      while i < pendingLen
        invariant i <= pendingLen && cost == i
        invariant forall k :: 0 <= k < i ==> view.pending[k] != NEWLINE
      {
        var b := heap.Load(pending, i);
        cost := cost + 1;
        assert b == view.pending[i];
        if b == NEWLINE {
          FirstNewlineUnique(view.pending, i);
          return true, i + 1, cost;
        }
        i := i + 1;
      }
      FirstNewlineUnique(view.pending, i);
    }

    /** Adds an entry to the ring; the block of the slot it takes over, if any, is freed first. */
    method StoreEntry(e: Entry)
      requires lock.locked && heap.Valid() && buffer.Valid() && e.buffptr != NULL
      requires buffer.full ==> buffer.Live()[0].buffptr in heap.mem
      modifies heap, buffer, buffer.entry
      ensures heap.Valid() && buffer.Valid()
      ensures buffer.Live() == Pushed(old(buffer.Live()), e)
      ensures heap.mem == WithoutOldest(old(heap.mem), old(buffer.Live()))
    {
      ghost var live := buffer.Live();
      if buffer.full {
        assert buffer.entry[buffer.inOffs] == live[0];
        var oldest := buffer.entry[buffer.inOffs].buffptr;
        if oldest != NULL {
          heap.Kfree(oldest);
        }
        buffer.entry[buffer.inOffs] := EMPTY_SLOT;
        assert buffer.Live()[1..] == live[1..];
      }
      buffer.AddEntry(e);
    }

    /** Copies the first `cmdLen` pending bytes into a block of their own and that into the ring. */
    method StoreCommand(cmdLen: nat, succeeds: bool) returns (ok: bool)
      requires Valid() && lock.locked
      requires 0 < cmdLen <= |view.pending|
      modifies heap, buffer, buffer.entry
      ensures ok == succeeds
      ensures !ok ==> Valid()
      ensures ok ==>
                && heap.Valid() && buffer.Valid()
                && PendingHolds(heap.mem, pending, pendingLen, view.pending)
                && Owns(heap.mem.Keys, buffer.Live(), pending)
                && SlotsHold(heap.mem, buffer.Live(), Pushed(Ring(view), view.pending[..cmdLen]))
    {
      ghost var mem, live, ring, c := heap.mem, buffer.Live(), Ring(view), view.pending[..cmdLen];
      var cmd := heap.Kmalloc(cmdLen, succeeds);
      if cmd == NULL {
        return false;
      }
      heap.Memcpy(cmd, pending, cmdLen);
      assert mem[pending][..cmdLen] == c;
      assert heap.mem[cmd] == c && heap.mem == mem[cmd := c];
      RingAfterStore(mem, live, ring, pending, Entry(cmd, cmdLen), c);
      StoreEntry(Entry(cmd, cmdLen));
      ok := true;
    }

    /** Drops the first `n` pending bytes; frees the block when nothing is left, else tries to shrink it. */
    method DropPending(n: nat)
      requires lock.locked && heap.Valid() && pending in heap.mem && n <= pendingLen <= |heap.mem[pending]|
      modifies this`pending, this`pendingLen, heap
      ensures heap.Valid()
      ensures PendingHolds(heap.mem, pending, pendingLen, old(heap.mem[pending])[n..old(pendingLen)])
      ensures pending == NULL || pending == old(pending) || pending !in old(heap.mem)
      ensures heap.mem == if pending == NULL then old(heap.mem) - {old(pending)}
                          else (old(heap.mem) - {old(pending)})[pending := heap.mem[pending]]
    {
      ghost var mem := heap.mem;
      heap.Memmove(pending, n, pendingLen - n);
      pendingLen := pendingLen - n;
      if pendingLen == 0 {
        heap.Kfree(pending);
        pending := NULL;
      } else {
        var shrinks: bool := *;
        var shrunk := heap.Krealloc(pending, pendingLen, shrinks);
        if shrunk != NULL {
          pending := shrunk;
        }
        assert heap.mem[pending][..pendingLen] == mem[old(pending)][n..old(pendingLen)];
      }
    }

    /** The ring already holds the first pending command as its newest: takes it off pending. */
    method ForgetCommand(cmdLen: nat)
      requires lock.locked && heap.Valid() && buffer.Valid() && WellFormed(view)
      requires cmdLen <= |view.pending| && IsCommand(view.pending[..cmdLen])
      requires PendingHolds(heap.mem, pending, pendingLen, view.pending)
      requires Owns(heap.mem.Keys, buffer.Live(), pending)
      requires SlotsHold(heap.mem, buffer.Live(), Pushed(Ring(view), view.pending[..cmdLen]))
      modifies this, heap
      ensures Valid()
      ensures view == Taken(old(view), cmdLen)
    {
      ghost var next := Taken(view, cmdLen);
      ghost var mem := heap.mem;
      NextRing(view, view.pending[..cmdLen], next);
      assert mem[pending][cmdLen..pendingLen] == next.pending;
      DropPending(cmdLen);
      SwapPending(mem, buffer.Live(), Ring(next), old(pending), pending,
                  if pending == NULL then [] else heap.mem[pending], heap.mem);
      view := next;
    }

    /** Moves the first `cmdLen` pending bytes into the ring as one command, if memory allows. */
    method TakeCommand(cmdLen: nat, succeeds: bool) returns (ok: bool)
      requires Valid() && lock.locked
      requires cmdLen <= |view.pending| && IsCommand(view.pending[..cmdLen])
      modifies this, heap, buffer, buffer.entry
      ensures Valid()
      ensures ok == succeeds
      ensures view == if ok then Taken(old(view), cmdLen) else old(view)
    {
      hide WellFormed, SlotsHold, PendingHolds, Owns, Pushed;
      ok := StoreCommand(cmdLen, succeeds);
      if ok {
        ForgetCommand(cmdLen);
      }
    }

    /** Grows the pending block to take `buf` and copies it in behind what is pending. */
    method AppendPending(buf: seq<byte>, growFails: bool, copyFails: bool) returns (r: int)
      requires Valid() && lock.locked && buf != []
      modifies this, heap
      ensures Valid()
      ensures r == if growFails then -ENOMEM else if copyFails then -EFAULT else 0
      ensures view == if r == 0 then Device(old(view).stored, old(view).pending + buf) else old(view)
    {
      hide IsCommand, SlotsHold, Owns, LiveSlots;
      ghost var mem := heap.mem;
      var grown := heap.Krealloc(pending, pendingLen + |buf|, !growFails);
      if grown == NULL {
        return -ENOMEM;
      }
      pending := grown;
      assert heap.mem[pending][..pendingLen] == view.pending;
      var left := heap.CopyFromUser(pending, pendingLen, buf, copyFails);
      SwapPending(mem, buffer.Live(), Ring(view), old(pending), pending, heap.mem[pending], heap.mem);
      if left != 0 {
        return -EFAULT;
      }
      pendingLen := pendingLen + |buf|;
      view := Device(view.stored, view.pending + buf);
      r := 0;
    }

    /** The outer loop of write: cuts commands off pending until no newline or no memory is left. */
    method DrainPending(mallocs: nat) returns (done: bool, ghost cost: nat)
      requires Valid() && lock.locked
      modifies this, heap, buffer, buffer.entry
      ensures Valid()
      ensures done <==> Drains(old(view), mallocs)
      ensures view == Drain(old(view), mallocs)
      ensures cost == ScanCost(old(view), mallocs)
    {
      hide *;
      cost := 0;
      var taken := 0;
      while true
        invariant Valid() && taken <= mallocs
        invariant Drains(view, mallocs - taken) == Drains(old(view), mallocs)
        invariant Drain(view, mallocs - taken) == Drain(old(view), mallocs)
        invariant cost + ScanCost(view, mallocs - taken) == ScanCost(old(view), mallocs)
        decreases |view.pending|
      {
        var found, cmdLen, steps := ScanPending();
        cost := cost + steps;
        if !found {
          DrainNothing(view, mallocs - taken);
          return true, cost;
        }
        Round(view, mallocs - taken);
        var ok := TakeCommand(cmdLen, taken < mallocs);
        if !ok {
          return false, cost;
        }
        taken := taken + 1;
      }
    }

    /** aesd_write.  `cost` counts the bytes the newline scans look at. */
    method Write(buf: seq<byte>, f: WriteFaults) returns (r: int, ghost cost: nat)
      requires Valid() && !lock.locked
      modifies this, heap, buffer, buffer.entry, lock
      ensures Valid() && !lock.locked
      ensures (view, r) == WriteSpec(old(view), buf, f)
      ensures (r == 0 <==> buf == []) && (r > 0 ==> r == |buf|)
      ensures Accepts(buf, f) ==> cost == ScanCost(old(view).(pending := old(view).pending + buf), f.mallocs)
    {
      WriteReturns(view, buf, f);
      cost := 0;
      if |buf| == 0 {
        return 0, 0;
      }
      var failed := lock.LockInterruptible(f.interrupted);
      if failed {
        return -ERESTARTSYS, 0;
      }
      r := AppendPending(buf, f.growFails, f.copyFails);
      if r != 0 {
        lock.Unlock();
        return;
      }
      var done;
      done, cost := DrainPending(f.mallocs);
      if !done {
        lock.Unlock();
        return -ENOMEM, cost;
      }
      lock.Unlock();
      r := |buf|;
    }

    /** The sizes the search runs over are those of the ring. */
    lemma SlotSizesAreRingSizes()
      requires Valid()
      ensures SlotSizes(buffer.Live()) == RingSizes(view)
    {
    }

    /** The slot the search found is the ring command of that index. */
    lemma SlotIsCommand(p: Place)
      requires Valid() && p.index < |Ring(view)|
      ensures var e := buffer.entry[(buffer.outOffs + p.index) % CAPACITY];
              && e.buffptr in heap.mem && heap.mem[e.buffptr] == Ring(view)[p.index] && e.size == |Ring(view)[p.index]|
    {
      hide WellFormed, PendingHolds, Owns, Ring, LiveSlots;
      buffer.LiveAt(p.index);
    }

    /** One round of the read loop: finds the entry at `off` and copies up to `want` bytes of it out. */
    method CopyNext(user: array<byte>, at: nat, off: nat, want: nat, entryOffIn: nat, faults: bool)
      returns (r: int, entryOff: nat)
      requires Valid() && lock.locked && want > 0 && at + want <= user.Length
      modifies user
      ensures user[..at] == old(user[..at]) && user[at + want..] == old(user[at + want..])
      ensures match Locate(RingSizes(view), off)
              case None => r == 0
              case Some(p) =>
                && p.index < |Ring(view)| && p.offset < |Ring(view)[p.index]|
                && r == (if faults then -EFAULT else CopySize(view, want, p))
      ensures r == 0 <==> |Content(view)| <= off
      ensures r == 0 ==> user[..] == old(user[..])
      ensures r > 0 ==>
                && r <= want && off + r <= |Content(view)|
                && user[at..at + r] == Content(view)[off..off + r]
                && user[at + r..] == old(user[at + r..])
    {
      hide WellFormed, SlotsHold, PendingHolds, Owns, LiveSlots, LastN, Ring, Content, RingSizes, Locate, IsPlace;
      SlotSizesAreRingSizes();
      SearchIsExact(view, off);
      var found;
      found, entryOff := buffer.FindEntryOffsetForFpos(off, entryOffIn);
      if found.None? {
        return 0, entryOff;
      }
      ghost var p := Locate(RingSizes(view), off).value;
      SlotIsCommand(p);
      CopyIsSlice(view, off, want, p);
      var e := buffer.entry[found.value];
      var toCopy := if want < e.size - entryOff then want else e.size - entryOff;
      var left := heap.CopyToUser(user, at, e.buffptr, entryOff, toCopy, faults);
      assert user[at + want..] == user[at + toCopy..][want - toCopy..];
      r := if left > 0 then -EFAULT else toCopy;
    }

    /** The copy loop of read, under the lock. */
    method CopyOut(user: array<byte>, pos: nat, count: nat, copiesAllowed: nat) returns (r: int)
      requires Valid() && lock.locked && 0 < count <= user.Length
      modifies user
      ensures var n := ReadLength(view, pos, count);
              r == if EntriesTouched(view, pos, n) > copiesAllowed then -EFAULT else n
      ensures r > 0 ==> user[..r] == Content(view)[pos..pos + r]
      ensures r >= 0 ==> user[r..] == old(user[r..])
      ensures user[count..] == old(user[count..])
    {
      hide WellFormed, SlotsHold, PendingHolds, Owns, Ring, Content, RingSizes, Locate, LiveSlots;
      hide EntriesTouched, ReadSoFar, ReadLength, CopySize;
      ghost var content, was := Content(view), user[..];
      var copied, copies, entryOff := 0, 0, 0;
      ReadStarts(view, pos, count);
      while copied < count
        invariant copied <= count && (copied > 0 ==> pos + copied <= |content|)
        invariant copied > 0 ==> user[..copied] == content[pos..pos + copied]
        invariant user[copied..] == was[copied..]
        invariant ReadSoFar(view, pos, count, copied, copies) && copies <= copiesAllowed
      {
        SearchIsExact(view, pos + copied);
        ghost var now := user[..];
        var n;
        n, entryOff := CopyNext(user, copied, pos + copied, count - copied, entryOff, copies >= copiesAllowed);
        if n == 0 {
          break;
        }
        ReadContinues(view, pos, count, copied, copies, Locate(RingSizes(view), pos + copied).value);
        if n < 0 {
          return n;
        }
        CopiedOn(was, now, user[..], content, pos, copied, n);
        copied := copied + n;
        copies := copies + 1;
      }
      ReadEnds(view, pos, count, copied, copies);
      r := copied;
    }

    /** aesd_read. */
    method Read(file: OpenFile, user: array<byte>, count: nat, f: ReadFaults) returns (r: int)
      requires Valid() && !lock.locked && count <= user.Length
      modifies file, user, lock
      ensures Valid() && !lock.locked
      ensures var (pos, reply) := ReadSpec(view, old(file.fPos), count, f);
              && file.fPos == pos && r == reply.ret
              && (r >= 0 ==> r <= count && user[..r] == reply.data && user[r..] == old(user[r..]))
      ensures r == 0 <==> count == 0 || (!f.interrupted && |Content(view)| <= old(file.fPos))
      ensures r <= 0 ==> file.fPos == old(file.fPos)
      ensures user[count..] == old(user[count..])
    {
      hide WellFormed, SlotsHold, PendingHolds, Owns, Content, EntriesTouched;
      ReadReturns(view, file.fPos, count, f);
      if count == 0 {
        return 0;
      }
      var failed := lock.LockInterruptible(f.interrupted);
      if failed {
        return -ERESTARTSYS;
      }
      r := CopyOut(user, file.fPos, count, f.copies);
      if r < 0 {
        lock.Unlock();
        return;
      }
      file.fPos := file.fPos + r;
      lock.Unlock();
    }

    /** aesd_ioctl.  `arg` is None when the argument cannot be copied from user space. */
    method Ioctl(file: OpenFile, cmd: nat, arg: Option<SeekTo>, interrupted: bool) returns (r: int)
      requires Valid() && !lock.locked
      modifies file, lock
      ensures Valid() && !lock.locked
      ensures (file.fPos, r) == IoctlSpec(view, old(file.fPos), cmd, arg, interrupted)
      ensures r == 0 <==>
                && arg.Some? && !interrupted && cmd == IOCSEEKTO
                && arg.value.writeCmd < |Ring(view)| && arg.value.writeCmdOffset < |Ring(view)[arg.value.writeCmd]|
      ensures r <= 0 && (r < 0 ==> file.fPos == old(file.fPos))
    {
      hide WellFormed, PendingHolds, SlotsHold, Owns, LiveSlots;
      IoctlReturns(view, file.fPos, cmd, arg, interrupted);
      if arg.None? {
        return -EFAULT;
      }
      var seekto := arg.value;
      var failed := lock.LockInterruptible(interrupted);
      if failed {
        return -ERESTARTSYS;
      }
      if cmd != IOCSEEKTO {
        lock.Unlock();
        return -ENOTTY;
      }
      var position := FlatPosition(seekto);
      if position.None? {
        lock.Unlock();
        return -EINVAL;
      }
      file.fPos := position.value;
      lock.Unlock();
      r := 0;
    }

    /** The SEEKTO case: checks the command, adds up the sizes before it, checks the offset. */
    method FlatPosition(seekto: SeekTo) returns (position: Option<nat>)
      requires Valid() && lock.locked
      ensures position == SeekPosition(view, seekto)
    {
      hide WellFormed, PendingHolds, SlotsHold, Owns, LiveSlots, Ring, LastN, Flatten;
      SlotSizesAreRingSizes();
      buffer.CountsAgree();
      var totalEntries := if buffer.full then CAPACITY
                          else (buffer.inOffs - buffer.outOffs + CAPACITY) % CAPACITY;
      if seekto.writeCmd >= totalEntries {
        return None;
      }
      var newPosition, i := 0, 0;
      while i < seekto.writeCmd
        invariant i <= seekto.writeCmd && newPosition == Sum(RingSizes(view)[..i])
      {
        SlotIsCommand(Place(i, 0));
        SumNext(RingSizes(view), i);
        newPosition := newPosition + buffer.entry[(buffer.outOffs + i) % CAPACITY].size;
        i := i + 1;
      }
      PrefixLength(Ring(view), seekto.writeCmd);
      SlotIsCommand(Place(seekto.writeCmd, 0));
      if seekto.writeCmdOffset >= buffer.entry[(buffer.outOffs + seekto.writeCmd) % CAPACITY].size {
        return None;
      }
      position := Some(newPosition + seekto.writeCmdOffset);
    }

    /** The sum over all slots in physical order that SEEK_END makes. */
    method TotalSize() returns (total: nat)
      requires Valid() && lock.locked
      ensures total == |Content(view)|
    {
      hide WellFormed, PendingHolds, Owns, LiveSlots, SlotsHold, Ring, Content;
      ghost var sizes := SlotSizes(buffer.entry[..]);
      total := 0;
      var index := 0;
      while index < CAPACITY
        invariant index <= CAPACITY && total == Sum(sizes[..index])
      {
        SumNext(sizes, index);
        if buffer.entry[index].buffptr != NULL {
          total := total + buffer.entry[index].size;
        }
        index := index + 1;
      }
      assert sizes[..CAPACITY] == sizes;
      buffer.PhysicalTotal();
      SlotSizesAreRingSizes();
      RingIsCommands(view);
    }

    /** aesd_llseek. */
    method Llseek(file: OpenFile, offset: int, whence: int, interrupted: bool) returns (r: int)
      requires Valid() && !lock.locked
      modifies file, lock
      ensures Valid() && !lock.locked
      ensures (file.fPos, r) == LlseekSpec(view, old(file.fPos), offset, whence, interrupted)
      ensures r >= 0 <==> !interrupted && 0 <= whence <= 2 && Target(view, old(file.fPos), offset, whence) >= 0
      ensures file.fPos == if r >= 0 then Target(view, old(file.fPos), offset, whence) else old(file.fPos)
    {
      hide WellFormed, PendingHolds, SlotsHold, Owns, LiveSlots, Content;
      LlseekReturns(view, file.fPos, offset, whence, interrupted);
      var failed := lock.LockInterruptible(interrupted);
      if failed {
        return -ERESTARTSYS;
      }
      var newPos: int;
      if whence == SEEK_SET {
        newPos := offset;
      } else if whence == SEEK_CUR {
        newPos := file.fPos + offset;
      } else if whence == SEEK_END {
        var total := TotalSize();
        newPos := total + offset;
      } else {
        lock.Unlock();
        return -EINVAL;
      }
      if newPos < 0 {
        lock.Unlock();
        return -EINVAL;
      }
      file.fPos := newPos;
      lock.Unlock();
      r := newPos;
    }

    /** The blocks in the slots, taken in physical order, are the ring's blocks, each in one slot. */
    lemma PhysicalBlocks()
      requires Valid()
      ensures SlotBlocks(buffer.entry[..]) - {NULL} == SlotBlocks(buffer.Live())
      ensures DistinctBlocks(buffer.entry[..])
      ensures forall i :: 0 <= i < CAPACITY && buffer.entry[i].buffptr == NULL ==> buffer.entry[i] == EMPTY_SLOT
    {
      var cut := if buffer.full then buffer.outOffs else buffer.inOffs;
      var a, b := buffer.entry[..cut], buffer.entry[cut..];
      assert buffer.entry[..] == a + b;
      SlotBlocksAppend(a, b);
      if buffer.full {
        assert buffer.Live() == b + a;
        SlotBlocksAppend(b, a);
        SwapKeepsDistinct(b, a);
      } else {
        assert forall e :: e in b ==> e == EMPTY_SLOT;
      }
    }

    /** The loop of aesd_cleanup_module over all slots, in use or not. */
    method FreeSlots()
      requires heap.Valid() && buffer.entry.Length == CAPACITY
      requires DistinctBlocks(buffer.entry[..])
      requires heap.mem.Keys == SlotBlocks(buffer.entry[..]) - {NULL}
      modifies heap, buffer.entry
      ensures heap.mem == map[]
      ensures forall i :: 0 <= i < CAPACITY ==>
                buffer.entry[i] == if old(buffer.entry[i]).buffptr == NULL then old(buffer.entry[i]) else EMPTY_SLOT
    {
      hide SlotBlocks, DistinctBlocks;
      ghost var slots := buffer.entry[..];
      assert slots[0..] == slots;
      var index := 0;
      while index < CAPACITY
        invariant index <= CAPACITY && heap.Valid()
        invariant forall i :: index <= i < CAPACITY ==> buffer.entry[i] == slots[i]
        invariant forall i :: 0 <= i < index ==>
                    buffer.entry[i] == if slots[i].buffptr == NULL then slots[i] else EMPTY_SLOT
        invariant heap.mem.Keys == SlotBlocks(slots[index..]) - {NULL}
      {
        FirstBlock(slots, index);
        if buffer.entry[index].buffptr != NULL {
          heap.Kfree(buffer.entry[index].buffptr);
          buffer.entry[index] := EMPTY_SLOT;
        }
        index := index + 1;
      }
      NoBlocks(slots[CAPACITY..]);
    }

    /** The part of aesd_cleanup_module that frees memory: pending, then the slots. */
    method Cleanup()
      requires Valid()
      modifies this, heap, buffer.entry
      ensures heap.mem == map[]
      ensures pending == NULL && pendingLen == 0
      ensures forall i :: 0 <= i < CAPACITY ==> buffer.entry[i] == Entry(0, 0)
    {
      PhysicalBlocks();
      NotAmongSlots(buffer.Live(), pending);
      if pending != NULL {
        heap.Kfree(pending);
        pending, pendingLen := NULL, 0;
      }
      FreeSlots();
    }
  }
}
