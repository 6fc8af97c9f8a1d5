/**
  The ring as one flat string: searching it, seeking into it and reading from it agree.
 */
module Seeking {
  import opened Lines
  import opened Wrappers
  import opened FlatIndex
  import opened CircularBuffer
  import opened DeviceSpec

  lemma RingIsCommands(d: Device)
    requires WellFormed(d)
    ensures AllCommands(Ring(d))
    ensures forall k :: 0 <= k < |RingSizes(d)| ==> RingSizes(d)[k] > 0
    ensures Sum(RingSizes(d)) == |Content(d)|
  {
    FlattenLength(Ring(d));
    forall k | 0 <= k < |Ring(d)| ensures IsCommand(Ring(d)[k]) {
      assert Ring(d)[k] == d.stored[|d.stored| - |Ring(d)| + k];
    }
  }

  /** The search succeeds exactly on the positions of the content, and designates the byte there. */
  lemma SearchIsExact(d: Device, off: nat)
    requires WellFormed(d)
    ensures Locate(RingSizes(d), off).Some? <==> off < |Content(d)|
    ensures match Locate(RingSizes(d), off)
            case None => true
            case Some(p) =>
              && IsPlace(RingSizes(d), off, p)
              && p.index < |Ring(d)| && p.offset < |Ring(d)[p.index]|
              && Content(d)[off] == Ring(d)[p.index][p.offset]
  {
    RingIsCommands(d);
    UsableWhenPositive(RingSizes(d));
    LocateDomain(RingSizes(d), off);
    LocateSound(RingSizes(d), off);
    if off < |Content(d)| {
      var p := Locate(RingSizes(d), off).value;
      PlaceSlice(Ring(d), off, p, 1);
      assert Content(d)[off..off + 1][0] == Ring(d)[p.index][p.offset..p.offset + 1][0];
    }
  }

  /** Seeking to a byte of a command and searching there comes back to that byte. */
  lemma SeekThenSearch(d: Device, s: SeekTo)
    requires WellFormed(d) && SeekPosition(d, s).Some?
    ensures var p := SeekPosition(d, s).value;
            && p < |Content(d)|
            && Locate(RingSizes(d), p) == Some(Place(s.writeCmd, s.writeCmdOffset))
            && Content(d)[p] == Ring(d)[s.writeCmd][s.writeCmdOffset]
  {
    var p := SeekPosition(d, s).value;
    RingIsCommands(d);
    PrefixLength(Ring(d), s.writeCmd);
    LocateComplete(RingSizes(d), p, Place(s.writeCmd, s.writeCmdOffset));
    SearchIsExact(d, p);
  }

  /** Every position of the content is reached by one seek, and by no other. */
  lemma SearchThenSeek(d: Device, off: nat, s: SeekTo)
    requires WellFormed(d) && off < |Content(d)|
    ensures Locate(RingSizes(d), off).Some?
    ensures SeekPosition(d, s) == Some(off)
            <==> Locate(RingSizes(d), off) == Some(Place(s.writeCmd, s.writeCmdOffset))
  {
    SearchIsExact(d, off);
    var p := Locate(RingSizes(d), off).value;
    PrefixLength(Ring(d), p.index);
    if SeekPosition(d, s).Some? {
      SeekThenSearch(d, s);
    }
  }

  // ----- reading -----

  /** Later positions lie in later entries. */
  lemma LocateMonotone(d: Device, a: nat, b: nat)
    requires WellFormed(d) && a <= b < |Content(d)|
    ensures Locate(RingSizes(d), a).Some? && Locate(RingSizes(d), b).Some?
    ensures Locate(RingSizes(d), a).value.index <= Locate(RingSizes(d), b).value.index
  {
    SearchIsExact(d, a);
    SearchIsExact(d, b);
    var p, q := Locate(RingSizes(d), a).value, Locate(RingSizes(d), b).value;
    if q.index < p.index {
      PlaceBefore(RingSizes(d), b, q, p.index);
    }
  }

  lemma TouchedMonotone(d: Device, pos: nat, m: nat, n: nat)
    requires WellFormed(d) && 0 < m <= n && pos + n <= |Content(d)|
    ensures 0 < EntriesTouched(d, pos, m) <= EntriesTouched(d, pos, n)
  {
    LocateMonotone(d, pos, pos + m - 1);
    LocateMonotone(d, pos + m - 1, pos + n - 1);
  }

  /** The read has stopped at the end of an entry, or has all it wants. */
  ghost predicate AtEntryEnd(d: Device, off: nat) {
    && off > 0 && Locate(RingSizes(d), off - 1).Some?
    && var p := Locate(RingSizes(d), off - 1).value;
       p.index < |Ring(d)| && p.offset + 1 == |Ring(d)[p.index]|
  }

  /** What one copy of the read loop takes: what is still wanted, or the rest of the entry. */
  function CopySize(d: Device, want: nat, p: Place): (n: nat)
    requires p.index < |Ring(d)| && p.offset < |Ring(d)[p.index]|
    ensures n <= want && (want > 0 ==> n > 0)
  {
    if want < |Ring(d)[p.index]| - p.offset then want else |Ring(d)[p.index]| - p.offset
  }

  /** The bytes one copy takes are the content's. */
  lemma CopyIsSlice(d: Device, off: nat, want: nat, p: Place)
    requires WellFormed(d) && want > 0 && Locate(RingSizes(d), off) == Some(p)
    ensures p.index < |Ring(d)| && p.offset < |Ring(d)[p.index]|
    ensures var n := CopySize(d, want, p);
            && off + n <= |Content(d)|
            && Content(d)[off..off + n] == Ring(d)[p.index][p.offset..p.offset + n]
  {
    SearchIsExact(d, off);
    PlaceSlice(Ring(d), off, p, CopySize(d, want, p));
  }

  /** A copy stays in its entry, and ends where the entry ends or with all that is wanted. */
  lemma CopyEnd(d: Device, off: nat, want: nat, p: Place)
    requires WellFormed(d) && want > 0 && Locate(RingSizes(d), off) == Some(p)
    ensures p.index < |Ring(d)| && p.offset < |Ring(d)[p.index]|
    ensures var n := CopySize(d, want, p);
            && Locate(RingSizes(d), off + n - 1) == Some(Place(p.index, p.offset + n - 1))
            && (n < want ==> AtEntryEnd(d, off + n))
  {
    SearchIsExact(d, off);
    var n := CopySize(d, want, p);
    PlaceAhead(RingSizes(d), off, p, n - 1);
    hide Ring, Locate, WellFormed, IsPlace, Content;
    LocateComplete(RingSizes(d), off + n - 1, Place(p.index, p.offset + n - 1));
  }

  /** Each copy of the read loop takes from exactly one more entry than the copies before it. */
  lemma CopyTouchesOneMore(d: Device, pos: nat, copied: nat, want: nat, p: Place)
    requires WellFormed(d) && want > 0 && Locate(RingSizes(d), pos + copied) == Some(p)
    requires copied > 0 ==> AtEntryEnd(d, pos + copied)
    ensures p.index < |Ring(d)| && p.offset < |Ring(d)[p.index]|
    ensures EntriesTouched(d, pos, copied + CopySize(d, want, p)) == EntriesTouched(d, pos, copied) + 1
  {
    CopyEnd(d, pos + copied, want, p);
    if copied > 0 {
      NextEntry(d, pos + copied, p);
      SearchIsExact(d, pos + copied);
      LocateMonotone(d, pos, pos + copied - 1);
    }
  }

  /** Right after the end of an entry comes the start of the next. */
  lemma NextEntry(d: Device, off: nat, p: Place)
    requires WellFormed(d) && AtEntryEnd(d, off) && Locate(RingSizes(d), off) == Some(p)
    ensures p == Place(Locate(RingSizes(d), off - 1).value.index + 1, 0)
  {
    var sizes := RingSizes(d);
    SearchIsExact(d, off);
    SearchIsExact(d, off - 1);
    RingIsCommands(d);
    var i := Locate(sizes, off - 1).value.index;
    SumNext(sizes, i);
    assert sizes[..|sizes|] == sizes;
    assert i + 1 < |sizes|;
    LocateComplete(sizes, off, Place(i + 1, 0));
  }

  /** Between two copies of a read: `copied` bytes have come from `copies` entries, the last one used up. */
  ghost predicate ReadSoFar(d: Device, pos: nat, count: nat, copied: nat, copies: int) {
    && copied <= count
    && (copied > 0 ==> pos + copied <= |Content(d)|)
    && copies == EntriesTouched(d, pos, copied)
    && (0 < copied < count ==> AtEntryEnd(d, pos + copied))
  }

  lemma ReadStarts(d: Device, pos: nat, count: nat)
    ensures ReadSoFar(d, pos, count, 0, 0)
  {
  }

  lemma ReadContinues(d: Device, pos: nat, count: nat, copied: nat, copies: int, p: Place)
    requires WellFormed(d) && ReadSoFar(d, pos, count, copied, copies) && copied < count
    requires Locate(RingSizes(d), pos + copied) == Some(p)
    ensures p.index < |Ring(d)| && p.offset < |Ring(d)[p.index]|
    ensures var n := CopySize(d, count - copied, p);
            && ReadSoFar(d, pos, count, copied + n, copies + 1)
            && 0 < copied + n <= ReadLength(d, pos, count)
            && copies < EntriesTouched(d, pos, ReadLength(d, pos, count))
  {
    hide Ring, Locate, RingSizes, WellFormed, EntriesTouched, Content;
    CopyTouchesOneMore(d, pos, copied, count - copied, p);
    CopyEnd(d, pos + copied, count - copied, p);
    CopyIsSlice(d, pos + copied, count - copied, p);
    TouchedMonotone(d, pos, copied + CopySize(d, count - copied, p), ReadLength(d, pos, count));
  }

  /** A read that has all it asked for, or has met the end, has exactly what the content holds for it. */
  lemma ReadEnds(d: Device, pos: nat, count: nat, copied: nat, copies: int)
    requires ReadSoFar(d, pos, count, copied, copies) && count > 0
    requires copied == count || |Content(d)| <= pos + copied
    ensures copied == ReadLength(d, pos, count)
    ensures copies == EntriesTouched(d, pos, ReadLength(d, pos, count))
  {
  }

  // ----- reading to the end -----

  /** A read never needs more copies than the ring has entries. */
  lemma TouchedAtMostAll(d: Device, pos: nat, count: nat)
    requires WellFormed(d)
    ensures EntriesTouched(d, pos, ReadLength(d, pos, count)) <= 10
  {
    var n := ReadLength(d, pos, count);
    if n > 0 {
      SearchIsExact(d, pos);
      SearchIsExact(d, pos + n - 1);
    }
  }

  /** What reads of at most `chunk` bytes, one after the other until one returns 0, deliver from `pos`. */
  function ReadAll(d: Device, pos: nat, chunk: nat): seq<byte>
    requires chunk > 0
    decreases |Content(d)| - pos
  {
    var (next, reply) := ReadSpec(d, pos, chunk, ReadFaults(false, CAPACITY));
    if reply.ret <= 0 || next <= pos then [] else reply.data + ReadAll(d, next, chunk)
  }

  lemma ReadAllNext(d: Device, pos: nat, chunk: nat)
    requires WellFormed(d) && chunk > 0
    ensures var n := ReadLength(d, pos, chunk);
            ReadAll(d, pos, chunk) == if n == 0 then [] else Content(d)[pos..pos + n] + ReadAll(d, pos + n, chunk)
  {
    hide EntriesTouched, Content;
    TouchedAtMostAll(d, pos, chunk);
  }

  /** Read to the end in chunks of any size and all of the rest arrives. */
  lemma {:induction false} ReadAllDelivers(d: Device, pos: nat, chunk: nat)
    requires WellFormed(d) && chunk > 0
    ensures ReadAll(d, pos, chunk) == if pos <= |Content(d)| then Content(d)[pos..] else []
    decreases |Content(d)| - pos
  {
    hide ReadAll, Content;
    ReadAllNext(d, pos, chunk);
    var n := ReadLength(d, pos, chunk);
    if n > 0 {
      ReadAllDelivers(d, pos + n, chunk);
      assert Content(d)[pos..] == Content(d)[pos..pos + n] + Content(d)[pos + n..];
    }
  }

  /** SEEK_END minus k, then reads to the end: the last k bytes of the content. */
  lemma SeekEndThenReadAll(d: Device, pos: nat, k: nat, chunk: nat)
    requires WellFormed(d) && k <= |Content(d)| && chunk > 0
    ensures var (p, r) := LlseekSpec(d, pos, -(k as int), SEEK_END, false);
            && r == p == |Content(d)| - k
            && ReadAll(d, p, chunk) == Content(d)[|Content(d)| - k..]
  {
    ReadAllDelivers(d, |Content(d)| - k, chunk);
  }

  /** An accepted SEEKTO, then reads to the end: the named command from the offset on, and all later ones. */
  lemma SeekToThenReadAll(d: Device, s: SeekTo, pos: nat, chunk: nat)
    requires WellFormed(d) && chunk > 0
    requires s.writeCmd < |Ring(d)| && s.writeCmdOffset < |Ring(d)[s.writeCmd]|
    ensures var (p, r) := IoctlSpec(d, pos, IOCSEEKTO, Some(s), false);
            && r == 0
            && ReadAll(d, p, chunk) == Ring(d)[s.writeCmd][s.writeCmdOffset..] + Flatten(Ring(d)[s.writeCmd + 1..])
  {
    hide ReadAll, WellFormed, Locate;
    SeekThenSearch(d, s);
    ReadAllDelivers(d, SeekPosition(d, s).value, chunk);
    FlattenFrom(Ring(d), s.writeCmd, s.writeCmdOffset);
  }

  /** From a byte of a block to the end of them all: the rest of the block and the later blocks. */
  lemma FlattenFrom(parts: seq<seq<byte>>, i: nat, o: nat)
    requires i < |parts| && o <= |parts[i]|
    ensures |Flatten(parts[..i])| + o <= |Flatten(parts)|
    ensures Flatten(parts)[|Flatten(parts[..i])| + o..] == parts[i][o..] + Flatten(parts[i + 1..])
  {
    hide Flatten;
    var before, c, rest := parts[..i], parts[i], parts[i + 1..];
    assert parts == before + ([c] + rest);
    FlattenAppend(before, [c] + rest);
    FlattenCons(c, rest);
  }
}
