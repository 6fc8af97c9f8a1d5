/**
  What every write, and every run of calls, guarantees of the device.
 */
module WholeRun {
  import opened Lines
  import opened Wrappers
  import opened FlatIndex
  import opened CircularBuffer
  import opened DeviceSpec
  import opened Draining

  // ----- one write -----

  /** Conservation: a write adds its bytes to the stream at the end, or changes nothing at all. */
  lemma WriteConserves(d: Device, buf: seq<byte>, f: WriteFaults)
    requires WellFormed(d)
    ensures var (after, r) := WriteSpec(d, buf, f);
            && WellFormed(after)
            && d.stored <= after.stored
            && Stream(after) == Stream(d) + (if Accepts(buf, f) then buf else [])
            && (!Accepts(buf, f) ==> after == d)
            && (r == |buf| <==> buf == [] || (Accepts(buf, f) && |Commands(d.pending + buf)| <= f.mallocs))
  {
    if Accepts(buf, f) {
      StoreConserves(d, buf, f.mallocs);
    }
  }

  lemma StoreConserves(d: Device, buf: seq<byte>, mallocs: nat)
    requires WellFormed(d)
    ensures var after := StoreSpec(d, buf, mallocs).0;
            && WellFormed(after)
            && d.stored <= after.stored
            && Stream(after) == Stream(d) + buf
  {
    DrainConserves(Device(d.stored, d.pending + buf), mallocs);
    ConcatAssoc(Flatten(d.stored), d.pending, buf);
  }

  lemma DrainConserves(d: Device, mallocs: nat)
    requires WellFormed(d)
    ensures var after := Drain(d, mallocs);
            && WellFormed(after)
            && d.stored <= after.stored
            && Stream(after) == Stream(d)
  {
    var cs, t := Commands(d.pending), Tail(d.pending);
    var k := if |cs| <= mallocs then |cs| else mallocs;
    var kept, left := cs[..k], cs[k..];
    CutRebuilds(d.pending);
    CutShape(d.pending);
    assert cs == kept + left;
    AllCommandsAppend(kept, left);
    AllCommandsAppend(d.stored, kept);
    FlattenAppend(kept, left);
    FlattenAppend(d.stored, kept);
    ConcatAssoc(Flatten(kept), Flatten(left), t);
    ConcatAssoc(Flatten(d.stored), Flatten(kept), Flatten(left) + t);
    assert k == |cs| ==> kept == cs && Flatten(left) + t == t;
  }

  /** Every single round of the write loop keeps the stream, so it holds wherever the loop is left. */
  lemma RoundConserves(d: Device, n: nat)
    requires n <= |d.pending|
    ensures Stream(Taken(d, n)) == Stream(d)
  {
    FlattenAppend(d.stored, [d.pending[..n]]);
    FlattenOne(d.pending[..n]);
    ConcatAssoc(Flatten(d.stored), d.pending[..n], d.pending[n..]);
    assert d.pending == d.pending[..n] + d.pending[n..];
  }

  /** Nothing stored is ever out of step with the stream; what is missing is still in pending. */
  lemma StoredIsPrefix(d: Device)
    requires WellFormed(d)
    ensures Commands(Stream(d)) == d.stored + Commands(d.pending)
    ensures Tail(Stream(d)) == Tail(d.pending)
  {
    CutAfterCommands(d.stored, d.pending);
  }

  /**
    The device is exactly the cut of its stream if and only if no complete command is waiting in
    pending.  Only a failed command allocation leaves one there.
   */
  lemma ExactIff(d: Device)
    requires WellFormed(d)
    ensures NEWLINE !in d.pending <==> d == Device(Commands(Stream(d)), Tail(Stream(d)))
  {
    StoredIsPrefix(d);
    CutShape(d.pending);
    if NEWLINE !in d.pending {
      CutTailOnly(d.pending);
    }
  }

  /** A write that returns its count leaves the device exact, whatever failed before it. */
  lemma SuccessIsExact(d: Device, buf: seq<byte>, f: WriteFaults)
    requires WellFormed(d) && buf != [] && WriteSpec(d, buf, f).1 == |buf|
    ensures NEWLINE !in WriteSpec(d, buf, f).0.pending
    ensures WriteSpec(d, buf, f).0 == Device(Commands(Stream(d) + buf), Tail(Stream(d) + buf))
  {
    WriteConserves(d, buf, f);
    CutShape(d.pending + buf);
    ExactIff(WriteSpec(d, buf, f).0);
  }

  /** An accepted write is out of memory exactly when it leaves a complete command in pending. */
  lemma OutOfMemoryIff(d: Device, buf: seq<byte>, f: WriteFaults)
    requires WellFormed(d) && Accepts(buf, f)
    ensures WriteSpec(d, buf, f).1 == -ENOMEM <==> NEWLINE in WriteSpec(d, buf, f).0.pending
    ensures WriteSpec(d, buf, f).1 in {-ENOMEM, |buf|}
  {
    var all := d.pending + buf;
    var cs := Commands(all);
    CutShape(all);
    if |cs| > f.mallocs {
      var c := cs[f.mallocs];
      var rest := cs[f.mallocs..];
      assert rest == [c] + rest[1..];
      FlattenCons(c, rest[1..]);
      assert (Flatten(rest) + Tail(all))[|c| - 1] == c[|c| - 1] == NEWLINE;
    }
  }

  /**
    A write that fails leaves the device as it was if and only if it failed before its bytes were in:
    once they are, running out of memory does not take them out again.
   */
  lemma UnchangedIff(d: Device, buf: seq<byte>, f: WriteFaults)
    requires WellFormed(d)
    ensures WriteSpec(d, buf, f).0 == d <==> !Accepts(buf, f)
  {
    WriteConserves(d, buf, f);
  }

  /** So a caller who repeats a write that reported -ENOMEM from the loop stores its bytes twice. */
  lemma RetryStoresTwice(d: Device, buf: seq<byte>, f: WriteFaults, again: WriteFaults)
    requires WellFormed(d) && Accepts(buf, f) && WriteSpec(d, buf, f).1 == -ENOMEM
    requires WriteSpec(WriteSpec(d, buf, f).0, buf, again).1 == |buf|
    ensures var after := WriteSpec(WriteSpec(d, buf, f).0, buf, again).0;
            after == Device(Commands(Stream(d) + buf + buf), Tail(Stream(d) + buf + buf))
  {
    WriteConserves(d, buf, f);
    SuccessIsExact(WriteSpec(d, buf, f).0, buf, again);
  }

  /** Dropping the first `k` blocks drops their bytes from the front. */
  lemma FlattenDrop(parts: seq<seq<byte>>, k: nat)
    requires k <= |parts|
    ensures |Flatten(parts[..k])| <= |Flatten(parts)|
    ensures Flatten(parts[k..]) == Flatten(parts)[|Flatten(parts[..k])|..]
  {
    assert parts == parts[..k] + parts[k..];
    FlattenAppend(parts[..k], parts[k..]);
  }

  /** The commands a write adds to those stored. */
  function Added(d: Device, after: Device): seq<seq<byte>>
    requires d.stored <= after.stored
  {
    after.stored[|d.stored|..]
  }

  /**
    Eviction.  Of the old ring followed by the commands this write stored, exactly the oldest beyond
    ten are gone (commands of this same write among them), and what position p reads now is what
    position p + e read in the old content followed by the new commands, e being the evicted bytes.
   */
  lemma EvictionShift(d: Device, after: Device, all: seq<seq<byte>>, k: nat)
    requires d.stored <= after.stored
    requires all == Ring(d) + Added(d, after)
    requires k == if |all| <= 10 then 0 else |all| - 10
    ensures Ring(after) == all[k..]
    ensures Flatten(all) == Content(d) + Flatten(Added(d, after))
    ensures |Flatten(all[..k])| <= |Flatten(all)|
    ensures Content(after) == Flatten(all)[|Flatten(all[..k])|..]
  {
    var added := Added(d, after);
    assert after.stored == d.stored + added;
    LastNAppend(CAPACITY, d.stored, added);
    assert Ring(after) == LastN(CAPACITY, all) == all[k..];
    FlattenAppend(Ring(d), added);
    FlattenDrop(all, k);
  }

  /** A write stores an initial run of the complete commands in pending and its own bytes; all of them if it succeeds. */
  lemma WriteAdds(d: Device, buf: seq<byte>, f: WriteFaults)
    requires WellFormed(d)
    ensures var (after, r) := WriteSpec(d, buf, f);
            && d.stored <= after.stored
            && Added(d, after) <= Commands(d.pending + buf)
            && (buf != [] && r == |buf| ==>
                  Added(d, after) == Commands(d.pending + buf) && |Added(d, after)| == multiset(d.pending + buf)[NEWLINE])
  {
    WriteConserves(d, buf, f);
    CutCountsNewlines(d.pending + buf);
  }

  // ----- runs -----

  /** Call `n` of a run meets the world that the calls before it leave. */
  lemma RunNext(w: World, calls: seq<Call>, n: nat)
    requires n < |calls|
    ensures (After(w, calls[..n + 1]), Replies(w, calls)[n]) == Apply(After(w, calls[..n]), calls[n])
  {
    assert calls[..n + 1][..n] == calls[..n];
  }

  /** The bytes of the writes of a run that reached the device. */
  function Accepted(calls: seq<Call>): seq<byte> {
    if calls == [] then []
    else
      var n := |calls| - 1;
      Accepted(calls[..n]) + AcceptedBy(calls[n])
  }

  function AcceptedBy(c: Call): seq<byte> {
    if c.Write? && Accepts(c.buf, c.wf) then c.buf else []
  }

  /** In every run, through every failure, the stream is what was accepted and the ring is cut from it. */
  lemma {:induction false} RunConserves(calls: seq<Call>)
    ensures var d := After(START, calls).device;
            && WellFormed(d)
            && Stream(d) == Accepted(calls)
            && d.stored <= Commands(Accepted(calls))
  {
    var d := After(START, calls).device;
    if calls == [] {
      assert Stream(d) == [];
    } else {
      var n := |calls| - 1;
      RunConserves(calls[..n]);
      var before := After(START, calls[..n]);
      match calls[n] {
        case Write(buf, f) => WriteConserves(before.device, buf, f);
        case _ => assert d == before.device;
      }
    }
    StoredIsPrefix(d);
  }

  /**
    The last ten lines.  After any run that ends in a write returning its full count, the ring holds
    exactly the last ten commands of everything accepted, oldest first, and pending is exactly what
    follows the last newline; earlier calls may have failed in any way.
   */
  lemma LastTenLines(calls: seq<Call>, buf: seq<byte>, f: WriteFaults)
    requires buf != []
    requires Replies(START, calls + [Write(buf, f)])[|calls|].ret == |buf|
    ensures var run := calls + [Write(buf, f)];
            var d := After(START, run).device;
            && d.stored == Commands(Accepted(run))
            && Ring(d) == LastN(10, Commands(Accepted(run)))
            && d.pending == Tail(Accepted(run))
  {
    var run := calls + [Write(buf, f)];
    assert run[..|calls|] == calls;
    RunConserves(run);
    RunConserves(calls);
    SuccessIsExact(After(START, calls).device, buf, f);
    ExactIff(After(START, run).device);
  }

  /** Every call of the run is a write that returns its full count. */
  ghost predicate AllWritesComplete(w: World, calls: seq<Call>) {
    forall i :: 0 <= i < |calls| ==> calls[i].Write? && Replies(w, calls)[i].ret == |calls[i].buf|
  }

  lemma CompletePrefix(w: World, calls: seq<Call>)
    requires calls != [] && AllWritesComplete(w, calls)
    ensures AllWritesComplete(w, calls[..|calls| - 1])
  {
    var short := calls[..|calls| - 1];
    forall i | 0 <= i < |short| ensures short[i].Write? && Replies(w, short)[i].ret == |short[i].buf| {
      assert short[..i] == calls[..i];
      assert Replies(w, short)[i] == Replies(w, calls)[i];
    }
  }

  /** The device after all of `s` has been written to `d` successfully. */
  function Extended(d: Device, s: seq<byte>): Device {
    if s == [] then d else Device(d.stored + Commands(d.pending + s), Tail(d.pending + s))
  }

  /** Writing b after a stores what writing a + b at once stores. */
  lemma ExtendTwice(d: Device, a: seq<byte>, b: seq<byte>)
    ensures Extended(Extended(d, a), b) == Extended(d, a + b)
  {
    if a == [] {
      assert a + b == b;
    } else if b == [] {
      assert a + b == a;
    } else {
      ConcatAssoc(d.pending, a, b);
      CutAppend(d.pending + a, b);
      ConcatAssoc(d.stored, Commands(d.pending + a), Commands(Tail(d.pending + a) + b));
    }
  }

  lemma CompleteWriteExtends(d: Device, buf: seq<byte>, f: WriteFaults)
    requires WellFormed(d) && WriteSpec(d, buf, f).1 == |buf|
    ensures WriteSpec(d, buf, f).0 == Extended(d, buf)
    ensures WellFormed(Extended(d, buf))
    ensures AcceptedBy(Write(buf, f)) == buf
  {
    WriteConserves(d, buf, f);
  }

  /** However a stream is cut into successful writes, the device ends up the same function of it. */
  lemma {:induction false} ChunksAddUp(w: World, calls: seq<Call>)
    requires WellFormed(w.device) && AllWritesComplete(w, calls)
    ensures After(w, calls).device == Extended(w.device, Accepted(calls))
    ensures WellFormed(After(w, calls).device)
  {
    if calls != [] {
      var n := |calls| - 1;
      CompletePrefix(w, calls);
      ChunksAddUp(w, calls[..n]);
      assert calls[n].Write? && Replies(w, calls)[n].ret == |calls[n].buf|;
      CompleteWriteExtends(After(w, calls[..n]).device, calls[n].buf, calls[n].wf);
      ExtendTwice(w.device, Accepted(calls[..n]), calls[n].buf);
    }
  }

  /** Chunking independence: two ways of cutting the same bytes into successful writes agree. */
  lemma ChunkingIndependence(w: World, calls: seq<Call>, others: seq<Call>)
    requires WellFormed(w.device)
    requires AllWritesComplete(w, calls) && AllWritesComplete(w, others)
    requires Accepted(calls) == Accepted(others)
    ensures After(w, calls).device == After(w, others).device
  {
    ChunksAddUp(w, calls);
    ChunksAddUp(w, others);
  }
}
