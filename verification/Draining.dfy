/**
  The rounds of the write loop, one command each, against the cut of all pending bytes at once.
 */
module Draining {
  import opened Lines
  import opened DeviceSpec

  /** The device after its first `n` pending bytes have been stored as one command. */
  function Taken(d: Device, n: nat): Device
    requires n <= |d.pending|
  {
    Device(d.stored + [d.pending[..n]], d.pending[n..])
  }

  /** The device after one round has moved the first command. */
  function OneTaken(d: Device): Device
    requires FirstNewline(d.pending) < |d.pending|
  {
    Taken(d, FirstNewline(d.pending) + 1)
  }

  lemma DrainNothing(d: Device, mallocs: nat)
    requires FirstNewline(d.pending) == |d.pending|
    ensures Drains(d, mallocs) && Drain(d, mallocs) == d && ScanCost(d, mallocs) == |d.pending|
  {
    assert d.stored + [] == d.stored;
  }

  /** With no memory left, a command that is there stays. */
  lemma DrainBlocked(d: Device)
    requires FirstNewline(d.pending) < |d.pending|
    ensures !Drains(d, 0) && Drain(d, 0) == d && ScanCost(d, 0) == FirstNewline(d.pending) + 1
  {
    var cs := Commands(d.pending);
    CutRebuilds(d.pending);
    assert cs[..0] == [] && cs[0..] == cs && d.stored + [] == d.stored;
    assert cs[..1] == [cs[0]];
    FlattenOne(cs[0]);
  }

  lemma ConsSlices<T>(c: T, rest: seq<T>, k: nat)
    requires 0 < k <= |rest| + 1
    ensures ([c] + rest)[..k] == [c] + rest[..k - 1]
    ensures ([c] + rest)[k..] == rest[k - 1..]
  {
  }

  /** One round and then the rest is all of it. */
  lemma DrainOne(d: Device, mallocs: nat)
    requires FirstNewline(d.pending) < |d.pending| && mallocs > 0
    ensures Drains(d, mallocs) == Drains(OneTaken(d), mallocs - 1)
    ensures Drain(d, mallocs) == Drain(OneTaken(d), mallocs - 1)
  {
    var n := FirstNewline(d.pending) + 1;
    var c, rest := d.pending[..n], Commands(d.pending[n..]);
    assert Commands(d.pending) == [c] + rest && Tail(d.pending) == Tail(d.pending[n..]);
    if |rest| < mallocs {
      ConcatAssoc(d.stored, [c], rest);
    } else {
      ConsSlices(c, rest, mallocs);
      ConcatAssoc(d.stored, [c], rest[..mallocs - 1]);
    }
  }

  lemma ScanCostOne(d: Device, mallocs: nat)
    requires FirstNewline(d.pending) < |d.pending| && mallocs > 0
    ensures ScanCost(d, mallocs) == FirstNewline(d.pending) + 1 + ScanCost(OneTaken(d), mallocs - 1)
  {
    var n := FirstNewline(d.pending) + 1;
    var c, rest := d.pending[..n], Commands(d.pending[n..]);
    assert Commands(d.pending) == [c] + rest;
    if |rest| >= mallocs {
      ConsSlices(c, rest, mallocs + 1);
      FlattenCons(c, rest[..mallocs]);
    }
  }

  /** One round of the loop: what is left to do after it, the outcome of that, and the scan still to come. */
  lemma Round(d: Device, mallocs: nat)
    requires FirstNewline(d.pending) < |d.pending|
    ensures IsCommand(d.pending[..FirstNewline(d.pending) + 1])
    ensures mallocs == 0 ==>
              !Drains(d, mallocs) && Drain(d, mallocs) == d && ScanCost(d, mallocs) == FirstNewline(d.pending) + 1
    ensures mallocs > 0 ==>
              && Drains(d, mallocs) == Drains(Taken(d, FirstNewline(d.pending) + 1), mallocs - 1)
              && Drain(d, mallocs) == Drain(Taken(d, FirstNewline(d.pending) + 1), mallocs - 1)
              && ScanCost(d, mallocs)
                 == FirstNewline(d.pending) + 1 + ScanCost(Taken(d, FirstNewline(d.pending) + 1), mallocs - 1)
              && |Taken(d, FirstNewline(d.pending) + 1).pending| < |d.pending|
  {
    CutCommand(d.pending, FirstNewline(d.pending));
    if mallocs == 0 {
      DrainBlocked(d);
    } else {
      DrainOne(d, mallocs);
      ScanCostOne(d, mallocs);
    }
  }
}
