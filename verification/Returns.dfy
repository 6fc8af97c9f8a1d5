/**
  What the return value of each call tells its caller, in the numbers a C program sees: 12 is ENOMEM,
  14 EFAULT, 22 EINVAL, 25 ENOTTY and 512 ERESTARTSYS.
 */
module Returns {
  import opened Lines
  import opened Wrappers
  import opened FlatIndex
  import opened DeviceSpec

  /** 0 only for an empty buffer, the count only for a write that is in and cut to its last command. */
  lemma WriteReturns(d: Device, buf: seq<byte>, f: WriteFaults)
    ensures var r := WriteSpec(d, buf, f).1;
            var cut := |Commands(d.pending + buf)| <= f.mallocs;
            && (r == 0 <==> buf == [])
            && (r > 0 <==> buf != [] && !f.interrupted && !f.growFails && !f.copyFails && cut)
            && (r > 0 ==> r == |buf|)
            && (r == -512 <==> buf != [] && f.interrupted)
            && (r == -12 <==> buf != [] && !f.interrupted && (f.growFails || (!f.copyFails && !cut)))
            && (r == -14 <==> buf != [] && !f.interrupted && !f.growFails && f.copyFails)
  {
  }

  /** 0 means that nothing was asked for or that the position is at the end or past it, and nothing else. */
  lemma ReadReturns(d: Device, pos: nat, count: nat, f: ReadFaults)
    ensures var (after, reply) := ReadSpec(d, pos, count, f);
            var faults := EntriesTouched(d, pos, ReadLength(d, pos, count)) > f.copies;
            && (reply.ret == 0 <==> count == 0 || (!f.interrupted && |Content(d)| <= pos))
            && (reply.ret < 0 <==> count > 0 && (f.interrupted || faults))
            && (reply.ret == -512 <==> count > 0 && f.interrupted)
            && (reply.ret == -14 <==> count > 0 && !f.interrupted && faults)
            && after == pos + |reply.data|
            && (reply.ret >= 0 ==> reply.ret == |reply.data| <= count)
            && (reply.ret < 0 ==> reply.data == [])
  {
    hide Content, Locate, RingSizes;
  }

  /** 0 is success and never anything else; every failure is negative and leaves the position alone. */
  lemma IoctlReturns(d: Device, pos: nat, cmd: nat, arg: Option<SeekTo>, interrupted: bool)
    ensures var (after, r) := IoctlSpec(d, pos, cmd, arg, interrupted);
            var known := cmd == 3 * 0x4000_0000 + 8 * 0x1_0000 + 0x16 * 0x100 + 1;
            var held := arg.Some? && arg.value.writeCmd < |Ring(d)|
                           && arg.value.writeCmdOffset < |Ring(d)[arg.value.writeCmd]|;
            && r <= 0
            && (r == 0 <==> arg.Some? && !interrupted && known && held)
            && (r == 0 ==> after == |Flatten(Ring(d)[..arg.value.writeCmd])| + arg.value.writeCmdOffset)
            && (r < 0 ==> after == pos)
            && (r == -14 <==> arg.None?)
            && (r == -512 <==> arg.Some? && interrupted)
            && (r == -25 <==> arg.Some? && !interrupted && !known)
            && (r == -22 <==> arg.Some? && !interrupted && known && !held)
  {
  }

  /** Where a seek aims: from the start, from the position, or from the end of the content. */
  function Target(d: Device, pos: nat, offset: int, whence: int): int {
    if whence == 0 then offset else if whence == 1 then pos + offset else |Content(d)| + offset
  }

  /** Not negative exactly when the seek has moved, and then it is the new position. */
  lemma LlseekReturns(d: Device, pos: nat, offset: int, whence: int, interrupted: bool)
    ensures var (after, r) := LlseekSpec(d, pos, offset, whence, interrupted);
            var target := Target(d, pos, offset, whence);
            && (r >= 0 <==> !interrupted && 0 <= whence <= 2 && target >= 0)
            && (r >= 0 ==> after == r == target)
            && (r < 0 ==> after == pos)
            && (r == -512 <==> interrupted)
            && (r == -22 <==> !interrupted && (!(0 <= whence <= 2) || target < 0))
  {
  }
}
