/**
  Byte streams cut at newlines.  This is the reference reading of what the driver stores: a stream
  is its newline-terminated commands followed by an unterminated tail.
 */
module Lines {
  newtype byte = x: int | 0 <= x < 256

  const NEWLINE: byte := 10

  function Flatten(parts: seq<seq<byte>>): seq<byte> {
    if parts == [] then [] else parts[0] + Flatten(parts[1..])
  }

  /** A complete command: its only newline is its last byte. */
  ghost predicate IsCommand(c: seq<byte>) {
    |c| >= 1 && c[|c| - 1] == NEWLINE && forall k :: 0 <= k < |c| - 1 ==> c[k] != NEWLINE
  }

  ghost predicate AllCommands(cs: seq<seq<byte>>) {
    forall i :: 0 <= i < |cs| ==> IsCommand(cs[i])
  }

  /** Position of the first newline, or the length when there is none. */
  function FirstNewline(s: seq<byte>): (i: nat)
    ensures i <= |s|
    ensures forall k :: 0 <= k < i ==> s[k] != NEWLINE
    ensures i < |s| ==> s[i] == NEWLINE
  {
    if s == [] || s[0] == NEWLINE then 0 else 1 + FirstNewline(s[1..])
  }

  lemma FirstNewlineUnique(s: seq<byte>, i: nat)
    requires i <= |s| && forall k :: 0 <= k < i ==> s[k] != NEWLINE
    requires i < |s| ==> s[i] == NEWLINE
    ensures FirstNewline(s) == i
  {
    var j := FirstNewline(s);
    assert !(j < i) && !(i < j);
  }

  function Commands(s: seq<byte>): seq<seq<byte>>
    decreases |s|
  {
    var i := FirstNewline(s);
    if i == |s| then [] else [s[..i + 1]] + Commands(s[i + 1..])
  }

  function Tail(s: seq<byte>): seq<byte>
    decreases |s|
  {
    var i := FirstNewline(s);
    if i == |s| then s else Tail(s[i + 1..])
  }

  lemma {:induction false} FlattenAppend(a: seq<seq<byte>>, b: seq<seq<byte>>)
    ensures Flatten(a + b) == Flatten(a) + Flatten(b)
  {
    if a == [] {
      assert a + b == b;
    } else {
      assert (a + b)[1..] == a[1..] + b;
      FlattenAppend(a[1..], b);
    }
  }

  lemma FlattenOne(c: seq<byte>)
    ensures Flatten([c]) == c
  {
    assert [c][1..] == [];
  }

  lemma AllCommandsAppend(a: seq<seq<byte>>, b: seq<seq<byte>>)
    ensures AllCommands(a + b) <==> AllCommands(a) && AllCommands(b)
  {
    var c := a + b;
    assert forall i :: 0 <= i < |a| ==> a[i] == c[i];
    assert forall i :: 0 <= i < |b| ==> b[i] == c[|a| + i];
  }

  lemma FlattenCons(c: seq<byte>, cs: seq<seq<byte>>)
    ensures Flatten([c] + cs) == c + Flatten(cs)
  {
    FlattenAppend([c], cs);
    FlattenOne(c);
  }

  /** Nothing is lost by the cut. */
  lemma {:induction false} CutRebuilds(s: seq<byte>)
    ensures Flatten(Commands(s)) + Tail(s) == s
    decreases |s|
  {
    var i := FirstNewline(s);
    if i < |s| {
      var c, rest := s[..i + 1], s[i + 1..];
      assert Commands(s) == [c] + Commands(rest) && Tail(s) == Tail(rest);
      hide Flatten, Commands, Tail, FirstNewline;
      CutRebuilds(rest);
      FlattenCons(c, Commands(rest));
      ConcatAssoc(c, Flatten(Commands(rest)), Tail(rest));
      assert c + rest == s;
    }
  }

  /** Every piece of the cut is a command, and the tail holds no newline. */
  lemma {:induction false} CutShape(s: seq<byte>)
    ensures AllCommands(Commands(s))
    ensures forall k :: 0 <= k < |Commands(s)| ==> Commands(s)[k][|Commands(s)[k]| - 1] as int == '\n' as int
    ensures forall k :: 0 <= k < |Tail(s)| ==> Tail(s)[k] as int != '\n' as int
    decreases |s|
  {
    var i := FirstNewline(s);
    if i < |s| {
      var c, rest := s[..i + 1], s[i + 1..];
      CutCommand(s, i);
      CutShape(rest);
      AllCommandsAppend([c], Commands(rest));
    }
  }

  lemma ConcatAssoc<T>(a: seq<T>, b: seq<T>, c: seq<T>)
    ensures (a + b) + c == a + (b + c)
  {
  }

  lemma SliceNext<T>(s: seq<T>, from: nat, m: nat, n: nat)
    requires from + m + n <= |s|
    ensures s[from..from + m] + s[from + m..from + m + n] == s[from..from + m + n]
  {
  }

  lemma CutCommandFirst(c: seq<byte>, t: seq<byte>)
    requires IsCommand(c)
    ensures Commands(c + t) == [c] + Commands(t) && Tail(c + t) == Tail(t)
  {
    var s := c + t;
    FirstNewlineUnique(s, |c| - 1);
    assert s[..|c|] == c && s[|c|..] == t;
  }

  /** Leading commands are cut off whole, whatever follows them. */
  lemma {:induction false} CutAfterCommands(cs: seq<seq<byte>>, t: seq<byte>)
    requires AllCommands(cs)
    ensures Commands(Flatten(cs) + t) == cs + Commands(t)
    ensures Tail(Flatten(cs) + t) == Tail(t)
  {
    if cs == [] {
      assert Flatten(cs) + t == t;
    } else {
      var c, more := cs[0], cs[1..];
      assert cs == [c] + more;
      AllCommandsAppend([c], more);
      CutAfterCommands(more, t);
      ConcatAssoc(c, Flatten(more), t);
      CutCommandFirst(c, Flatten(more) + t);
      ConcatAssoc([c], more, Commands(t));
    }
  }

  /** The first newline ends the first command. */
  lemma CutCommand(s: seq<byte>, i: nat)
    requires i < |s| && s[i] == NEWLINE && forall k :: 0 <= k < i ==> s[k] != NEWLINE
    ensures IsCommand(s[..i + 1])
  {
  }

  lemma CutTailOnly(t: seq<byte>)
    requires NEWLINE !in t
    ensures Commands(t) == [] && Tail(t) == t
  {
    FirstNewlineUnique(t, |t|);
  }

  /** The cut is the only way to write a stream as commands and a newline-free tail. */
  lemma CutUnique(cs: seq<seq<byte>>, t: seq<byte>)
    requires AllCommands(cs) && NEWLINE !in t
    ensures Commands(Flatten(cs) + t) == cs
    ensures Tail(Flatten(cs) + t) == t
  {
    CutAfterCommands(cs, t);
    CutTailOnly(t);
  }

  /** Cutting a stream in two steps: only the tail of the first step is looked at again. */
  lemma CutAppend(a: seq<byte>, b: seq<byte>)
    ensures Commands(a + b) == Commands(a) + Commands(Tail(a) + b)
    ensures Tail(a + b) == Tail(Tail(a) + b)
  {
    CutRebuilds(a);
    CutShape(a);
    assert a + b == Flatten(Commands(a)) + (Tail(a) + b);
    CutAfterCommands(Commands(a), Tail(a) + b);
  }

  /** One command per newline. */
  lemma {:induction false} CutCountsNewlines(s: seq<byte>)
    ensures |Commands(s)| == multiset(s)[NEWLINE]
    decreases |s|
  {
    var i := FirstNewline(s);
    if i == |s| {
      assert s[..i] == s;
    } else {
      CutCountsNewlines(s[i + 1..]);
      assert s == s[..i] + [NEWLINE] + s[i + 1..];
      assert multiset(s[..i])[NEWLINE] == 0;
    }
  }

  /** The last `n` elements, or all of them when there are fewer. */
  function LastN<T>(n: nat, s: seq<T>): (r: seq<T>)
    ensures |r| == if |s| <= n then |s| else n
    ensures r == s[|s| - |r|..]
  {
    if |s| <= n then s else s[|s| - n..]
  }

  /** A window of size n over a + b needs only the window over a. */
  lemma LastNAppend<T>(n: nat, a: seq<T>, b: seq<T>)
    ensures LastN(n, LastN(n, a) + b) == LastN(n, a + b)
  {
    var d := |a| - |LastN(n, a)|;
    assert LastN(n, a) + b == (a + b)[d..];
  }
}
