/**
  The kernel services the driver calls.  The heap maps the address of every block allocated and not
  yet freed to the bytes of the block.  Every access asks for its block to be in the map, so a verified
  caller never touches a freed block and never frees one twice; a freed address may be handed out again.
  Whether an allocation or a user copy succeeds is the caller's parameter: nothing is assumed of it.
 */
module KernelHeap {
  import opened Lines

  type Ptr = nat
  const NULL: Ptr := 0

  class Heap {
    var mem: map<Ptr, seq<byte>>

    ghost predicate Valid()
      reads this
    {
      NULL !in mem
    }

    constructor ()
      ensures Valid() && mem == map[]
    {
      mem := map[];
    }

    method Kmalloc(n: nat, succeeds: bool) returns (p: Ptr)
      requires Valid()
      modifies this
      ensures Valid()
      ensures !succeeds ==> p == NULL && mem == old(mem)
      ensures succeeds ==>
                && p != NULL && p !in old(mem)
                && p in mem && |mem[p]| == n && mem == old(mem)[p := mem[p]]
    {
      if !succeeds {
        return NULL;
      }
      FreshAddress(mem.Keys);
      p :| p != NULL && p !in mem;
      mem := mem[p := seq(n, _ => 0)];
    }

    /** Keeps the block when it is large enough and the allocator likes, and moves it otherwise. */
    method Krealloc(p: Ptr, n: nat, succeeds: bool) returns (q: Ptr)
      requires Valid() && n > 0
      requires p != NULL ==> p in mem
      modifies this
      ensures Valid()
      ensures !succeeds ==> q == NULL && mem == old(mem)
      ensures succeeds ==>
                && q != NULL && (q == p || q !in old(mem))
                && q in mem && |mem[q]| >= n && mem == (old(mem) - {p})[q := mem[q]]
      ensures succeeds && p != NULL ==>
                forall i :: 0 <= i < n && i < |old(mem)[p]| ==> mem[q][i] == old(mem)[p][i]
    {
      if !succeeds {
        return NULL;
      }
      if p != NULL && n <= |mem[p]| {
        if * {
          assert mem == (mem - {p})[p := mem[p]];
          return p;
        }
      }
      var kept := if p == NULL then [] else if n <= |mem[p]| then mem[p][..n] else mem[p];
      FreshAddress(mem.Keys);
      q :| q != NULL && q !in mem;
      mem := (mem - {p})[q := kept + seq(n - |kept|, _ => 0)];
    }

    method Kfree(p: Ptr)
      requires Valid() && p in mem
      modifies this
      ensures Valid() && mem == old(mem) - {p}
    {
      mem := mem - {p};
    }

    /** Returns the number of bytes it could not copy; on a fault an initial part may have arrived. */
    method CopyFromUser(dst: Ptr, at: nat, user: seq<byte>, faults: bool) returns (left: nat)
      requires Valid() && dst in mem && at + |user| <= |mem[dst]| && |user| > 0
      modifies this
      ensures Valid()
      ensures left > 0 <==> faults
      ensures left <= |user|
      ensures var n := |user| - left; var block := old(mem)[dst];
              mem == old(mem)[dst := block[..at] + user[..n] + block[at + n..]]
    {
      var n := |user|;
      if faults {
        n :| 0 <= n < |user|;
      }
      var block := mem[dst];
      mem := mem[dst := block[..at] + user[..n] + block[at + n..]];
      left := |user| - n;
    }

    /** As `CopyFromUser`, the other way; only the `n` bytes at `at` can change. */
    method CopyToUser(user: array<byte>, at: nat, src: Ptr, from: nat, n: nat, faults: bool) returns (left: nat)
      requires Valid() && src in mem
      requires from + n <= |mem[src]| && at + n <= user.Length && n > 0
      modifies user
      ensures left > 0 <==> faults
      ensures left <= n
      ensures user[..at] == old(user[..at]) && user[at + n..] == old(user[at + n..])
      ensures user[at..at + n - left] == mem[src][from..from + n - left]
    {
      var m := n;
      if faults {
        m :| 0 <= m < n;
      }
      forall i | 0 <= i < m {
        user[at + i] := mem[src][from + i];
      }
      left := n - m;
    }

    method Memcpy(dst: Ptr, src: Ptr, n: nat)
      requires Valid() && dst in mem && src in mem && dst != src
      requires n <= |mem[dst]| && n <= |mem[src]|
      modifies this
      ensures Valid()
      ensures mem == old(mem)[dst := old(mem)[src][..n] + old(mem)[dst][n..]]
    {
      mem := mem[dst := mem[src][..n] + mem[dst][n..]];
    }

    /** Moves `n` bytes inside one block down from `from` to its start; the ranges may overlap. */
    method Memmove(p: Ptr, from: nat, n: nat)
      requires Valid() && p in mem && from + n <= |mem[p]|
      modifies this
      ensures Valid()
      ensures mem == old(mem)[p := old(mem)[p][from..from + n] + old(mem)[p][n..]]
    {
      mem := mem[p := mem[p][from..from + n] + mem[p][n..]];
    }

    method Load(p: Ptr, i: nat) returns (b: byte)
      requires p in mem && i < |mem[p]|
      ensures b == mem[p][i]
    {
      b := mem[p][i];
    }
  }

  lemma FreshAddress(used: set<Ptr>)
    ensures exists p: Ptr :: p != NULL && p !in used
  {
    var p := 1;
    var below: set<Ptr> := {};
    while p in used
      invariant p != NULL && below <= used && forall q :: q in below ==> q < p
      decreases |used - below|
    {
      assert used - (below + {p}) < used - below;
      SmallerSet(used - (below + {p}), used - below);
      below := below + {p};
      p := p + 1;
    }
  }

  lemma SmallerSet<T>(a: set<T>, b: set<T>)
    requires a < b
    ensures |a| < |b|
  {
    assert |b - a| > 0;
    assert b == a + (b - a);
  }
}
