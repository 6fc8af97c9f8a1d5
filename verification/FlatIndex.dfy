/**
  Positions in a list of blocks laid end to end: a flat offset against a (block, offset) pair.
  Blocks are known by their sizes; a scan of the list stops at the first block of size 0.
 */
module FlatIndex {
  import opened Lines
  import opened Wrappers

  datatype Place = Place(index: nat, offset: nat)

  function Sum(sizes: seq<nat>): nat {
    if sizes == [] then 0 else sizes[0] + Sum(sizes[1..])
  }

  lemma {:induction false} SumAppend(a: seq<nat>, b: seq<nat>)
    ensures Sum(a + b) == Sum(a) + Sum(b)
  {
    if a == [] {
      assert a + b == b;
    } else {
      assert (a + b)[1..] == a[1..] + b;
      SumAppend(a[1..], b);
    }
  }

  lemma SumNext(sizes: seq<nat>, i: nat)
    requires i < |sizes|
    ensures Sum(sizes[..i + 1]) == Sum(sizes[..i]) + sizes[i]
  {
    assert sizes[..i + 1] == sizes[..i] + [sizes[i]];
    SumAppend(sizes[..i], [sizes[i]]);
    assert [sizes[i]][1..] == [];
  }

  lemma SumMonotone(sizes: seq<nat>, i: nat, j: nat)
    requires i <= j <= |sizes|
    ensures Sum(sizes[..i]) <= Sum(sizes[..j]) <= Sum(sizes)
  {
    assert sizes[..j] == sizes[..i] + sizes[i..j];
    SumAppend(sizes[..i], sizes[i..j]);
    assert sizes == sizes[..j] + sizes[j..];
    SumAppend(sizes[..j], sizes[j..]);
  }

  function Sizes(parts: seq<seq<byte>>): seq<nat> {
    seq(|parts|, i requires 0 <= i < |parts| => |parts[i]|)
  }

  lemma {:induction false} FlattenLength(parts: seq<seq<byte>>)
    ensures |Flatten(parts)| == Sum(Sizes(parts))
  {
    if parts != [] {
      FlattenLength(parts[1..]);
      assert Sizes(parts)[1..] == Sizes(parts[1..]);
    }
  }

  lemma PrefixLength(parts: seq<seq<byte>>, i: nat)
    requires i <= |parts|
    ensures |Flatten(parts[..i])| == Sum(Sizes(parts)[..i])
  {
    FlattenLength(parts[..i]);
    assert Sizes(parts[..i]) == Sizes(parts)[..i];
  }

  /** `p` is the place of flat offset `off`, and no block before it stops the scan. */
  ghost predicate IsPlace(sizes: seq<nat>, off: nat, p: Place) {
    && p.index < |sizes|
    && p.offset < sizes[p.index]
    && off == Sum(sizes[..p.index]) + p.offset
    && forall k :: 0 <= k < p.index ==> sizes[k] > 0
  }

  lemma PlaceUnique(sizes: seq<nat>, off: nat, p: Place, q: Place)
    requires IsPlace(sizes, off, p) && IsPlace(sizes, off, q)
    ensures p == q
  {
    if p.index < q.index {
      PlaceBefore(sizes, off, p, q.index);
      assert false;
    } else if q.index < p.index {
      PlaceBefore(sizes, off, q, p.index);
      assert false;
    }
  }

  lemma PlaceBefore(sizes: seq<nat>, off: nat, p: Place, j: nat)
    requires IsPlace(sizes, off, p) && p.index < j <= |sizes|
    ensures off < Sum(sizes[..j])
  {
    SumNext(sizes, p.index);
    SumMonotone(sizes, p.index + 1, j);
  }

  /** Further on in the same block. */
  lemma PlaceAhead(sizes: seq<nat>, off: nat, p: Place, n: nat)
    requires IsPlace(sizes, off, p) && p.offset + n < sizes[p.index]
    ensures IsPlace(sizes, off + n, Place(p.index, p.offset + n))
  {
  }

  /** The place a scan from the first block finds, if any. */
  function Locate(sizes: seq<nat>, off: nat): Option<Place> {
    if sizes == [] || sizes[0] == 0 then None
    else if off < sizes[0] then Some(Place(0, off))
    else
      match Locate(sizes[1..], off - sizes[0])
      case None => None
      case Some(p) => Some(Place(p.index + 1, p.offset))
  }

  /** What the scan finds is the place of the offset. */
  lemma {:induction false} LocateSound(sizes: seq<nat>, off: nat)
    ensures Locate(sizes, off).Some? ==> IsPlace(sizes, off, Locate(sizes, off).value)
  {
    if sizes != [] && 0 < sizes[0] <= off {
      var rest := sizes[1..];
      LocateSound(rest, off - sizes[0]);
      if Locate(rest, off - sizes[0]).Some? {
        var p := Locate(rest, off - sizes[0]).value;
        assert sizes[..p.index + 1] == [sizes[0]] + rest[..p.index];
        assert forall k :: 0 < k < p.index + 1 ==> sizes[k] == rest[k - 1];
      }
    }
  }

  /** Sizes before the first empty block. */
  function Usable(sizes: seq<nat>): seq<nat> {
    if sizes == [] || sizes[0] == 0 then [] else [sizes[0]] + Usable(sizes[1..])
  }

  /** The scan succeeds exactly below the total of the blocks before the first empty one. */
  lemma {:induction false} LocateDomain(sizes: seq<nat>, off: nat)
    ensures Locate(sizes, off).Some? <==> off < Sum(Usable(sizes))
  {
    if sizes != [] && sizes[0] > 0 {
      assert Usable(sizes)[1..] == Usable(sizes[1..]);
      if sizes[0] <= off {
        LocateDomain(sizes[1..], off - sizes[0]);
      }
    }
  }

  lemma {:induction false} UsableWhenPositive(sizes: seq<nat>)
    requires forall i :: 0 <= i < |sizes| ==> sizes[i] > 0
    ensures Usable(sizes) == sizes
  {
    if sizes != [] {
      UsableWhenPositive(sizes[1..]);
    }
  }

  lemma {:induction false} UsableIsPrefix(sizes: seq<nat>)
    ensures Usable(sizes) <= sizes
    ensures |Usable(sizes)| < |sizes| ==> sizes[|Usable(sizes)|] == 0
    ensures forall k :: 0 <= k < |Usable(sizes)| ==> sizes[k] > 0
  {
    if sizes != [] && sizes[0] > 0 {
      UsableIsPrefix(sizes[1..]);
      assert sizes == [sizes[0]] + sizes[1..];
    }
  }

  /** The scan finds every place there is. */
  lemma LocateComplete(sizes: seq<nat>, off: nat, p: Place)
    requires IsPlace(sizes, off, p)
    ensures Locate(sizes, off) == Some(p)
  {
    UsableIsPrefix(sizes);
    var n := |Usable(sizes)|;
    assert p.index < n;
    PlaceBefore(sizes, off, p, n);
    assert Usable(sizes) == sizes[..n];
    LocateDomain(sizes, off);
    LocateSound(sizes, off);
    PlaceUnique(sizes, off, p, Locate(sizes, off).value);
  }

  /** The bytes from a place to the end of its block are the bytes of the flat string there. */
  lemma PlaceSlice(parts: seq<seq<byte>>, off: nat, p: Place, n: nat)
    requires IsPlace(Sizes(parts), off, p)
    requires p.offset + n <= |parts[p.index]|
    ensures off + n <= |Flatten(parts)|
    ensures Flatten(parts)[off..off + n] == parts[p.index][p.offset..p.offset + n]
  {
    var a, c, b := parts[..p.index], parts[p.index], parts[p.index + 1..];
    assert parts == a + ([c] + b);
    FlattenAppend(a, [c] + b);
    FlattenCons(c, b);
    PrefixLength(parts, p.index);
  }
}
