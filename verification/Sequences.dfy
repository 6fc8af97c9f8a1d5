/**
  Sequences without repetition: what inserting, deleting, joining and exchanging do to them.
 */
module Sequences {
  ghost predicate Distinct<T>(s: seq<T>) {
    forall i, j :: 0 <= i < j < |s| ==> s[i] != s[j]
  }

  lemma DistinctFrom<T>(s: seq<T>, k: nat)
    requires Distinct(s) && k < |s|
    ensures forall i :: 0 <= i < |s| && i != k ==> s[i] != s[k]
  {
  }

  function Insert<T>(s: seq<T>, k: nat, x: T): seq<T>
    requires k <= |s|
  {
    s[..k] + [x] + s[k..]
  }

  function Delete<T>(s: seq<T>, k: nat): seq<T>
    requires k < |s|
  {
    s[..k] + s[k + 1..]
  }

  lemma InsertAt<T>(s: seq<T>, k: nat, x: T)
    requires k <= |s|
    ensures |Insert(s, k, x)| == |s| + 1
    ensures forall i :: 0 <= i < k ==> Insert(s, k, x)[i] == s[i]
    ensures Insert(s, k, x)[k] == x
    ensures forall i :: k < i <= |s| ==> Insert(s, k, x)[i] == s[i - 1]
    ensures k > 0 ==> Insert(s, k, x)[1..] == Insert(s[1..], k - 1, x)
  {
  }

  lemma DeleteAt<T>(s: seq<T>, k: nat)
    requires k < |s|
    ensures |Delete(s, k)| == |s| - 1
    ensures forall i :: 0 <= i < k ==> Delete(s, k)[i] == s[i]
    ensures forall i :: k <= i < |s| - 1 ==> Delete(s, k)[i] == s[i + 1]
    ensures k > 0 ==> Delete(s, k)[1..] == Delete(s[1..], k - 1)
  {
  }

  lemma DistinctInsert<T>(s: seq<T>, k: nat, x: T)
    requires Distinct(s) && k <= |s| && x !in s
    ensures Distinct(Insert(s, k, x))
  {
  }

  lemma DistinctDelete<T>(s: seq<T>, k: nat)
    requires Distinct(s) && k < |s|
    ensures Distinct(Delete(s, k))
  {
  }

  ghost predicate Apart<T>(s: seq<T>, t: seq<T>) {
    forall i, j :: 0 <= i < |s| && 0 <= j < |t| ==> s[i] != t[j]
  }

  lemma ApartFrom<T>(s: seq<T>, t: seq<T>, k: nat)
    requires Apart(s, t) && k < |s|
    ensures forall j :: 0 <= j < |t| ==> s[k] != t[j]
  {
  }

  lemma ApartBack<T>(s: seq<T>, t: seq<T>)
    requires Apart(s, t)
    ensures Apart(t, s)
  {
  }

  /** One chain that takes over everything behind the head of another. */
  lemma JoinTails<T>(s: seq<T>, t: seq<T>)
    requires Distinct(s) && Distinct(t) && Apart(s, t) && t != []
    ensures Distinct(s + t[1..]) && Apart(s + t[1..], [t[0]])
    ensures |t| == 1 ==> s + t[1..] == s && [t[0]] == t
  {
  }

  /** Two chains that exchange everything behind their heads. */
  lemma ExchangeTails<T>(s: seq<T>, t: seq<T>)
    requires Distinct(s) && Distinct(t) && Apart(s, t) && s != [] && t != []
    ensures Distinct([s[0]] + t[1..]) && Distinct([t[0]] + s[1..])
    ensures Apart([s[0]] + t[1..], [t[0]] + s[1..])
  {
  }

  ghost function Reverse<T>(s: seq<T>): seq<T> {
    if s == [] then [] else Reverse(s[1..]) + [s[0]]
  }

  /** Taking a sequence from its end, one more element. */
  lemma {:induction false} ReverseNext<T>(s: seq<T>, k: nat)
    requires 0 < k <= |s|
    ensures Reverse(s[k - 1..]) == Reverse(s[k..]) + [s[k - 1]]
  {
    assert s[k - 1..][1..] == s[k..];
  }

  ghost function Position<T>(s: seq<T>, x: T): (k: nat)
    requires x in s
    ensures k < |s| && s[k] == x
  {
    var k :| 0 <= k < |s| && s[k] == x;
    k
  }

  lemma PositionIs<T>(s: seq<T>, k: nat)
    requires Distinct(s) && k < |s|
    ensures Position(s, s[k]) == k
  {
  }

  /** Deleting what was inserted gives back the sequence. */
  lemma DeleteUndoesInsert<T>(s: seq<T>, k: nat, x: T)
    requires Distinct(s) && x !in s && k <= |s|
    ensures Delete(Insert(s, k, x), Position(Insert(s, k, x), x)) == s
  {
    DistinctInsert(s, k, x);
    PositionIs(Insert(s, k, x), k);
  }
}
