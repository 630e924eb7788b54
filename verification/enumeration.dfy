/**
 The enumeration attached to an INTEGER (an ENUMERATED type): a Ruby Hash
 from names to integer codes. A Hash keeps insertion order and has distinct
 keys, so it is modelled as a sequence of pairs with distinct names.
 */
module Enumeration {

  import opened Results

  predicate DistinctNames(pairs: seq<(string, int)>)
  {
    forall i, j :: 0 <= i < j < |pairs| ==> pairs[i].0 != pairs[j].0
  }

  /** No two names share a code (the Hash is then invertible). */
  predicate DistinctCodes(pairs: seq<(string, int)>)
  {
    forall i, j :: 0 <= i < j < |pairs| ==> pairs[i].1 != pairs[j].1
  }

  type Enum = pairs: seq<(string, int)> | DistinctNames(pairs) witness []

  /** Hash#key? */
  predicate HasName(e: Enum, n: string)
  {
    exists i :: 0 <= i < |e| && e[i].0 == n
  }

  /** Hash#value? */
  predicate HasCode(e: Enum, c: int)
  {
    exists i :: 0 <= i < |e| && e[i].1 == c
  }

  /** No pair before position k carries code c. */
  predicate CodeAbsentBefore(e: Enum, c: int, k: nat)
    requires k <= |e|
  {
    forall j :: 0 <= j < k ==> e[j].1 != c
  }

  /** The position of the first element satisfying p, scanning in order. */
  function FirstIndex<T>(s: seq<T>, p: T -> bool): (r: Option<nat>)
    ensures r.Some? ==> r.value < |s| && p(s[r.value])
    ensures r.Some? ==> forall j :: 0 <= j < r.value ==> !p(s[j])
    ensures r.None? <==> forall j :: 0 <= j < |s| ==> !p(s[j])
  {
    if |s| == 0 then None
    else if p(s[0]) then Some(0)
    else
      match FirstIndex(s[1..], p)
      case None => None
      case Some(k) => Some(k + 1)
  }

  /** Hash#[]: the code stored under name n, if any. */
  function Lookup(e: Enum, n: string): (r: Option<int>)
    ensures r.Some? <==> HasName(e, n)
    ensures forall i :: 0 <= i < |e| && e[i].0 == n ==> r == Some(e[i].1)
  {
    match FirstIndex(e, (pair: (string, int)) => pair.0 == n)
    case None => None
    case Some(i) => Some(e[i].1)
  }

  /** Hash#key: the name of the FIRST pair, in insertion order, whose code is c. */
  function KeyOf(e: Enum, c: int): (r: Option<string>)
    ensures r.Some? <==> HasCode(e, c)
    ensures r.Some? ==> exists i :: 0 <= i < |e| && e[i] == (r.value, c) && CodeAbsentBefore(e, c, i)
  {
    match FirstIndex(e, (pair: (string, int)) => pair.1 == c)
    case None => None
    case Some(i) =>
      assert e[i] == (e[i].0, c) && CodeAbsentBefore(e, c, i);
      Some(e[i].0)
  }

  /** The name Hash#key returns looks back up to the code it was found by. */
  lemma KeyOfLookup(e: Enum, c: int)
    requires HasCode(e, c)
    ensures KeyOf(e, c).Some? && Lookup(e, KeyOf(e, c).value) == Some(c)
  {
    var i :| 0 <= i < |e| && e[i] == (KeyOf(e, c).value, c) && CodeAbsentBefore(e, c, i);
    assert e[i].0 == KeyOf(e, c).value;
  }

  /** When codes are distinct too, Hash#key inverts Hash#[]. */
  lemma LookupKeyOf(e: Enum, n: string)
    requires DistinctCodes(e) && HasName(e, n)
    ensures Lookup(e, n).Some? && KeyOf(e, Lookup(e, n).value) == Some(n)
  {
    var i :| 0 <= i < |e| && e[i].0 == n;
    var c := e[i].1;
    assert HasCode(e, c);
    var k :| 0 <= k < |e| && e[k] == (KeyOf(e, c).value, c) && CodeAbsentBefore(e, c, k);
    assert k == i;
  }

  /** With a shared code, Hash#key answers with the earliest name. */
  lemma KeyOfFirstMatch()
    ensures KeyOf([("first", 7), ("second", 7)], 7) == Some("first")
    ensures Lookup([("first", 7), ("second", 7)], "second") == Some(7)
  {
    var e: Enum := [("first", 7), ("second", 7)];
    assert e[0] == ("first", 7);
    assert e[1].0 == "second";
  }
}
