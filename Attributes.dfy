/**
 * The list of attribute names a query asks the engine to return
 * (`attributesToRetrieve`): "all attributes" when the caller names none, and
 * always the identifier, without repetitions.
 */
module Attributes {
  import opened Rows

  /** The engine's name for "every attribute". */
  const Wildcard: string := "*"

  predicate Distinct(s: seq<string>)
  {
    forall i, j :: 0 <= i < j < |s| ==> s[i] != s[j]
  }

  /** The position of the first occurrence of `x` in `s`. */
  function FirstIndex(s: seq<string>, x: string): (i: nat)
    requires x in s
    ensures i < |s| && s[i] == x
    ensures forall j :: 0 <= j < i ==> s[j] != x
  {
    if s[0] == x then 0 else 1 + FirstIndex(s[1..], x)
  }

  /** `array_unique` on a list of names: the first occurrence of each name,
      in the order of the input. */
  function Unique(s: seq<string>): (r: seq<string>)
    ensures Distinct(r)
    ensures forall x :: x in r <==> x in s
  {
    if s == [] then []
    else
      var front := s[..|s| - 1];
      assert s == front + [s[|s| - 1]];
      if s[|s| - 1] in front then Unique(front) else Unique(front) + [s[|s| - 1]]
  }

  /** `array_unique(array_merge($requested ?: ['*'], ['id']))`. */
  function AttributesToRetrieve(requested: seq<string>): (r: seq<string>)
    ensures Distinct(r) && IdKey in r
    ensures forall x :: x in r <==> x == IdKey || if requested == [] then x == Wildcard else x in requested
  {
    var base := if requested == [] then [Wildcard] else requested;
    Unique(base + [IdKey])
  }

  /** A first occurrence inside a prefix is not moved by what follows it. */
  lemma FirstIndexPrefix(s: seq<string>, t: seq<string>, x: string)
    requires x in s
    ensures FirstIndex(s + t, x) == FirstIndex(s, x)
  {
    var a, b := FirstIndex(s + t, x), FirstIndex(s, x);
    assert (s + t)[b] == x;
    assert a <= b;
    assert s[a] == (s + t)[a];
  }

  lemma UniqueAppend(s: seq<string>, x: string)
    ensures Unique(s + [x]) == if x in s then Unique(s) else Unique(s) + [x]
  {
    assert (s + [x])[..|s|] == s;
  }

  /** The names `array_unique` keeps appear in the order in which they first
      occur in its input. */
  lemma {:induction false} UniqueKeepsFirstOccurrenceOrder(s: seq<string>, i: int, j: int)
    requires 0 <= i < j < |Unique(s)|
    ensures FirstIndex(s, Unique(s)[i]) < FirstIndex(s, Unique(s)[j])
  {
    var front := s[..|s| - 1];
    var last := s[|s| - 1];
    assert s == front + [last];
    var r := Unique(s);
    var rf := Unique(front);
    UniqueAppend(front, last);
    assert r[i] in front by { assert r[i] == rf[i]; }
    FirstIndexPrefix(front, [last], r[i]);
    if j < |rf| {
      UniqueKeepsFirstOccurrenceOrder(front, i, j);
      assert r[j] == rf[j];
      FirstIndexPrefix(front, [last], r[j]);
    } else {
      assert r[j] == last && last !in front;
      assert FirstIndex(s, last) == |s| - 1;
    }
  }

  /** A list without repetitions is left as it is. */
  lemma {:induction false} UniqueOfDistinct(s: seq<string>)
    requires Distinct(s)
    ensures Unique(s) == s
  {
    if s != [] {
      var front := s[..|s| - 1];
      assert s == front + [s[|s| - 1]];
      UniqueOfDistinct(front);
      UniqueAppend(front, s[|s| - 1]);
    }
  }

  /** A name of a list without repetitions occurs in it exactly once. */
  lemma {:induction false} DistinctOccursOnce(s: seq<string>, x: string)
    requires Distinct(s) && x in s
    ensures multiset(s)[x] == 1
  {
    var front := s[..|s| - 1];
    assert s == front + [s[|s| - 1]];
    if s[|s| - 1] == x {
      assert x !in front;
    } else {
      DistinctOccursOnce(front, x);
    }
  }

  /** With no names requested, the engine is asked for everything and the id. */
  lemma AttributesToRetrieveDefault()
    ensures AttributesToRetrieve([]) == [Wildcard, IdKey]
  {
    UniqueAppend([Wildcard], IdKey);
    UniqueAppend([], Wildcard);
  }

  /** The caller's names keep their first-occurrence order; the identifier
      stays where the caller put it, or comes last when the caller left it out. */
  lemma AttributesToRetrieveKeepsOrder(requested: seq<string>)
    requires requested != []
    ensures AttributesToRetrieve(requested) ==
            Unique(requested) + if IdKey in requested then [] else [IdKey]
  {
    UniqueAppend(requested, IdKey);
  }

  /** The identifier is requested exactly once. */
  lemma AttributesToRetrieveIdOnce(requested: seq<string>)
    ensures multiset(AttributesToRetrieve(requested))[IdKey] == 1
  {
    DistinctOccursOnce(AttributesToRetrieve(requested), IdKey);
  }

  /** Normalising an already normalised list changes nothing. */
  lemma AttributesToRetrieveIdempotent(requested: seq<string>)
    ensures AttributesToRetrieve(AttributesToRetrieve(requested)) == AttributesToRetrieve(requested)
  {
    var r := AttributesToRetrieve(requested);
    UniqueAppend(r, IdKey);
    UniqueOfDistinct(r);
  }
}
