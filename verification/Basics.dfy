/** Small functions used throughout the project. */
module Basics {
  function Max(a: nat, b: nat): nat { if a < b then b else a }

  function Min(a: nat, b: nat): nat { if a < b then a else b }

  /** The elements of all parts, in order. */
  function Flatten<T>(parts: seq<seq<T>>): seq<T> {
    if parts == [] then [] else Flatten(parts[..|parts| - 1]) + parts[|parts| - 1]
  }

  lemma FlattenAppend<T>(parts: seq<seq<T>>, part: seq<T>)
    ensures Flatten(parts + [part]) == Flatten(parts) + part
  {
    assert (parts + [part])[..|parts|] == parts;
  }

  lemma FlattenOne<T>(part: seq<T>)
    ensures Flatten([part]) == part && Flatten<T>([]) == []
  {
    FlattenAppend([], part);
    assert [] + [part] == [part];
  }

  lemma OneMore<T>(s: set<T>, s': set<T>, x: T, more: bool)
    requires x !in s && s' == s + if more then {x} else {}
    ensures |s'| == |s| + if more then 1 else 0
  {
  }

  predicate OccursAt<T(==)>(text: seq<T>, part: seq<T>, i: nat) {
    i + |part| <= |text| && text[i..i + |part|] == part
  }

  /** Substring search. */
  predicate Contains<T(==)>(text: seq<T>, part: seq<T>) {
    exists i :: 0 <= i <= |text| && OccursAt(text, part, i)
  }

  /** A text contains a part exactly when it is that part with something in front of it and something behind it. */
  lemma ContainsIff<T>(text: seq<T>, part: seq<T>)
    ensures Contains(text, part) <==> exists a, c :: text == a + part + c
  {
    if Contains(text, part) {
      var i :| 0 <= i <= |text| && OccursAt(text, part, i);
      assert text == text[..i] + part + text[i + |part|..];
    }
    forall a, c | text == a + part + c ensures Contains(text, part) {
      assert OccursAt(text, part, |a|);
    }
  }
}
