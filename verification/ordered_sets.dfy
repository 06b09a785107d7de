/**
 A JavaScript `Set` keeps its elements in insertion order, and the
 application relies on that order (the prompt lists the selected words and
 word types in the order they were added). A set is therefore modelled as a
 sequence without duplicates.
 */
module OrderedSets {
  import opened Strings

  predicate NoDuplicates<T(==)>(s: seq<T>) {
    forall i, j :: 0 <= i < j < |s| ==> s[i] != s[j]
  }

  /** The toggle both handlers perform: `has(x) ? delete(x) : add(x)` on a
      copy of the set. Deleting keeps the order of the others; adding puts
      `x` last. */
  function Toggle<T(==)>(s: seq<T>, x: T): (r: seq<T>)
    requires NoDuplicates(s)
    ensures NoDuplicates(r)
    ensures x in r <==> x !in s
    ensures forall y :: y in r ==> y == x || y in s
    ensures forall y :: y in s ==> y == x || y in r
    ensures x in s ==> exists i :: 0 <= i < |s| && s[i] == x && r == s[..i] + s[i + 1..]
    ensures x !in s ==> r == s + [x]
  {
    if x in s then
      var i := IndexOf(s, x);
      var r := s[..i] + s[i + 1..];
      assert forall k :: 0 <= k < |r| ==> r[k] == (if k < i then s[k] else s[k + 1]);
      assert forall y :: y in s ==> y == x || y in r by {
        forall y | y in s ensures y == x || y in r {
          var k :| 0 <= k < |s| && s[k] == y;
          if k < i { assert r[k] == y; } else if k > i { assert r[k - 1] == y; }
        }
      }
      r
    else
      s + [x]
  }

  /** Toggling the same element twice restores the membership of every
      element (not the order: a re-added element goes last). */
  lemma ToggleTwice<T>(s: seq<T>, x: T)
    requires NoDuplicates(s)
    ensures forall y :: y in Toggle(Toggle(s, x), x) <==> y in s
    ensures x !in s ==> Toggle(Toggle(s, x), x) == s
  {
    if x !in s {
      var t := s + [x];
      assert IndexOf(t, x) == |s|;
      assert t[..|s|] == s;
    }
  }
}
