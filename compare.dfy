/** The snapshot comparator `equalIPv6Lists` (main.go). */
module Compare {

  /**
    * What `equalIPv6Lists(list1, list2)` decides: the lists have the same length and
    * every element of `list2` occurs somewhere in `list1`. Order is ignored, but so
    * is the number of times an element occurs.
    */
  function SameAddresses(list1: seq<string>, list2: seq<string>): (same: bool)
    ensures same <==> |list1| == |list2| && Elements(list2) <= Elements(list1)
    ensures list1 == list2 ==> same
  {
    assert (forall a | a in list2 :: a in list1) <==> Elements(list2) <= Elements(list1) by {
      if Elements(list2) <= Elements(list1) {
        forall a | a in list2 ensures a in list1 {
          assert a in Elements(list2);
        }
      }
    }
    |list1| == |list2| && forall a | a in list2 :: a in list1
  }

  /** Go's `m[key]` on a `map[string]bool`: a missing key reads as `false`. */
  function Lookup(m: map<string, bool>, key: string): (present: bool)
    ensures key !in m ==> !present
    ensures key in m ==> present == m[key]
  {
    key in m && m[key]
  }

  /** The comparator as written: a length check, a map built from `list1`, a scan of `list2`. */
  method EqualIPv6Lists(list1: seq<string>, list2: seq<string>) returns (equal: bool)
    ensures equal == SameAddresses(list1, list2)
    ensures |list1| != |list2| ==> !equal
  {
    if |list1| != |list2| {
      return false;
    }
    var addrMap: map<string, bool> := map[];
    for i := 0 to |list1|
      invariant forall a :: a in addrMap <==> a in list1[..i]
      invariant forall a | a in addrMap :: addrMap[a]
    {
      addrMap := addrMap[list1[i] := true];
    }
    assert list1[..|list1|] == list1;
    for j := 0 to |list2|
      invariant forall k | 0 <= k < j :: list2[k] in list1
    {
      if !Lookup(addrMap, list2[j]) {
        return false;
      }
    }
    return true;
  }

  /** No element occurs twice. */
  predicate Distinct(s: seq<string>)
  {
    forall i, j | 0 <= i < j < |s| :: s[i] != s[j]
  }

  /** The set of elements of a list. */
  function Elements(s: seq<string>): set<string>
  {
    set a | a in s
  }

  /** A duplicate-free list has as many distinct elements as entries. */
  lemma {:induction false} DistinctCard(s: seq<string>)
    requires Distinct(s)
    ensures |Elements(s)| == |s|
  {
    if s != [] {
      assert Distinct(s[1..]) by {
        forall i, j | 0 <= i < j < |s[1..]| ensures s[1..][i] != s[1..][j] {
          assert s[1..][i] == s[i + 1] && s[1..][j] == s[j + 1];
        }
      }
      DistinctCard(s[1..]);
      assert Elements(s) == {s[0]} + Elements(s[1..]);
      assert s[0] !in Elements(s[1..]);
    }
  }

  /** A subset with as many elements as its superset is the whole superset. */
  lemma SubsetSameSize(small: set<string>, big: set<string>)
    requires small <= big && |small| == |big|
    ensures small == big
  {
    var rest := big - small;
    assert big == small + rest && small * rest == {};
    assert |rest| == 0;
    assert rest == {};
  }

  /** Reordering either list does not change the verdict; in particular it is reflexive. */
  lemma PermutationInvariant(list1: seq<string>, list2: seq<string>)
    requires multiset(list1) == multiset(list2)
    ensures SameAddresses(list1, list2) && SameAddresses(list2, list1)
  {
    assert |list1| == |multiset(list1)| == |multiset(list2)| == |list2|;
    forall a | a in list2 ensures a in list1 {
      assert a in multiset(list2);
    }
    forall a | a in list1 ensures a in list2 {
      assert a in multiset(list1);
    }
  }

  /** For duplicate-free lists the comparator is exactly set equality. */
  lemma SetEqualityWhenDistinct(list1: seq<string>, list2: seq<string>)
    requires Distinct(list1) && Distinct(list2)
    ensures SameAddresses(list1, list2) <==> Elements(list1) == Elements(list2)
  {
    DistinctCard(list1);
    DistinctCard(list2);
    if SameAddresses(list1, list2) {
      SubsetSameSize(Elements(list2), Elements(list1));
    }
    if Elements(list1) == Elements(list2) {
      forall a | a in list2 ensures a in list1 {
        assert a in Elements(list2);
      }
    }
  }

  /** Hence, for duplicate-free lists, it is symmetric. */
  lemma SymmetricWhenDistinct(list1: seq<string>, list2: seq<string>)
    requires Distinct(list1) && Distinct(list2)
    ensures SameAddresses(list1, list2) == SameAddresses(list2, list1)
  {
    SetEqualityWhenDistinct(list1, list2);
    SetEqualityWhenDistinct(list2, list1);
  }

  /**
    * With duplicates it is neither symmetric nor set or multiset equality:
    * `["a", "b"]` against `["a", "a"]` compares equal, the other way round it does not.
    */
  lemma DuplicatesBreakSymmetry()
    ensures SameAddresses(["a", "b"], ["a", "a"])
    ensures !SameAddresses(["a", "a"], ["a", "b"])
    ensures Elements(["a", "b"]) != Elements(["a", "a"])
  {
    assert "b" in ["a", "b"] && "b" !in ["a", "a"];
    assert "b" in Elements(["a", "b"]);
  }
}
