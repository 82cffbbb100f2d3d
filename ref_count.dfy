/**
 * The reference counts of the manager's request map, as a map from bundle
 * name to `referencedCount`, and what the add and remove walks do to it.
 * A first sighting of a name creates an entry with count 0; a later one
 * adds 1. A release deletes an entry whose count is 0 (or less) and
 * otherwise subtracts 1; a name without an entry is ignored.
 */
module RefCount {
  import opened Common

  type Counts = map<string, int>

  /** AddRequestInternal(string) on the counts. */
  function AddOne(m: Counts, n: string): (r: Counts)
    ensures r.Keys == m.Keys + {n}
  {
    if n in m then m[n := m[n] + 1] else m[n := 0]
  }

  /** RemoveRequestInternal on the counts. */
  function RemoveOne(m: Counts, n: string): (r: Counts)
    ensures r.Keys <= m.Keys
  {
    if n !in m then m
    else if m[n] <= 0 then m - {n}
    else m[n := m[n] - 1]
  }

  /** The counts after visiting the names of `v` in order with AddOne. */
  function AddAll(m: Counts, v: seq<string>): Counts
    decreases |v|
  {
    if v == [] then m else AddAll(AddOne(m, v[0]), v[1..])
  }

  /** The counts after visiting the names of `v` in order with RemoveOne. */
  function RemoveAll(m: Counts, v: seq<string>): Counts
    decreases |v|
  {
    if v == [] then m else RemoveAll(RemoveOne(m, v[0]), v[1..])
  }

  predicate NonNegative(m: Counts) {
    forall n :: n in m ==> m[n] >= 0
  }

  /** The names that get a new entry, in the order of their first sighting. */
  function Created(keys: set<string>, v: seq<string>): seq<string>
    decreases |v|
  {
    if v == [] then []
    else if v[0] in keys then Created(keys, v[1..])
    else [v[0]] + Created(keys + {v[0]}, v[1..])
  }

  // ----- the folds over a concatenation -----

  lemma {:induction false} AddAllConcat(m: Counts, a: seq<string>, b: seq<string>)
    ensures AddAll(m, a + b) == AddAll(AddAll(m, a), b)
    decreases |a|
  {
    if a == [] {
      assert a + b == b;
    } else {
      assert (a + b)[1..] == a[1..] + b;
      AddAllConcat(AddOne(m, a[0]), a[1..], b);
    }
  }

  lemma {:induction false} RemoveAllConcat(m: Counts, a: seq<string>, b: seq<string>)
    ensures RemoveAll(m, a + b) == RemoveAll(RemoveAll(m, a), b)
    decreases |a|
  {
    if a == [] {
      assert a + b == b;
    } else {
      assert (a + b)[1..] == a[1..] + b;
      RemoveAllConcat(RemoveOne(m, a[0]), a[1..], b);
    }
  }

  lemma {:induction false} CreatedConcat(keys: set<string>, a: seq<string>, b: seq<string>)
    ensures Created(keys, a + b) == Created(keys, a) + Created(keys + Elems(a), b)
    decreases |a|
  {
    if a == [] {
      assert a + b == b;
      assert keys + Elems(a) == keys;
    } else {
      assert (a + b)[1..] == a[1..] + b;
      assert Elems(a) == {a[0]} + Elems(a[1..]) by {
        assert a == [a[0]] + a[1..];
      }
      if a[0] in keys {
        CreatedConcat(keys, a[1..], b);
        assert keys + Elems(a[1..]) == keys + Elems(a);
      } else {
        CreatedConcat(keys + {a[0]}, a[1..], b);
        assert keys + {a[0]} + Elems(a[1..]) == keys + Elems(a);
      }
    }
  }

  // ----- one name at a time -----

  /** Occurrences split over the first visit. */
  lemma OccCons(v: seq<string>, x: string)
    requires v != []
    ensures Occ(v, x) == (if v[0] == x then 1 else 0) + Occ(v[1..], x)
  {
    assert v == [v[0]] + v[1..];
  }

  /**
   * After the add walk a name has an entry exactly when it had one or was
   * visited; an old entry grew by the number of visits, a new one holds one
   * less than that (the first sighting starts at 0).
   */
  lemma {:induction false} AddAllAt(m: Counts, v: seq<string>, x: string)
    ensures x in AddAll(m, v) <==> x in m || x in v
    ensures x in AddAll(m, v) ==>
      AddAll(m, v)[x] == (if x in m then m[x] + Occ(v, x) else Occ(v, x) - 1)
    decreases |v|
  {
    if v != [] {
      OccCons(v, x);
      AddAllAt(AddOne(m, v[0]), v[1..], x);
      assert x in v <==> x == v[0] || x in v[1..] by {
        assert v == [v[0]] + v[1..];
      }
    }
  }

  /**
   * After the remove walk (all counts non-negative) an entry survives exactly
   * when it was visited no more often than its count, and then it holds its
   * count minus the visits; a name without an entry stays without one.
   */
  lemma {:induction false} RemoveAllAt(m: Counts, v: seq<string>, x: string)
    requires NonNegative(m)
    ensures x in RemoveAll(m, v) <==> x in m && Occ(v, x) <= m[x]
    ensures x in RemoveAll(m, v) ==> RemoveAll(m, v)[x] == m[x] - Occ(v, x)
    decreases |v|
  {
    if v != [] {
      OccCons(v, x);
      RemoveAllAt(RemoveOne(m, v[0]), v[1..], x);
    }
  }

  lemma {:induction false} AddAllKeepsNonNegative(m: Counts, v: seq<string>)
    requires NonNegative(m)
    ensures NonNegative(AddAll(m, v))
  {
    forall x | x in AddAll(m, v) ensures AddAll(m, v)[x] >= 0 {
      AddAllAt(m, v, x);
      if x !in m {
        assert x in v;
        assert Occ(v, x) >= 1;
      }
    }
  }

  lemma {:induction false} RemoveAllKeepsNonNegative(m: Counts, v: seq<string>)
    requires NonNegative(m)
    ensures NonNegative(RemoveAll(m, v))
  {
    forall x | x in RemoveAll(m, v) ensures RemoveAll(m, v)[x] >= 0 {
      RemoveAllAt(m, v, x);
    }
  }

  /**
   * The round trip: releasing along the same walk that added restores the
   * counts exactly, entries created by the walk included.
   */
  lemma {:induction false} RoundTrip(m: Counts, v: seq<string>)
    requires NonNegative(m)
    ensures RemoveAll(AddAll(m, v), v) == m
  {
    var a := AddAll(m, v);
    AddAllKeepsNonNegative(m, v);
    var r := RemoveAll(a, v);
    forall x
      ensures x in r <==> x in m
      ensures x in r ==> r[x] == m[x]
    {
      AddAllAt(m, v, x);
      RemoveAllAt(a, v, x);
    }
    assert r.Keys == m.Keys;
  }

  /** The first sightings: each visited name without an entry, once. */
  lemma {:induction false} CreatedMembers(keys: set<string>, v: seq<string>, x: string)
    ensures x in Created(keys, v) <==> x in v && x !in keys
    decreases |v|
  {
    if v != [] {
      assert v == [v[0]] + v[1..];
      if v[0] in keys {
        CreatedMembers(keys, v[1..], x);
      } else {
        CreatedMembers(keys + {v[0]}, v[1..], x);
      }
    }
  }

  lemma {:induction false} CreatedDistinct(keys: set<string>, v: seq<string>)
    ensures Distinct(Created(keys, v))
    decreases |v|
  {
    if v != [] {
      if v[0] in keys {
        CreatedDistinct(keys, v[1..]);
      } else {
        var rest := Created(keys + {v[0]}, v[1..]);
        CreatedDistinct(keys + {v[0]}, v[1..]);
        CreatedMembers(keys + {v[0]}, v[1..], v[0]);
        assert v[0] !in rest;
        forall i, j | 0 <= i < j < |rest| + 1 ensures ([v[0]] + rest)[i] != ([v[0]] + rest)[j] {
          if i == 0 {
            assert ([v[0]] + rest)[j] == rest[j - 1];
          } else {
            assert ([v[0]] + rest)[i] == rest[i - 1] && ([v[0]] + rest)[j] == rest[j - 1];
          }
        }
      }
    }
  }

  /** The count map after one add or remove step, on the step's name and on every other name. */
  lemma OneStep(m: Counts, n: string, x: string)
    ensures x != n ==> (x in AddOne(m, n) <==> x in m) && (x in RemoveOne(m, n) <==> x in m)
    ensures x != n && x in m ==> AddOne(m, n)[x] == m[x] && RemoveOne(m, n)[x] == m[x]
    ensures n in AddOne(m, n) && AddOne(m, n)[n] == (if n in m then m[n] + 1 else 0)
    ensures n in RemoveOne(m, n) <==> n in m && m[n] > 0
    ensures n in RemoveOne(m, n) ==> RemoveOne(m, n)[n] == m[n] - 1
  {
  }
}
