/**
 Stable de-duplication: keep each value the first time it appears, in the order
 of first appearance. This is what a loop over a list with a `seen` set computes.
 */
module StableDedup {

  /** No value appears twice in `s`. */
  predicate NoDuplicates<T(==)>(s: seq<T>) {
    forall i, j :: 0 <= i < j < |s| ==> s[i] != s[j]
  }

  /** The values of `s`, as a set. */
  function Elements<T(==)>(s: seq<T>): set<T> {
    set x | x in s
  }

  /** The index of the first occurrence of `x` in `s`. */
  function FirstIndex<T(==)>(s: seq<T>, x: T): (r: nat)
    requires x in s
    ensures r < |s| && s[r] == x
    ensures forall k :: 0 <= k < r ==> s[k] != x
  {
    if s[0] == x then 0 else 1 + FirstIndex(s[1..], x)
  }

  /** The values of `r` come from `s` and appear in `r` in the order of their first occurrence in `s`. */
  predicate FirstSeenOrdered<T(==)>(r: seq<T>, s: seq<T>) {
    && (forall i :: 0 <= i < |r| ==> r[i] in s)
    && (forall i, j :: 0 <= i < j < |r| ==> FirstIndex(s, r[i]) < FirstIndex(s, r[j]))
  }

  /**
   The values of `s`, each kept at its first occurrence. Defined by extending the
   result for all but the last element, the way a left-to-right loop builds it.
   */
  function Dedup<T(==)>(s: seq<T>): (r: seq<T>)
    ensures forall i :: 0 <= i < |r| ==> r[i] in s
    ensures NoDuplicates(r)
    ensures |r| <= |s|
  {
    if |s| == 0 then []
    else
      var prev := Dedup(s[..|s| - 1]);
      assert forall x :: x in s[..|s| - 1] ==> x in s;
      if s[|s| - 1] in prev then prev else prev + [s[|s| - 1]]
  }

  /** Dedup keeps every value of its input and introduces none. */
  lemma {:induction false} DedupElements<T>(s: seq<T>)
    ensures forall x :: x in Dedup(s) <==> x in s
  {
    if |s| > 0 {
      var p := s[..|s| - 1];
      DedupElements(p);
      assert s == p + [s[|s| - 1]];
    }
  }

  /** Extending the input by one value extends the result by it exactly when it is new. */
  lemma DedupAppend<T>(s: seq<T>, x: T)
    ensures Dedup(s + [x]) == if x in Dedup(s) then Dedup(s) else Dedup(s) + [x]
  {
    assert (s + [x])[..|s|] == s;
  }

  /** In a prefix that holds `x`, the first occurrence of `x` is the same as in the whole sequence. */
  lemma FirstIndexPrefix<T>(s: seq<T>, n: nat, x: T)
    requires n <= |s| && x in s[..n]
    ensures x in s && FirstIndex(s[..n], x) == FirstIndex(s, x)
  {
    var a, b := FirstIndex(s[..n], x), FirstIndex(s, x);
    assert s[..n][a] == s[a];
    assert forall k :: 0 <= k < a ==> s[..n][k] == s[k];
  }

  /** Dedup keeps values in the order in which they first occur in its input. */
  lemma {:induction false} DedupFirstSeenOrder<T>(s: seq<T>)
    ensures FirstSeenOrdered(Dedup(s), s)
  {
    if |s| > 0 {
      var p, last := s[..|s| - 1], s[|s| - 1];
      var prev := Dedup(p);
      DedupFirstSeenOrder(p);
      DedupElements(p);
      forall x | x in p ensures FirstIndex(p, x) == FirstIndex(s, x) {
        assert p == s[..|s| - 1];
        FirstIndexPrefix(s, |s| - 1, x);
      }
      if last !in prev {
        assert last !in p;
        assert FirstIndex(s, last) == |s| - 1;
        var r := prev + [last];
        forall i | 0 <= i < |prev| ensures FirstIndex(s, r[i]) < FirstIndex(s, last) {
          assert r[i] == prev[i] && prev[i] in p;
        }
      }
    }
  }

  /** Dedup emits one entry per distinct value of its input. */
  lemma {:induction false} DedupCardinality<T>(s: seq<T>)
    ensures |Dedup(s)| == |Elements(s)|
  {
    if |s| > 0 {
      var p, last := s[..|s| - 1], s[|s| - 1];
      DedupCardinality(p);
      DedupElements(p);
      assert Elements(s) == Elements(p) + {last};
      if last in Dedup(p) {
        assert Elements(s) == Elements(p);
      } else {
        assert last !in Elements(p);
      }
    }
  }

  /**
   Two duplicate-free sequences with the same values, both in first-seen order
   with respect to `s`, are equal.
   */
  lemma {:induction false} FirstSeenOrderedUnique<T>(r1: seq<T>, r2: seq<T>, s: seq<T>)
    requires NoDuplicates(r1) && NoDuplicates(r2)
    requires forall x :: x in r1 <==> x in r2
    requires FirstSeenOrdered(r1, s) && FirstSeenOrdered(r2, s)
    ensures r1 == r2
  {
    assert |r2| > 0 ==> r2[0] in r1;
    if |r1| > 0 {
      assert r1[0] in r2;
      assert |r2| > 0;
      assert r2[0] in r1;
      var a, b := r1[0], r2[0];
      assert a == b by {
        var ia :| 0 <= ia < |r2| && r2[ia] == a;
        var ib :| 0 <= ib < |r1| && r1[ib] == b;
        assert FirstIndex(s, a) <= FirstIndex(s, r1[ib]);
        assert FirstIndex(s, b) <= FirstIndex(s, r2[ia]);
        assert s[FirstIndex(s, a)] == a && s[FirstIndex(s, b)] == b;
      }
      var t1, t2 := r1[1..], r2[1..];
      forall x ensures x in t1 <==> x in t2 {
        assert x in t1 <==> x in r1 && x != a;
        assert x in t2 <==> x in r2 && x != b;
      }
      assert FirstSeenOrdered(t1, s) && FirstSeenOrdered(t2, s) by {
        assert forall i :: 0 <= i < |t1| ==> t1[i] == r1[i + 1];
        assert forall i :: 0 <= i < |t2| ==> t2[i] == r2[i + 1];
      }
      FirstSeenOrderedUnique(t1, t2, s);
      assert r1 == [a] + t1 && r2 == [b] + t2;
    }
  }

  /**
   Dedup is the only duplicate-free sequence that holds every value of `s` and
   lists them in first-seen order: these properties are a definition of it.
   */
  lemma DedupCharacterised<T>(s: seq<T>, r: seq<T>)
    requires NoDuplicates(r)
    requires forall x :: x in r <==> x in s
    requires FirstSeenOrdered(r, s)
    ensures r == Dedup(s)
  {
    DedupFirstSeenOrder(s);
    DedupElements(s);
    FirstSeenOrderedUnique(r, Dedup(s), s);
  }

  /** A sequence without duplicates is its own de-duplication. */
  lemma DedupOfDistinct<T>(s: seq<T>)
    requires NoDuplicates(s)
    ensures Dedup(s) == s
  {
    forall i | 0 <= i < |s| ensures FirstIndex(s, s[i]) == i { }
    DedupCharacterised(s, s);
  }

  /** De-duplicating twice is the same as de-duplicating once. */
  lemma DedupIdempotent<T>(s: seq<T>)
    ensures Dedup(Dedup(s)) == Dedup(s)
  {
    DedupOfDistinct(Dedup(s));
  }

  /** A value repeated and then a new one: the repeat is dropped. */
  lemma DedupRepeatThenNew<T>(a: T, b: T)
    requires a != b
    ensures Dedup([a, a, b]) == [a, b]
  {
    var s, r := [a, a, b], [a, b];
    assert FirstIndex(s, a) == 0 && FirstIndex(s, b) == 2;
    assert forall x :: x in r <==> x in s;
    DedupCharacterised(s, r);
  }
}
