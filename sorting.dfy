/**
 * Ordering a list by a string key the way
 * `v.sort_by(|a, b| key(a).cmp(&key(b)))` followed by
 * `v.dedup_by(|a, b| key(a) == key(b))` does. Everything is generic in the
 * key; the applications list instantiates it with the lower-cased title.
 *
 * Rust's `sort_by` is a stable sort; any two stable sorts by the same key give
 * the same result, so it is modelled by the simplest one, insertion sort.
 */
module Sorting {

  /** Rust's `Ord` on `str`: lexicographic by character, a proper prefix first. */
  predicate LexLe(a: string, b: string)
    decreases |a|
  {
    |a| == 0 || (|b| > 0 && (a[0] < b[0] || (a[0] == b[0] && LexLe(a[1..], b[1..]))))
  }

  lemma {:induction false} LexLeReflexive(a: string)
    decreases |a|
    ensures LexLe(a, a)
  {
    if |a| > 0 {
      LexLeReflexive(a[1..]);
    }
  }

  lemma {:induction false} LexLeTotal(a: string, b: string)
    decreases |a|
    ensures LexLe(a, b) || LexLe(b, a)
  {
    if |a| > 0 && |b| > 0 && a[0] == b[0] {
      LexLeTotal(a[1..], b[1..]);
    }
  }

  lemma {:induction false} LexLeAntisymmetric(a: string, b: string)
    decreases |a|
    requires LexLe(a, b) && LexLe(b, a)
    ensures a == b
  {
    if |a| > 0 && |b| > 0 {
      LexLeAntisymmetric(a[1..], b[1..]);
      assert a == [a[0]] + a[1..] && b == [b[0]] + b[1..];
    }
  }

  lemma {:induction false} LexLeTransitive(a: string, b: string, c: string)
    decreases |a|
    requires LexLe(a, b) && LexLe(b, c)
    ensures LexLe(a, c)
  {
    if |a| > 0 && |b| > 0 && |c| > 0 && a[0] == b[0] && b[0] == c[0] {
      LexLeTransitive(a[1..], b[1..], c[1..]);
    }
  }

  /** `s` is ordered non-decreasingly by `key`. */
  ghost predicate SortedBy<T>(s: seq<T>, key: T -> string) {
    forall i, j :: 0 <= i < j < |s| ==> LexLe(key(s[i]), key(s[j]))
  }

  /** The elements of `s` whose key is `k`, in their order in `s`. */
  function Select<T>(s: seq<T>, key: T -> string, k: string): seq<T>
    decreases |s|
  {
    if s == [] then []
    else (if key(s[0]) == k then [s[0]] else []) + Select(s[1..], key, k)
  }

  function Reverse<T>(s: seq<T>): (r: seq<T>)
    decreases |s|
  {
    if s == [] then [] else Reverse(s[1..]) + [s[0]]
  }

  /** `x` goes before the first element whose key is not smaller than its own. */
  function Insert<T>(x: T, s: seq<T>, key: T -> string): seq<T>
    decreases |s|
  {
    if s == [] then [x]
    else if LexLe(key(x), key(s[0])) then [x] + s
    else [s[0]] + Insert(x, s[1..], key)
  }

  /** The stable sort by `key`. */
  function SortBy<T>(s: seq<T>, key: T -> string): seq<T>
    decreases |s|
  {
    if s == [] then [] else Insert(s[0], SortBy(s[1..], key), key)
  }

  /** `dedup_by`: of each run of adjacent elements with equal keys, the first stays. */
  function DedupBy<T>(s: seq<T>, key: T -> string): seq<T>
    decreases |s|
  {
    if |s| <= 1 then s
    else if key(s[1]) == key(s[0]) then DedupBy([s[0]] + s[2..], key)
    else [s[0]] + DedupBy(s[1..], key)
  }

  // ----- Select and Reverse

  lemma {:induction false} SelectAppend<T>(a: seq<T>, b: seq<T>, key: T -> string, k: string)
    decreases |a|
    ensures Select(a + b, key, k) == Select(a, key, k) + Select(b, key, k)
  {
    if a != [] {
      assert (a + b)[1..] == a[1..] + b;
      SelectAppend(a[1..], b, key, k);
    } else {
      assert a + b == b;
    }
  }

  /** Every selected element has the key and occurs in `s`. */
  lemma {:induction false} SelectElements<T>(s: seq<T>, key: T -> string, k: string)
    decreases |s|
    ensures forall x :: x in Select(s, key, k) <==> x in s && key(x) == k
  {
    if s != [] {
      SelectElements(s[1..], key, k);
      assert s == [s[0]] + s[1..];
    }
  }

  lemma {:induction false} ReverseFacts<T>(s: seq<T>)
    decreases |s|
    ensures |Reverse(s)| == |s|
    ensures forall i :: 0 <= i < |s| ==> Reverse(s)[i] == s[|s| - 1 - i]
    ensures multiset(Reverse(s)) == multiset(s)
  {
    if s != [] {
      ReverseFacts(s[1..]);
      assert s == [s[0]] + s[1..];
    }
  }

  lemma {:induction false} SelectReverse<T>(s: seq<T>, key: T -> string, k: string)
    decreases |s|
    ensures Select(Reverse(s), key, k) == Reverse(Select(s, key, k))
  {
    if s != [] {
      SelectReverse(s[1..], key, k);
      SelectAppend(Reverse(s[1..]), [s[0]], key, k);
      var h := if key(s[0]) == k then [s[0]] else [];
      assert Select([s[0]], key, k) == h + Select([], key, k);
      ReverseAppendSingleOrEmpty(h, Select(s[1..], key, k));
    }
  }

  lemma ReverseAppendSingleOrEmpty<T>(h: seq<T>, t: seq<T>)
    requires |h| <= 1
    ensures Reverse(h + t) == Reverse(t) + h
  {
    if h == [] {
      assert h + t == t;
    } else {
      assert (h + t)[1..] == t;
    }
  }

  // ----- Sorting

  lemma {:induction false} InsertPermutes<T>(x: T, s: seq<T>, key: T -> string)
    decreases |s|
    ensures multiset(Insert(x, s, key)) == multiset(s) + multiset{x}
  {
    if s != [] && !LexLe(key(x), key(s[0])) {
      InsertPermutes(x, s[1..], key);
      assert s == [s[0]] + s[1..];
    }
  }

  lemma {:induction false} InsertSorted<T>(x: T, s: seq<T>, key: T -> string)
    requires SortedBy(s, key)
    decreases |s|
    ensures SortedBy(Insert(x, s, key), key)
  {
    if s == [] {
    } else if LexLe(key(x), key(s[0])) {
      var r := [x] + s;
      forall i, j | 0 <= i < j < |r| ensures LexLe(key(r[i]), key(r[j])) {
        if i == 0 && j > 1 {
          LexLeTransitive(key(x), key(s[0]), key(s[j - 1]));
        }
      }
    } else {
      LexLeTotal(key(x), key(s[0]));
      var t := Insert(x, s[1..], key);
      InsertSorted(x, s[1..], key);
      InsertPermutes(x, s[1..], key);
      var r := [s[0]] + t;
      forall j | 0 <= j < |t| ensures LexLe(key(s[0]), key(t[j])) {
        assert t[j] in multiset(t);
        if t[j] != x {
          assert t[j] in multiset(s[1..]);
          var m :| 0 <= m < |s[1..]| && s[1..][m] == t[j];
          assert s[m + 1] == t[j];
        }
      }
      forall i, j | 0 <= i < j < |r| ensures LexLe(key(r[i]), key(r[j])) {
        if i == 0 {
          assert r[j] == t[j - 1];
        } else {
          assert r[i] == t[i - 1] && r[j] == t[j - 1];
        }
      }
    }
  }

  /**
   * Inserting into a sorted list keeps every key class in order, with `x`
   * ahead of the elements that share its key.
   */
  lemma {:induction false} InsertSelect<T>(x: T, s: seq<T>, key: T -> string, k: string)
    requires SortedBy(s, key)
    decreases |s|
    ensures Select(Insert(x, s, key), key, k) == (if key(x) == k then [x] else []) + Select(s, key, k)
  {
    if s == [] {
    } else if LexLe(key(x), key(s[0])) {
      assert ([x] + s)[1..] == s;
    } else {
      LexLeReflexive(key(x));
      SortedTail(s, key);
      var tail := Insert(x, s[1..], key);
      InsertSelect(x, s[1..], key, k);
      var hs := if key(s[0]) == k then [s[0]] else [];
      var hx := if key(x) == k then [x] else [];
      assert ([s[0]] + tail)[1..] == tail;
      assert Select(Insert(x, s, key), key, k) == hs + Select(tail, key, k);
      assert Select(s, key, k) == hs + Select(s[1..], key, k);
      assert hs == [] || hx == [];
    }
  }

  /** The sort gives a sorted permutation of its input. */
  lemma {:induction false} SortBySortsAndPermutes<T>(s: seq<T>, key: T -> string)
    decreases |s|
    ensures SortedBy(SortBy(s, key), key)
    ensures multiset(SortBy(s, key)) == multiset(s)
  {
    if s != [] {
      SortBySortsAndPermutes(s[1..], key);
      InsertSorted(s[0], SortBy(s[1..], key), key);
      InsertPermutes(s[0], SortBy(s[1..], key), key);
      assert s == [s[0]] + s[1..];
    }
  }

  /** The sort is stable: the elements of each key class keep their relative order. */
  lemma {:induction false} SortByStable<T>(s: seq<T>, key: T -> string, k: string)
    decreases |s|
    ensures Select(SortBy(s, key), key, k) == Select(s, key, k)
  {
    if s != [] {
      SortByStable(s[1..], key, k);
      SortBySortsAndPermutes(s[1..], key);
      InsertSelect(s[0], SortBy(s[1..], key), key, k);
    }
  }

  // ----- Dedup

  /** Dedup only drops elements: what stays is a sub-multiset of the input. */
  lemma {:induction false} DedupBySubset<T>(s: seq<T>, key: T -> string)
    decreases |s|
    ensures multiset(DedupBy(s, key)) <= multiset(s)
  {
    if |s| > 1 {
      if key(s[1]) == key(s[0]) {
        DedupBySubset([s[0]] + s[2..], key);
        assert s == [s[0], s[1]] + s[2..];
      } else {
        DedupBySubset(s[1..], key);
        assert s == [s[0]] + s[1..];
      }
    }
  }

  /** Every key of the input still has an element in the output. */
  lemma {:induction false} DedupByKeepsKeys<T>(s: seq<T>, key: T -> string)
    decreases |s|
    ensures forall x :: x in s ==> exists y :: y in DedupBy(s, key) && key(y) == key(x)
  {
    var r := DedupBy(s, key);
    if |s| <= 1 {
      assert r == s;
      forall x | x in s ensures exists y :: y in r && key(y) == key(x) {
        assert x in r;
      }
    } else {
      if key(s[1]) == key(s[0]) {
        var t := [s[0]] + s[2..];
        DedupByKeepsKeys(t, key);
        forall x | x in s ensures exists y :: y in r && key(y) == key(x) {
          if x == s[1] {
            assert s[0] in t;
          } else {
            assert x in t;
          }
        }
      } else {
        DedupByKeepsKeys(s[1..], key);
        forall x | x in s ensures exists y :: y in r && key(y) == key(x) {
          if x == s[0] {
            assert s[0] in r;
          } else {
            assert x in s[1..];
            var y :| y in DedupBy(s[1..], key) && key(y) == key(x);
            assert y in r;
          }
        }
      }
    }
  }

  /** Dropping the second element of a sorted list keeps it sorted. */
  lemma SortedDropSecond<T>(s: seq<T>, key: T -> string)
    requires |s| > 1 && SortedBy(s, key)
    ensures SortedBy([s[0]] + s[2..], key)
  {
  }

  lemma SortedTail<T>(s: seq<T>, key: T -> string)
    requires |s| > 0 && SortedBy(s, key)
    ensures SortedBy(s[1..], key)
  {
  }

  /**
   * On a sorted input, dedup leaves a sorted list with no two elements
   * sharing a key, and each element that stays is the first of its key class.
   */
  lemma {:induction false} DedupBySorted<T>(s: seq<T>, key: T -> string)
    requires SortedBy(s, key)
    decreases |s|
    ensures var r := DedupBy(s, key);
      && SortedBy(r, key)
      && (forall i, j :: 0 <= i < j < |r| ==> key(r[i]) != key(r[j]))
      && (forall i :: 0 <= i < |r| ==>
            Select(s, key, key(r[i])) != [] && Select(s, key, key(r[i]))[0] == r[i])
  {
    var r := DedupBy(s, key);
    if |s| == 1 {
      assert Select(s, key, key(s[0])) == [s[0]] + Select([], key, key(s[0]));
    } else if |s| > 1 {
      if key(s[1]) == key(s[0]) {
        var t := [s[0]] + s[2..];
        SortedDropSecond(s, key);
        DedupBySorted(t, key);
        forall i | 0 <= i < |r|
          ensures Select(s, key, key(r[i])) != [] && Select(s, key, key(r[i]))[0] == r[i]
        {
          var k := key(r[i]);
          assert s[1..] == [s[1]] + s[2..];
          assert t[1..] == s[2..];
          assert Select(s, key, k) == (if key(s[0]) == k then [s[0]] else []) + Select(s[1..], key, k);
          assert Select(t, key, k) == (if key(s[0]) == k then [s[0]] else []) + Select(s[2..], key, k);
          assert Select(s[1..], key, k) == (if key(s[1]) == k then [s[1]] else []) + Select(s[2..], key, k);
        }
      } else {
        SortedTail(s, key);
        DedupBySorted(s[1..], key);
        DedupBySubset(s[1..], key);
        var d := DedupBy(s[1..], key);
        // No element after the first shares its key.
        forall j | 0 <= j < |d| ensures LexLe(key(s[0]), key(d[j])) && key(d[j]) != key(s[0]) {
          assert d[j] in multiset(s[1..]);
          var m :| 0 <= m < |s[1..]| && s[1..][m] == d[j];
          assert s[m + 1] == d[j];
          if key(d[j]) == key(s[0]) {
            if m > 0 {
              LexLeTransitive(key(s[1]), key(s[m + 1]), key(s[0]));
            }
            LexLeAntisymmetric(key(s[0]), key(s[1]));
          }
        }
        assert r == [s[0]] + d;
        forall i, j | 0 <= i < j < |r| ensures LexLe(key(r[i]), key(r[j])) && key(r[i]) != key(r[j]) {
          if i == 0 {
            assert r[j] == d[j - 1];
          } else {
            assert r[i] == d[i - 1] && r[j] == d[j - 1];
          }
        }
        forall i | 0 <= i < |r|
          ensures Select(s, key, key(r[i])) != [] && Select(s, key, key(r[i]))[0] == r[i]
        {
          var k := key(r[i]);
          assert Select(s, key, k) == (if key(s[0]) == k then [s[0]] else []) + Select(s[1..], key, k);
          if i > 0 {
            assert r[i] == d[i - 1];
          }
        }
      }
    }
  }

  /**
   * The whole pipeline `rev`, stable sort, dedup: the result is sorted, its
   * keys are pairwise distinct, every key of the input is present and every
   * element comes from the input.
   */
  lemma ReverseSortDedup<T>(p: seq<T>, key: T -> string)
    ensures var r := DedupBy(SortBy(Reverse(p), key), key);
      && SortedBy(r, key)
      && (forall i, j :: 0 <= i < j < |r| ==> key(r[i]) != key(r[j]))
      && (forall x :: x in p ==> exists i :: 0 <= i < |r| && key(r[i]) == key(x))
      && (forall i :: 0 <= i < |r| ==> r[i] in p)
  {
    var q := Reverse(p);
    var s := SortBy(q, key);
    var r := DedupBy(s, key);
    ReverseFacts(p);
    SortBySortsAndPermutes(q, key);
    DedupBySorted(s, key);
    DedupBySubset(s, key);
    DedupByKeepsKeys(s, key);
    forall x | x in p ensures exists i :: 0 <= i < |r| && key(r[i]) == key(x) {
      assert x in multiset(q);
      assert x in s;
      var y :| y in r && key(y) == key(x);
      var i :| 0 <= i < |r| && r[i] == y;
    }
    forall i | 0 <= i < |r| ensures r[i] in p {
      assert r[i] in multiset(r);
      assert r[i] in multiset(q);
    }
  }

  /**
   * Of the elements of `p` that share a key, the pipeline `rev`, stable
   * sort, dedup keeps the LAST one in the order of `p`.
   */
  lemma ReverseSortDedupKeepsLast<T>(p: seq<T>, key: T -> string)
    ensures var r := DedupBy(SortBy(Reverse(p), key), key);
      forall i :: 0 <= i < |r| ==>
        var same := Select(p, key, key(r[i])); same != [] && r[i] == same[|same| - 1]
  {
    var q := Reverse(p);
    var s := SortBy(q, key);
    var r := DedupBy(s, key);
    SortBySortsAndPermutes(q, key);
    DedupBySorted(s, key);
    forall i | 0 <= i < |r|
      ensures var same := Select(p, key, key(r[i])); same != [] && r[i] == same[|same| - 1]
    {
      var k := key(r[i]);
      var same := Select(p, key, k);
      assert Select(s, key, k) != [] && Select(s, key, k)[0] == r[i];
      SortByStable(q, key, k);
      SelectReverse(p, key, k);
      ReverseFacts(same);
      assert Select(q, key, k) == Reverse(same);
    }
  }
}
