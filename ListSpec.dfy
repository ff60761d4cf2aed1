/**
 * The abstract meaning of the kernel's doubly linked list (lib/kernel/list.c).
 * A list is the sequence of its interior elements, front to back; each list
 * operation is described here by a function on such sequences. `less` plays
 * the role of list_less_func: less(a, b) holds when a orders strictly before b.
 */
module ListSpec {

  /** No element occurs twice: a list_elem is linked into one place only. */
  ghost predicate Distinct<T>(s: seq<T>) {
    forall i, j :: 0 <= i < j < |s| ==> s[i] != s[j]
  }

  /**
   * A term naming three values. The transitivity facts of StrictWeakOrder
   * are triggered by it, so a proof uses them only at the triples it names
   * (through Transitive).
   */
  ghost predicate Triple<T>(x: T, y: T, z: T) {
    true
  }

  /** `less` is a strict weak order, as every comparator of the kernel is (each compares one integer key). */
  ghost predicate StrictWeakOrder<T(!new)>(less: (T, T) -> bool) {
    && (forall x :: !less(x, x))
    && (forall x, y, z {:trigger Triple(x, y, z)} :: less(x, y) && less(y, z) ==> less(x, z))
    && (forall x, y, z {:trigger Triple(x, y, z)} :: !less(y, x) && !less(z, y) ==> !less(z, x))
  }

  /** The two transitivity facts of a strict weak order at one triple. */
  lemma Transitive<T(!new)>(less: (T, T) -> bool, x: T, y: T, z: T)
    requires StrictWeakOrder(less)
    ensures less(x, y) && less(y, z) ==> less(x, z)
    ensures !less(y, x) && !less(z, y) ==> !less(z, x)
  {
    assert Triple(x, y, z);
  }

  /** Neither orders before the other: what list_unique treats as "equal". */
  predicate Equiv<T>(less: (T, T) -> bool, x: T, y: T) {
    !less(x, y) && !less(y, x)
  }

  /** No later element orders before an earlier one. */
  ghost predicate Sorted<T>(s: seq<T>, less: (T, T) -> bool) {
    forall i, j :: 0 <= i < j < |s| ==> !less(s[j], s[i])
  }

  lemma SortedTail<T>(s: seq<T>, less: (T, T) -> bool)
    requires Sorted(s, less) && s != []
    ensures Sorted(s[1..], less)
  {
    forall i, j | 0 <= i < j < |s| - 1 ensures !less(s[1..][j], s[1..][i]) {
      assert s[1..][j] == s[j + 1] && s[1..][i] == s[i + 1];
    }
  }

  /** No element orders before its predecessor: the test made by is_sorted and find_end_of_run. */
  ghost predicate AdjSorted<T>(s: seq<T>, less: (T, T) -> bool) {
    forall i, j :: 0 <= i && j == i + 1 && j < |s| ==> !less(s[j], s[i])
  }

  /** The element at index k orders before its predecessor: where find_end_of_run ends a run. */
  ghost predicate DescentAt<T>(s: seq<T>, k: int, less: (T, T) -> bool) {
    0 < k < |s| && less(s[k], s[k - 1])
  }

  lemma {:induction false} AdjSortedIsSorted<T(!new)>(s: seq<T>, less: (T, T) -> bool)
    requires StrictWeakOrder(less)
    requires AdjSorted(s, less)
    ensures Sorted(s, less)
  {
    if |s| > 1 {
      var t := s[..|s| - 1];
      assert AdjSorted(t, less) by {
        forall i | 0 < i < |t| ensures !less(t[i], t[i - 1]) {
          assert t[i] == s[i] && t[i - 1] == s[i - 1];
        }
      }
      AdjSortedIsSorted(t, less);
      forall i, j | 0 <= i < j < |s| ensures !less(s[j], s[i]) {
        if j < |s| - 1 {
          assert s[i] == t[i] && s[j] == t[j];
        } else if i < j - 1 {
          assert s[i] == t[i] && s[j - 1] == t[j - 1];
          assert !less(t[j - 1], t[i]);
          assert !less(s[j], s[j - 1]);
          Transitive(less, s[i], s[j - 1], s[j]);
        }
      }
    }
  }

  /** A run that never descends grows by one element that does not order before its predecessor. */
  lemma AdjSortedExtend<T>(s: seq<T>, i: nat, k: nat, less: (T, T) -> bool)
    requires i < k < |s|
    requires AdjSorted(s[i..k], less) && !less(s[k], s[k - 1])
    ensures AdjSorted(s[i..k + 1], less)
  {
    var t, u := s[i..k + 1], s[i..k];
    forall j | 0 < j < |t| ensures !less(t[j], t[j - 1]) {
      if j < |u| {
        assert t[j] == u[j] && t[j - 1] == u[j - 1];
      }
    }
  }

  lemma SortedIsAdjSorted<T>(s: seq<T>, less: (T, T) -> bool)
    requires Sorted(s, less)
    ensures AdjSorted(s, less)
  {
    forall i | 0 < i < |s| ensures !less(s[i], s[i - 1]) {
      assert 0 <= i - 1 < i < |s|;
    }
  }

  // ---------------------------------------------------------------------
  // Descents: the places where a run of nondecreasing elements ends.
  // ---------------------------------------------------------------------

  /** The number of adjacent pairs whose second element orders before the first. */
  function Descents<T>(s: seq<T>, less: (T, T) -> bool): nat {
    if |s| < 2 then 0 else (if less(s[1], s[0]) then 1 else 0) + Descents(s[1..], less)
  }

  /** Whether the last element of `a` and the first of `b` form a descent when `a + b` is built. */
  function Junction<T>(a: seq<T>, b: seq<T>, less: (T, T) -> bool): nat {
    if a != [] && b != [] && less(b[0], a[|a| - 1]) then 1 else 0
  }

  lemma {:induction false} DescentsConcat<T>(a: seq<T>, b: seq<T>, less: (T, T) -> bool)
    ensures Descents(a + b, less) == Descents(a, less) + Descents(b, less) + Junction(a, b, less)
  {
    if a == [] {
      assert a + b == b;
    } else if |a| == 1 {
      assert (a + b)[1..] == b;
    } else {
      assert (a + b)[1..] == a[1..] + b;
      DescentsConcat(a[1..], b, less);
    }
  }

  lemma {:induction false} NoDescentsIsAdjSorted<T>(s: seq<T>, less: (T, T) -> bool)
    ensures Descents(s, less) == 0 <==> AdjSorted(s, less)
  {
    if |s| >= 2 {
      NoDescentsIsAdjSorted(s[1..], less);
      if AdjSorted(s, less) {
        assert AdjSorted(s[1..], less) by {
          forall i | 0 < i < |s| - 1 ensures !less(s[1..][i], s[1..][i - 1]) {
            assert s[1..][i] == s[i + 1] && s[1..][i - 1] == s[i];
          }
        }
      }
      if Descents(s, less) == 0 {
        forall i | 0 < i < |s| ensures !less(s[i], s[i - 1]) {
          if i > 1 {
            assert s[i] == s[1..][i - 1] && s[i - 1] == s[1..][i - 2];
          }
        }
      }
    }
  }

  // ---------------------------------------------------------------------
  // Equivalence classes, for stating stability.
  // ---------------------------------------------------------------------

  /** The elements of `s` equivalent to `x`, in their order in `s`. */
  function Class<T>(s: seq<T>, x: T, less: (T, T) -> bool): seq<T> {
    if s == [] then []
    else (if Equiv(less, s[0], x) then [s[0]] else []) + Class(s[1..], x, less)
  }

  lemma {:induction false} ClassConcat<T>(a: seq<T>, b: seq<T>, x: T, less: (T, T) -> bool)
    ensures Class(a + b, x, less) == Class(a, x, less) + Class(b, x, less)
  {
    if a == [] {
      assert a + b == b;
    } else {
      var h := if Equiv(less, a[0], x) then [a[0]] else [];
      assert (a + b)[0] == a[0] && (a + b)[1..] == a[1..] + b;
      assert Class(a + b, x, less) == h + Class(a[1..] + b, x, less);
      ClassConcat(a[1..], b, x, less);
      assert Class(a, x, less) == h + Class(a[1..], x, less);
    }
  }

  /** When every element of `s` orders strictly after `x`, no element is equivalent to it. */
  lemma {:induction false} ClassOfGreater<T>(s: seq<T>, x: T, less: (T, T) -> bool)
    requires forall k :: 0 <= k < |s| ==> less(x, s[k])
    ensures Class(s, x, less) == []
  {
    if s != [] {
      ClassOfGreater(s[1..], x, less);
    }
  }

  lemma {:induction false} ClassMultiset<T>(s: seq<T>, x: T, less: (T, T) -> bool)
    ensures multiset(Class(s, x, less)) <= multiset(s)
  {
    if s != [] {
      ClassMultiset(s[1..], x, less);
      assert s == [s[0]] + s[1..];
    }
  }

  // ---------------------------------------------------------------------
  // list_insert_ordered
  // ---------------------------------------------------------------------

  /** Where list_insert_ordered puts `x`: before the first element it orders strictly before. */
  function InsertPos<T>(s: seq<T>, x: T, less: (T, T) -> bool): (j: nat)
    ensures j <= |s|
    ensures forall k :: 0 <= k < j ==> !less(x, s[k])
    ensures j < |s| ==> less(x, s[j])
  {
    if s == [] then 0
    else if less(x, s[0]) then 0
    else 1 + InsertPos(s[1..], x, less)
  }

  /** The list after list_insert_ordered(x). */
  function InsertionOf<T>(s: seq<T>, x: T, less: (T, T) -> bool): seq<T> {
    s[..InsertPos(s, x, less)] + [x] + s[InsertPos(s, x, less)..]
  }

  /** Ordered insertion adds exactly `x`. */
  lemma InsertionPerm<T>(s: seq<T>, x: T, less: (T, T) -> bool)
    ensures multiset(InsertionOf(s, x, less)) == multiset(s) + multiset{x}
    ensures |InsertionOf(s, x, less)| == |s| + 1
  {
    var j := InsertPos(s, x, less);
    assert s == s[..j] + s[j..];
  }

  /** Where the elements of s[..j] + [x] + s[j..] come from. */
  lemma InsertionAt<T>(s: seq<T>, j: nat, x: T)
    requires j <= |s|
    ensures |s[..j] + [x] + s[j..]| == |s| + 1
    ensures (s[..j] + [x] + s[j..])[j] == x
    ensures forall i :: 0 <= i < j ==> (s[..j] + [x] + s[j..])[i] == s[i]
    ensures forall i :: j < i <= |s| ==> (s[..j] + [x] + s[j..])[i] == s[i - 1]
  {
  }

  /** On a sorted list, ordered insertion keeps it sorted; `x` follows every element equivalent to it. */
  lemma InsertionSorted<T(!new)>(s: seq<T>, x: T, less: (T, T) -> bool)
    requires StrictWeakOrder(less)
    requires Sorted(s, less)
    ensures Sorted(InsertionOf(s, x, less), less)
    ensures forall k :: InsertPos(s, x, less) <= k < |s| ==> less(x, s[k])
  {
    var j := InsertPos(s, x, less);
    var r := s[..j] + [x] + s[j..];
    forall k | j <= k < |s| ensures less(x, s[k]) {
      if k > j {
        assert !less(s[k], s[j]);
        Transitive(less, s[j], s[k], x);
      }
    }
    InsertionAt(s, j, x);
    forall a, b | 0 <= a < b < |r| ensures !less(r[b], r[a]) {
      if b == j {
        assert r[a] == s[a];
      } else if a == j {
        assert r[b] == s[b - 1];
        Transitive(less, x, s[b - 1], x);
      } else {
        var a', b' := if a < j then a else a - 1, if b < j then b else b - 1;
        assert r[a] == s[a'] && r[b] == s[b'];
      }
    }
  }

  /** Stability of ordered insertion: among elements equivalent to `x`, the new one comes last (FIFO). */
  lemma InsertionStable<T(!new)>(s: seq<T>, x: T, less: (T, T) -> bool)
    requires StrictWeakOrder(less)
    requires Sorted(s, less)
    ensures Class(InsertionOf(s, x, less), x, less) == Class(s, x, less) + [x]
  {
    var j := InsertPos(s, x, less);
    InsertionSorted(s, x, less);
    ClassConcat(s[..j] + [x], s[j..], x, less);
    ClassConcat(s[..j], [x], x, less);
    ClassConcat(s[..j], s[j..], x, less);
    assert s == s[..j] + s[j..];
    assert Class([x], x, less) == [x];
    ClassOfGreater(s[j..], x, less);
  }

  // ---------------------------------------------------------------------
  // inplace_merge
  // ---------------------------------------------------------------------

  /**
   * The merge performed by inplace_merge: the head of the first run is taken
   * unless the head of the second run orders strictly before it.
   */
  function Merged<T>(a: seq<T>, b: seq<T>, less: (T, T) -> bool): (m: seq<T>)
    ensures |m| == |a| + |b|
    decreases |a| + |b|
  {
    if a == [] then b
    else if b == [] then a
    else if !less(b[0], a[0]) then [a[0]] + Merged(a[1..], b, less)
    else [b[0]] + Merged(a, b[1..], less)
  }

  lemma {:induction false} MergedPerm<T>(a: seq<T>, b: seq<T>, less: (T, T) -> bool)
    ensures multiset(Merged(a, b, less)) == multiset(a) + multiset(b)
    decreases |a| + |b|
  {
    if a != [] && b != [] {
      if !less(b[0], a[0]) {
        var rest := Merged(a[1..], b, less);
        MergedPerm(a[1..], b, less);
        assert Merged(a, b, less) == [a[0]] + rest;
        assert a == [a[0]] + a[1..];
        assert multiset(a) == multiset{a[0]} + multiset(a[1..]);
        assert multiset([a[0]] + rest) == multiset{a[0]} + multiset(rest);
      } else {
        var rest := Merged(a, b[1..], less);
        MergedPerm(a, b[1..], less);
        assert Merged(a, b, less) == [b[0]] + rest;
        assert b == [b[0]] + b[1..];
        assert multiset(b) == multiset{b[0]} + multiset(b[1..]);
        assert multiset([b[0]] + rest) == multiset{b[0]} + multiset(rest);
      }
    }
  }

  /** The first element of a merge is the head of one of the two runs. */
  lemma MergedHead<T>(a: seq<T>, b: seq<T>, less: (T, T) -> bool)
    requires a != [] || b != []
    ensures Merged(a, b, less) != []
    ensures Merged(a, b, less)[0] == (if a == [] then b[0] else if b == [] || !less(b[0], a[0]) then a[0] else b[0])
  {
  }

  /** Every element of a sorted sequence is at least its head's lower bound. */
  lemma SortedAbove<T(!new)>(s: seq<T>, h: T, less: (T, T) -> bool)
    requires StrictWeakOrder(less)
    requires Sorted(s, less) && s != [] && !less(s[0], h)
    ensures forall y :: y in s ==> !less(y, h)
  {
    forall y | y in s ensures !less(y, h) {
      var i :| 0 <= i < |s| && s[i] == y;
      if i > 0 {
        Transitive(less, h, s[0], s[i]);
      }
    }
  }

  /** A lower bound put in front of a sorted sequence keeps it sorted. */
  lemma SortedCons<T>(h: T, s: seq<T>, less: (T, T) -> bool)
    requires Sorted(s, less)
    requires forall y :: y in s ==> !less(y, h)
    ensures Sorted([h] + s, less)
  {
    var m := [h] + s;
    forall p, q | 0 <= p < q < |m| ensures !less(m[q], m[p]) {
      assert m[q] == s[q - 1];
      if p > 0 {
        assert m[p] == s[p - 1];
      } else {
        assert s[q - 1] in s;
      }
    }
  }

  /** The merge holds exactly the elements of its two runs. */
  lemma MergedIn<T>(a: seq<T>, b: seq<T>, less: (T, T) -> bool)
    ensures forall y :: y in Merged(a, b, less) <==> y in a || y in b
  {
    MergedPerm(a, b, less);
    forall y ensures y in Merged(a, b, less) <==> y in a || y in b {
      assert y in Merged(a, b, less) <==> y in multiset(Merged(a, b, less));
      assert y in a <==> y in multiset(a);
      assert y in b <==> y in multiset(b);
    }
  }

  /** Merging two sorted runs gives a sorted run. */
  lemma {:induction false} MergedSorted<T(!new)>(a: seq<T>, b: seq<T>, less: (T, T) -> bool)
    requires StrictWeakOrder(less)
    requires Sorted(a, less) && Sorted(b, less)
    ensures Sorted(Merged(a, b, less), less)
    decreases |a| + |b|
  {
    if a != [] && b != [] {
      if !less(b[0], a[0]) {
        MergedSorted(a[1..], b, less);
        MergedIn(a[1..], b, less);
        SortedAbove(a, a[0], less);
        SortedAbove(b, a[0], less);
        forall y | y in a[1..] ensures y in a {
        }
        SortedCons(a[0], Merged(a[1..], b, less), less);
      } else {
        Transitive(less, a[0], b[0], a[0]);
        MergedSorted(a, b[1..], less);
        MergedIn(a, b[1..], less);
        SortedAbove(a, b[0], less);
        SortedAbove(b, b[0], less);
        forall y | y in b[1..] ensures y in b {
        }
        SortedCons(b[0], Merged(a, b[1..], less), less);
      }
    }
  }

  /**
   * Stability of the merge: the elements equivalent to any `x` come out in
   * their order, those of the first run before those of the second.
   */
  lemma {:induction false} MergedStable<T(!new)>(a: seq<T>, b: seq<T>, x: T, less: (T, T) -> bool)
    requires StrictWeakOrder(less)
    requires Sorted(a, less)
    ensures Class(Merged(a, b, less), x, less) == Class(a, x, less) + Class(b, x, less)
    decreases |a| + |b|
  {
    if a == [] {
    } else if b == [] {
      assert Class(b, x, less) == [];
    } else if !less(b[0], a[0]) {
      assert Sorted(a[1..], less) by {
        forall i, j | 0 <= i < j < |a[1..]| ensures !less(a[1..][j], a[1..][i]) {
          assert a[1..][j] == a[j + 1] && a[1..][i] == a[i + 1];
        }
      }
      MergedStable(a[1..], b, x, less);
      ClassConcat([a[0]], Merged(a[1..], b, less), x, less);
      ClassConcat([a[0]], a[1..], x, less);
      assert [a[0]] + a[1..] == a;
    } else {
      MergedStable(a, b[1..], x, less);
      ClassConcat([b[0]], Merged(a, b[1..], less), x, less);
      ClassConcat([b[0]], b[1..], x, less);
      assert [b[0]] + b[1..] == b;
      if Equiv(less, b[0], x) {
        // every element of `a` orders strictly after b[0], hence after x
        Transitive(less, a[0], x, b[0]);
        forall k | 0 <= k < |a| ensures less(x, a[k]) {
          if k > 0 {
            assert !less(a[k], a[0]);
            Transitive(less, a[0], a[k], x);
          }
        }
        ClassOfGreater(a, x, less);
      }
    }
  }

  // ---------------------------------------------------------------------
  // list_reverse
  // ---------------------------------------------------------------------

  function Reversed<T>(s: seq<T>): seq<T> {
    if s == [] then [] else Reversed(s[1..]) + [s[0]]
  }

  lemma {:induction false} ReversedAt<T>(s: seq<T>)
    ensures |Reversed(s)| == |s|
    ensures forall k :: 0 <= k < |s| ==> Reversed(s)[k] == s[|s| - 1 - k]
  {
    if s != [] {
      ReversedAt(s[1..]);
    }
  }

  /** Reversing twice gives the list back. */
  lemma ReversedTwice<T>(s: seq<T>)
    ensures Reversed(Reversed(s)) == s
  {
    ReversedAt(s);
    ReversedAt(Reversed(s));
  }

  // ---------------------------------------------------------------------
  // list_unique
  // ---------------------------------------------------------------------

  /** What list_unique keeps of `s` when the last element it kept is `last`. */
  function KeptAfter<T>(last: T, s: seq<T>, less: (T, T) -> bool): seq<T> {
    if s == [] then []
    else if Equiv(less, last, s[0]) then KeptAfter(last, s[1..], less)
    else [s[0]] + KeptAfter(s[0], s[1..], less)
  }

  /** What list_unique removes from `s` when the last element it kept is `last`. */
  function DroppedAfter<T>(last: T, s: seq<T>, less: (T, T) -> bool): seq<T> {
    if s == [] then []
    else if Equiv(less, last, s[0]) then [s[0]] + DroppedAfter(last, s[1..], less)
    else DroppedAfter(s[0], s[1..], less)
  }

  /** The list after list_unique: the first of each run of equal elements. */
  function Deduped<T>(s: seq<T>, less: (T, T) -> bool): seq<T> {
    if s == [] then [] else [s[0]] + KeptAfter(s[0], s[1..], less)
  }

  /** The elements list_unique removes, in the order it appends them to `duplicates`. */
  function Dropped<T>(s: seq<T>, less: (T, T) -> bool): seq<T> {
    if s == [] then [] else DroppedAfter(s[0], s[1..], less)
  }

  /** No two neighbours are equal. */
  ghost predicate NoAdjacentEquiv<T>(s: seq<T>, less: (T, T) -> bool) {
    forall i :: 0 < i < |s| ==> !Equiv(less, s[i - 1], s[i])
  }

  lemma {:induction false} KeptDroppedPerm<T>(last: T, s: seq<T>, less: (T, T) -> bool)
    ensures multiset(KeptAfter(last, s, less)) + multiset(DroppedAfter(last, s, less)) == multiset(s)
  {
    if s != [] {
      assert s == [s[0]] + s[1..];
      if Equiv(less, last, s[0]) {
        KeptDroppedPerm(last, s[1..], less);
      } else {
        KeptDroppedPerm(s[0], s[1..], less);
      }
    }
  }

  /** Nothing is lost: the kept and the removed elements together are the old list. */
  lemma DedupedPerm<T>(s: seq<T>, less: (T, T) -> bool)
    ensures multiset(Deduped(s, less)) + multiset(Dropped(s, less)) == multiset(s)
  {
    if s != [] {
      KeptDroppedPerm(s[0], s[1..], less);
      assert s == [s[0]] + s[1..];
    }
  }

  lemma {:induction false} KeptAfterNoAdjacent<T>(last: T, s: seq<T>, less: (T, T) -> bool)
    ensures NoAdjacentEquiv([last] + KeptAfter(last, s, less), less)
  {
    if s != [] {
      if Equiv(less, last, s[0]) {
        KeptAfterNoAdjacent(last, s[1..], less);
      } else {
        KeptAfterNoAdjacent(s[0], s[1..], less);
        var t := [s[0]] + KeptAfter(s[0], s[1..], less);
        assert [last] + KeptAfter(last, s, less) == [last] + t;
        forall i | 0 < i < |[last] + t| ensures !Equiv(less, ([last] + t)[i - 1], ([last] + t)[i]) {
          if i > 1 {
            assert ([last] + t)[i - 1] == t[i - 2] && ([last] + t)[i] == t[i - 1];
          }
        }
      }
    }
  }

  /** After list_unique no two neighbours are equal. */
  lemma DedupedNoAdjacent<T>(s: seq<T>, less: (T, T) -> bool)
    ensures NoAdjacentEquiv(Deduped(s, less), less)
  {
    if s != [] {
      KeptAfterNoAdjacent(s[0], s[1..], less);
    }
  }

  lemma {:induction false} KeptAfterOfUnique<T>(last: T, s: seq<T>, less: (T, T) -> bool)
    requires NoAdjacentEquiv([last] + s, less)
    ensures KeptAfter(last, s, less) == s
  {
    if s != [] {
      assert ([last] + s)[0] == last && ([last] + s)[1] == s[0];
      assert NoAdjacentEquiv([s[0]] + s[1..], less) by {
        forall i | 0 < i < |[s[0]] + s[1..]|
          ensures !Equiv(less, ([s[0]] + s[1..])[i - 1], ([s[0]] + s[1..])[i])
        {
          assert ([s[0]] + s[1..])[i - 1] == ([last] + s)[i] && ([s[0]] + s[1..])[i] == ([last] + s)[i + 1];
        }
      }
      KeptAfterOfUnique(s[0], s[1..], less);
    }
  }

  /** list_unique is idempotent: a second pass keeps everything. */
  lemma DedupedIdempotent<T>(s: seq<T>, less: (T, T) -> bool)
    ensures Deduped(Deduped(s, less), less) == Deduped(s, less)
  {
    var d := Deduped(s, less);
    DedupedNoAdjacent(s, less);
    if d != [] {
      assert d == [d[0]] + d[1..];
      KeptAfterOfUnique(d[0], d[1..], less);
    }
  }

  // ---------------------------------------------------------------------
  // list_splice
  // ---------------------------------------------------------------------

  /**
   * The list after list_splice(before, first, last) when all three are in
   * this list: the elements at [f, l) move to just before position b (|s|
   * stands for the tail). Unless the range is empty, `before` must lie
   * outside [first, last).
   */
  function Spliced<T>(s: seq<T>, b: nat, f: nat, l: nat): seq<T>
    requires f <= l <= |s| && b <= |s|
    requires f == l || b < f || l <= b
  {
    if f == l then s
    else if b < f then s[..b] + s[f..l] + s[b..f] + s[l..]
    else s[..f] + s[l..b] + s[f..l] + s[b..]
  }

  /** Splicing within one list only moves elements. */
  lemma SplicedPerm<T>(s: seq<T>, b: nat, f: nat, l: nat)
    requires f <= l <= |s| && b <= |s|
    requires f == l || b < f || l <= b
    ensures multiset(Spliced(s, b, f, l)) == multiset(s)
  {
    if f < l {
      if b < f {
        SplitMultiset(s, b, f, l);
      } else {
        SplitMultiset(s, f, l, b);
      }
    }
  }

  lemma SplitMultiset<T>(s: seq<T>, i: nat, j: nat, k: nat)
    requires i <= j <= k <= |s|
    ensures multiset(s) == multiset(s[..i]) + multiset(s[i..j]) + multiset(s[j..k]) + multiset(s[k..])
  {
    assert s[..j] == s[..i] + s[i..j];
    assert s[..k] == s[..j] + s[j..k];
    assert s == s[..k] + s[k..];
  }

  /**
   * s[m] is a maximum of s[..k] as list_max scans it: no later element
   * beats it, and under a strict weak order none beats it at all and every
   * earlier element is strictly below it (the first maximum is kept).
   */
  ghost predicate MaxOfPrefix<T(!new)>(s: seq<T>, m: nat, k: nat, less: (T, T) -> bool) {
    && m < k <= |s|
    && (forall j :: m < j < k ==> !less(s[m], s[j]))
    && (StrictWeakOrder(less) ==> forall j :: 0 <= j < k ==> !less(s[m], s[j]))
    && (StrictWeakOrder(less) ==> forall j :: 0 <= j < m ==> less(s[j], s[m]))
  }

  /** One step of list_max's scan: the maximum moves to s[k] exactly when it beats the current one. */
  lemma MaxStep<T(!new)>(s: seq<T>, m: nat, k: nat, less: (T, T) -> bool)
    requires MaxOfPrefix(s, m, k, less) && k < |s|
    ensures MaxOfPrefix(s, if less(s[m], s[k]) then k else m, k + 1, less)
  {
    if StrictWeakOrder(less) && less(s[m], s[k]) {
      forall j | 0 <= j < k ensures !less(s[k], s[j]) && less(s[j], s[k]) {
        Transitive(less, s[m], s[k], s[j]);
        Transitive(less, s[j], s[m], s[k]);
        Transitive(less, s[k], s[j], s[m]);
      }
    }
  }

  /** The mirror of MaxOfPrefix for list_min. */
  ghost predicate MinOfPrefix<T(!new)>(s: seq<T>, m: nat, k: nat, less: (T, T) -> bool) {
    && m < k <= |s|
    && (forall j :: m < j < k ==> !less(s[j], s[m]))
    && (StrictWeakOrder(less) ==> forall j :: 0 <= j < k ==> !less(s[j], s[m]))
    && (StrictWeakOrder(less) ==> forall j :: 0 <= j < m ==> less(s[m], s[j]))
  }

  /** One step of list_min's scan. */
  lemma MinStep<T(!new)>(s: seq<T>, m: nat, k: nat, less: (T, T) -> bool)
    requires MinOfPrefix(s, m, k, less) && k < |s|
    ensures MinOfPrefix(s, if less(s[k], s[m]) then k else m, k + 1, less)
  {
    if StrictWeakOrder(less) && less(s[k], s[m]) {
      forall j | 0 <= j < k ensures !less(s[j], s[k]) && less(s[k], s[j]) {
        Transitive(less, s[j], s[k], s[m]);
        Transitive(less, s[k], s[m], s[j]);
        Transitive(less, s[m], s[j], s[k]);
      }
    }
  }
}
