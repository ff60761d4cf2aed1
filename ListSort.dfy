/**
 * The progress of inplace_merge and list_sort (lib/kernel/list.c), stated
 * on sequences of elements. The loops of List.InplaceMerge and
 * List.MergePass keep the predicates defined here; each lemma is one step
 * of such a loop. The ranges a loop works on are named as pieces of the
 * list (pre + A + B + post) rather than as slices of it.
 */
module ListSort {
  import opened ListSpec

  // ---------------------------------------------------------------------
  // inplace_merge
  // ---------------------------------------------------------------------

  /**
   * inplace_merge of the runs A and B, which lie between pre and post,
   * after it has settled `out`: the unmerged rests aR and bR follow it, and
   * merging them completes the merge of A with B.
   */
  ghost predicate MergeProgress<T>(pre: seq<T>, A: seq<T>, B: seq<T>, post: seq<T>, e: seq<T>,
                                   out: seq<T>, aR: seq<T>, bR: seq<T>, less: (T, T) -> bool) {
    && e == pre + out + aR + bR + post
    && |out| + |aR| + |bR| == |A| + |B|
    && out + Merged(aR, bR, less) == Merged(A, B, less)
  }

  lemma MergeStart<T>(pre: seq<T>, A: seq<T>, B: seq<T>, post: seq<T>, less: (T, T) -> bool)
    ensures MergeProgress(pre, A, B, post, pre + A + B + post, [], A, B, less)
  {
    assert pre + A + B + post == pre + [] + A + B + post;
  }

  /** The heads of the two rests, at the start of the first rest and of the second. */
  lemma MergeHeads<T>(pre: seq<T>, out: seq<T>, aR: seq<T>, bR: seq<T>, post: seq<T>)
    requires aR != [] && bR != []
    ensures |pre| + |out| + |aR| < |pre + out + aR + bR + post|
    ensures (pre + out + aR + bR + post)[|pre| + |out|] == aR[0]
    ensures (pre + out + aR + bR + post)[|pre| + |out| + |aR|] == bR[0]
  {
    var e := (pre + out) + (aR + (bR + post));
    assert e == pre + out + aR + bR + post;
    assert e[|pre| + |out|] == (aR + (bR + post))[0];
    assert e[|pre| + |out| + |aR|] == (aR + (bR + post))[|aR|];
  }

  /** inplace_merge keeps the head of the first run in place and moves past it. */
  lemma MergeTakeFirst<T>(pre: seq<T>, A: seq<T>, B: seq<T>, post: seq<T>, e: seq<T>,
                          out: seq<T>, aR: seq<T>, bR: seq<T>, less: (T, T) -> bool)
    requires MergeProgress(pre, A, B, post, e, out, aR, bR, less)
    requires aR != [] && bR != [] && !less(bR[0], aR[0])
    ensures MergeProgress(pre, A, B, post, e, out + [aR[0]], aR[1..], bR, less)
  {
    assert aR == [aR[0]] + aR[1..];
    assert Merged(aR, bR, less) == [aR[0]] + Merged(aR[1..], bR, less);
    assert (out + [aR[0]]) + Merged(aR[1..], bR, less) == out + Merged(aR, bR, less);
    assert e == pre + (out + [aR[0]]) + aR[1..] + bR + post;
  }

  /** list_splice of the one element b, which follows A, to the front of A. */
  lemma SplicedOne<T>(X: seq<T>, A: seq<T>, b: T, Q: seq<T>, e: seq<T>)
    requires A != [] && e == X + A + [b] + Q
    ensures |X| < |X| + |A| < |e|
    ensures Spliced(e, |X|, |X| + |A|, |X| + |A| + 1) == X + [b] + A + Q
  {
    assert e[..|X|] == X;
    assert e[|X| + |A|..|X| + |A| + 1] == [b];
    assert e[|X|..|X| + |A|] == A;
    assert e[|X| + |A| + 1..] == Q;
  }

  /** After that splice, A's head follows b, and everything after the moved range stays in place. */
  lemma SplicedOneAfter<T>(X: seq<T>, A: seq<T>, b: T, Q: seq<T>, e: seq<T>, e': seq<T>)
    requires A != [] && e == (X + A + [b]) + Q && e' == (X + [b] + A) + Q
    ensures e'[|X| + 1] == A[0]
    ensures forall k :: |X| + |A| + 1 <= k < |e| ==> e'[k] == e[k]
  {
    assert e'[|X| + 1] == (X + [b] + A)[|X| + 1];
    forall k | |X| + |A| + 1 <= k < |e| ensures e'[k] == e[k] {
      assert e[k] == Q[k - (|X| + |A| + 1)] == e'[k];
    }
  }

  /**
   * inplace_merge takes the head of the second run: list_splice moves it
   * from index j, the start of the second rest, to index i, the start of
   * the first rest, and it joins `out`.
   */
  lemma MergeTakeSecond<T>(pre: seq<T>, A: seq<T>, B: seq<T>, post: seq<T>, e: seq<T>, e': seq<T>,
                           out: seq<T>, aR: seq<T>, bR: seq<T>, less: (T, T) -> bool, i: nat, j: nat)
    requires MergeProgress(pre, A, B, post, e, out, aR, bR, less)
    requires aR != [] && bR != [] && less(bR[0], aR[0])
    requires i == |pre| + |out| && j == i + |aR| && j < |e|
    requires e' == Spliced(e, i, j, j + 1)
    ensures MergeProgress(pre, A, B, post, e', out + [bR[0]], aR, bR[1..], less)
    ensures |e'| == |e| && e'[i + 1] == aR[0]
    ensures forall k :: j + 1 <= k < |e| ==> e'[k] == e[k]
  {
    TakeSecondShape(pre, out, aR, bR, post, e, e', i, j);
    MergedTakeSecond(out, aR, bR, Merged(A, B, less), less);
  }

  /** Moving the head of bR in front of aR, on the whole list e; e' is the list afterwards. */
  lemma TakeSecondShape<T>(pre: seq<T>, out: seq<T>, aR: seq<T>, bR: seq<T>, post: seq<T>, e: seq<T>, e': seq<T>, i: nat, j: nat)
    requires aR != [] && bR != [] && e == pre + out + aR + bR + post
    requires i == |pre| + |out| && j == i + |aR| && j < |e|
    requires e' == Spliced(e, i, j, j + 1)
    ensures e' == pre + (out + [bR[0]]) + aR + bR[1..] + post
    ensures |e'| == |e| && e'[i + 1] == aR[0]
    ensures forall k :: j + 1 <= k < |e| ==> e'[k] == e[k]
  {
    RegroupBefore(pre, out, aR, bR, post);
    SplicedOneAt(pre + out, aR, bR[0], bR[1..] + post, e, e', i, j);
    RegroupAfter(pre, out, aR, bR, post);
  }

  /** SplicedOne and SplicedOneAfter, for the splice of e at i, j and j + 1 that gives e'. */
  lemma SplicedOneAt<T>(X: seq<T>, A: seq<T>, b: T, Q: seq<T>, e: seq<T>, e': seq<T>, i: nat, j: nat)
    requires A != [] && e == X + A + [b] + Q && i == |X| && j == i + |A|
    requires e' == Spliced(e, i, j, j + 1)
    ensures e' == X + [b] + A + Q && |e'| == |e| && e'[i + 1] == A[0]
    ensures forall k :: j + 1 <= k < |e| ==> e'[k] == e[k]
  {
    SplicedOne(X, A, b, Q, e);
    SplicedOneAfter(X, A, b, Q, e, e');
  }

  /** The list before that splice, grouped around the moved element. */
  lemma RegroupBefore<T>(pre: seq<T>, out: seq<T>, aR: seq<T>, bR: seq<T>, post: seq<T>)
    requires bR != []
    ensures pre + out + aR + bR + post == (pre + out) + aR + [bR[0]] + (bR[1..] + post)
  {
    assert bR == [bR[0]] + bR[1..];
  }

  /** The list after that splice, grouped the same way. */
  lemma RegroupAfter<T>(pre: seq<T>, out: seq<T>, aR: seq<T>, bR: seq<T>, post: seq<T>)
    requires bR != []
    ensures pre + (out + [bR[0]]) + aR + bR[1..] + post == (pre + out) + [bR[0]] + aR + (bR[1..] + post)
  {
  }

  /** Taking the head of the second rest when it orders before the head of the first. */
  lemma MergedTakeSecond<T>(out: seq<T>, aR: seq<T>, bR: seq<T>, M: seq<T>, less: (T, T) -> bool)
    requires out + Merged(aR, bR, less) == M
    requires aR != [] && bR != [] && less(bR[0], aR[0])
    ensures (out + [bR[0]]) + Merged(aR, bR[1..], less) == M
  {
    assert Merged(aR, bR, less) == [bR[0]] + Merged(aR, bR[1..], less);
  }

  /** When either run is used up, the merge is complete. */
  lemma MergeEnd<T>(pre: seq<T>, A: seq<T>, B: seq<T>, post: seq<T>, e: seq<T>,
                    out: seq<T>, aR: seq<T>, bR: seq<T>, less: (T, T) -> bool)
    requires MergeProgress(pre, A, B, post, e, out, aR, bR, less)
    requires aR == [] || bR == []
    ensures e == pre + Merged(A, B, less) + post
  {
    if aR == [] {
      assert Merged(aR, bR, less) == bR;
      assert e == pre + (out + bR) + post;
    } else {
      assert Merged(aR, bR, less) == aR;
      assert e == pre + (out + aR) + post;
    }
  }

  /** Merging two runs in place only reorders the list. */
  lemma MergeMultiset<T>(pre: seq<T>, A: seq<T>, B: seq<T>, post: seq<T>, less: (T, T) -> bool)
    ensures multiset(pre + Merged(A, B, less) + post) == multiset(pre + A + B + post)
  {
    MergedPerm(A, B, less);
  }

  /**
   * Merging two runs that never descend gives a sorted range, and every
   * class of equivalent elements keeps its order in the whole list.
   */
  lemma MergeKeeps<T(!new)>(pre: seq<T>, A: seq<T>, B: seq<T>, post: seq<T>, less: (T, T) -> bool)
    requires StrictWeakOrder(less) && AdjSorted(A, less) && AdjSorted(B, less)
    ensures Sorted(Merged(A, B, less), less)
    ensures forall x :: Class(pre + Merged(A, B, less) + post, x, less) == Class(pre + A + B + post, x, less)
  {
    AdjSortedIsSorted(A, less);
    AdjSortedIsSorted(B, less);
    MergedSorted(A, B, less);
    forall x ensures Class(pre + Merged(A, B, less) + post, x, less) == Class(pre + A + B + post, x, less) {
      MergeClass(pre, A, B, post, x, less);
    }
  }

  lemma MergeClass<T(!new)>(pre: seq<T>, A: seq<T>, B: seq<T>, post: seq<T>, x: T, less: (T, T) -> bool)
    requires StrictWeakOrder(less) && Sorted(A, less)
    ensures Class(pre + Merged(A, B, less) + post, x, less) == Class(pre + A + B + post, x, less)
  {
    var M := Merged(A, B, less);
    var cp, ca, cb, cq := Class(pre, x, less), Class(A, x, less), Class(B, x, less), Class(post, x, less);
    MergedStable(A, B, x, less);
    ClassAround(pre, M, post, x, less);
    ClassAround(pre + A, B, post, x, less);
    ClassConcat(pre, A, x, less);
    Regroup4(cp, ca, cb, cq);
  }

  lemma Regroup4<T>(a: seq<T>, b: seq<T>, c: seq<T>, d: seq<T>)
    ensures a + (b + c) + d == a + b + c + d
  {
  }

  /** The class of x in a list is its class in each of three consecutive parts, in order. */
  lemma ClassAround<T>(P: seq<T>, X: seq<T>, Q: seq<T>, x: T, less: (T, T) -> bool)
    ensures Class(P + X + Q, x, less) == Class(P, x, less) + Class(X, x, less) + Class(Q, x, less)
  {
    ClassConcat(P + X, Q, x, less);
    ClassConcat(P, X, x, less);
  }

  // ---------------------------------------------------------------------
  // list_sort
  // ---------------------------------------------------------------------

  /**
   * One pass of list_sort over the list s0, after the runs of D0 (a prefix
   * of s0) have been merged in pairs into D; `rest` is the untouched rest
   * and `cnt` counts the merged pairs so far. A new run starts where rest
   * starts, and each merge removed at least one descent.
   */
  ghost predicate SortPass<T>(s0: seq<T>, D: seq<T>, D0: seq<T>, rest: seq<T>, cnt: nat, less: (T, T) -> bool) {
    && s0 == D0 + rest
    && |D| == |D0|
    && (cnt == 0 <==> D0 == [])
    && (D0 != [] && rest != [] ==> less(rest[0], D0[|D0| - 1]))
    && Descents(D, less) + cnt <= Descents(D0, less)
    && (cnt == 1 ==> AdjSorted(D, less))
  }

  lemma SortPassStart<T>(s0: seq<T>, less: (T, T) -> bool)
    ensures SortPass(s0, [], [], s0, 0, less)
  {
    assert s0 == [] + s0;
  }

  /** A descent anywhere means at least one descent. */
  lemma DescentCounts<T>(s: seq<T>, k: nat, less: (T, T) -> bool)
    requires 0 < k < |s| && less(s[k], s[k - 1])
    ensures Descents(s, less) >= 1
  {
    NoDescentsIsAdjSorted(s, less);
  }

  /**
   * The pass merges the next two runs A and B, which meet at a descent; the
   * run after them (if any) starts at a descent too.
   */
  lemma SortPassMerge<T(!new)>(s0: seq<T>, D: seq<T>, D0: seq<T>, all: seq<T>, A: seq<T>, B: seq<T>, rest: seq<T>,
                               cnt: nat, less: (T, T) -> bool)
    requires StrictWeakOrder(less)
    requires SortPass(s0, D, D0, all, cnt, less) && all == A + B + rest
    requires AdjSorted(A, less) && AdjSorted(B, less)
    requires Junction(A, B, less) == 1
    requires rest != [] ==> Junction(B, rest, less) == 1
    ensures SortPass(s0, D + Merged(A, B, less), D0 + A + B, rest, cnt + 1, less)
  {
    var M := Merged(A, B, less);
    MergedRuns(A, B, less);
    assert (A + B + rest)[0] == A[0];
    MergeDescents(D, D0, A, B, M, less);
    LastOfJoin(D0, A, B, rest, s0);
    if cnt == 0 {
      assert D == [] && D + M == M;
    }
  }

  /** Merging two runs that never descend gives a run that never descends. */
  lemma MergedRuns<T(!new)>(A: seq<T>, B: seq<T>, less: (T, T) -> bool)
    requires StrictWeakOrder(less) && AdjSorted(A, less) && AdjSorted(B, less)
    ensures AdjSorted(Merged(A, B, less), less)
  {
    AdjSortedIsSorted(A, less);
    AdjSortedIsSorted(B, less);
    MergedSorted(A, B, less);
    SortedIsAdjSorted(Merged(A, B, less), less);
  }

  lemma LastOfJoin<T>(D0: seq<T>, A: seq<T>, B: seq<T>, rest: seq<T>, s0: seq<T>)
    requires s0 == D0 + (A + B + rest) && B != []
    ensures s0 == (D0 + A + B) + rest
    ensures (D0 + A + B)[|D0 + A + B| - 1] == B[|B| - 1]
  {
    assert D0 + (A + B + rest) == (D0 + A + B) + rest;
  }

  /**
   * Merging the runs A and B into M removes the descent where they meet,
   * and the one where A follows D0 (if D0 is not empty) is not added back.
   */
  lemma MergeDescents<T>(D: seq<T>, D0: seq<T>, A: seq<T>, B: seq<T>, M: seq<T>, less: (T, T) -> bool)
    requires |D| == |D0| && A != [] && B != [] && AdjSorted(M, less)
    requires less(B[0], A[|A| - 1])
    requires D0 != [] ==> less(A[0], D0[|D0| - 1])
    ensures Descents(D + M, less) + 1 + Descents(D0, less) <= Descents(D0 + A + B, less) + Descents(D, less)
  {
    NoDescentsIsAdjSorted(M, less);
    DescentsConcat(D, M, less);
    DescentsConcat(D0 + A, B, less);
    DescentsConcat(D0, A, less);
    assert (D0 + A)[|D0 + A| - 1] == A[|A| - 1];
  }

  /** The pass meets a last lone run, which stays as it is. */
  lemma SortPassLast<T>(s0: seq<T>, D: seq<T>, D0: seq<T>, rest: seq<T>, cnt: nat, less: (T, T) -> bool)
    requires SortPass(s0, D, D0, rest, cnt, less)
    requires rest != [] && AdjSorted(rest, less)
    ensures Descents(D + rest, less) + (cnt + 1) <= Descents(s0, less) + 1
    ensures cnt + 1 <= 1 ==> AdjSorted(D + rest, less)
  {
    NoDescentsIsAdjSorted(rest, less);
    DescentsConcat(D, rest, less);
    DescentsConcat(D0, rest, less);
    if cnt == 0 {
      assert D + rest == rest;
    }
  }

  /** The pass reaches the end of the list. */
  lemma SortPassEnd<T>(s0: seq<T>, D: seq<T>, D0: seq<T>, cnt: nat, less: (T, T) -> bool)
    requires SortPass(s0, D, D0, [], cnt, less)
    ensures Descents(D, less) + cnt <= Descents(s0, less) + 1
    ensures cnt <= 1 ==> AdjSorted(D, less)
  {
    assert s0 == D0;
    if cnt == 0 {
      assert D == [];
    }
  }
}
