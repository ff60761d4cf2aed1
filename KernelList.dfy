/**
 * The kernel's doubly linked list with head and tail sentinels
 * (lib/kernel/list.c), modelled on its link fields.
 *
 * A list_elem is identified by an id >= 0; the list's own head and tail
 * sentinels are HEAD and TAIL, and NIL is the null pointer. The `next` and
 * `prev` maps hold the link fields of the sentinels and of every element
 * linked into this list. `Elems` is the ghost sequence of interior
 * elements, front to back; `Valid()` ties it to the links.
 */
module KernelList {
  import opened ListSpec
  import opened ListSort

  const NIL: int := -1
  const HEAD: int := -2
  const TAIL: int := -3

  /** Every element id is a real list_elem, distinct from the sentinels and from NIL. */
  ghost predicate IsElems(s: seq<int>) {
    forall k :: 0 <= k < |s| ==> s[k] >= 0
  }

  /** The nodes visited from head to tail. */
  function Chain(s: seq<int>): seq<int> {
    [HEAD] + s + [TAIL]
  }

  /** x->next == y and y->prev == x. */
  ghost predicate Link(next: map<int, int>, prev: map<int, int>, x: int, y: int) {
    x in next && next[x] == y && y in prev && prev[y] == x
  }

  /** Every pair of neighbours in `c` is linked both ways. */
  ghost predicate Linked(c: seq<int>, next: map<int, int>, prev: map<int, int>) {
    forall k :: 0 <= k < |c| - 1 ==> Link(next, prev, c[k], c[k + 1])
  }

  /** The position in Chain(s) of a sentinel or an element. */
  function Pos(s: seq<int>, x: int): (i: nat)
    requires x == HEAD || x == TAIL || x in s
    ensures i < |Chain(s)| && Chain(s)[i] == x
    ensures x == HEAD ==> i == 0
    ensures x == TAIL ==> i == |s| + 1
  {
    if x == HEAD then 0 else if x == TAIL then |s| + 1 else IndexOf(s, x) + 1
  }

  function IndexOf(s: seq<int>, x: int): (i: nat)
    requires x in s
    ensures i < |s| && s[i] == x
  {
    if s[0] == x then 0 else 1 + IndexOf(s[1..], x)
  }

  /** The index in `s` of an element, |s| for the tail: where list_insert(x, _) puts the new element. */
  function Slot(s: seq<int>, x: int): (i: nat)
    requires x == TAIL || x in s
    ensures i <= |s| && Chain(s)[i + 1] == x && At(s, i) == x
    ensures x == TAIL ==> i == |s|
  {
    if x == TAIL then |s| else IndexOf(s, x)
  }

  /** The node at index k: the element there, or the tail when k == |s|. */
  function At(s: seq<int>, k: nat): int
    requires k <= |s|
  {
    if k < |s| then s[k] else TAIL
  }

  /** Index k is where the node At(s, k) sits. */
  lemma AtSlot(s: seq<int>, k: nat)
    requires IsElems(s) && Distinct(s) && k <= |s|
    ensures At(s, k) == TAIL || At(s, k) in s
    ensures Slot(s, At(s, k)) == k
    ensures At(s, k) == TAIL <==> k == |s|
  {
    SlotAt(s, k);
  }

  /** The links of the node at index k, read off the sequence. */
  lemma Neighbours(s: seq<int>, k: nat, n: map<int, int>, p: map<int, int>)
    requires Linked(Chain(s), n, p) && k <= |s|
    ensures At(s, k) in p && p[At(s, k)] == if k == 0 then HEAD else s[k - 1]
    ensures k < |s| ==> At(s, k) in n && n[At(s, k)] == At(s, k + 1)
    ensures HEAD in n && n[HEAD] == At(s, 0)
  {
    assert Link(n, p, Chain(s)[k], Chain(s)[k + 1]);
    assert Link(n, p, Chain(s)[0], Chain(s)[1]);
    if k < |s| {
      assert Link(n, p, Chain(s)[k + 1], Chain(s)[k + 2]);
    }
  }

  lemma ChainDistinct(s: seq<int>)
    requires IsElems(s) && Distinct(s)
    ensures Distinct(Chain(s))
  {
    var c := Chain(s);
    forall i, j | 0 <= i < j < |c| ensures c[i] != c[j] {
      if 0 < i && j <= |s| {
        assert c[i] == s[i - 1] && c[j] == s[j - 1];
      }
    }
  }

  /** In a chain without repetitions a node sits at one position only. */
  lemma PosUnique(s: seq<int>, x: int, k: int)
    requires IsElems(s) && Distinct(s)
    requires 0 <= k < |Chain(s)| && Chain(s)[k] == x
    ensures x == HEAD || x == TAIL || x in s
    ensures Pos(s, x) == k
  {
    ChainDistinct(s);
    if 0 < k <= |s| {
      assert s[k - 1] == x;
    }
  }

  /** Slot positions of the nodes of a valid chain, read off the chain. */
  lemma SlotAt(s: seq<int>, k: nat)
    requires IsElems(s) && Distinct(s) && k <= |s|
    ensures Chain(s)[k + 1] == TAIL || Chain(s)[k + 1] in s
    ensures Slot(s, Chain(s)[k + 1]) == k
    ensures Chain(s)[k + 1] == TAIL <==> k == |s|
  {
    PosUnique(s, Chain(s)[k + 1], k + 1);
  }

  lemma {:induction false} DistinctCount(s: seq<int>, x: int)
    requires Distinct(s)
    ensures multiset(s)[x] <= 1
  {
    if s != [] {
      assert s == [s[0]] + s[1..];
      DistinctCount(s[1..], x);
      if s[0] == x {
        assert x !in s[1..] by {
          forall k | 0 <= k < |s[1..]| ensures s[1..][k] != x {
            assert s[1..][k] == s[k + 1];
          }
        }
      }
    }
  }

  /** A rearrangement of a valid element sequence is one. */
  lemma PermKeepsElems(a: seq<int>, b: seq<int>)
    requires multiset(a) == multiset(b)
    requires IsElems(a) && Distinct(a)
    ensures IsElems(b) && Distinct(b)
  {
    forall k | 0 <= k < |b| ensures b[k] >= 0 {
      assert b[k] in multiset(b);
      assert b[k] in multiset(a);
      var i :| 0 <= i < |a| && a[i] == b[k];
    }
    forall i, j | 0 <= i < j < |b| ensures b[i] != b[j] {
      if b[i] == b[j] {
        var x := b[i];
        assert b == b[..i] + [x] + b[i + 1..j] + [x] + b[j + 1..];
        assert multiset(b)[x] >= 2;
        DistinctCount(a, x);
      }
    }
  }

  /**
   * Unlinking the elements at [f, l) (list_remove, the first half of
   * list_splice): the predecessor of s[f] is linked to the node after
   * s[l - 1]. The rest of the chain stays linked, and so does the range.
   */
  lemma LinkedCut(s: seq<int>, f: nat, l: nat, n: map<int, int>, p: map<int, int>)
    requires IsElems(s) && Distinct(s)
    requires Linked(Chain(s), n, p)
    requires f < l <= |s|
    ensures Linked(Chain(s[..f] + s[l..]), n[Chain(s)[f] := Chain(s)[l + 1]], p[Chain(s)[l + 1] := Chain(s)[f]])
    ensures Linked(s[f..l], n[Chain(s)[f] := Chain(s)[l + 1]], p[Chain(s)[l + 1] := Chain(s)[f]])
  {
    var c := Chain(s);
    ChainDistinct(s);
    var n' := n[c[f] := c[l + 1]];
    var p' := p[c[l + 1] := c[f]];
    var d := Chain(s[..f] + s[l..]);
    assert |d| == |c| - (l - f);
    forall k | 0 <= k < |d| - 1 ensures Link(n', p', d[k], d[k + 1]) {
      if k < f {
        assert d[k] == c[k] && d[k + 1] == c[k + 1];
        assert Link(n, p, c[k], c[k + 1]);
      } else if k == f {
        assert d[k] == c[f] && d[k + 1] == c[l + 1];
      } else {
        assert d[k] == c[k + l - f] && d[k + 1] == c[k + 1 + l - f];
        assert Link(n, p, c[k + l - f], c[k + 1 + l - f]);
      }
    }
    var r := s[f..l];
    forall k | 0 <= k < |r| - 1 ensures Link(n', p', r[k], r[k + 1]) {
      assert r[k] == c[f + 1 + k] && r[k + 1] == c[f + 2 + k];
      assert Link(n, p, c[f + 1 + k], c[f + 2 + k]);
    }
  }

  /** A prefix of a valid element sequence is one. */
  lemma PrefixElems(a: seq<int>, b: seq<int>)
    requires IsElems(a + b) && Distinct(a + b)
    ensures IsElems(a) && Distinct(a)
  {
    forall i | 0 <= i < |a| ensures a[i] == (a + b)[i] { }
  }

  /** Cutting out [f, l) and putting it back anywhere keeps the elements valid. */
  lemma CutElems(s: seq<int>, f: nat, l: nat)
    requires IsElems(s) && Distinct(s)
    requires f <= l <= |s|
    ensures IsElems(s[..f] + s[l..] + s[f..l]) && Distinct(s[..f] + s[l..] + s[f..l])
    ensures IsElems(s[..f] + s[l..]) && Distinct(s[..f] + s[l..])
  {
    SplitMultiset(s, f, f, l);
    assert s[..f] + s[l..] + s[f..l] == s[..f] + s[f..f] + s[l..] + s[f..l];
    PermKeepsElems(s, s[..f] + s[l..] + s[f..l]);
    PrefixElems(s[..f] + s[l..], s[f..l]);
  }

  /** Inserting a valid range that shares no element with the list keeps the elements valid. */
  lemma PasteElems(s: seq<int>, r: seq<int>, b: nat)
    requires IsElems(s + r) && Distinct(s + r)
    requires b <= |s|
    ensures IsElems(s[..b] + r + s[b..]) && Distinct(s[..b] + r + s[b..])
    ensures IsElems(s) && Distinct(s) && Distinct(r)
    ensures forall k, i :: 0 <= k < |Chain(s)| && 0 <= i < |r| ==> Chain(s)[k] != r[i]
  {
    DistinctSuffix(s, r);
    var t := s[..b] + r + s[b..];
    assert s + r == s[..b] + s[b..] + r;
    assert multiset(s + r) == multiset(t);
    PermKeepsElems(s + r, t);
    PrefixElems(s, r);
    ChainApart(s, r);
  }

  lemma DistinctSuffix(s: seq<int>, r: seq<int>)
    requires Distinct(s + r)
    ensures Distinct(r)
  {
    forall i, j | 0 <= i < j < |r| ensures r[i] != r[j] {
      assert (s + r)[|s| + i] == r[i] && (s + r)[|s| + j] == r[j];
    }
  }

  /** Elements about to be pasted into s are none of its nodes. */
  lemma ChainApart(s: seq<int>, r: seq<int>)
    requires IsElems(s + r) && Distinct(s + r)
    ensures forall k, i :: 0 <= k < |Chain(s)| && 0 <= i < |r| ==> Chain(s)[k] != r[i]
  {
    var c := Chain(s);
    forall k, i | 0 <= k < |c| && 0 <= i < |r| ensures c[k] != r[i] {
      assert (s + r)[|s| + i] == r[i];
      if 0 < k < |c| - 1 {
        assert c[k] == (s + r)[k - 1];
      }
    }
  }


  /**
   * Linking the range `r` in before position b (list_insert, the second
   * half of list_splice): r[0] follows the node before position b and the
   * last element of r precedes the node at position b.
   */
  lemma LinkedPaste(s: seq<int>, r: seq<int>, b: nat, n: map<int, int>, p: map<int, int>)
    requires IsElems(s + r) && Distinct(s + r)
    requires Linked(Chain(s), n, p) && Linked(r, n, p)
    requires r != [] && b <= |s|
    ensures IsElems(s[..b] + r + s[b..]) && Distinct(s[..b] + r + s[b..])
    ensures Linked(Chain(s[..b] + r + s[b..]),
                   n[r[|r| - 1] := Chain(s)[b + 1]][Chain(s)[b] := r[0]],
                   p[r[0] := Chain(s)[b]][Chain(s)[b + 1] := r[|r| - 1]])
  {
    PasteElems(s, r, b);
    ChainDistinct(s);
    ChainDistinct(s[..b] + r + s[b..]);
    LinkedPasteLinks(s, r, b, n, p);
  }

  lemma LinkedPasteLinks(s: seq<int>, r: seq<int>, b: nat, n: map<int, int>, p: map<int, int>)
    requires Distinct(Chain(s)) && Distinct(r)
    requires forall k, i :: 0 <= k < |Chain(s)| && 0 <= i < |r| ==> Chain(s)[k] != r[i]
    requires Linked(Chain(s), n, p) && Linked(r, n, p)
    requires r != [] && b <= |s|
    ensures Linked(Chain(s[..b] + r + s[b..]),
                   n[r[|r| - 1] := Chain(s)[b + 1]][Chain(s)[b] := r[0]],
                   p[r[0] := Chain(s)[b]][Chain(s)[b + 1] := r[|r| - 1]])
  {
    var c := Chain(s);
    var m := |r|;
    var n' := n[r[m - 1] := c[b + 1]][c[b] := r[0]];
    var p' := p[r[0] := c[b]][c[b + 1] := r[m - 1]];
    var d := Chain(s[..b] + r + s[b..]);
    forall k | 0 <= k < |d| - 1 ensures Link(n', p', d[k], d[k + 1]) {
      if k < b {
        assert d[k] == c[k] && d[k + 1] == c[k + 1];
        assert Link(n, p, c[k], c[k + 1]);
      } else if k == b {
        assert d[k] == c[b] && d[k + 1] == r[0];
      } else if k < b + m {
        assert d[k] == r[k - b - 1] && d[k + 1] == r[k - b];
        assert Link(n, p, r[k - b - 1], r[k - b]);
      } else if k == b + m {
        assert d[k] == r[m - 1] && d[k + 1] == c[b + 1];
      } else {
        assert d[k] == c[k - m] && d[k + 1] == c[k - m + 1];
        assert Link(n, p, c[k - m], c[k - m + 1]);
      }
    }
  }

  /**
   * list_splice within one list as a cut followed by a paste: after the
   * range [f, l) is cut out, `before` sits at index `b'` of what remains,
   * and pasting the range back there gives Spliced.
   */
  lemma SpliceShape(s: seq<int>, b: nat, f: nat, l: nat)
    requires f < l <= |s| && b <= |s|
    requires b < f || l <= b
    ensures var b' := if b < f then b else b - (l - f);
            var e := s[..f] + s[l..];
            b' <= |e| && Chain(e)[b' + 1] == Chain(s)[b + 1]
            && e[..b'] + s[f..l] + e[b'..] == Spliced(s, b, f, l)
  {
    if b < f {
      SpliceShapeLeft(s, b, f, l);
    } else {
      SpliceShapeRight(s, b, f, l);
    }
  }

  /** SpliceShape when `before` precedes the range. */
  lemma SpliceShapeLeft(s: seq<int>, b: nat, f: nat, l: nat)
    requires b < f < l <= |s|
    ensures var e := s[..f] + s[l..];
            b < |e| && Chain(e)[b + 1] == Chain(s)[b + 1]
            && e[..b] + s[f..l] + e[b..] == Spliced(s, b, f, l)
  {
    var e := s[..f] + s[l..];
    assert e[..b] == s[..b];
    assert e[b..] == s[b..f] + s[l..];
    assert e[b] == s[b];
  }

  /** SpliceShape when `before` follows the range. */
  lemma SpliceShapeRight(s: seq<int>, b: nat, f: nat, l: nat)
    requires f < l <= b <= |s|
    ensures var b' := b - (l - f);
            var e := s[..f] + s[l..];
            b' <= |e| && Chain(e)[b' + 1] == Chain(s)[b + 1]
            && e[..b'] + s[f..l] + e[b'..] == Spliced(s, b, f, l)
  {
    var e := s[..f] + s[l..];
    var b' := b - (l - f);
    CutPrefix(s, f, l, b);
    CutSuffix(s, f, l, b);
    if b < |s| {
      assert Chain(e)[b' + 1] == e[b'] == s[b];
    }
  }

  /** What precedes index b of s, once the range [f, l) before it is cut out. */
  lemma CutPrefix(s: seq<int>, f: nat, l: nat, b: nat)
    requires f < l <= b <= |s|
    ensures (s[..f] + s[l..])[..b - (l - f)] == s[..f] + s[l..b]
  {
  }

  /** What follows index b of s, once the range [f, l) before it is cut out. */
  lemma CutSuffix(s: seq<int>, f: nat, l: nat, b: nat)
    requires f < l <= b <= |s|
    ensures (s[..f] + s[l..])[b - (l - f)..] == s[b..]
  {
  }

  /**
   * The links list_reverse leaves: every element's two links swapped, the
   * head pointing at the old back and the tail at the old front.
   */
  lemma ReversedLinked(s: seq<int>, next: map<int, int>, prev: map<int, int>)
    requires IsElems(s) && Distinct(s) && s != []
    requires forall j :: 0 < j < |s| ==> s[j] in next && next[s[j]] == s[j - 1]
    requires forall j :: 0 <= j < |s| - 1 ==> s[j] in prev && prev[s[j]] == s[j + 1]
    requires HEAD in next && next[HEAD] == s[|s| - 1] && s[|s| - 1] in prev && prev[s[|s| - 1]] == HEAD
    requires s[0] in next && next[s[0]] == TAIL && TAIL in prev && prev[TAIL] == s[0]
    requires HEAD in prev && prev[HEAD] == NIL && TAIL in next && next[TAIL] == NIL
    ensures IsElems(Reversed(s)) && Distinct(Reversed(s))
    ensures Linked(Chain(Reversed(s)), next, prev)
  {
    var r := Reversed(s);
    var c := Chain(s);
    var d := Chain(r);
    var N := |s|;
    ReversedAt(s);
    forall i, j | 0 <= i < j < N ensures r[i] != r[j] {
      assert r[i] == s[N - 1 - i] && r[j] == s[N - 1 - j];
    }
    forall i | 0 <= i < N ensures r[i] >= 0 {
      assert r[i] == s[N - 1 - i];
    }
    forall i | 0 <= i < |d| - 1 ensures Link(next, prev, d[i], d[i + 1]) {
      if i == 0 {
        assert d[1] == r[0] == s[N - 1];
      } else if i < N {
        assert d[i] == r[i - 1] == s[N - i];
        assert d[i + 1] == r[i] == s[N - 1 - i];
      } else {
        assert d[i] == r[N - 1] == s[0];
      }
    }
  }

  /**
   * The links during list_reverse's loop once it has visited the first k
   * elements: those have their two links swapped, the others and the
   * sentinels are as before.
   */
  ghost predicate HalfSwapped(s: seq<int>, k: nat, next: map<int, int>, prev: map<int, int>) {
    && k <= |s|
    && HEAD in next && HEAD in prev && TAIL in next && TAIL in prev
    && next[HEAD] == Chain(s)[1] && prev[HEAD] == NIL && next[TAIL] == NIL && prev[TAIL] == Chain(s)[|s|]
    && (forall j :: 0 < j <= k ==>
          Chain(s)[j] in next && Chain(s)[j] in prev
          && next[Chain(s)[j]] == Chain(s)[j - 1] && prev[Chain(s)[j]] == Chain(s)[j + 1])
    && (forall j :: k < j <= |s| ==>
          Chain(s)[j] in next && Chain(s)[j] in prev
          && next[Chain(s)[j]] == Chain(s)[j + 1] && prev[Chain(s)[j]] == Chain(s)[j - 1])
  }

  lemma ReverseStart(s: seq<int>, next: map<int, int>, prev: map<int, int>)
    requires Linked(Chain(s), next, prev)
    requires HEAD in prev && prev[HEAD] == NIL && TAIL in next && next[TAIL] == NIL
    ensures HalfSwapped(s, 0, next, prev)
  {
    var c := Chain(s);
    forall j | 0 < j <= |s|
      ensures c[j] in next && c[j] in prev && next[c[j]] == c[j + 1] && prev[c[j]] == c[j - 1]
    {
      assert Link(next, prev, c[j - 1], c[j]) && Link(next, prev, c[j], c[j + 1]);
    }
    assert Link(next, prev, c[0], c[1]);
    assert Link(next, prev, c[|s|], c[|s| + 1]);
  }

  /** One turn of list_reverse's loop: swap the links of the next element, then follow its new `prev`. */
  lemma ReverseStep(s: seq<int>, k: nat, next: map<int, int>, prev: map<int, int>)
    requires IsElems(s) && Distinct(s)
    requires HalfSwapped(s, k, next, prev) && k < |s|
    ensures Chain(s)[k + 1] in next && Chain(s)[k + 1] in prev
    ensures HalfSwapped(s, k + 1, next[Chain(s)[k + 1] := prev[Chain(s)[k + 1]]], prev[Chain(s)[k + 1] := next[Chain(s)[k + 1]]])
    ensures next[Chain(s)[k + 1]] == Chain(s)[k + 2]
  {
    var c := Chain(s);
    ChainDistinct(s);
    var e := c[k + 1];
    var n', p' := next[e := prev[e]], prev[e := next[e]];
    forall j | 0 < j <= k + 1
      ensures c[j] in n' && c[j] in p' && n'[c[j]] == c[j - 1] && p'[c[j]] == c[j + 1]
    {
      if j <= k {
        assert c[j] != e;
      }
    }
    forall j | k + 1 < j <= |s|
      ensures c[j] in n' && c[j] in p' && n'[c[j]] == c[j + 1] && p'[c[j]] == c[j - 1]
    {
      assert c[j] != e;
    }
    assert e != HEAD && e != TAIL;
  }

  /**
   * The end of list_reverse: with every element's links swapped, swapping
   * the head's and the tail's links and then those of the new front and
   * back links the reversed chain.
   */
  lemma ReverseFinish(s: seq<int>, n: map<int, int>, p: map<int, int>)
    requires IsElems(s) && Distinct(s) && s != []
    requires HalfSwapped(s, |s|, n, p)
    ensures var n2 := n[HEAD := p[TAIL]];
            var p2 := p[TAIL := n[HEAD]];
            n2[HEAD] in p2 && p2[TAIL] in n2
            && IsElems(Reversed(s)) && Distinct(Reversed(s))
            && Linked(Chain(Reversed(s)), n2[p2[TAIL] := p2[n2[HEAD]]], p2[n2[HEAD] := n2[p2[TAIL]]])
            && p2[n2[HEAD] := n2[p2[TAIL]]][HEAD] == NIL && n2[p2[TAIL] := p2[n2[HEAD]]][TAIL] == NIL
  {
    var c := Chain(s);
    var N := |s|;
    ChainDistinct(s);
    var n2 := n[HEAD := p[TAIL]];
    var p2 := p[TAIL := n[HEAD]];
    assert c[N] == s[N - 1] && c[1] == s[0];
    var last, first := n2[HEAD], p2[TAIL];
    assert last == s[N - 1] && first == s[0];
    var n3 := n2[first := p2[last]];
    var p3 := p2[last := n2[first]];
    forall j | 0 < j < N ensures s[j] in n3 && n3[s[j]] == s[j - 1] {
      assert s[j] == c[j + 1] && s[j - 1] == c[j];
    }
    forall j | 0 <= j < N - 1 ensures s[j] in p3 && p3[s[j]] == s[j + 1] {
      assert s[j] == c[j + 1] && s[j + 1] == c[j + 2];
    }
    assert p[c[N]] == c[N + 1] && n[c[1]] == c[0];
    assert p2[last] == TAIL && n2[first] == HEAD;
    ReversedLinked(s, n3, p3);
  }

  /** The links list_splice leaves: its cut followed by its paste. */
  lemma SpliceLinked(s: seq<int>, b: nat, f: nat, l: nat, n: map<int, int>, p: map<int, int>)
    requires IsElems(s) && Distinct(s)
    requires Linked(Chain(s), n, p)
    requires HEAD in p && p[HEAD] == NIL && TAIL in n && n[TAIL] == NIL
    requires f < l <= |s| && b <= |s|
    requires b < f || l <= b
    ensures var c := Chain(s);
            var n1 := n[c[f] := c[l + 1]];
            var p1 := p[c[l + 1] := c[f]];
            c[b + 1] in p1
            && var n2 := n1[c[l] := c[b + 1]][p1[c[b + 1]] := c[f + 1]];
               var p2 := p1[c[f + 1] := p1[c[b + 1]]][c[b + 1] := c[l]];
               IsElems(Spliced(s, b, f, l)) && Distinct(Spliced(s, b, f, l))
               && Linked(Chain(Spliced(s, b, f, l)), n2, p2)
               && HEAD in p2 && p2[HEAD] == NIL && TAIL in n2 && n2[TAIL] == NIL
  {
    var c := Chain(s);
    ChainDistinct(s);
    var n1 := n[c[f] := c[l + 1]];
    var p1 := p[c[l + 1] := c[f]];
    LinkedCut(s, f, l, n, p);
    CutElems(s, f, l);
    SpliceShape(s, b, f, l);
    var e := s[..f] + s[l..];
    var r := s[f..l];
    var b' := if b < f then b else b - (l - f);
    assert Link(n1, p1, Chain(e)[b'], Chain(e)[b' + 1]);
    assert r[0] == c[f + 1] && r[|r| - 1] == c[l];
    LinkedPaste(e, r, b', n1, p1);
    assert c[b + 1] != HEAD && c[f + 1] != HEAD && c[l + 1] != HEAD;
    assert c[f] != TAIL && c[l] != TAIL && p1[c[b + 1]] == Chain(e)[b'];
    if b' < |e| {
      assert Chain(e)[b'] != TAIL;
    }
  }

  /** The `next` link of an element, read off the sequence: its successor, or the tail after the back. */
  lemma LinkedNext(s: seq<int>, k: nat, n: map<int, int>, p: map<int, int>)
    requires Linked(Chain(s), n, p) && k < |s|
    ensures s[k] in n && n[s[k]] == if k + 1 < |s| then s[k + 1] else TAIL
  {
    assert Link(n, p, Chain(s)[k + 1], Chain(s)[k + 2]);
  }

  /**
   * list_unique after it has settled the first m elements of `e` (the list
   * now) and appended `d` to the duplicates: what remains to be done leads
   * to Deduped and Dropped of the original list s0.
   */
  ghost predicate UniqueProgress(s0: seq<int>, d0: seq<int>, e: seq<int>, d: seq<int>, m: nat, less: (int, int) -> bool) {
    && 0 < m <= |e|
    && e[..m] + KeptAfter(e[m - 1], e[m..], less) == Deduped(s0, less)
    && d + DroppedAfter(e[m - 1], e[m..], less) == d0 + Dropped(s0, less)
  }

  lemma UniqueStart(s0: seq<int>, d0: seq<int>, less: (int, int) -> bool)
    requires s0 != []
    ensures UniqueProgress(s0, d0, s0, d0, 1, less)
  {
  }

  /** One turn of list_unique's loop: drop the next element if it equals the last kept one, else keep it. */
  lemma UniqueStep(s0: seq<int>, d0: seq<int>, e: seq<int>, d: seq<int>, m: nat, less: (int, int) -> bool)
    requires UniqueProgress(s0, d0, e, d, m, less) && m < |e|
    ensures Equiv(less, e[m - 1], e[m]) ==> UniqueProgress(s0, d0, e[..m] + e[m + 1..], d + [e[m]], m, less)
    ensures !Equiv(less, e[m - 1], e[m]) ==> UniqueProgress(s0, d0, e, d, m + 1, less)
  {
    var e' := e[..m] + e[m + 1..];
    assert e[m..] == [e[m]] + e[m + 1..];
    if Equiv(less, e[m - 1], e[m]) {
      assert e'[..m] == e[..m] && e'[m..] == e[m + 1..] && e'[m - 1] == e[m - 1];
      assert d + [e[m]] + DroppedAfter(e[m - 1], e[m + 1..], less) == d + DroppedAfter(e[m - 1], e[m..], less);
    } else {
      assert e[..m + 1] == e[..m] + [e[m]];
    }
  }

  lemma UniqueEnd(s0: seq<int>, d0: seq<int>, e: seq<int>, d: seq<int>, m: nat, less: (int, int) -> bool)
    requires UniqueProgress(s0, d0, e, d, m, less) && m == |e|
    ensures e == Deduped(s0, less) && d == d0 + Dropped(s0, less)
  {
    assert e[..m] == e && e[m..] == [];
  }

  /** list_unique's removal of the element after the kept ones. */
  lemma DropNext(kept: seq<int>, rest: seq<int>)
    requires Distinct(kept + rest) && rest != []
    ensures (kept + rest)[..|kept|] + (kept + rest)[|kept| + 1..] == kept + rest[1..]
    ensures forall x :: x in kept + rest[1..] ==> x in kept + rest && x != rest[0]
  {
    var s := kept + rest;
    assert s[..|kept|] == kept && s[|kept| + 1..] == rest[1..];
    forall x | x in kept + rest[1..] ensures x in s && x != rest[0] {
      var i :| 0 <= i < |kept + rest[1..]| && (kept + rest[1..])[i] == x;
      if i < |kept| {
        assert s[i] == x;
      } else {
        assert s[i + 1] == x;
      }
      assert s[|kept|] == rest[0];
    }
  }

  /**
   * list_sort's view of the list e = D + rest when find_end_of_run has
   * found a run from index p (the start of rest) to q and another from q
   * to r: they are the runs A and B it merges, and rest' follows them.
   */
  lemma RunsAt(e: seq<int>, D: seq<int>, rest: seq<int>, p: nat, q: nat, r: nat, less: (int, int) -> bool)
    requires e == D + rest && |D| == p < q < r <= |e|
    requires AdjSorted(e[p..q], less) && AdjSorted(e[q..r], less)
    requires DescentAt(e, q, less)
    requires r == |e| || DescentAt(e, r, less)
    ensures var A, B, rest' := e[p..q], e[q..r], e[r..];
      && rest == A + B + rest' && e == D + A + B + rest'
      && A != [] && B != [] && AdjSorted(A, less) && AdjSorted(B, less)
      && Junction(A, B, less) == 1
      && (rest' != [] ==> Junction(B, rest', less) == 1)
  {
    RunsSplit(e, D, rest, p, q, r);
    JunctionAt(e, p, q, r, less);
    if r < |e| {
      JunctionAt(e, q, r, |e|, less);
    }
  }

  /** Cutting rest, the part of e after D, at q and r. */
  lemma RunsSplit(e: seq<int>, D: seq<int>, rest: seq<int>, p: nat, q: nat, r: nat)
    requires e == D + rest && |D| == p <= q <= r <= |e|
    ensures rest == e[p..q] + e[q..r] + e[r..] && e == D + e[p..q] + e[q..r] + e[r..]
  {
    assert rest == e[p..];
    assert e[p..] == e[p..q] + e[q..r] + e[r..];
  }

  /** A descent at q joins the slices of e that meet there. */
  lemma JunctionAt(e: seq<int>, p: nat, q: nat, r: nat, less: (int, int) -> bool)
    requires p < q < r <= |e| && DescentAt(e, q, less)
    ensures Junction(e[p..q], e[q..r], less) == 1
  {
    assert e[p..q][q - p - 1] == e[q - 1];
    assert e[q..r][0] == e[q];
  }

  /**
   * RunsAt, with the runs given by the nodes find_end_of_run returns: the
   * runs A and B start at the nodes a and f, and rest' at the node g.
   */
  lemma RunsAtNodes(e: seq<int>, D: seq<int>, rest: seq<int>, a: int, f: int, g: int, less: (int, int) -> bool)
    returns (A: seq<int>, B: seq<int>, rest': seq<int>)
    requires IsElems(e) && Distinct(e) && e == D + rest
    requires a == At(e, |D|) && a in e && f in e && (g == TAIL || g in e)
    requires Slot(e, a) < Slot(e, f) < Slot(e, g)
    requires AdjSorted(e[Slot(e, a)..Slot(e, f)], less) && AdjSorted(e[Slot(e, f)..Slot(e, g)], less)
    requires DescentAt(e, Slot(e, f), less)
    requires g == TAIL || DescentAt(e, Slot(e, g), less)
    ensures rest == A + B + rest' && e == D + A + B + rest'
    ensures AdjSorted(A, less) && AdjSorted(B, less)
    ensures Junction(A, B, less) == 1 && (rest' != [] ==> Junction(B, rest', less) == 1)
    ensures f == At(e, |D| + |A|) && g == At(e, |D| + |A| + |B|)
  {
    AtSlot(e, |D|);
    var p, q, r := |D|, Slot(e, f), Slot(e, g);
    RunsAt(e, D, rest, p, q, r, less);
    A, B, rest' := e[p..q], e[q..r], e[r..];
  }

  /**
   * A turn of inplace_merge's loop where the head of the second rest does
   * not order before the head of the first: frs moves to the next node.
   */
  lemma TakeFirstNodes(e: seq<int>, next: map<int, int>, prev: map<int, int>,
                       pre: seq<int>, A: seq<int>, B: seq<int>, post: seq<int>,
                       out: seq<int>, aR: seq<int>, bR: seq<int>, frs: int, fre: int, sre: int, less: (int, int) -> bool)
    returns (out': seq<int>, aR': seq<int>, bR': seq<int>)
    requires IsElems(e) && Distinct(e) && Linked(Chain(e), next, prev)
    requires MergeProgress(pre, A, B, post, e, out, aR, bR, less)
    requires frs == At(e, |pre| + |out|) && fre == At(e, |pre| + |out| + |aR|) && sre == At(e, |pre| + |A| + |B|)
    requires frs != fre && fre != sre && !less(fre, frs)
    ensures MergeProgress(pre, A, B, post, e, out', aR', bR', less)
    ensures frs in next && next[frs] == At(e, |pre| + |out'|) && fre == At(e, |pre| + |out'| + |aR'|)
    ensures |aR'| + |bR'| < |aR| + |bR|
  {
    RunHeads(e, pre, A, B, post, out, aR, bR, frs, fre, sre, less);
    MergeTakeFirst(pre, A, B, post, e, out, aR, bR, less);
    Neighbours(e, |pre| + |out|, next, prev);
    out', aR', bR' := out + [aR[0]], aR[1..], bR;
  }

  /** Both rests are non-empty while their starts differ from each other and from the end of the second run. */
  lemma RunHeads(e: seq<int>, pre: seq<int>, A: seq<int>, B: seq<int>, post: seq<int>,
                 out: seq<int>, aR: seq<int>, bR: seq<int>, frs: int, fre: int, sre: int, less: (int, int) -> bool)
    requires IsElems(e) && Distinct(e)
    requires MergeProgress(pre, A, B, post, e, out, aR, bR, less)
    requires frs == At(e, |pre| + |out|) && fre == At(e, |pre| + |out| + |aR|) && sre == At(e, |pre| + |A| + |B|)
    requires frs != fre && fre != sre
    ensures aR != [] && bR != [] && |pre| + |out| + |aR| < |e|
    ensures frs == e[|pre| + |out|] == aR[0] && fre == e[|pre| + |out| + |aR|] == bR[0]
  {
    MergeHeads(pre, out, aR, bR, post);
  }

  /** Where the nodes at indices i, j and j + 1 sit. */
  lemma SpliceSlots(e: seq<int>, i: nat, j: nat, frs: int, fre: int, nfre: int)
    requires IsElems(e) && Distinct(e) && i < j < |e|
    requires frs == At(e, i) && fre == At(e, j) && nfre == At(e, j + 1)
    ensures frs in e && fre in e && (nfre == TAIL || nfre in e)
    ensures Slot(e, frs) == i && Slot(e, fre) == j && Slot(e, nfre) == j + 1
    ensures Slot(e, frs) < Slot(e, fre) < Slot(e, nfre)
  {
    AtSlot(e, i);
    AtSlot(e, j);
    AtSlot(e, j + 1);
  }

  /**
   * A turn of inplace_merge's loop where the head of the second rest orders
   * before the head of the first: list_splice moves it, the node fre, to
   * just before frs; nfre is the node after fre and e' the list afterwards.
   */
  lemma TakeSecondNodes(e: seq<int>, pre: seq<int>, A: seq<int>, B: seq<int>, post: seq<int>,
                        out: seq<int>, aR: seq<int>, bR: seq<int>, frs: int, fre: int, nfre: int, sre: int,
                        less: (int, int) -> bool)
    returns (e': seq<int>, out': seq<int>, aR': seq<int>, bR': seq<int>)
    requires IsElems(e) && Distinct(e)
    requires MergeProgress(pre, A, B, post, e, out, aR, bR, less)
    requires frs == At(e, |pre| + |out|) && fre == At(e, |pre| + |out| + |aR|) && sre == At(e, |pre| + |A| + |B|)
    requires frs != fre && fre != sre && less(fre, frs)
    requires |pre| + |out| + |aR| < |e| ==> nfre == At(e, |pre| + |out| + |aR| + 1)
    ensures frs in e && fre in e && (nfre == TAIL || nfre in e)
    ensures Slot(e, fre) <= Slot(e, nfre) && Slot(e, frs) < Slot(e, fre)
    ensures e' == Spliced(e, Slot(e, frs), Slot(e, fre), Slot(e, nfre))
    ensures MergeProgress(pre, A, B, post, e', out', aR', bR', less)
    ensures frs == At(e', |pre| + |out'|) && nfre == At(e', |pre| + |out'| + |aR'|)
    ensures sre == At(e', |pre| + |A| + |B|)
    ensures |aR'| + |bR'| < |aR| + |bR|
  {
    var i, j := |pre| + |out|, |pre| + |out| + |aR|;
    RunHeads(e, pre, A, B, post, out, aR, bR, frs, fre, sre, less);
    SpliceSlots(e, i, j, frs, fre, nfre);
    e', out', aR', bR' := TakeSecondAt(e, pre, A, B, post, out, aR, bR, sre, less, i, j);
  }

  /** TakeSecondNodes on indices: the first rest starts at i and the second at j. */
  lemma TakeSecondAt(e: seq<int>, pre: seq<int>, A: seq<int>, B: seq<int>, post: seq<int>,
                     out: seq<int>, aR: seq<int>, bR: seq<int>, sre: int, less: (int, int) -> bool, i: nat, j: nat)
    returns (e': seq<int>, out': seq<int>, aR': seq<int>, bR': seq<int>)
    requires MergeProgress(pre, A, B, post, e, out, aR, bR, less)
    requires aR != [] && bR != [] && less(bR[0], aR[0])
    requires i == |pre| + |out| && j == i + |aR| && j < |e|
    requires sre == At(e, |pre| + |A| + |B|)
    ensures e' == Spliced(e, i, j, j + 1)
    ensures MergeProgress(pre, A, B, post, e', out', aR', bR', less)
    ensures At(e, i) == At(e', |pre| + |out'|) && At(e, j + 1) == At(e', |pre| + |out'| + |aR'|)
    ensures sre == At(e', |pre| + |A| + |B|)
    ensures |aR'| + |bR'| < |aR| + |bR|
  {
    e' := Spliced(e, i, j, j + 1);
    MergeTakeSecond(pre, A, B, post, e, e', out, aR, bR, less, i, j);
    out', aR', bR' := out + [bR[0]], aR, bR[1..];
    assert At(e', j + 1) == At(e, j + 1);
    assert At(e', |pre| + |A| + |B|) == At(e, |pre| + |A| + |B|);
  }

  /** The last run list_sort meets is all of rest. */
  lemma LastRun(e: seq<int>, D: seq<int>, rest: seq<int>, less: (int, int) -> bool)
    requires e == D + rest && AdjSorted(e[|D|..|e|], less)
    ensures AdjSorted(rest, less)
  {
    assert e[|D|..|e|] == rest;
  }

  /** The node at the index just past X in X + Z. */
  lemma AtJoin(X: seq<int>, Z: seq<int>)
    ensures At(X + Z, |X|) == if Z == [] then TAIL else Z[0]
  {
  }

  /** A list: struct list with its head and tail, and the links of its elements. */
  class List {
    var next: map<int, int>
    var prev: map<int, int>
    ghost var Elems: seq<int>

    ghost predicate Valid()
      reads this
    {
      && IsElems(Elems) && Distinct(Elems)
      && Linked(Chain(Elems), next, prev)
      && HEAD in prev && prev[HEAD] == NIL
      && TAIL in next && next[TAIL] == NIL
    }

    /** list_init: an empty list whose head and tail point at each other. */
    constructor ()
      ensures Valid() && Elems == []
      ensures Link(next, prev, HEAD, TAIL)
    {
      next := map[HEAD := TAIL, TAIL := NIL];
      prev := map[HEAD := NIL, TAIL := HEAD];
      Elems := [];
    }

    /** list_empty: the head links straight to the tail exactly when there is no element. */
    function Empty(): (r: bool)
      reads this
      requires Valid()
      ensures r <==> Elems == []
    {
      assert Link(next, prev, Chain(Elems)[0], Chain(Elems)[1]);
      next[HEAD] == TAIL
    }

    /** list_begin: the front element, or the tail of an empty list. */
    function Begin(): (e: int)
      reads this
      requires Valid()
      ensures e == if Elems == [] then TAIL else Elems[0]
    {
      assert Link(next, prev, Chain(Elems)[0], Chain(Elems)[1]);
      next[HEAD]
    }

    /** list_next: the node after the head or an element. */
    function Next(e: int): (r: int)
      reads this
      requires Valid()
      requires e == HEAD || e in Elems
      ensures Pos(Elems, e) < |Elems| + 1 && r == Chain(Elems)[Pos(Elems, e) + 1]
    {
      assert Link(next, prev, Chain(Elems)[Pos(Elems, e)], Chain(Elems)[Pos(Elems, e) + 1]);
      next[e]
    }

    /** list_prev: the node before an element or the tail. */
    function Prev(e: int): (r: int)
      reads this
      requires Valid()
      requires e == TAIL || e in Elems
      ensures 0 < Pos(Elems, e) && r == Chain(Elems)[Pos(Elems, e) - 1]
    {
      assert Link(next, prev, Chain(Elems)[Pos(Elems, e) - 1], Chain(Elems)[Pos(Elems, e)]);
      prev[e]
    }

    /** list_front (asserts the list is not empty). */
    function Front(): (e: int)
      reads this
      requires Valid() && Elems != []
      ensures e == Elems[0]
    {
      assert Link(next, prev, Chain(Elems)[0], Chain(Elems)[1]);
      next[HEAD]
    }

    /** list_back (asserts the list is not empty). */
    function Back(): (e: int)
      reads this
      requires Valid() && Elems != []
      ensures e == Elems[|Elems| - 1]
    {
      assert Link(next, prev, Chain(Elems)[|Elems|], Chain(Elems)[|Elems| + 1]);
      prev[TAIL]
    }

    /** list_insert: `elem` goes just before `before`, an element or the tail. */
    method Insert(before: int, elem: int)
      requires Valid()
      requires before == TAIL || before in Elems
      requires elem >= 0 && elem !in Elems
      modifies this
      ensures Valid()
      ensures Elems == old(Elems)[..Slot(old(Elems), before)] + [elem] + old(Elems)[Slot(old(Elems), before)..]
    {
      ghost var s := Elems;
      ghost var b := Slot(s, before);
      assert Link(next, prev, Chain(s)[b], Chain(s)[b + 1]);
      assert IsElems(s + [elem]) && Distinct(s + [elem]) by {
        forall i, j | 0 <= i < j < |s + [elem]| ensures (s + [elem])[i] != (s + [elem])[j] {
          if j == |s| {
            assert (s + [elem])[i] == s[i];
          }
        }
      }
      var bp := prev[before];
      prev := prev[elem := bp];
      next := next[elem := before];
      next := next[bp := elem];
      prev := prev[before := elem];
      LinkedPaste(s, [elem], b, old(next), old(prev));
      Elems := s[..b] + [elem] + s[b..];
    }

    /** list_push_front */
    method PushFront(elem: int)
      requires Valid()
      requires elem >= 0 && elem !in Elems
      modifies this
      ensures Valid() && Elems == [elem] + old(Elems)
    {
      var b := Begin();
      Insert(b, elem);
    }

    /** list_push_back: list_insert before the tail. */
    method PushBack(elem: int)
      requires Valid()
      requires elem >= 0 && elem !in Elems
      modifies this
      ensures Valid() && Elems == old(Elems) + [elem]
    {
      Insert(TAIL, elem);
    }

    /** list_remove: unlinks an element and returns the node that followed it. */
    method Remove(elem: int) returns (succ: int)
      requires Valid() && elem in Elems
      modifies this
      ensures Valid()
      ensures Slot(old(Elems), elem) < |old(Elems)|
      ensures Elems == old(Elems)[..Slot(old(Elems), elem)] + old(Elems)[Slot(old(Elems), elem) + 1..]
      ensures succ == Chain(Elems)[Slot(old(Elems), elem) + 1]
    {
      ghost var s := Elems;
      ghost var i := Slot(s, elem);
      assert Link(next, prev, Chain(s)[i], Chain(s)[i + 1]);
      assert Link(next, prev, Chain(s)[i + 1], Chain(s)[i + 2]);
      ChainDistinct(s);
      var p, n := prev[elem], next[elem];
      next := next[p := n];
      prev := prev[n := p];
      LinkedCut(s, i, i + 1, old(next), old(prev));
      CutElems(s, i, i + 1);
      Elems := s[..i] + s[i + 1..];
      succ := next[elem];
    }

    /** list_pop_front (the list must not be empty). */
    method PopFront() returns (front: int)
      requires Valid() && Elems != []
      modifies this
      ensures Valid()
      ensures front == old(Elems)[0] && Elems == old(Elems)[1..]
    {
      front := Front();
      ChainDistinct(Elems);
      PosUnique(Elems, front, 1);
      var _ := Remove(front);
    }

    /** list_pop_back (the list must not be empty). */
    method PopBack() returns (back: int)
      requires Valid() && Elems != []
      modifies this
      ensures Valid()
      ensures back == old(Elems)[|old(Elems)| - 1] && Elems == old(Elems)[..|old(Elems)| - 1]
    {
      back := Back();
      PosUnique(Elems, back, |Elems|);
      var _ := Remove(back);
    }

    /** list_size: counts the elements by walking from the front to the tail. */
    method Size() returns (cnt: nat)
      requires Valid()
      ensures cnt == |Elems|
    {
      cnt := 0;
      Neighbours(Elems, 0, next, prev);
      var e := next[HEAD];
      while e != TAIL
        invariant cnt <= |Elems| && e == At(Elems, cnt)
        decreases |Elems| - cnt
      {
        Neighbours(Elems, cnt, next, prev);
        cnt := cnt + 1;
        e := next[e];
      }
      AtSlot(Elems, cnt);
    }

    /** list_reverse: swaps the two links of every element, then the head's and the tail's. */
    method Reverse()
      requires Valid()
      modifies this
      ensures Valid() && Elems == Reversed(old(Elems))
    {
      assert Link(next, prev, Chain(Elems)[0], Chain(Elems)[1]);
      if next[HEAD] != TAIL {
        ghost var s := Elems;
        ReverseStart(s, next, prev);
        var e := next[HEAD];
        ghost var k := 0;
        while e != TAIL
          invariant HalfSwapped(s, k, next, prev) && e == Chain(s)[k + 1]
          decreases |s| - k
        {
          ReverseStep(s, k, next, prev);
          var t := prev[e];
          prev := prev[e := next[e]];
          next := next[e := t];
          e := prev[e];
          k := k + 1;
        }
        SlotAt(s, k);
        ReverseFinish(s, next, prev);
        var h := next[HEAD];
        next := next[HEAD := prev[TAIL]];
        prev := prev[TAIL := h];
        var last, first := next[HEAD], prev[TAIL];
        var t := prev[last];
        prev := prev[last := next[first]];
        next := next[first := t];
        Elems := Reversed(s);
      }
    }

    /**
     * list_splice within this list: the elements from `first` up to `last`
     * (exclusive) move to just before `before`, which must not lie inside
     * a non-empty range.
     */
    method Splice(before: int, first: int, last: int)
      requires Valid()
      requires before == TAIL || before in Elems
      requires first == TAIL || first in Elems
      requires last == TAIL || last in Elems
      requires Slot(Elems, first) <= Slot(Elems, last)
      requires first == last || Slot(Elems, before) < Slot(Elems, first) || Slot(Elems, last) <= Slot(Elems, before)
      modifies this
      ensures Valid()
      ensures Elems == Spliced(old(Elems), Slot(old(Elems), before), Slot(old(Elems), first), Slot(old(Elems), last))
    {
      if first == last {
        return;
      }
      ghost var s := Elems;
      ghost var b, f, l := Slot(s, before), Slot(s, first), Slot(s, last);
      ghost var c := Chain(s);
      assert Link(next, prev, c[f], c[f + 1]);
      assert Link(next, prev, c[l], c[l + 1]);
      SpliceLinked(s, b, f, l, next, prev);
      var lastIncl := prev[last];
      var fp := prev[first];
      var ln := next[lastIncl];
      next := next[fp := ln];
      prev := prev[ln := fp];
      var bp := prev[before];
      prev := prev[first := bp];
      next := next[lastIncl := before];
      next := next[bp := first];
      prev := prev[before := lastIncl];
      Elems := Spliced(s, b, f, l);
    }

    /** is_sorted: whether the elements from `a` up to `b` (exclusive) never descend. */
    method IsSorted(a: int, b: int, less: (int, int) -> bool) returns (r: bool)
      requires Valid()
      requires a == TAIL || a in Elems
      requires b == TAIL || b in Elems
      requires Slot(Elems, a) <= Slot(Elems, b)
      ensures r <==> AdjSorted(Elems[Slot(Elems, a)..Slot(Elems, b)], less)
    {
      if a != b {
        ghost var i, j := Slot(Elems, a), Slot(Elems, b);
        Neighbours(Elems, i, next, prev);
        var e := next[a];
        ghost var k := i + 1;
        while e != b
          invariant i < k <= j && e == At(Elems, k)
          invariant AdjSorted(Elems[i..k], less)
          decreases j - k
        {
          Neighbours(Elems, k, next, prev);
          if less(e, prev[e]) {
            assert Elems[i..j][k - i] == Elems[k] && Elems[i..j][k - i - 1] == Elems[k - 1];
            return false;
          }
          AdjSortedExtend(Elems, i, k, less);
          e := next[e];
          k := k + 1;
        }
        AtSlot(Elems, k);
      }
      return true;
    }

    /**
     * find_end_of_run: from `a`, strictly before `b`, the first node that is
     * `b` or orders before its predecessor. The run it ends never descends.
     */
    method FindEndOfRun(a: int, b: int, less: (int, int) -> bool) returns (e: int)
      requires Valid()
      requires a in Elems
      requires b == TAIL || b in Elems
      requires Slot(Elems, a) < Slot(Elems, b)
      ensures e == TAIL || e in Elems
      ensures Slot(Elems, a) < Slot(Elems, e) <= Slot(Elems, b)
      ensures AdjSorted(Elems[Slot(Elems, a)..Slot(Elems, e)], less)
      ensures e == b || DescentAt(Elems, Slot(Elems, e), less)
    {
      ghost var i, j := Slot(Elems, a), Slot(Elems, b);
      Neighbours(Elems, i, next, prev);
      e := next[a];
      ghost var k := i + 1;
      Neighbours(Elems, k, next, prev);
      while e != b && !less(e, prev[e])
        invariant i < k <= j && e == At(Elems, k)
        invariant e in prev && prev[e] == Elems[k - 1]
        invariant AdjSorted(Elems[i..k], less)
        decreases j - k
      {
        Neighbours(Elems, k, next, prev);
        AdjSortedExtend(Elems, i, k, less);
        e := next[e];
        k := k + 1;
        Neighbours(Elems, k, next, prev);
      }
      AtSlot(Elems, k);
    }

    /** list_insert_ordered: `elem` goes before the first element it orders strictly before. */
    method InsertOrdered(elem: int, less: (int, int) -> bool)
      requires Valid()
      requires elem >= 0 && elem !in Elems
      modifies this
      ensures Valid() && Elems == InsertionOf(old(Elems), elem, less)
    {
      Neighbours(Elems, 0, next, prev);
      var e := next[HEAD];
      ghost var k := 0;
      while e != TAIL
        invariant unchanged(this)
        invariant k <= |Elems| && e == At(Elems, k)
        invariant forall j :: 0 <= j < k ==> !less(elem, Elems[j])
        decreases |Elems| - k
      {
        if less(elem, e) {
          break;
        }
        Neighbours(Elems, k, next, prev);
        e := next[e];
        k := k + 1;
      }
      AtSlot(Elems, k);
      assert InsertPos(Elems, elem, less) == k;
      Insert(e, elem);
    }

    /** The removal step of list_unique: `e` leaves this list and, if given, joins the back of `duplicates`. */
    method MoveToBack(e: int, ghost i: nat, duplicates: List?)
      requires Valid() && i < |Elems| && Elems[i] == e
      requires duplicates != null ==> duplicates != this && duplicates.Valid()
      requires duplicates != null ==> forall x :: x in duplicates.Elems ==> x !in Elems
      modifies this, duplicates
      ensures Valid()
      ensures Elems == old(Elems)[..i] + old(Elems)[i + 1..]
      ensures duplicates != null ==> duplicates.Valid() && duplicates.Elems == old(duplicates.Elems) + [e]
      ensures duplicates != null ==> forall x :: x in duplicates.Elems ==> x !in Elems
    {
      ghost var s := Elems;
      PosUnique(s, e, i + 1);
      DropNext(s[..i], s[i..]);
      assert s[..i] + s[i..] == s;
      var _ := Remove(e);
      if duplicates != null {
        duplicates.PushBack(e);
      }
    }

    /**
     * list_unique: of each run of adjacent equal elements only the first
     * stays; the others are appended, in order, to `duplicates` if given.
     */
    method Unique(duplicates: List?, less: (int, int) -> bool)
      requires Valid()
      requires duplicates != null ==> duplicates != this && duplicates.Valid()
      requires duplicates != null ==> forall x :: x in duplicates.Elems ==> x !in Elems
      modifies this, duplicates
      ensures Valid() && Elems == Deduped(old(Elems), less)
      ensures duplicates != null ==> duplicates.Valid() && duplicates.Elems == old(duplicates.Elems) + Dropped(old(Elems), less)
    {
      if Empty() {
        return;
      }
      ghost var s0 := Elems;
      ghost var dups := if duplicates != null then duplicates.Elems else [];
      ghost var d0 := dups;
      UniqueStart(s0, d0, less);
      var elem := Begin();
      ghost var m := 1;
      LinkedNext(Elems, 0, next, prev);
      var nxt := next[elem];
      while nxt != TAIL
        invariant Valid()
        invariant UniqueProgress(s0, d0, Elems, dups, m, less)
        invariant elem == Elems[m - 1] && nxt == if m < |Elems| then Elems[m] else TAIL
        invariant duplicates != null ==> duplicates.Valid() && duplicates.Elems == dups
        invariant duplicates != null ==> forall x :: x in dups ==> x !in Elems
        decreases |Elems| - m
      {
        UniqueStep(s0, d0, Elems, dups, m, less);
        if !less(elem, nxt) && !less(nxt, elem) {
          MoveToBack(nxt, m, duplicates);
          dups := dups + [nxt];
        } else {
          elem := nxt;
          m := m + 1;
        }
        LinkedNext(Elems, m - 1, next, prev);
        nxt := next[elem];
      }
      UniqueEnd(s0, d0, Elems, dups, m, less);
    }

    /**
     * list_max: the tail of an empty list; otherwise an element nothing
     * orders after, the earliest such.
     */
    method Max(less: (int, int) -> bool) returns (max: int)
      requires Valid()
      ensures Elems == [] ==> max == TAIL
      ensures Elems != [] ==> max in Elems
      ensures Elems != [] ==> forall j :: Slot(Elems, max) < j < |Elems| ==> !less(max, Elems[j])
      ensures Elems != [] && StrictWeakOrder(less) ==>
                (forall j :: 0 <= j < |Elems| ==> !less(max, Elems[j]))
                && (forall j :: 0 <= j < Slot(Elems, max) ==> less(Elems[j], max))
    {
      Neighbours(Elems, 0, next, prev);
      max := next[HEAD];
      if max != TAIL {
        ghost var m := 0;
        Neighbours(Elems, 0, next, prev);
        var e := next[max];
        ghost var k := 1;
        while e != TAIL
          invariant 1 <= k <= |Elems| && e == At(Elems, k)
          invariant MaxOfPrefix(Elems, m, k, less) && max == Elems[m]
          decreases |Elems| - k
        {
          MaxStep(Elems, m, k, less);
          if less(max, e) {
            max := e;
            m := k;
          }
          Neighbours(Elems, k, next, prev);
          e := next[e];
          k := k + 1;
        }
        AtSlot(Elems, m);
      }
    }

    /**
     * list_min: the tail of an empty list; otherwise an element that orders
     * after nothing, the earliest such.
     */
    method Min(less: (int, int) -> bool) returns (min: int)
      requires Valid()
      ensures Elems == [] ==> min == TAIL
      ensures Elems != [] ==> min in Elems
      ensures Elems != [] ==> forall j :: Slot(Elems, min) < j < |Elems| ==> !less(Elems[j], min)
      ensures Elems != [] && StrictWeakOrder(less) ==>
                (forall j :: 0 <= j < |Elems| ==> !less(Elems[j], min))
                && (forall j :: 0 <= j < Slot(Elems, min) ==> less(min, Elems[j]))
    {
      Neighbours(Elems, 0, next, prev);
      min := next[HEAD];
      if min != TAIL {
        ghost var m := 0;
        Neighbours(Elems, 0, next, prev);
        var e := next[min];
        ghost var k := 1;
        while e != TAIL
          invariant 1 <= k <= |Elems| && e == At(Elems, k)
          invariant MinOfPrefix(Elems, m, k, less) && min == Elems[m]
          decreases |Elems| - k
        {
          MinStep(Elems, m, k, less);
          if less(e, min) {
            min := e;
            m := k;
          }
          Neighbours(Elems, k, next, prev);
          e := next[e];
          k := k + 1;
        }
        AtSlot(Elems, m);
      }
    }

    /**
     * inplace_merge: the runs A, from firstRunStart up to firstRunEnd, and
     * B, from there up to secondRunEnd, both never descending, are merged
     * in place by moving elements of B back into A.
     */
    method InplaceMerge(firstRunStart: int, firstRunEnd: int, secondRunEnd: int, less: (int, int) -> bool,
                        ghost pre: seq<int>, ghost A: seq<int>, ghost B: seq<int>, ghost post: seq<int>)
      requires Valid() && Elems == pre + A + B + post
      requires firstRunStart == At(Elems, |pre|)
      requires firstRunEnd == At(Elems, |pre| + |A|)
      requires secondRunEnd == At(Elems, |pre| + |A| + |B|)
      requires AdjSorted(A, less) && AdjSorted(B, less)
      modifies this
      ensures Valid() && Elems == pre + Merged(A, B, less) + post
      ensures multiset(Elems) == multiset(old(Elems))
      ensures StrictWeakOrder(less) ==> Sorted(Merged(A, B, less), less)
      ensures StrictWeakOrder(less) ==> forall x :: Class(Elems, x, less) == Class(old(Elems), x, less)
    {
      var frs, fre := firstRunStart, firstRunEnd;
      ghost var out, aR, bR := [], A, B;
      MergeStart(pre, A, B, post, less);
      while frs != fre && fre != secondRunEnd
        invariant Valid()
        invariant MergeProgress(pre, A, B, post, Elems, out, aR, bR, less)
        invariant frs == At(Elems, |pre| + |out|) && fre == At(Elems, |pre| + |out| + |aR|)
        invariant secondRunEnd == At(Elems, |pre| + |A| + |B|)
        decreases |aR| + |bR|
      {
        frs, fre, out, aR, bR := MergeStep(frs, fre, secondRunEnd, less, pre, A, B, post, out, aR, bR);
      }
      AtSlot(Elems, |pre| + |out|);
      AtSlot(Elems, |pre| + |out| + |aR|);
      AtSlot(Elems, |pre| + |A| + |B|);
      MergeEnd(pre, A, B, post, Elems, out, aR, bR, less);
      MergeMultiset(pre, A, B, post, less);
      if StrictWeakOrder(less) {
        MergeKeeps(pre, A, B, post, less);
      }
    }

    /**
     * One turn of inplace_merge's loop, with frs and fre the starts of the
     * unmerged rests aR and bR of the two runs: when fre's element does not
     * order before frs's, frs moves on; otherwise fre's element is spliced
     * in before frs and fre moves on.
     */
    method MergeStep(frs: int, fre: int, secondRunEnd: int, less: (int, int) -> bool,
                     ghost pre: seq<int>, ghost A: seq<int>, ghost B: seq<int>, ghost post: seq<int>,
                     ghost out: seq<int>, ghost aR: seq<int>, ghost bR: seq<int>)
      returns (frs': int, fre': int, ghost out': seq<int>, ghost aR': seq<int>, ghost bR': seq<int>)
      requires Valid() && MergeProgress(pre, A, B, post, Elems, out, aR, bR, less)
      requires frs == At(Elems, |pre| + |out|) && fre == At(Elems, |pre| + |out| + |aR|)
      requires secondRunEnd == At(Elems, |pre| + |A| + |B|)
      requires frs != fre && fre != secondRunEnd
      modifies this
      ensures Valid() && MergeProgress(pre, A, B, post, Elems, out', aR', bR', less)
      ensures frs' == At(Elems, |pre| + |out'|) && fre' == At(Elems, |pre| + |out'| + |aR'|)
      ensures secondRunEnd == At(Elems, |pre| + |A| + |B|)
      ensures |aR'| + |bR'| < |aR| + |bR|
    {
      if !less(fre, frs) {
        out', aR', bR' := TakeFirstNodes(Elems, next, prev, pre, A, B, post, out, aR, bR, frs, fre, secondRunEnd, less);
        frs', fre' := next[frs], fre;
      } else {
        fre', out', aR', bR' := MoveSecond(frs, fre, secondRunEnd, less, pre, A, B, post, out, aR, bR);
        frs' := frs;
      }
    }

    /** The second branch of MergeStep: fre moves on, and the node it left is spliced in before frs. */
    method MoveSecond(frs: int, fre: int, secondRunEnd: int, less: (int, int) -> bool,
                      ghost pre: seq<int>, ghost A: seq<int>, ghost B: seq<int>, ghost post: seq<int>,
                      ghost out: seq<int>, ghost aR: seq<int>, ghost bR: seq<int>)
      returns (fre': int, ghost out': seq<int>, ghost aR': seq<int>, ghost bR': seq<int>)
      requires Valid() && MergeProgress(pre, A, B, post, Elems, out, aR, bR, less)
      requires frs == At(Elems, |pre| + |out|) && fre == At(Elems, |pre| + |out| + |aR|)
      requires secondRunEnd == At(Elems, |pre| + |A| + |B|)
      requires frs != fre && fre != secondRunEnd && less(fre, frs)
      modifies this
      ensures Valid() && MergeProgress(pre, A, B, post, Elems, out', aR', bR', less)
      ensures frs == At(Elems, |pre| + |out'|) && fre' == At(Elems, |pre| + |out'| + |aR'|)
      ensures secondRunEnd == At(Elems, |pre| + |A| + |B|)
      ensures |aR'| + |bR'| < |aR| + |bR|
    {
      ghost var j := |pre| + |out| + |aR|;
      RunHeads(Elems, pre, A, B, post, out, aR, bR, frs, fre, secondRunEnd, less);
      Neighbours(Elems, j, next, prev);
      Neighbours(Elems, j + 1, next, prev);
      fre' := next[fre];
      ghost var e';
      e', out', aR', bR' := TakeSecondNodes(Elems, pre, A, B, post, out, aR, bR, frs, fre, fre', secondRunEnd, less);
      assert prev[fre'] == fre;
      Splice(frs, prev[fre'], fre');
      assert Elems == e';
    }

    /**
     * One pass of list_sort's outer loop: from the front, each two
     * consecutive runs are merged; `cnt` counts the runs the pass met in
     * pairs or alone. The pass removes at least cnt - 1 descents, and when
     * it met only one run the list never descends.
     */
    method MergePass(less: (int, int) -> bool) returns (cnt: nat)
      requires Valid() && StrictWeakOrder(less)
      modifies this
      ensures Valid()
      ensures multiset(Elems) == multiset(old(Elems))
      ensures forall x :: Class(Elems, x, less) == Class(old(Elems), x, less)
      ensures Descents(Elems, less) + cnt <= Descents(old(Elems), less) + 1
      ensures cnt <= 1 ==> AdjSorted(Elems, less)
    {
      ghost var s0 := Elems;
      ghost var D, D0, rest := [], [], Elems;
      SortPassStart(s0, less);
      cnt := 0;
      var runStart := Begin();
      while runStart != TAIL
        invariant Valid() && Elems == D + rest
        invariant SortPass(s0, D, D0, rest, cnt, less)
        invariant runStart == At(Elems, |D|)
        invariant multiset(Elems) == multiset(s0)
        invariant forall x :: Class(Elems, x, less) == Class(s0, x, less)
        decreases |rest|
      {
        var last: bool;
        last, runStart, D, D0, rest := PassStep(runStart, less, s0, D, D0, rest, cnt);
        cnt := cnt + 1;
        if last {
          return;
        }
      }
      AtSlot(Elems, |D|);
      assert rest == [] && Elems == D;
      SortPassEnd(s0, D, D0, cnt, less);
    }

    /**
     * One turn of MergePass's loop: find the run starting at runStart; when
     * it reaches the end of the list (`last`) the pass is over, otherwise
     * merge it with the run after it and continue at the end of that run.
     */
    method PassStep(runStart: int, less: (int, int) -> bool,
                    ghost s0: seq<int>, ghost D: seq<int>, ghost D0: seq<int>, ghost rest: seq<int>, ghost cnt: nat)
      returns (last: bool, runStart': int, ghost D': seq<int>, ghost D0': seq<int>, ghost rest': seq<int>)
      requires Valid() && StrictWeakOrder(less) && Elems == D + rest
      requires SortPass(s0, D, D0, rest, cnt, less)
      requires runStart == At(Elems, |D|) && runStart != TAIL
      modifies this
      ensures Valid()
      ensures multiset(Elems) == multiset(old(Elems))
      ensures forall x :: Class(Elems, x, less) == Class(old(Elems), x, less)
      ensures last ==> Descents(Elems, less) + (cnt + 1) <= Descents(s0, less) + 1
      ensures last ==> (cnt + 1 <= 1 ==> AdjSorted(Elems, less))
      ensures !last ==> Elems == D' + rest' && SortPass(s0, D', D0', rest', cnt + 1, less)
      ensures !last ==> runStart' == At(Elems, |D'|) && |rest'| < |rest|
    {
      AtSlot(Elems, |D|);
      var firstRunEnd := FindEndOfRun(runStart, TAIL, less);
      if firstRunEnd == TAIL {
        LastRun(Elems, D, rest, less);
        SortPassLast(s0, D, D0, rest, cnt, less);
        return true, TAIL, D, D0, rest;
      }
      var secondRunEnd := FindEndOfRun(firstRunEnd, TAIL, less);
      ghost var A, B, rest'' := RunsAtNodes(Elems, D, rest, runStart, firstRunEnd, secondRunEnd, less);
      AtJoin(D + A + B, rest'');
      SortPassMerge(s0, D, D0, rest, A, B, rest'', cnt, less);
      InplaceMerge(runStart, firstRunEnd, secondRunEnd, less, D, A, B, rest'');
      last, runStart', D', D0', rest' := false, secondRunEnd, D + Merged(A, B, less), D0 + A + B, rest'';
      AtJoin(D', rest');
    }

    /**
     * list_sort: a natural merge sort, repeating passes until one pass
     * meets a single run. The result is sorted, a permutation of the list,
     * and stable: equivalent elements keep their order.
     */
    method Sort(less: (int, int) -> bool)
      requires Valid() && StrictWeakOrder(less)
      modifies this
      ensures Valid() && Sorted(Elems, less)
      ensures multiset(Elems) == multiset(old(Elems))
      ensures forall x :: Class(Elems, x, less) == Class(old(Elems), x, less)
    {
      while true
        invariant Valid()
        invariant multiset(Elems) == multiset(old(Elems))
        invariant forall x :: Class(Elems, x, less) == Class(old(Elems), x, less)
        decreases Descents(Elems, less)
      {
        var cnt := MergePass(less);
        if cnt <= 1 {
          AdjSortedIsSorted(Elems, less);
          return;
        }
      }
    }
  }
}
