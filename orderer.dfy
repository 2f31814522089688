/** Presentation order of a topic's examples (sortExamples,
    cmd/import-stack-overflow/main.go:165-175): pinned examples first, then
    by descending score. The order among examples with the same key is left
    unspecified, as Go's `sort.Slice` leaves it. */
module Orderer {
  import opened Records

  /** The intended order as a total preorder on the key (pinned first, then
      higher score first): `x` may stand before `y`. */
  predicate Precedes(x: Example, y: Example) {
    (x.isPinned && !y.isPinned) || (x.isPinned == y.isPinned && x.score >= y.score)
  }

  /** The strict comparator derived from the same key. */
  predicate KeyLess(x: Example, y: Example) {
    (x.isPinned && !y.isPinned) || (x.isPinned == y.isPinned && x.score > y.score)
  }

  /** `KeyLess` is a strict weak ordering, which is what `sort.Slice` asks of
      its comparator, and `Precedes` is exactly "not after". */
  lemma KeyLessIsStrictWeakOrder(x: Example, y: Example, z: Example)
    ensures !KeyLess(x, x)
    ensures KeyLess(x, y) ==> !KeyLess(y, x)
    ensures KeyLess(x, y) && KeyLess(y, z) ==> KeyLess(x, z)
    ensures !KeyLess(x, y) && !KeyLess(y, x) && !KeyLess(y, z) && !KeyLess(z, y)
            ==> !KeyLess(x, z) && !KeyLess(z, x)
    ensures Precedes(x, y) <==> !KeyLess(y, x)
  {
  }

  /** The comparator as the source writes it (main.go:166-174). */
  predicate GoLess(x: Example, y: Example) {
    if x.isPinned then true
    else if y.isPinned then false
    else x.score > y.score
  }

  /** The source's comparator is not a strict weak ordering: a pinned example
      is "less" than itself, and of two pinned examples each is "less" than
      the other, so `sort.Slice` promises nothing about the result. */
  lemma GoLessIsNotStrictWeakOrder()
    ensures exists x: Example :: GoLess(x, x)
    ensures exists x: Example, y: Example :: x != y && GoLess(x, y) && GoLess(y, x)
  {
    var a := Example(1, 0, "a", 0, true, "", "");
    var b := Example(2, 0, "b", 5, true, "", "");
    assert GoLess(a, a);
    assert a != b && GoLess(a, b) && GoLess(b, a);
  }

  /** Wherever the source's comparator is consistent (not both pinned), it
      agrees with the key order. */
  lemma GoLessAgreesOffPinnedPairs(x: Example, y: Example)
    requires !(x.isPinned && y.isPinned)
    ensures GoLess(x, y) <==> KeyLess(x, y)
  {
  }

  /** `s` is in presentation order. */
  predicate Ordered(s: seq<Example>) {
    forall i, j :: 0 <= i < j < |s| ==> Precedes(s[i], s[j])
  }

  /** What presentation order means: every pinned example comes before every
      unpinned one, and within each group scores do not increase. */
  lemma OrderedMeaning(s: seq<Example>, i: nat, j: nat)
    requires Ordered(s) && i < j < |s|
    ensures s[j].isPinned ==> s[i].isPinned
    ensures s[i].isPinned == s[j].isPinned ==> s[i].score >= s[j].score
  {
    assert Precedes(s[i], s[j]);
  }

  /** Index of an example in `a[lo..]` that may stand before all the others. */
  method BestFrom(a: array<Example>, lo: nat) returns (m: nat)
    requires lo < a.Length
    ensures lo <= m < a.Length
    ensures forall k :: lo <= k < a.Length ==> Precedes(a[m], a[k])
  {
    m := lo;
    var k := lo + 1;
    while k < a.Length
      invariant lo <= m < k <= a.Length
      invariant forall q :: lo <= q < k ==> Precedes(a[m], a[q])
    {
      if KeyLess(a[k], a[m]) {
        m := k;
      }
      k := k + 1;
    }
  }

  /** `sortExamples`: sorts in place (a selection sort); the result is a
      permutation of the input in presentation order. */
  method SortExamples(a: array<Example>)
    modifies a
    ensures Ordered(a[..])
    ensures multiset(a[..]) == multiset(old(a[..]))
  {
    var i := 0;
    while i < a.Length
      invariant i <= a.Length
      invariant forall p, q :: 0 <= p < q < i ==> Precedes(a[p], a[q])
      invariant forall p, q :: 0 <= p < i <= q < a.Length ==> Precedes(a[p], a[q])
      invariant multiset(a[..]) == multiset(old(a[..]))
    {
      var m := BestFrom(a, i);
      a[i], a[m] := a[m], a[i];
      i := i + 1;
    }
  }
}
