/** Orderings given by a C comparator, and facts about element sequences under them. */
module Order {
  import opened Blocks

  /** A comparator: negative, zero or positive for less, equivalent or greater. */
  type Comparator = (Element, Element) -> int

  /** The comparator orders all elements of `es` bytes: any two compare, swapping the arguments
      swaps the outcome, and "not greater" is transitive.  Distinct elements may be equivalent. */
  ghost predicate TotalPreorder(cmp: Comparator, es: nat) {
    && (forall x: Element, y: Element {:trigger Dual(cmp, x, y)} :: |x| == es && |y| == es ==> Dual(cmp, x, y))
    && (forall x: Element, y: Element, z: Element {:trigger Transitive(cmp, x, y, z)} ::
          |x| == es && |y| == es && |z| == es ==> Transitive(cmp, x, y, z))
  }

  ghost predicate Dual(cmp: Comparator, x: Element, y: Element) {
    cmp(x, y) <= 0 <==> cmp(y, x) >= 0
  }

  ghost predicate Transitive(cmp: Comparator, x: Element, y: Element, z: Element) {
    cmp(x, y) <= 0 && cmp(y, z) <= 0 ==> cmp(x, z) <= 0
  }

  lemma Reflexive(cmp: Comparator, es: nat, x: Element)
    requires TotalPreorder(cmp, es) && |x| == es
    ensures cmp(x, x) == 0
  {
    assert Dual(cmp, x, x);
  }

  lemma Through(cmp: Comparator, es: nat, x: Element, y: Element, z: Element)
    requires TotalPreorder(cmp, es) && |x| == es && |y| == es && |z| == es
    requires cmp(x, y) <= 0 && cmp(y, z) <= 0
    ensures cmp(x, z) <= 0
  {
    assert Transitive(cmp, x, y, z);
  }

  ghost predicate Sorted(e: seq<Element>, cmp: Comparator) {
    forall i, j :: 0 <= i < j < |e| ==> cmp(e[i], e[j]) <= 0
  }

  ghost predicate Sized(e: seq<Element>, es: nat) {
    forall i :: 0 <= i < |e| ==> |e[i]| == es
  }

  lemma Chain(cmp: Comparator, es: nat, x: Element, p: Element, y: Element)
    requires TotalPreorder(cmp, es) && |x| == es && |p| == es && |y| == es
    requires cmp(x, p) <= 0 && cmp(y, p) >= 0
    ensures cmp(x, y) <= 0
  {
    assert Dual(cmp, p, y) && Transitive(cmp, x, p, y);
  }

  lemma SameMembers<T>(a: seq<T>, b: seq<T>)
    requires multiset(a) == multiset(b)
    ensures |a| == |b|
    ensures forall i :: 0 <= i < |a| ==> a[i] in b
  {
    assert |multiset(a)| == |a| && |multiset(b)| == |b|;
    forall i | 0 <= i < |a| ensures a[i] in b {
      assert a[i] in multiset(a);
    }
  }

  /** An element is a median of three: it is one of them, one of the others is not greater and
      the remaining one is not less. */
  ghost predicate IsMedian(cmp: Comparator, m: Element, x: Element, y: Element, z: Element) {
    || (m == x && ((cmp(y, m) <= 0 && cmp(m, z) <= 0) || (cmp(z, m) <= 0 && cmp(m, y) <= 0)))
    || (m == y && ((cmp(x, m) <= 0 && cmp(m, z) <= 0) || (cmp(z, m) <= 0 && cmp(m, x) <= 0)))
    || (m == z && ((cmp(x, m) <= 0 && cmp(m, y) <= 0) || (cmp(y, m) <= 0 && cmp(m, x) <= 0)))
  }

  /** `med3`: the position, among three, of a median of the elements there. */
  function Med3(e: seq<Element>, a: nat, b: nat, c: nat, cmp: Comparator): (m: nat)
    requires a < |e| && b < |e| && c < |e|
    ensures m == a || m == b || m == c
  {
    if cmp(e[a], e[b]) < 0 then
      (if cmp(e[b], e[c]) < 0 then b else if cmp(e[a], e[c]) < 0 then c else a)
    else
      (if cmp(e[b], e[c]) > 0 then b else if cmp(e[a], e[c]) > 0 then c else a)
  }

  lemma Med3IsMedian(e: seq<Element>, a: nat, b: nat, c: nat, cmp: Comparator, es: nat)
    requires a < |e| && b < |e| && c < |e|
    requires TotalPreorder(cmp, es) && Sized(e, es)
    ensures IsMedian(cmp, e[Med3(e, a, b, c, cmp)], e[a], e[b], e[c])
  {
    var x, y, z := e[a], e[b], e[c];
    assert Dual(cmp, x, y) && Dual(cmp, y, x);
    assert Dual(cmp, y, z) && Dual(cmp, z, y);
    assert Dual(cmp, x, z) && Dual(cmp, z, x);
  }
}
