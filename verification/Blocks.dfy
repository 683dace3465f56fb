/** Byte memory seen as an array of fixed-size elements, and the block exchange of the sort. */
module Blocks {
  import opened Bytes

  /** One element of a sorted array: its bytes, kept whole. */
  type Element = seq<Byte>

  /** Size of `size_t`, the unit of the word-wise exchange. */
  const WORD: nat := 8

  /** `s` with the `n` items at `a` and the `n` items at `b` exchanged. */
  function SwapBlocks<T>(s: seq<T>, a: nat, b: nat, n: nat): (r: seq<T>)
    requires a + n <= |s| && b + n <= |s|
    ensures |r| == |s|
  {
    seq(|s|, i requires 0 <= i < |s| =>
      if a <= i < a + n then s[b + (i - a)]
      else if b <= i < b + n then s[a + (i - b)]
      else s[i])
  }

  /** The two blocks are the same one or share no item. */
  predicate Apart(a: nat, b: nat, n: nat) {
    a == b || a + n <= b || b + n <= a
  }

  lemma SwapBlocksPermutes<T>(s: seq<T>, a: nat, b: nat, n: nat)
    requires a + n <= |s| && b + n <= |s| && Apart(a, b, n)
    ensures multiset(SwapBlocks(s, a, b, n)) == multiset(s)
  {
    SwapPermutes(s, SwapBlocks(s, a, b, n), a, b, n);
  }

  lemma {:induction false} SwapPermutes<T>(s: seq<T>, u: seq<T>, a: nat, b: nat, n: nat)
    requires a + n <= |s| && b + n <= |s| && Apart(a, b, n) && u == SwapBlocks(s, a, b, n)
    ensures multiset(u) == multiset(s)
    decreases n
  {
    if n == 0 {
      SwapNone(s, u, a, b);
    } else {
      var t := SwapBlocks(s, a, b, n - 1);
      SwapPermutes(s, t, a, b, n - 1);
      SwapLast(s, t, u, a, b, n);
      SwapTwoPermutes(t, u, a + n - 1, b + n - 1);
    }
  }

  lemma SwapNone<T>(s: seq<T>, u: seq<T>, a: nat, b: nat)
    requires a <= |s| && b <= |s| && u == SwapBlocks(s, a, b, 0)
    ensures u == s
  {
  }

  lemma SwapLast<T>(s: seq<T>, t: seq<T>, u: seq<T>, a: nat, b: nat, n: nat)
    requires a + n <= |s| && b + n <= |s| && Apart(a, b, n) && n > 0
    requires t == SwapBlocks(s, a, b, n - 1) && u == SwapBlocks(s, a, b, n)
    ensures u == t[a + n - 1 := t[b + n - 1]][b + n - 1 := t[a + n - 1]]
  {
  }

  lemma SwapTwoPermutes<T>(t: seq<T>, u: seq<T>, x: nat, y: nat)
    requires x < |t| && y < |t| && u == t[x := t[y]][y := t[x]]
    ensures multiset(u) == multiset(t)
  {
  }

  /** Exchanging twice restores every item. */
  lemma SwapBlocksTwice<T>(s: seq<T>, a: nat, b: nat, n: nat)
    requires a + n <= |s| && b + n <= |s| && Apart(a, b, n)
    ensures SwapBlocks(SwapBlocks(s, a, b, n), a, b, n) == s
  {
  }

  /** The size in bytes of `k` elements of `es` bytes: `k` steps of a cursor. */
  function Span(es: nat, k: nat): nat {
    if k == 0 then 0 else Span(es, k - 1) + es
  }

  /** Where element `i` of an array at `base` starts. */
  function At(base: nat, es: nat, i: nat): nat {
    base + Span(es, i)
  }

  lemma {:induction false} SpanIsProduct(es: nat, k: nat)
    ensures Span(es, k) == k * es
  {
    if k > 0 {
      SpanIsProduct(es, k - 1);
    }
  }

  lemma {:induction false} SpanAdd(es: nat, i: nat, d: nat)
    ensures Span(es, i + d) == Span(es, i) + Span(es, d)
  {
    if d > 0 {
      SpanAdd(es, i, d - 1);
      assert i + d - 1 == i + (d - 1);
    }
  }

  lemma {:induction false} SpanWords(es: nat, k: nat)
    requires es % WORD == 0
    ensures Span(es, k) % WORD == 0
  {
    if k > 0 {
      SpanWords(es, k - 1);
    }
  }

  lemma AtPlus(base: nat, es: nat, i: nat, d: nat)
    ensures At(base, es, i + d) == At(base, es, i) + Span(es, d)
    ensures At(At(base, es, i), es, d) == At(base, es, i + d)
  {
    SpanAdd(es, i, d);
  }

  lemma AtMono(base: nat, es: nat, i: nat, j: nat)
    requires i <= j
    ensures At(base, es, i) <= At(base, es, j)
    ensures i < j ==> At(base, es, i) + es <= At(base, es, j)
  {
    SpanAdd(es, i, j - i);
  }

  /** The bytes of element `i`. */
  function ElementAt(s: seq<Byte>, base: nat, es: nat, i: nat): (e: Element)
    requires At(base, es, i) + es <= |s|
    ensures |e| == es
  {
    s[At(base, es, i)..At(base, es, i) + es]
  }

  /** The `n` elements of size `es` stored at `base`. */
  function View(s: seq<Byte>, base: nat, n: nat, es: nat): (v: seq<Element>)
    requires At(base, es, n) <= |s|
    ensures |v| == n
    ensures forall i :: 0 <= i < n ==> |v[i]| == es
  {
    seq(n, i requires 0 <= i < n => (AtMono(base, es, i, n); ElementAt(s, base, es, i)))
  }

  lemma ViewAt(s: seq<Byte>, base: nat, n: nat, es: nat, i: nat)
    requires At(base, es, n) <= |s| && i < n
    ensures At(base, es, i) + es <= |s|
    ensures View(s, base, n, es)[i] == ElementAt(s, base, es, i)
  {
    AtMono(base, es, i, n);
  }

  /** In the source's own arithmetic: the array ends at `base + n * es`, and element `i` is the `es` bytes
      from `base + i * es` on. */
  lemma ElementIsSlice(s: seq<Byte>, base: nat, n: nat, es: nat, i: nat)
    requires At(base, es, n) <= |s| && i < n
    ensures At(base, es, n) == base + n * es && base + i * es + es <= |s|
    ensures View(s, base, n, es)[i] == s[base + i * es..base + i * es + es]
  {
    SpanIsProduct(es, n);
    SpanIsProduct(es, i);
    ViewAt(s, base, n, es, i);
  }

  /** Exchanging blocks of bytes that hold whole elements exchanges those elements and leaves
      every other element of the array whole. */
  lemma ViewOfSwap(s: seq<Byte>, base: nat, n: nat, es: nat, i: nat, j: nat, k: nat)
    requires At(base, es, n) <= |s| && i + k <= n && j + k <= n
    ensures At(base, es, i) + Span(es, k) <= |s| && At(base, es, j) + Span(es, k) <= |s|
    ensures View(SwapBlocks(s, At(base, es, i), At(base, es, j), Span(es, k)), base, n, es)
         == SwapBlocks(View(s, base, n, es), i, j, k)
  {
    AtPlus(base, es, i, k);
    AtPlus(base, es, j, k);
    AtMono(base, es, i + k, n);
    AtMono(base, es, j + k, n);
    var r := SwapBlocks(s, At(base, es, i), At(base, es, j), Span(es, k));
    var v, w := View(s, base, n, es), View(r, base, n, es);
    forall t | 0 <= t < n ensures w[t] == v[Source(i, j, k, t)] {
      ElementOfSwap(s, r, base, n, es, i, j, k, t);
    }
    SwappedAt(v, w, i, j, k);
  }

  lemma SwappedAt<T>(v: seq<T>, w: seq<T>, i: nat, j: nat, k: nat)
    requires i + k <= |v| == |w| && j + k <= |v|
    requires forall t :: 0 <= t < |v| ==> w[t] == v[Source(i, j, k, t)]
    ensures w == SwapBlocks(v, i, j, k)
  {
  }

  /** Which element an exchange of `k` elements at `i` and at `j` moves to index `t`. */
  function Source(i: nat, j: nat, k: nat, t: nat): nat {
    if i <= t < i + k then j + (t - i) else if j <= t < j + k then i + (t - j) else t
  }

  lemma ElementOfSwap(s: seq<Byte>, r: seq<Byte>, base: nat, n: nat, es: nat, i: nat, j: nat, k: nat, t: nat)
    requires At(base, es, n) <= |s| == |r| && i + k <= n && j + k <= n && t < n
    requires At(base, es, i) + Span(es, k) <= |s| && At(base, es, j) + Span(es, k) <= |s|
    requires r == SwapBlocks(s, At(base, es, i), At(base, es, j), Span(es, k))
    ensures View(r, base, n, es)[t] == View(s, base, n, es)[Source(i, j, k, t)]
  {
    var u := Source(i, j, k, t);
    ViewAt(r, base, n, es, t);
    ViewAt(s, base, n, es, u);
    SourcePosition(base, es, i, j, k, t);
    ElementMoves(s, r, base, es, At(base, es, i), At(base, es, j), Span(es, k), t, u);
  }

  lemma ElementMoves(s: seq<Byte>, r: seq<Byte>, base: nat, es: nat, a: nat, b: nat, n: nat, t: nat, u: nat)
    requires a + n <= |s| && b + n <= |s| && At(base, es, t) + es <= |s| == |r| && At(base, es, u) + es <= |s|
    requires SlicePair(a, b, n, At(base, es, t), At(base, es, u), es) && r == SwapBlocks(s, a, b, n)
    ensures ElementAt(r, base, es, t) == ElementAt(s, base, es, u)
  {
    SliceOfSwap(s, r, a, b, n, At(base, es, t), At(base, es, u), es);
  }

  lemma SourcePosition(base: nat, es: nat, i: nat, j: nat, k: nat, t: nat)
    ensures SlicePair(At(base, es, i), At(base, es, j), Span(es, k), At(base, es, t), At(base, es, Source(i, j, k, t)),
                      es)
  {
    PositionIn(base, es, i, k, t);
    PositionIn(base, es, j, k, t);
    AtPlus(base, es, i, k);
    AtPlus(base, es, j, k);
    if i <= t < i + k {
      ShiftedBlock(base, es, i, j, t);
    } else if j <= t < j + k {
      ShiftedBlock(base, es, j, i, t);
    }
  }

  /** The slice of `len` items at `y` is what an exchange of `n` items at `a` and `b` brings to `x`. */
  predicate SlicePair(a: nat, b: nat, n: nat, x: nat, y: nat, len: nat) {
    || (a <= x && x + len <= a + n && y == b + (x - a))
    || ((x + len <= a || a + n <= x) && b <= x && x + len <= b + n && y == a + (x - b))
    || ((x + len <= a || a + n <= x) && (x + len <= b || b + n <= x) && y == x)
  }

  lemma SliceOfSwap<T>(s: seq<T>, r: seq<T>, a: nat, b: nat, n: nat, x: nat, y: nat, len: nat)
    requires a + n <= |s| && b + n <= |s| && x + len <= |s| == |r| && y + len <= |s|
    requires SlicePair(a, b, n, x, y, len) && r == SwapBlocks(s, a, b, n)
    ensures r[x..x + len] == s[y..y + len]
  {
  }

  lemma ShiftedBlock(base: nat, es: nat, i: nat, j: nat, t: nat)
    requires i <= t
    ensures At(base, es, i) <= At(base, es, t)
    ensures At(base, es, j + (t - i)) == At(base, es, j) + (At(base, es, t) - At(base, es, i))
  {
    AtPlus(base, es, i, t - i);
    AtPlus(base, es, j, t - i);
  }

  /** Element `t` lies inside the block of `k` elements at `i`, or outside it altogether. */
  lemma PositionIn(base: nat, es: nat, i: nat, k: nat, t: nat)
    ensures i <= t < i + k ==> At(base, es, i) <= At(base, es, t) && At(base, es, t) + es <= At(base, es, i + k)
    ensures t < i ==> At(base, es, t) + es <= At(base, es, i)
    ensures i + k <= t ==> At(base, es, i + k) <= At(base, es, t)
  {
    if t < i {
      AtMono(base, es, t, i);
    } else if t < i + k {
      AtMono(base, es, i, t);
      AtMono(base, es, t, i + k);
    } else {
      AtMono(base, es, i + k, t);
    }
  }

  /** The elements from index `lo` on are themselves an array, at their own base. */
  lemma ViewSlice(s: seq<Byte>, base: nat, n: nat, es: nat, lo: nat, m: nat)
    requires At(base, es, n) <= |s| && lo + m <= n
    ensures At(At(base, es, lo), es, m) <= |s|
    ensures View(s, At(base, es, lo), m, es) == View(s, base, n, es)[lo..lo + m]
  {
    AtPlus(base, es, lo, m);
    AtMono(base, es, lo + m, n);
    forall i | 0 <= i < m
      ensures View(s, At(base, es, lo), m, es)[i] == View(s, base, n, es)[lo..lo + m][i]
    {
      ViewAt(s, At(base, es, lo), m, es, i);
      ViewAt(s, base, n, es, lo + i);
      AtPlus(base, es, lo, i);
    }
  }

  /** `exch` on two words: each is read whole before either is written. */
  method ExchangeWords(mem: array<Byte>, a: nat, b: nat)
    requires a + WORD <= mem.Length && b + WORD <= mem.Length && Apart(a, b, WORD)
    modifies mem
    ensures mem[..] == SwapBlocks(old(mem[..]), a, b, WORD)
  {
    var t := mem[a..a + WORD];
    var u := mem[b..b + WORD];
    forall i | 0 <= i < WORD {
      mem[a + i] := u[i];
    }
    forall i | 0 <= i < WORD {
      mem[b + i] := t[i];
    }
  }

  /** `swapfunc`: exchanges `n` bytes at `a` and at `b`, word by word when `swaptype` is 0 or 1,
      byte by byte when it is 2.  Either way the result is the same block exchange. */
  method SwapFunc(mem: array<Byte>, a: nat, b: nat, n: nat, swaptype: int)
    requires a + n <= mem.Length && b + n <= mem.Length && Apart(a, b, n)
    requires swaptype <= 1 ==> n % WORD == 0
    modifies mem
    ensures mem[..] == SwapBlocks(old(mem[..]), a, b, n)
  {
    if swaptype <= 1 {
      SwapWords(mem, a, b, n);
    } else {
      SwapBytes(mem, a, b, n);
    }
  }

  method SwapWords(mem: array<Byte>, a: nat, b: nat, n: nat)
    requires a + n <= mem.Length && b + n <= mem.Length && Apart(a, b, n)
    requires n % WORD == 0
    modifies mem
    ensures mem[..] == SwapBlocks(old(mem[..]), a, b, n)
  {
    ghost var before := mem[..];
    var done := 0;
    while done < n
      invariant 0 <= done <= n && (n - done) % WORD == 0
      invariant mem[..] == SwapBlocks(before, a, b, done)
    {
      NextWord(mem, a, b, done, n, before);
      done := done + WORD;
    }
  }

  method NextWord(mem: array<Byte>, a: nat, b: nat, done: nat, n: nat, ghost before: seq<Byte>)
    requires |before| == mem.Length && a + n <= |before| && b + n <= |before| && Apart(a, b, n) && done + WORD <= n
    requires mem[..] == SwapBlocks(before, a, b, done)
    modifies mem
    ensures mem[..] == SwapBlocks(before, a, b, done + WORD)
  {
    ghost var mid := mem[..];
    ExchangeWords(mem, a + done, b + done);
    SwapExtends(before, mid, mem[..], a, b, done, WORD, n);
  }

  method SwapBytes(mem: array<Byte>, a: nat, b: nat, n: nat)
    requires a + n <= mem.Length && b + n <= mem.Length && Apart(a, b, n)
    modifies mem
    ensures mem[..] == SwapBlocks(old(mem[..]), a, b, n)
  {
    ghost var before := mem[..];
    var done := 0;
    while done < n
      invariant 0 <= done <= n
      invariant mem[..] == SwapBlocks(before, a, b, done)
    {
      NextByte(mem, a, b, done, n, before);
      done := done + 1;
    }
  }

  method NextByte(mem: array<Byte>, a: nat, b: nat, done: nat, n: nat, ghost before: seq<Byte>)
    requires |before| == mem.Length && a + n <= |before| && b + n <= |before| && Apart(a, b, n) && done < n
    requires mem[..] == SwapBlocks(before, a, b, done)
    modifies mem
    ensures mem[..] == SwapBlocks(before, a, b, done + 1)
  {
    ghost var mid := mem[..];
    ExchangeBytes(mem, a + done, b + done);
    SwapLast(before, mid, SwapBlocks(before, a, b, done + 1), a, b, done + 1);
  }

  /** `exch` on two bytes. */
  method ExchangeBytes(mem: array<Byte>, a: nat, b: nat)
    requires a < mem.Length && b < mem.Length
    modifies mem
    ensures mem[..] == old(mem[..])[a := old(mem[b])][b := old(mem[a])]
  {
    var t := mem[a];
    mem[a] := mem[b];
    mem[b] := t;
  }

  /** Exchanging a prefix of the blocks and then the next `d` items exchanges the longer prefix. */
  lemma SwapExtends<T>(s: seq<T>, t: seq<T>, u: seq<T>, a: nat, b: nat, k: nat, d: nat, n: nat)
    requires |s| == |t| && a + n <= |s| && b + n <= |s| && Apart(a, b, n) && k + d <= n
    requires t == SwapBlocks(s, a, b, k) && u == SwapBlocks(t, a + k, b + k, d)
    ensures u == SwapBlocks(s, a, b, k + d)
  {
  }
}
