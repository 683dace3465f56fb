/** Little-endian values in byte-addressed memory. */
module Bytes {
  import opened Bits

  newtype Byte = x: int | 0 <= x < 256
  type Ram = nat -> Byte

  /** Memory that begins with the bytes given. */
  function RamOf(s: seq<Byte>): Ram { (a: nat) => if a < |s| then s[a] else 0 }

  /** The little-endian value of `n` bytes. */
  function Little(ram: Ram, a: nat, n: nat): nat
    decreases n, a
  {
    if n == 0 then 0 else ram(a) as nat + 256 * Little(ram, a + 1, n - 1)
  }

  lemma {:induction false} LittleBound(ram: Ram, a: nat, n: nat)
    ensures Little(ram, a, n) < Pow2(8 * n)
    decreases n
  {
    if n > 0 {
      Pow2Add(8, 8 * (n - 1));
      assert Pow2(8) == 256;
      LittleBound(ram, a + 1, n - 1);
    }
  }

  /** The bytes of a small value are zero from some position on. */
  lemma {:induction false} HighBytes(ram: Ram, a: nat, n: nat, k: nat)
    requires k < n && Little(ram, a, n) < Pow2(8 * k)
    ensures ram(a + k) == 0
    decreases n
  {
    if k > 0 {
      Pow2Add(8, 8 * (k - 1));
      assert Pow2(8) == 256;
      HighBytes(ram, a + 1, n - 1, k - 1);
    }
  }

  function Word32(ram: Ram, a: nat): Word {
    assert Pow2(8 * 4) == TWO_32 by { Pow2Values(); }
    LittleBound(ram, a, 4);
    Little(ram, a, 4)
  }

  function Word64(ram: Ram, a: nat): Quad {
    assert Pow2(8 * 8) == TWO_64 by { Pow2Values(); }
    LittleBound(ram, a, 8);
    Little(ram, a, 8)
  }

  /** The `n` little-endian bytes of a value. */
  function Le(v: nat, n: nat): (s: seq<Byte>)
    ensures |s| == n
    decreases n, v
  {
    if n == 0 then [] else [(v % 256) as Byte] + Le(v / 256, n - 1)
  }

  /** The bytes lie in memory from an address on. */
  ghost predicate HoldsEach(ram: Ram, a: nat, s: seq<Byte>) {
    forall k: nat :: k < |s| ==> ram(a + k) == s[k]
  }

  /** The same, shut. */
  ghost predicate Holds(ram: Ram, a: nat, s: seq<Byte>) {
    forall j: nat :: Open(s, j) ==> HoldsEach(ram, a, s)
  }

  lemma HoldsParts(ram: Ram, a: nat, s: seq<Byte>, t: seq<Byte>)
    requires Holds(ram, a, s + t)
    ensures Holds(ram, a, s) && Holds(ram, a + |s|, t)
  {
    assert Open(s + t, 0);
    forall k: nat | k < |s| ensures ram(a + k) == s[k] {
      assert (s + t)[k] == s[k];
    }
    forall k: nat | k < |t| ensures ram(a + |s| + k) == t[k] {
      assert (s + t)[|s| + k] == t[k];
      assert a + (|s| + k) == a + |s| + k;
    }
  }

  /** Reading undoes writing. */
  lemma {:induction false} LittleOfLe(ram: Ram, a: nat, v: nat, n: nat)
    requires Holds(ram, a, Le(v, n)) && v < Pow2(8 * n)
    ensures Little(ram, a, n) == v
    decreases n
  {
    if n > 0 {
      Pow2Add(8, 8 * (n - 1));
      assert Pow2(8) == 256;
      assert Le(v, n) == [(v % 256) as Byte] + Le(v / 256, n - 1);
      var b := (v % 256) as Byte;
      HoldsParts(ram, a, [b], Le(v / 256, n - 1));
      assert Open([b], 0);
      assert [b][0] == b && ram(a + 0) == b;
      LittleOfLe(ram, a + 1, v / 256, n - 1);
    }
  }

  lemma WordOfLe(ram: Ram, a: nat, v: nat)
    ensures Holds(ram, a, Le(v, 4)) && v < TWO_32 ==> Word32(ram, a) == v
    ensures Holds(ram, a, Le(v, 8)) && v < TWO_64 ==> Word64(ram, a) == v
  {
    Pow2Values();
    if Holds(ram, a, Le(v, 4)) && v < TWO_32 {
      assert Pow2(8 * 4) == TWO_32;
      LittleOfLe(ram, a, v, 4);
    }
    if Holds(ram, a, Le(v, 8)) && v < TWO_64 {
      LittleOfLe(ram, a, v, 8);
    }
  }

  /** Writing undoes reading. */
  lemma {:induction false} LeOfLittle(ram: Ram, a: nat, n: nat)
    ensures Holds(ram, a, Le(Little(ram, a, n), n))
    decreases n
  {
    if n > 0 {
      var v, b := Little(ram, a, n), ram(a);
      assert v % 256 == b as nat && v / 256 == Little(ram, a + 1, n - 1);
      LeOfLittle(ram, a + 1, n - 1);
      HoldsNext(ram, a, b, Le(v / 256, n - 1));
    }
  }

  lemma HoldsNext(ram: Ram, a: nat, b: Byte, t: seq<Byte>)
    requires ram(a) == b && Holds(ram, a + 1, t)
    ensures Holds(ram, a, [b] + t)
  {
    assert Open(t, 0);
    forall k: nat | k < |[b] + t| ensures ram(a + k) == ([b] + t)[k] {
      assert k > 0 ==> ram(a + 1 + (k - 1)) == t[k - 1];
    }
  }

  /** Two things that lie one behind the other lie there as one. */
  lemma HoldsBoth(ram: Ram, a: nat, s: seq<Byte>, t: seq<Byte>)
    ensures Holds(ram, a, s + t) <==> Holds(ram, a, s) && Holds(ram, a + |s|, t)
  {
    if Holds(ram, a, s + t) {
      HoldsParts(ram, a, s, t);
    }
    if Holds(ram, a, s) && Holds(ram, a + |s|, t) {
      HoldsJoined(ram, a, s, t);
    }
  }

  lemma HoldsJoined(ram: Ram, a: nat, s: seq<Byte>, t: seq<Byte>)
    requires Holds(ram, a, s) && Holds(ram, a + |s|, t)
    ensures Holds(ram, a, s + t)
  {
    assert Open(s, 0) && Open(t, 0);
    forall k: nat | k < |s + t| ensures ram(a + k) == (s + t)[k] {
      assert k >= |s| ==> ram(a + |s| + (k - |s|)) == t[k - |s|];
    }
  }
}
