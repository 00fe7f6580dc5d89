/** Byte strings: little-endian integers, the byte-lexicographic key order, and prefixes. */
module Bytes {

  type Byte = x: int | 0 <= x < 256
  type Bytes = seq<Byte>

  datatype Option<+T> = None | Some(value: T)

  /** A checksum function. Every result below holds for each such function; nothing
      is assumed about collisions. */
  type U32 = x: int | 0 <= x < 0x1_0000_0000
  type Checksum = Bytes -> U32

  const U16_MAX: nat := 0xFFFF

  // ---------------------------------------------------------------------------
  // Little-endian integers

  function Pow256(n: nat): (p: nat)
    ensures p >= 1
  {
    if n == 0 then 1 else 256 * Pow256(n - 1)
  }

  /** The low `n` bytes of `x`, least significant first (a cast to an n-byte width, then `to_le_bytes`). */
  function ToLE(x: nat, n: nat): (bs: Bytes)
    ensures |bs| == n
  {
    if n == 0 then [] else [x % 256] + ToLE(x / 256, n - 1)
  }

  function FromLE(bs: Bytes): (x: nat)
    ensures x < Pow256(|bs|)
  {
    if bs == [] then 0 else bs[0] + 256 * FromLE(bs[1..])
  }

  lemma {:induction false} FromToLE(x: nat, n: nat)
    requires x < Pow256(n)
    ensures FromLE(ToLE(x, n)) == x
  {
    if n > 0 {
      FromToLE(x / 256, n - 1);
      assert ToLE(x, n)[1..] == ToLE(x / 256, n - 1);
    }
  }

  lemma {:induction false} ToFromLE(bs: Bytes)
    ensures ToLE(FromLE(bs), |bs|) == bs
  {
    if bs != [] {
      ToFromLE(bs[1..]);
      assert bs == [bs[0]] + bs[1..];
    }
  }

  /** Position by position: what comes later in the string weighs more. */
  lemma {:induction false} FromLEConcat(a: Bytes, b: Bytes)
    ensures FromLE(a + b) == FromLE(a) + Pow256(|a|) * FromLE(b)
  {
    if a == [] {
      assert a + b == b;
    } else {
      FromLEConcat(a[1..], b);
      assert (a + b)[1..] == a[1..] + b;
      OnePlaceUp(Pow256(|a| - 1), FromLE(b));
    }
  }

  lemma OnePlaceUp(p: nat, x: nat)
    ensures 256 * (p * x) == (256 * p) * x
  {
  }

  lemma FromLEByte(x: Byte)
    ensures FromLE([x]) == x
  {
    assert [x][1..] == [];
  }

  lemma PowWidths()
    ensures Pow256(2) == 0x1_0000
    ensures Pow256(4) == 0x1_0000_0000
    ensures Pow256(8) == 0x1_0000_0000_0000_0000
  {
    assert Pow256(1) == 256;
    assert Pow256(3) == 256 * Pow256(2);
    assert Pow256(6) == 256 * Pow256(5) && Pow256(5) == 256 * Pow256(4);
  }

  // ---------------------------------------------------------------------------
  // Byte-lexicographic order

  predicate LessFrom(a: Bytes, b: Bytes, i: nat)
    decreases |b| - i
  {
    i < |b| && (i >= |a| || a[i] < b[i] || (a[i] == b[i] && LessFrom(a, b, i + 1)))
  }

  /** `a < b`, comparing byte by byte, a proper prefix being smaller. */
  predicate Less(a: Bytes, b: Bytes) {
    LessFrom(a, b, 0)
  }

  /** The strings agree up to `i`, and there `a` has ended or has the smaller byte. */
  predicate DiffersAt(a: Bytes, b: Bytes, i: nat) {
    i <= |a| && i < |b| && a[..i] == b[..i] && (i == |a| || a[i] < b[i])
  }

  lemma {:induction false} LessFromSpec(a: Bytes, b: Bytes, i: nat)
    requires i <= |a| && i <= |b| && a[..i] == b[..i]
    ensures LessFrom(a, b, i) <==> exists j :: i <= j && DiffersAt(a, b, j)
    decreases |b| - i
  {
    AgreeBefore(a, b, i);
    if i < |b| && i < |a| && a[i] == b[i] {
      assert a[..i + 1] == a[..i] + [a[i]] && b[..i + 1] == b[..i] + [b[i]];
      LessFromSpec(a, b, i + 1);
      assert !DiffersAt(a, b, i);
    } else if LessFrom(a, b, i) {
      assert DiffersAt(a, b, i);
    }
  }

  lemma AgreeBefore(a: Bytes, b: Bytes, i: nat)
    ensures forall j :: i < j && DiffersAt(a, b, j) ==> i < |a| && i < |b| && a[i] == b[i]
  {
    forall j | i < j && DiffersAt(a, b, j) ensures i < |a| && i < |b| && a[i] == b[i] {
      assert a[..j][i] == a[i] && b[..j][i] == b[i];
    }
  }

  /** Smaller means: at the first difference, the end of the string or a smaller byte. */
  lemma LessSpec(a: Bytes, b: Bytes)
    ensures Less(a, b) <==> exists i :: DiffersAt(a, b, i)
  {
    LessFromSpec(a, b, 0);
  }

  lemma {:induction false} LessFromTransitive(a: Bytes, b: Bytes, c: Bytes, i: nat)
    requires LessFrom(a, b, i) && LessFrom(b, c, i)
    ensures LessFrom(a, c, i)
    decreases |c| - i
  {
    if i < |a| && a[i] == b[i] == c[i] {
      LessFromTransitive(a, b, c, i + 1);
    }
  }

  lemma {:induction false} LessFromIrreflexive(a: Bytes, i: nat)
    ensures !LessFrom(a, a, i)
    decreases |a| - i
  {
    if i < |a| {
      LessFromIrreflexive(a, i + 1);
    }
  }

  lemma {:induction false} LessFromTotal(a: Bytes, b: Bytes, i: nat)
    requires i <= |a| && i <= |b| && a[..i] == b[..i] && a != b
    ensures LessFrom(a, b, i) || LessFrom(b, a, i)
    decreases |b| - i
  {
    if i < |a| && i < |b| && a[i] == b[i] {
      assert a[..i + 1] == a[..i] + [a[i]] && b[..i + 1] == b[..i] + [b[i]];
      LessFromTotal(a, b, i + 1);
    } else {
      assert i == |a| ==> a == a[..i];
      assert i == |b| ==> b == b[..i];
    }
  }

  /** `Less` is a strict total order with the empty string at the bottom. */
  lemma OrderLaws()
    ensures forall a: Bytes :: !Less(a, a)
    ensures forall a: Bytes, b: Bytes, c: Bytes {:trigger Less(a, b), Less(b, c)} ::
              Less(a, b) && Less(b, c) ==> Less(a, c)
    ensures forall a: Bytes, b: Bytes {:trigger Less(a, b)} :: a != b ==> Less(a, b) || Less(b, a)
    ensures forall a: Bytes {:trigger Less(a, [])} :: !Less(a, [])
  {
    forall a: Bytes ensures !Less(a, a) {
      LessFromIrreflexive(a, 0);
    }
    forall a: Bytes, b: Bytes, c: Bytes | Less(a, b) && Less(b, c) ensures Less(a, c) {
      LessFromTransitive(a, b, c, 0);
    }
    forall a: Bytes, b: Bytes | a != b ensures Less(a, b) || Less(b, a) {
      LessFromTotal(a, b, 0);
    }
  }

  // ---------------------------------------------------------------------------
  // Prefixes

  predicate StartsWith(k: Bytes, prefix: Bytes) {
    prefix <= k
  }

  lemma {:induction false} PrefixNotLess(k: Bytes, p: Bytes, i: nat)
    requires p <= k
    ensures !LessFrom(k, p, i)
    decreases |p| - i
  {
    if i < |p| {
      PrefixNotLess(k, p, i + 1);
    }
  }

  lemma {:induction false} BetweenFrom(p: Bytes, a: Bytes, b: Bytes, i: nat)
    requires p <= b && i <= |p| && i <= |a| && a[..i] == p[..i]
    requires LessFrom(a, b, i) && !LessFrom(a, p, i)
    ensures p <= a
    decreases |p| - i
  {
    if i < |p| {
      assert i < |a| && a[i] == p[i];
      assert a[..i + 1] == p[..i + 1];
      BetweenFrom(p, a, b, i + 1);
    }
  }

  /** Keys that share a prefix are contiguous from the prefix upward. */
  lemma PrefixContiguous(p: Bytes, a: Bytes, b: Bytes)
    requires !Less(a, p) && Less(a, b) && |p| <= |b| && b[..|p|] == p
    ensures |p| <= |a| && a[..|p|] == p
  {
    BetweenFrom(p, a, b, 0);
  }
}
