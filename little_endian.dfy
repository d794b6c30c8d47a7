/**
 * Base-256 digits shared by src/manual_vec.rs and src/main.rs: the Rust
 * integer widths used there, the little-endian value of a byte vector, and
 * the two byte-pair helpers `mult_u8` and `add_u8` (both files define them,
 * with identical bodies).
 */
module LittleEndian {
  import opened NatArith

  type u8 = x: nat | x < 0x100
  type u16 = x: nat | x < 0x1_0000
  type u64 = x: nat | x < 0x1_0000_0000_0000_0000

  /** The weight of byte i: 256 to the power i. */
  function Pow256(i: nat): (p: nat)
    ensures p >= 1
  {
    Pow(256, i)
  }

  /** Value of a byte vector read little-endian: byte i weighs 256^i. */
  function Val(v: seq<u8>): nat
  {
    if v == [] then 0 else Val(v[..|v| - 1]) + v[|v| - 1] * Pow256(|v| - 1)
  }

  /** `mult_u8`: the 16-bit product split into a low and a high byte. */
  function MultU8(x: u8, y: u8): (v: seq<u8>)
    ensures |v| == 2 && v[0] as int + 256 * (v[1] as int) == (x as int) * (y as int)
  {
    ProductFits(x, y);
    var res: u16 := (x as int) * (y as int);
    [res % 256, res / 256]
  }

  /** `add_u8`: the 16-bit sum split into a low byte and a carry byte of at most 1. */
  function AddU8(x: u8, y: u8): (v: seq<u8>)
    ensures |v| == 2 && v[0] as int + 256 * (v[1] as int) == x as int + y as int && v[1] <= 1
  {
    var res: u16 := x as int + y as int;
    [res % 256, res / 256]
  }

  lemma ProductFits(x: u8, y: u8)
    ensures (x as int) * (y as int) <= 255 * 255
  {
    MulMonotone(x, 255, y);
    MulMonotone(y, 255, 255);
  }

  lemma Pow256Eight()
    ensures Pow256(8) == 0x1_0000_0000_0000_0000
  {
    assert Pow256(1) == 0x100;
    assert Pow256(2) == 0x1_0000;
    assert Pow256(4) == 0x1_0000_0000 by {
      assert Pow256(3) == 0x100_0000;
    }
    assert Pow256(6) == 0x1_0000_0000_0000 by {
      assert Pow256(5) == 0x100_0000_0000;
    }
    assert Pow256(7) == 0x100_0000_0000_0000;
  }

  lemma {:induction false} Pow256Monotone(i: nat, j: nat)
    requires i <= j
    ensures Pow256(i) <= Pow256(j)
  {
    if i < j {
      Pow256Monotone(i, j - 1);
    }
  }

  /** Appending a byte adds it at the next power of 256. */
  lemma ValAppend(v: seq<u8>, b: u8)
    ensures Val(v + [b]) == Val(v) + b * Pow256(|v|)
  {
    assert (v + [b])[..|v|] == v;
  }

  /** `vecu8_u64` reads the vector little-endian: the first byte is the least significant. */
  lemma {:induction false} ValLittleEndian(v: seq<u8>)
    requires |v| > 0
    ensures Val(v) == v[0] + 256 * Val(v[1..])
  {
    if |v| > 1 {
      var w, last := v[..|v| - 1], v[|v| - 1];
      ValLittleEndian(w);
      assert w[1..] == v[1..][..|v| - 2];
      var a, p := Val(w[1..]), Pow256(|v| - 2);
      assert Pow256(|v| - 1) == 256 * p;
      ShiftDigit(a, last, p);
    } else {
      assert v[..0] == [];
    }
  }

  lemma ShiftDigit(a: nat, x: nat, p: nat)
    ensures 256 * (a + x * p) == 256 * a + x * (256 * p)
  {
  }

  /** A byte vector of length n holds a value below 256^n. */
  lemma {:induction false} ValBound(v: seq<u8>)
    ensures Val(v) < Pow256(|v|)
  {
    if v != [] {
      var w := v[..|v| - 1];
      ValBound(w);
      MulMonotone(v[|v| - 1], 255, Pow256(|w|));
    }
  }

  /** Two byte vectors of the same length with the same value are equal. */
  lemma {:induction false} ValInjective(u: seq<u8>, w: seq<u8>)
    requires |u| == |w| && Val(u) == Val(w)
    ensures u == w
  {
    if u != [] {
      var n := |u| - 1;
      ValBound(u[..n]);
      ValBound(w[..n]);
      DigitsAgree(Val(u[..n]), u[n], Val(w[..n]), w[n], Pow256(n));
      ValInjective(u[..n], w[..n]);
      assert u == u[..n] + [u[n]] && w == w[..n] + [w[n]];
    }
  }

  /** The low part and the top digit of a base-p number are determined by its value. */
  lemma DigitsAgree(a: nat, x: nat, b: nat, y: nat, p: nat)
    requires a < p && b < p && a + x * p == b + y * p
    ensures a == b && x == y
  {
    if x < y {
      MulMonotone(x + 1, y, p);
      assert false;
    } else if y < x {
      MulMonotone(y + 1, x, p);
      assert false;
    }
  }

  /**
   * The two digit loops of `add_vecu8` (the same in src/manual_vec.rs and
   * src/main.rs): schoolbook addition over the shorter operand, then carry
   * propagation over the rest of the longer one. The result has one byte per
   * byte of the longer operand; with the final carry it makes up the sum.
   */
  method AddDigits(shortv: seq<u8>, longv: seq<u8>) returns (vz: seq<u8>, lowBits: u16)
    requires |shortv| <= |longv|
    ensures |vz| == |longv| && lowBits <= 1
    ensures Val(vz) + lowBits * Pow256(|vz|) == Val(shortv) + Val(longv)
  {
    vz, lowBits := AddOverlap(shortv, longv);
    vz, lowBits := CarryThrough(shortv, longv, vz, lowBits);
  }

  /** The first loop: digit sums over the bytes both operands have. */
  method AddOverlap(shortv: seq<u8>, longv: seq<u8>) returns (vz: seq<u8>, lowBits: u16)
    requires |shortv| <= |longv|
    ensures |vz| == |shortv| && lowBits <= 1
    ensures SumSoFar(vz, lowBits, shortv, longv[..|shortv|])
  {
    vz := [];
    lowBits := 0;
    for i := 0 to |shortv|
      invariant |vz| == i && lowBits <= 1
      invariant SumSoFar(vz, lowBits, shortv[..i], longv[..i])
    {
      var sum: u16 := shortv[i] as int + longv[i] as int + lowBits;
      AddDigitStep(vz, shortv, longv, i, lowBits);
      vz := vz + [sum % 256];
      lowBits := sum / 256;
    }
    assert shortv[..|shortv|] == shortv;
  }

  /** The second loop: the carry travels through the rest of the longer operand. */
  method CarryThrough(shortv: seq<u8>, longv: seq<u8>, vz0: seq<u8>, carry: u16) returns (vz: seq<u8>, lowBits: u16)
    requires |vz0| == |shortv| <= |longv| && carry <= 1
    requires SumSoFar(vz0, carry, shortv, longv[..|shortv|])
    ensures |vz| == |longv| && lowBits <= 1
    ensures Val(vz) + lowBits * Pow256(|vz|) == Val(shortv) + Val(longv)
  {
    vz, lowBits := vz0, carry;
    for i := |shortv| to |longv|
      invariant |vz| == i && lowBits <= 1
      invariant SumSoFar(vz, lowBits, shortv, longv[..i])
    {
      var sum: u16 := longv[i] as int + lowBits;
      CarryDigitStep(vz, shortv, longv, i, lowBits);
      vz := vz + [sum % 256];
      lowBits := sum / 256;
    }
    assert longv[..|longv|] == longv;
  }

  /** The digits written so far plus the pending carry account for the operand bytes consumed so far. */
  ghost predicate SumSoFar(vz: seq<u8>, carry: nat, a: seq<u8>, b: seq<u8>)
  {
    Val(vz) + carry * Pow256(|vz|) == Val(a) + Val(b)
  }

  /** A digit of the first loop: both operands still have a byte at position i. */
  lemma AddDigitStep(vz: seq<u8>, a: seq<u8>, b: seq<u8>, i: nat, carry: nat)
    requires |vz| == i < |a| <= |b| && carry <= 1
    requires SumSoFar(vz, carry, a[..i], b[..i])
    ensures var sum := a[i] as int + b[i] as int + carry;
      sum < 512 && SumSoFar(vz + [sum % 256], sum / 256, a[..i + 1], b[..i + 1])
  {
    var x: nat, y: nat, p := a[i], b[i], Pow256(i);
    CarryStep(vz, x + y + carry);
    assert a[..i + 1] == a[..i] + [a[i]];
    assert b[..i + 1] == b[..i] + [b[i]];
    ValAppend(a[..i], a[i]);
    ValAppend(b[..i], b[i]);
    SumTimes(x, y, carry, p);
  }

  /** A digit of the second loop: only the longer operand has a byte at position i. */
  lemma CarryDigitStep(vz: seq<u8>, a: seq<u8>, b: seq<u8>, i: nat, carry: nat)
    requires |vz| == i < |b| && carry <= 1
    requires SumSoFar(vz, carry, a, b[..i])
    ensures var sum := b[i] as int + carry;
      sum < 512 && SumSoFar(vz + [sum % 256], sum / 256, a, b[..i + 1])
  {
    var y: nat, p := b[i], Pow256(i);
    CarryStep(vz, y + carry);
    assert b[..i + 1] == b[..i] + [b[i]];
    ValAppend(b[..i], b[i]);
    SumTimes(0, y, carry, p);
  }

  /** Multiplication distributes over a sum of three naturals. */
  lemma SumTimes(x: nat, y: nat, z: nat, p: nat)
    ensures (x + y + z) * p == x * p + y * p + z * p
  {
  }

  /** One digit of the addition: the pushed low byte and the new carry together weigh the digit sum. */
  lemma CarryStep(vz: seq<u8>, sum: nat)
    requires sum < 512
    ensures Val(vz + [sum % 256]) + (sum / 256) * Pow256(|vz| + 1) == Val(vz) + sum * Pow256(|vz|)
  {
    ValAppend(vz, sum % 256);
    SplitDigit(sum, Pow256(|vz|));
  }

  lemma SplitDigit(s: nat, p: nat)
    ensures (s % 256) * p + (s / 256) * (256 * p) == s * p
  {
    var lo, hi := s % 256, s / 256;
    assert s == lo + 256 * hi;
    calc {
      s * p;
      (lo + 256 * hi) * p;
      lo * p + (256 * hi) * p;
      lo * p + hi * (256 * p);
    }
  }
}
