/**
 * src/manual_vec.rs: byte-vector addition with a final carry byte, and the
 * conversions between `u64` and a little-endian byte vector.
 */
module ManualVec {
  import opened NatArith
  import opened Wrappers
  import opened LittleEndian

  /**
   * What `add_vecu8` computes: the sum of the two values, written on as many
   * bytes as the longer operand, plus one more byte exactly when the sum
   * does not fit in them.
   */
  ghost predicate IsCarrySum(vx: seq<u8>, vy: seq<u8>, vz: seq<u8>)
  {
    var width := Max(|vx|, |vy|);
    Val(vz) == Val(vx) + Val(vy) &&
    |vz| == (if Val(vx) + Val(vy) >= Pow256(width) then width + 1 else width)
  }

  /**
   * `add_vecu8`: the digit loops of `AddDigits` over the longer and the
   * shorter operand; a nonzero final carry is pushed as one more byte.
   */
  method AddVecU8(vx: seq<u8>, vy: seq<u8>) returns (vz: seq<u8>)
    ensures IsCarrySum(vx, vy, vz)
    ensures |vz| > Max(|vx|, |vy|) ==> vz[|vz| - 1] == 1
  {
    var longv, shortv;
    if |vx| < |vy| {
      longv, shortv := vy, vx;
    } else {
      longv, shortv := vx, vy;
    }
    var lowBits;
    vz, lowBits := AddDigits(shortv, longv);
    FinalCarry(vx, vy, vz, lowBits);
    if lowBits != 0 {
      vz := vz + [lowBits];
    }
  }

  /** After both loops: pushing a nonzero carry (which is 1) completes the sum. */
  lemma FinalCarry(vx: seq<u8>, vy: seq<u8>, vz: seq<u8>, carry: nat)
    requires |vz| == Max(|vx|, |vy|) && carry <= 1
    requires Val(vz) + carry * Pow256(|vz|) == Val(vx) + Val(vy)
    ensures carry == 0 ==> IsCarrySum(vx, vy, vz)
    ensures carry != 0 ==> IsCarrySum(vx, vy, vz + [carry]) && carry == 1
  {
    ValBound(vz);
    if carry == 0 {
      NoCarry(vx, vy, vz);
    } else {
      OneCarry(vx, vy, vz);
    }
  }

  lemma NoCarry(vx: seq<u8>, vy: seq<u8>, vz: seq<u8>)
    requires |vz| == Max(|vx|, |vy|) && Val(vz) == Val(vx) + Val(vy)
    ensures IsCarrySum(vx, vy, vz)
  {
    ValBound(vz);
  }

  lemma OneCarry(vx: seq<u8>, vy: seq<u8>, vz: seq<u8>)
    requires |vz| == Max(|vx|, |vy|) && Val(vz) + Pow256(|vz|) == Val(vx) + Val(vy)
    ensures IsCarrySum(vx, vy, vz + [1])
  {
    ValAppend(vz, 1);
  }

  /**
   * The sum does not depend on which operand is passed first: both orders give
   * the same value on the same number of bytes, and byte vectors of equal
   * length and value are equal.
   */
  lemma AddVecU8Commutes(vx: seq<u8>, vy: seq<u8>, z1: seq<u8>, z2: seq<u8>)
    requires IsCarrySum(vx, vy, z1) && IsCarrySum(vy, vx, z2)
    ensures z1 == z2
  {
    ValInjective(z1, z2);
  }

  /**
   * `vecu8_u64` with the fixed-width overflow removed: `pow` is multiplied by
   * 256 only when another byte follows, so every intermediate fits in 64 bits
   * for vectors of up to eight bytes (all that `u64_vecu8` produces).
   */
  method VecToU64(v: seq<u8>) returns (res: u64)
    requires |v| <= 8
    ensures res == Val(v)
  {
    res := 0;
    var pow: u64 := 1;
    Pow256Eight();
    for i := 0 to |v|
      invariant res == Val(v[..i])
      invariant i < |v| ==> pow == Pow256(i)
    {
      ValAppend(v[..i], v[i]);
      assert v[..i + 1] == v[..i] + [v[i]];
      ValBound(v[..i + 1]);
      Pow256Monotone(i + 1, 8);
      res := res + v[i] * pow;
      if i + 1 < |v| {
        Pow256Monotone(i + 1, 7);
        assert Pow256(7) == 0x100_0000_0000_0000;
        pow := pow * 256;
      }
    }
    assert v[..|v|] == v;
  }

  /**
   * `vecu8_u64` as written, with the overflow checks of a debug build:
   * `None` stands for the panic "attempt to multiply with overflow"
   * (or to add), `Some(r)` for a returned `r`.
   */
  function VecToU64AsWritten(v: seq<u8>): Option<nat>
  {
    CheckedFold(v, 0, 0, 1)
  }

  function CheckedFold(v: seq<u8>, i: nat, res: nat, pow: nat): Option<nat>
    requires i <= |v|
    decreases |v| - i
  {
    if i == |v| then Some(res)
    else
      var r := res + v[i] * pow;
      if r >= 0x1_0000_0000_0000_0000 then None
      else
        var p := pow * 256;
        if p >= 0x1_0000_0000_0000_0000 then None
        else CheckedFold(v, i + 1, r, p)
  }

  /**
   * As written, `vecu8_u64` returns the value of every vector of at most seven
   * bytes and panics on every vector of eight or more, although an
   * eight-byte vector (which `u64_vecu8` returns for n >= 2^56) fits in a `u64`.
   */
  lemma VecToU64AsWrittenOverflows(v: seq<u8>)
    ensures |v| <= 7 ==> VecToU64AsWritten(v) == Some(Val(v))
    ensures |v| >= 8 ==> VecToU64AsWritten(v) == None
  {
    Pow256Eight();
    CheckedFoldFrom(v, 0);
  }

  lemma {:induction false} CheckedFoldFrom(v: seq<u8>, i: nat)
    requires i <= |v| && i <= 7 && Pow256(8) == 0x1_0000_0000_0000_0000
    ensures |v| <= 7 ==> CheckedFold(v, i, Val(v[..i]), Pow256(i)) == Some(Val(v))
    ensures |v| >= 8 ==> CheckedFold(v, i, Val(v[..i]), Pow256(i)) == None
    decreases |v| - i
  {
    if i == |v| {
      assert v[..i] == v;
    } else {
      ValAppend(v[..i], v[i]);
      assert v[..i + 1] == v[..i] + [v[i]];
      ValBound(v[..i + 1]);
      Pow256Monotone(i + 1, 8);
      if i + 1 < 8 {
        Pow256Monotone(i + 1, 7);
        assert Pow256(7) < Pow256(8);
        CheckedFoldFrom(v, i + 1);
      }
    }
  }

  /** The vector `u64_vecu8(2^56)`: its value fits in a `u64`, yet reading it back panics as written. */
  lemma RoundTripPanicsAsWritten()
    ensures Val([0, 0, 0, 0, 0, 0, 0, 1]) == 0x100_0000_0000_0000
    ensures VecToU64AsWritten([0, 0, 0, 0, 0, 0, 0, 1]) == None
  {
    var v: seq<u8> := [0, 0, 0, 0, 0, 0, 0, 1];
    VecToU64AsWrittenOverflows(v);
    Pow256Eight();
    assert v == v[..7] + [1];
    ValAppend(v[..7], 1);
    ZerosHaveNoValue(v[..7]);
    assert Pow256(7) == 0x100_0000_0000_0000;
  }

  lemma {:induction false} ZerosHaveNoValue(v: seq<u8>)
    requires forall i :: 0 <= i < |v| ==> v[i] == 0
    ensures Val(v) == 0
  {
    if v != [] {
      ZerosHaveNoValue(v[..|v| - 1]);
    }
  }

  /**
   * `u64_vecu8`: the shortest little-endian encoding of n (a single zero byte
   * for 0), at most eight bytes long, read back to n by `vecu8_u64`.
   */
  method U64ToVec(n: u64) returns (v: seq<u8>)
    ensures Val(v) == n && 1 <= |v| <= 8
    ensures n == 0 ==> v == [0]
    ensures n > 0 ==> v[|v| - 1] != 0
  {
    v := [];
    var m: u64 := n;
    if n == 0 {
      v := v + [0];
      assert v == [] + [0];
      return;
    }
    Pow256Eight();
    while m != 0
      invariant Val(v) + m * Pow256(|v|) == n
      invariant v == [] ==> m == n
      invariant |v| > 0 && m == 0 ==> v[|v| - 1] != 0
      invariant |v| <= 8
      decreases m
    {
      ShiftStep(v, m, n);
      v := v + [m % 256];
      m := m / 256;
    }
  }

  /** One iteration of the `while m != 0` loop: the pushed byte and the shifted m keep the value. */
  lemma ShiftStep(v: seq<u8>, m: nat, n: nat)
    requires m != 0 && Val(v) + m * Pow256(|v|) == n < Pow256(8)
    ensures Val(v + [m % 256]) + (m / 256) * Pow256(|v| + 1) == n
    ensures |v| < 8
  {
    ValAppend(v, m % 256);
    SplitDigit(m, Pow256(|v|));
    MulMonotone(1, m, Pow256(|v|));
    if |v| >= 8 {
      Pow256Monotone(8, |v|);
      assert false;
    }
  }

  /**
   * The path the tests in manual_vec.rs take: a u64 is split into bytes and
   * read back. With the corrected reader every u64 comes back unchanged.
   */
  method RoundTrip(n: u64) returns (r: u64)
    ensures r == n
  {
    var v := U64ToVec(n);
    r := VecToU64(v);
  }

  /**
   * The first test case: 13 and 38 are converted, added with `AddVecU8` and
   * read back, giving their sum (as for any pair whose sum fits in eight bytes).
   */
  method AddRoundTrip(n: u64, m: u64) returns (r: u64)
    requires n + m < Pow256(8)
    ensures r == n + m
  {
    var v1 := U64ToVec(n);
    var v2 := U64ToVec(m);
    var v3 := AddVecU8(v1, v2);
    SumFitsEight(v1, v2, v3);
    r := VecToU64(v3);
  }

  /** A sum below 256^8 of two operands of at most eight bytes takes at most eight bytes. */
  lemma SumFitsEight(vx: seq<u8>, vy: seq<u8>, vz: seq<u8>)
    requires IsCarrySum(vx, vy, vz) && |vx| <= 8 && |vy| <= 8 && Val(vz) < Pow256(8)
    ensures |vz| <= 8
  {
    var width := Max(|vx|, |vy|);
    if width == 8 {
      assert Val(vx) + Val(vy) < Pow256(width);
    }
  }
}
