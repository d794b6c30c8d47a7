/**
 * src/main.rs: the earlier `add_vecu8`, which never pushes the final carry,
 * so its result has exactly as many bytes as the longer operand and the sum
 * wraps around modulo 256 to the power of that length.
 */
module WrappingVec {
  import opened NatArith
  import opened LittleEndian

  /**
   * `add_vecu8` of src/main.rs. The source moves `vx` and `vy` into
   * `longv`/`shortv` before reading their lengths, which does not compile;
   * this is its evident intent, choosing the longer vector as `longv`.
   */
  method AddVecU8(vx: seq<u8>, vy: seq<u8>) returns (vz: seq<u8>)
    ensures |vz| == Max(|vx|, |vy|)
    ensures Val(vz) == (Val(vx) + Val(vy)) % Pow256(Max(|vx|, |vy|))
  {
    var longv, shortv := vx, vy;
    if |vx| < |vy| {
      longv, shortv := vy, vx;
    }
    var lowBits;
    vz, lowBits := AddDigits(shortv, longv);
    DropCarry(vx, vy, vz, lowBits);
  }

  /** Dropping the final carry leaves the sum modulo 256^width. */
  lemma DropCarry(vx: seq<u8>, vy: seq<u8>, vz: seq<u8>, carry: nat)
    requires |vz| == Max(|vx|, |vy|)
    requires Val(vz) + carry * Pow256(|vz|) == Val(vx) + Val(vy)
    ensures Val(vz) == (Val(vx) + Val(vy)) % Pow256(Max(|vx|, |vy|))
  {
    var w, p := Val(vz), Pow256(|vz|);
    ValBound(vz);
    ModOfDigits(w, carry, p);
  }

  lemma ModOfDigits(r: nat, c: nat, p: nat)
    requires r < p
    ensures (r + c * p) % p == r
  {
    var n := r + c * p;
    DigitsAgree(n % p, n / p, r, c, p);
  }

  /**
   * Whichever operand is passed first, the result is the same: both calls
   * return the same number of bytes with the same value.
   */
  lemma AddVecU8Commutes(vx: seq<u8>, vy: seq<u8>, z1: seq<u8>, z2: seq<u8>)
    requires |z1| == Max(|vx|, |vy|) && Val(z1) == (Val(vx) + Val(vy)) % Pow256(Max(|vx|, |vy|))
    requires |z2| == Max(|vy|, |vx|) && Val(z2) == (Val(vy) + Val(vx)) % Pow256(Max(|vy|, |vx|))
    ensures z1 == z2
  {
    var a, b, p := Val(vx), Val(vy), Pow256(Max(|vx|, |vy|));
    assert Pow256(Max(|vy|, |vx|)) == p by {
      assert Max(|vy|, |vx|) == Max(|vx|, |vy|);
    }
    SwapMod(a, b, p, p);
    ValInjective(z1, z2);
  }

  lemma SwapMod(a: nat, b: nat, p: nat, q: nat)
    requires 0 < p == q
    ensures (a + b) % p == (b + a) % q
  {
  }

  /** The dropped carry is observable: [255] + [1] is [0], not 256. */
  lemma CarryIsDropped(z: seq<u8>)
    requires |z| == Max(1, 1) && Val(z) == (Val([255]) + Val([1])) % Pow256(Max(1, 1))
    ensures z == [0]
  {
    assert Val([255]) == 255 && Val([1]) == 1 && Val([0]) == 0;
    assert Pow256(1) == 256;
    ValInjective(z, [0]);
  }
}
