/** `supportsFeature` from the Home Assistant frontend: an entity supports a
    feature when `supported_features & feature` is non-zero. JavaScript's `&`
    and `|` convert both operands to 32-bit integers first (ToInt32), so the
    model works on `x mod 2^32`, whose binary digits are exactly the
    two's-complement bits of the 32-bit value, and spells the bitwise operators
    out digit by digit. A missing `supported_features` is `undefined`, which
    ToInt32 turns into 0. */
module EntityFeatures {
  import opened Wrappers
  import opened Hass

  const Two31: int := 0x8000_0000
  const Two32: int := 0x1_0000_0000

  function Pow2(n: nat): (r: nat)
    ensures r >= 1
  {
    if n == 0 then 1 else 2 * Pow2(n - 1)
  }

  lemma {:induction false} Pow2Add8(n: nat)
    ensures Pow2(n + 8) == 256 * Pow2(n)
  {
    assert Pow2(n + 8) == 2 * Pow2(n + 7) == 4 * Pow2(n + 6) == 8 * Pow2(n + 5) == 16 * Pow2(n + 4);
    assert Pow2(n + 4) == 2 * Pow2(n + 3) == 4 * Pow2(n + 2) == 8 * Pow2(n + 1) == 16 * Pow2(n);
  }

  lemma Pow2Of32()
    ensures Pow2(32) == Two32
  {
    Pow2Add8(0); Pow2Add8(8); Pow2Add8(16); Pow2Add8(24);
  }

  /** The unsigned 32-bit pattern of `x` (ToUint32). */
  function ToUint32(x: int): (r: nat)
    ensures r < Two32
    ensures 0 <= x < Two32 ==> r == x
  {
    x % Two32
  }

  /** The signed 32-bit value with the same bits (ToInt32). */
  function ToInt32(x: int): (r: int)
    ensures -Two31 <= r < Two31
    ensures ToUint32(r) == ToUint32(x)
  {
    var u := ToUint32(x);
    if u >= Two31 then u - Two32 else u
  }

  /** Binary digit `i` of `x`. */
  predicate Bit(x: nat, i: nat) {
    if i == 0 then x % 2 == 1 else Bit(x / 2, i - 1)
  }

  /** `a` and `b` have a set bit in common among their low `n` bits. */
  predicate ShareBit(a: nat, b: nat, n: nat) {
    exists i :: 0 <= i < n && Bit(a, i) && Bit(b, i)
  }

  /** Bitwise AND of the low `n` bits. */
  function AndBits(a: nat, b: nat, n: nat): nat {
    if n == 0 then 0
    else 2 * AndBits(a / 2, b / 2, n - 1) + (if a % 2 == 1 && b % 2 == 1 then 1 else 0)
  }

  /** Bitwise OR of the low `n` bits. */
  function OrBits(a: nat, b: nat, n: nat): nat {
    if n == 0 then 0
    else 2 * OrBits(a / 2, b / 2, n - 1) + (if a % 2 == 1 || b % 2 == 1 then 1 else 0)
  }

  /** JavaScript `f | g`. */
  function BitOr(f: int, g: int): int {
    ToInt32(OrBits(ToUint32(f), ToUint32(g), 32))
  }

  lemma {:induction false} ShareBitStep(a: nat, b: nat, n: nat)
    requires n > 0
    ensures ShareBit(a, b, n) <==> (a % 2 == 1 && b % 2 == 1) || ShareBit(a / 2, b / 2, n - 1)
  {
    if ShareBit(a, b, n) {
      var i :| 0 <= i < n && Bit(a, i) && Bit(b, i);
      if i > 0 {
        assert Bit(a / 2, i - 1) && Bit(b / 2, i - 1);
      }
    }
    if ShareBit(a / 2, b / 2, n - 1) {
      var i :| 0 <= i < n - 1 && Bit(a / 2, i) && Bit(b / 2, i);
      assert Bit(a, i + 1) && Bit(b, i + 1);
    }
    if a % 2 == 1 && b % 2 == 1 {
      assert Bit(a, 0) && Bit(b, 0);
    }
  }

  /** The AND of the low `n` bits is non-zero exactly when a bit is shared. */
  lemma {:induction false} AndBitsNonZero(a: nat, b: nat, n: nat)
    ensures AndBits(a, b, n) != 0 <==> ShareBit(a, b, n)
  {
    if n > 0 {
      AndBitsNonZero(a / 2, b / 2, n - 1);
      ShareBitStep(a, b, n);
    }
  }

  /** Each bit of an OR is the OR of the operands' bits. */
  lemma {:induction false} OrBitsBit(a: nat, b: nat, n: nat, i: nat)
    requires i < n
    ensures Bit(OrBits(a, b, n), i) <==> Bit(a, i) || Bit(b, i)
  {
    var rest := OrBits(a / 2, b / 2, n - 1);
    var low := if a % 2 == 1 || b % 2 == 1 then 1 else 0;
    assert OrBits(a, b, n) == 2 * rest + low;
    Halve(rest, low);
    if i > 0 {
      OrBitsBit(a / 2, b / 2, n - 1, i - 1);
    }
  }

  lemma Halve(x: nat, low: nat)
    requires low < 2
    ensures (2 * x + low) / 2 == x && (2 * x + low) % 2 == low
  {
  }

  lemma {:induction false} OrBitsBound(a: nat, b: nat, n: nat)
    ensures OrBits(a, b, n) < Pow2(n)
  {
    if n > 0 {
      OrBitsBound(a / 2, b / 2, n - 1);
    }
  }

  lemma {:induction false} NoBitOfZero(i: nat)
    ensures !Bit(0, i)
  {
    if i > 0 {
      NoBitOfZero(i - 1);
    }
  }

  /** `supportsFeatureFromAttributes`: `(supported_features & feature) !== 0`. */
  function SupportsFeatureFromAttributes(attributes: Attributes, feature: int): (r: bool)
    ensures r <==> ShareBit(ToUint32(attributes.supportedFeatures.GetOr(0)), ToUint32(feature), 32)
  {
    var mask := ToUint32(attributes.supportedFeatures.GetOr(0));
    AndBitsNonZero(mask, ToUint32(feature), 32);
    AndBits(mask, ToUint32(feature), 32) != 0
  }

  /** `supportsFeature`: the same test on a state object's attributes. */
  function SupportsFeature(stateObj: EntityState, feature: int): (r: bool)
    ensures r <==> ShareBit(ToUint32(stateObj.attributes.supportedFeatures.GetOr(0)), ToUint32(feature), 32)
  {
    SupportsFeatureFromAttributes(stateObj.attributes, feature)
  }

  /** Feature 0, or an entity without `supported_features`, is never supported. */
  lemma NothingSupportedWithoutBits(attributes: Attributes, feature: int)
    requires feature == 0 || attributes.supportedFeatures.None?
    ensures !SupportsFeatureFromAttributes(attributes, feature)
  {
    forall i | 0 <= i < 32 {
      NoBitOfZero(i);
    }
  }

  /** Asking about a union of feature flags is asking about either of them. */
  lemma SupportsUnion(attributes: Attributes, f: int, g: int)
    ensures SupportsFeatureFromAttributes(attributes, BitOr(f, g))
        <==> SupportsFeatureFromAttributes(attributes, f) || SupportsFeatureFromAttributes(attributes, g)
  {
    var s := ToUint32(attributes.supportedFeatures.GetOr(0));
    var a := ToUint32(f);
    var b := ToUint32(g);
    var o := OrBits(a, b, 32);
    OrBitsBound(a, b, 32);
    Pow2Of32();
    assert ToUint32(BitOr(f, g)) == o;
    forall i | 0 <= i < 32 ensures Bit(o, i) <==> Bit(a, i) || Bit(b, i) {
      OrBitsBit(a, b, 32, i);
    }
  }
}
