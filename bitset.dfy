/**
 * Model of `BitSetU64` (src/bitset.rs): a set of 64 boolean flags packed in
 * one `u64`. Flag `i` is bit `i` of the word, the bit that `1_u64 << i`
 * selects; the model keeps the 64 bits as a sequence, least significant first.
 * The type is `Copy`, so every operation, including the `&mut self` ones,
 * is a function from the old value to the new one.
 */
module BitSet {

  /** `max_values()`: the number of flags in a set. */
  const MaxValues: nat := 64

  /** The bits of the `u64` word, bit 0 first. */
  type Bits = s: seq<bool> | |s| == MaxValues witness seq(64, _ => false)

  /** `BitSetU64 { bits }`; building one from its bits is `new_with`. */
  datatype BitSetU64 = BitSetU64(bits: Bits)

  /** `get(idx)`: whether bit `idx` is set. */
  function Get(b: BitSetU64, idx: nat): bool
    requires idx < MaxValues
  {
    b.bits[idx]
  }

  /** `1_u64 << idx`: the word with only bit `idx` set. */
  function Mask(idx: nat): (r: BitSetU64)
    requires idx < MaxValues
    ensures Get(r, idx)
    ensures forall j | 0 <= j < MaxValues && j != idx :: !Get(r, j)
  {
    BitSetU64(seq(MaxValues, j => j == idx))
  }

  /** `empty()`: `u64::MIN`, no bit set. */
  function Empty(): (r: BitSetU64)
    ensures forall i | 0 <= i < MaxValues :: !Get(r, i)
  {
    BitSetU64(seq(MaxValues, _ => false))
  }

  /** `full()`: `u64::MAX`, every bit set. */
  function Full(): (r: BitSetU64)
    ensures forall i | 0 <= i < MaxValues :: Get(r, i)
  {
    BitSetU64(seq(MaxValues, _ => true))
  }

  /** `a & b` */
  function And(a: BitSetU64, b: BitSetU64): (r: BitSetU64)
    ensures forall i | 0 <= i < MaxValues :: Get(r, i) == (Get(a, i) && Get(b, i))
  {
    BitSetU64(seq(MaxValues, i requires 0 <= i < MaxValues => a.bits[i] && b.bits[i]))
  }

  /** `a | b` */
  function Or(a: BitSetU64, b: BitSetU64): (r: BitSetU64)
    ensures forall i | 0 <= i < MaxValues :: Get(r, i) == (Get(a, i) || Get(b, i))
  {
    BitSetU64(seq(MaxValues, i requires 0 <= i < MaxValues => a.bits[i] || b.bits[i]))
  }

  /** `a ^ b` */
  function Xor(a: BitSetU64, b: BitSetU64): (r: BitSetU64)
    ensures forall i | 0 <= i < MaxValues :: Get(r, i) == (Get(a, i) != Get(b, i))
  {
    BitSetU64(seq(MaxValues, i requires 0 <= i < MaxValues => a.bits[i] != b.bits[i]))
  }

  /** `!a` */
  function Not(a: BitSetU64): (r: BitSetU64)
    ensures forall i | 0 <= i < MaxValues :: Get(r, i) == !Get(a, i)
  {
    BitSetU64(seq(MaxValues, i requires 0 <= i < MaxValues => !a.bits[i]))
  }

  /** `get` as written, `(bits & (1 << idx)) != 0`, is the flag at `idx`. */
  lemma GetIsMaskTest(b: BitSetU64, idx: nat)
    requires idx < MaxValues
    ensures Get(b, idx) <==> And(b, Mask(idx)) != Empty()
  {
    var m := And(b, Mask(idx));
    if Get(b, idx) {
      assert Get(m, idx) && !Get(Empty(), idx);
    } else {
      assert forall i | 0 <= i < MaxValues :: m.bits[i] == Empty().bits[i];
      assert m.bits == Empty().bits;
    }
  }

  /** `self &= rhs`: the value `self` holds afterwards. */
  function AndAssign(self: BitSetU64, rhs: BitSetU64): (r: BitSetU64)
    ensures r == And(self, rhs)
  {
    BitSetU64(seq(MaxValues, i requires 0 <= i < MaxValues => self.bits[i] && rhs.bits[i]))
  }

  /** `self |= rhs`: the value `self` holds afterwards. */
  function OrAssign(self: BitSetU64, rhs: BitSetU64): (r: BitSetU64)
    ensures r == Or(self, rhs)
  {
    BitSetU64(seq(MaxValues, i requires 0 <= i < MaxValues => self.bits[i] || rhs.bits[i]))
  }

  /** `self ^= rhs`: the value `self` holds afterwards. */
  function XorAssign(self: BitSetU64, rhs: BitSetU64): (r: BitSetU64)
    ensures r == Xor(self, rhs)
  {
    BitSetU64(seq(MaxValues, i requires 0 <= i < MaxValues => self.bits[i] != rhs.bits[i]))
  }

  /** `enable(idx)`: `bits |= 1 << idx`. */
  function Enable(b: BitSetU64, idx: nat): (r: BitSetU64)
    requires idx < MaxValues
    ensures Get(r, idx)
    ensures forall j | 0 <= j < MaxValues && j != idx :: Get(r, j) == Get(b, j)
  {
    OrAssign(b, Mask(idx))
  }

  /** `disable(idx)`: `bits &= !(1 << idx)`. */
  function Disable(b: BitSetU64, idx: nat): (r: BitSetU64)
    requires idx < MaxValues
    ensures !Get(r, idx)
    ensures forall j | 0 <= j < MaxValues && j != idx :: Get(r, j) == Get(b, j)
  {
    AndAssign(b, Not(Mask(idx)))
  }

  /** `set(idx, value)`: `bits | mask` when `value`, `bits & !mask` otherwise. */
  function Set(b: BitSetU64, idx: nat, value: bool): (r: BitSetU64)
    requires idx < MaxValues
    ensures Get(r, idx) == value
    ensures forall j | 0 <= j < MaxValues && j != idx :: Get(r, j) == Get(b, j)
  {
    if value then Or(b, Mask(idx)) else And(b, Not(Mask(idx)))
  }

  /** Number of `true` entries of `s`. */
  function CountTrue(s: seq<bool>): (r: nat)
    ensures r <= |s|
  {
    if s == [] then 0
    else CountTrue(s[..|s| - 1]) + (if s[|s| - 1] then 1 else 0)
  }

  /** `count_ones()`: the population count of the word. */
  function CountOnes(b: BitSetU64): (r: nat)
    ensures r <= MaxValues
  {
    CountTrue(b.bits)
  }

  /** Two sets with the same flags are the same set. */
  lemma Extensionality(a: BitSetU64, b: BitSetU64)
    requires forall i | 0 <= i < MaxValues :: Get(a, i) == Get(b, i)
    ensures a == b
  {
    forall i | 0 <= i < MaxValues ensures a.bits[i] == b.bits[i] {
      assert Get(a, i) == Get(b, i);
    }
  }

  /** `set(i, true)` is `enable(i)` and `set(i, false)` is `disable(i)`. */
  lemma SetIsEnableOrDisable(b: BitSetU64, idx: nat)
    requires idx < MaxValues
    ensures Set(b, idx, true) == Enable(b, idx)
    ensures Set(b, idx, false) == Disable(b, idx)
  {
  }

  /** Enabling one flag of `empty()` gives the one-bit mask, and disabling it again gives `empty()` back. */
  lemma EnableThenDisable(idx: nat)
    requires idx < MaxValues
    ensures Enable(Empty(), idx) == Mask(idx)
    ensures Disable(Enable(Empty(), idx), idx) == Empty()
  {
    Extensionality(Enable(Empty(), idx), Mask(idx));
    Extensionality(Disable(Enable(Empty(), idx), idx), Empty());
  }

  /** Flipping every bit with `full()` is negation: `x ^ full() == !x`. */
  lemma XorFullIsNot(x: BitSetU64)
    ensures Xor(x, Full()) == Not(x)
  {
    Extensionality(Xor(x, Full()), Not(x));
  }

  lemma {:induction false} CountTrueNone(s: seq<bool>)
    requires forall i | 0 <= i < |s| :: !s[i]
    ensures CountTrue(s) == 0
  {
    if s != [] {
      CountTrueNone(s[..|s| - 1]);
    }
  }

  lemma {:induction false} CountTrueAll(s: seq<bool>)
    requires forall i | 0 <= i < |s| :: s[i]
    ensures CountTrue(s) == |s|
  {
    if s != [] {
      CountTrueAll(s[..|s| - 1]);
    }
  }

  /** `empty().count_ones() == 0` and `full().count_ones() == max_values()`. */
  lemma CountOnesOfConstants()
    ensures CountOnes(Empty()) == 0
    ensures CountOnes(Full()) == MaxValues
  {
    CountTrueNone(Empty().bits);
    CountTrueAll(Full().bits);
  }
}
