// The key-state bitmap of the input layer: one bit per key code, packed into
// an array of `unsigned long` words.
//
// The proofs are layered so that no single proof obligation mixes word
// arithmetic with sequence or array reasoning more than it must: KeyWords
// holds facts about one word and an arbitrary mask, KeyBits lifts them to
// keys, and InputState holds the imperative class.

/**
 * Whole-word facts about the three updates the input layer applies to an
 * `unsigned long` of the key bitmap (`|=`, `&= ~`, `^=`) and the test `&`,
 * for an arbitrary mask, and the same updates applied to one word of a
 * sequence of words.
 */
module KeyWords {

  // ---------------------------------------------------------------- one word

  /** A word has some bit of the mask `m` set: the C test `w & m`. */
  predicate AnySet(w: bv64, m: bv64) {
    w & m != 0
  }

  // Identities on whole words, which the solver settles bit by bit.

  lemma OrMasked(x: bv64, m: bv64, o: bv64)
    requires m & o == 0
    ensures (x | m) & o == x & o
  {
  }

  lemma AndNotMasked(x: bv64, m: bv64, o: bv64)
    requires m & o == 0
    ensures (x & !m) & o == x & o
  {
  }

  lemma XorMasked(x: bv64, m: bv64, o: bv64)
    requires m & o == 0
    ensures (x ^ m) & o == x & o
  {
  }

  lemma OrOwn(x: bv64, m: bv64)
    ensures (x | m) & m == m
  {
  }

  lemma AndNotOwn(x: bv64, m: bv64)
    ensures (x & !m) & m == 0
  {
  }

  lemma XorOwn(x: bv64, m: bv64)
    ensures (x ^ m) & m == (x & m) ^ m
  {
  }

  /** Masking with a one-bit mask gives the mask or nothing. */
  lemma OneBitMasked(x: bv64, m: bv64)
    requires m & (m - 1) == 0
    ensures x & m == 0 || x & m == m
  {
  }

  lemma SelfXor(m: bv64)
    ensures m ^ m == 0 && (0 as bv64) ^ m == m
  {
  }

  lemma XorTwice(x: bv64, m: bv64)
    ensures (x ^ m) ^ m == x
  {
  }

  // The same facts read as the C test `w & m`.

  /** `|=` sets the bits it targets. */
  lemma OrSetsOwn(x: bv64, m: bv64)
    requires m != 0
    ensures AnySet(x | m, m)
  {
    OrOwn(x, m);
  }

  /** `&= ~` clears the bits it targets. */
  lemma AndNotClearsOwn(x: bv64, m: bv64)
    ensures !AnySet(x & !m, m)
  {
    AndNotOwn(x, m);
  }

  /** `^=` with a one-bit mask flips that bit. */
  lemma XorFlipsOwn(x: bv64, m: bv64)
    requires m != 0 && m & (m - 1) == 0
    ensures AnySet(x ^ m, m) == !AnySet(x, m)
  {
    XorOwn(x, m);
    OneBitMasked(x, m);
    SelfXor(m);
  }

  /** Setting the bits of `m` leaves the bits of a disjoint mask alone. */
  lemma OrKeepsDisjoint(x: bv64, m: bv64, other: bv64)
    requires m & other == 0
    ensures AnySet(x | m, other) == AnySet(x, other)
  {
    OrMasked(x, m, other);
  }

  /** Clearing the bits of `m` leaves the bits of a disjoint mask alone. */
  lemma AndNotKeepsDisjoint(x: bv64, m: bv64, other: bv64)
    requires m & other == 0
    ensures AnySet(x & !m, other) == AnySet(x, other)
  {
    AndNotMasked(x, m, other);
  }

  /** Flipping the bits of `m` leaves the bits of a disjoint mask alone. */
  lemma XorKeepsDisjoint(x: bv64, m: bv64, other: bv64)
    requires m & other == 0
    ensures AnySet(x ^ m, other) == AnySet(x, other)
  {
    XorMasked(x, m, other);
  }

  /** `x | m` when `on`, `x & ~m` otherwise. */
  function SetBits(x: bv64, m: bv64, on: bool): bv64 {
    if on then x | m else x & !m
  }

  /** Setting or clearing the bits of `m` leaves them as asked. */
  lemma SetBitsOwn(x: bv64, m: bv64, on: bool)
    requires m != 0
    ensures AnySet(SetBits(x, m, on), m) == on
  {
    if on {
      OrSetsOwn(x, m);
    } else {
      AndNotClearsOwn(x, m);
    }
  }

  /** Setting or clearing the bits of `m` leaves the bits of a disjoint mask alone. */
  lemma SetBitsKeeps(x: bv64, m: bv64, on: bool, other: bv64)
    requires m & other == 0
    ensures AnySet(SetBits(x, m, on), other) == AnySet(x, other)
  {
    if on {
      OrKeepsDisjoint(x, m, other);
    } else {
      AndNotKeepsDisjoint(x, m, other);
    }
  }

  /** `x ^ m`. */
  function FlipBits(x: bv64, m: bv64): bv64 {
    x ^ m
  }

  /** Flipping a one-bit mask inverts the test of that bit. */
  lemma FlipBitsOwn(x: bv64, m: bv64)
    requires m != 0 && m & (m - 1) == 0
    ensures AnySet(FlipBits(x, m), m) == !AnySet(x, m)
  {
    XorFlipsOwn(x, m);
  }

  /** Flipping the bits of `m` leaves the bits of a disjoint mask alone. */
  lemma FlipBitsKeeps(x: bv64, m: bv64, other: bv64)
    requires m & other == 0
    ensures AnySet(FlipBits(x, m), other) == AnySet(x, other)
  {
    XorKeepsDisjoint(x, m, other);
  }

  // ------------------------------------------------- one word in an array

  /** Word `i` after `w[i] |= m` (when `on`) or `w[i] &= ~m` (otherwise). */
  function SetWord(w: seq<bv64>, i: nat, m: bv64, on: bool): (r: seq<bv64>)
    requires i < |w|
    ensures |r| == |w|
  {
    w[i := SetBits(w[i], m, on)]
  }

  /** Word `i` after `w[i] ^= m`. */
  function FlipWord(w: seq<bv64>, i: nat, m: bv64): (r: seq<bv64>)
    requires i < |w|
    ensures |r| == |w|
  {
    w[i := FlipBits(w[i], m)]
  }

  /** The updated word of SetWord is the word with its bits set or cleared. */
  lemma SetWordAt(w: seq<bv64>, i: nat, m: bv64, on: bool)
    requires i < |w|
    ensures SetWord(w, i, m, on)[i] == SetBits(w[i], m, on)
  {
  }

  /** Updating word `i` leaves every other word as it was. */
  lemma SetWordOtherWords(w: seq<bv64>, i: nat, m: bv64, on: bool, j: nat)
    requires i < |w| && j < |w| && i != j
    ensures SetWord(w, i, m, on)[j] == w[j]
  {
  }

  lemma FlipWordAt(w: seq<bv64>, i: nat, m: bv64)
    requires i < |w|
    ensures FlipWord(w, i, m)[i] == FlipBits(w[i], m)
  {
  }

  lemma FlipWordOtherWords(w: seq<bv64>, i: nat, m: bv64, j: nat)
    requires i < |w| && j < |w| && i != j
    ensures FlipWord(w, i, m)[j] == w[j]
  {
  }

  lemma FlipWordTwice(w: seq<bv64>, i: nat, m: bv64)
    requires i < |w|
    ensures FlipWord(FlipWord(w, i, m), i, m) == w
  {
    XorTwice(w[i], m);
  }
}

/**
 * Where a key code lives in the bitmap: bit `k % keys_per_long` of word
 * `k / keys_per_long`, tested with the mask `1UL << bit_idx`; and what the
 * three operations do to the keys' recorded states.
 */
module KeyBits {
  import opened KeyWords

  /** Bits in an `unsigned long` on x86_64: `keys_per_long`. */
  const KEYS_PER_LONG: nat := 64

  // ------------------------------------------------------------ bit masks

  /** The mask `1UL << b` for a bit position `b` below 64. */
  function Mask(b: bv6): bv64 {
    1 << b
  }

  /** Every mask has a bit set. */
  lemma MaskNonZero(b: bv6)
    ensures Mask(b) != 0
  {
  }

  /** Every mask has exactly one bit set. */
  lemma MaskSingleBit(b: bv6)
    ensures Mask(b) & (Mask(b) - 1) == 0
  {
  }

  /** Masks of two different bit positions do not overlap. */
  lemma MasksDisjoint(b: bv6, c: bv6)
    requires b != c
    ensures Mask(b) & Mask(c) == 0
  {
  }

  // ------------------------------------------------------------------ keys

  /** The word holding key `key`: `idx = key / keys_per_long`. */
  function WordIndex(key: nat): nat {
    key / KEYS_PER_LONG
  }

  /** The bit of that word: `bit_idx = key % keys_per_long`. */
  function BitIndex(key: nat): bv6 {
    (key % KEYS_PER_LONG) as bv6
  }

  /** The mask `1UL << bit_idx` of key `key`. */
  function KeyMask(key: nat): bv64 {
    Mask(BitIndex(key))
  }

  lemma BitIndexExact(key: nat)
    ensures BitIndex(key) as int == key % KEYS_PER_LONG
  {
  }

  /** Two different keys in the same word occupy different bits. */
  lemma DistinctKeysDistinctBits(k1: nat, k2: nat)
    requires WordIndex(k1) == WordIndex(k2) && k1 != k2
    ensures KeyMask(k1) & KeyMask(k2) == 0
  {
    BitIndexExact(k1);
    BitIndexExact(k2);
    MasksDisjoint(BitIndex(k1), BitIndex(k2));
  }

  /** Testing bit `b` through the mask `1UL << b` is reading it after a shift down by `b`. */
  lemma MaskedIsShifted(w: bv64, b: bv6)
    ensures AnySet(w, Mask(b)) <==> (w >> b) & 1 == 1
  {
  }

  /** Whether key `key` is recorded as pressed in the words `w`. */
  predicate Pressed(w: seq<bv64>, key: nat)
    requires WordIndex(key) < |w|
  {
    AnySet(w[WordIndex(key)], KeyMask(key))
  }

  /** The words after recording key `key` as pressed (`|=`) or released (`&= ~`). */
  function WithKey(w: seq<bv64>, key: nat, pressed: bool): (r: seq<bv64>)
    requires WordIndex(key) < |w|
    ensures |r| == |w|
  {
    SetWord(w, WordIndex(key), KeyMask(key), pressed)
  }

  /** The words after flipping key `key` (`^=`). */
  function Toggled(w: seq<bv64>, key: nat): (r: seq<bv64>)
    requires WordIndex(key) < |w|
    ensures |r| == |w|
  {
    FlipWord(w, WordIndex(key), KeyMask(key))
  }

  /** After recording a key, reading it back gives what was recorded. */
  lemma SetThenTest(w: seq<bv64>, key: nat, pressed: bool)
    requires WordIndex(key) < |w|
    ensures Pressed(WithKey(w, key, pressed), key) == pressed
  {
    var i := WordIndex(key);
    SetWordAt(w, i, KeyMask(key), pressed);
    MaskNonZero(BitIndex(key));
    SetBitsOwn(w[i], KeyMask(key), pressed);
  }

  /** Recording one key leaves every other key's state unchanged. */
  lemma SetLeavesOthers(w: seq<bv64>, key: nat, pressed: bool, other: nat)
    requires WordIndex(key) < |w| && WordIndex(other) < |w| && other != key
    ensures Pressed(WithKey(w, key, pressed), other) == Pressed(w, other)
  {
    var i, j := WordIndex(key), WordIndex(other);
    if i == j {
      SetWordAt(w, i, KeyMask(key), pressed);
      DistinctKeysDistinctBits(key, other);
      SetBitsKeeps(w[i], KeyMask(key), pressed, KeyMask(other));
    } else {
      SetWordOtherWords(w, i, KeyMask(key), pressed, j);
    }
  }

  /** Recording one key leaves every other key's state unchanged. */
  lemma SetLeavesAllOthers(w: seq<bv64>, key: nat, pressed: bool)
    requires WordIndex(key) < |w|
    ensures forall other: nat :: WordIndex(other) < |w| && other != key ==>
              Pressed(WithKey(w, key, pressed), other) == Pressed(w, other)
  {
    forall other: nat | WordIndex(other) < |w| && other != key
      ensures Pressed(WithKey(w, key, pressed), other) == Pressed(w, other)
    {
      SetLeavesOthers(w, key, pressed, other);
    }
  }

  /** Toggling a key flips its state. */
  lemma ToggleFlips(w: seq<bv64>, key: nat)
    requires WordIndex(key) < |w|
    ensures Pressed(Toggled(w, key), key) == !Pressed(w, key)
  {
    var i := WordIndex(key);
    FlipWordAt(w, i, KeyMask(key));
    MaskNonZero(BitIndex(key));
    MaskSingleBit(BitIndex(key));
    FlipBitsOwn(w[i], KeyMask(key));
  }

  /** Toggling one key leaves every other key's state unchanged. */
  lemma ToggleLeavesOthers(w: seq<bv64>, key: nat, other: nat)
    requires WordIndex(key) < |w| && WordIndex(other) < |w| && other != key
    ensures Pressed(Toggled(w, key), other) == Pressed(w, other)
  {
    var i, j := WordIndex(key), WordIndex(other);
    if i == j {
      FlipWordAt(w, i, KeyMask(key));
      DistinctKeysDistinctBits(key, other);
      FlipBitsKeeps(w[i], KeyMask(key), KeyMask(other));
    } else {
      FlipWordOtherWords(w, i, KeyMask(key), j);
    }
  }

  /** Toggling one key leaves every other key's state unchanged. */
  lemma ToggleLeavesAllOthers(w: seq<bv64>, key: nat)
    requires WordIndex(key) < |w|
    ensures forall other: nat :: WordIndex(other) < |w| && other != key ==>
              Pressed(Toggled(w, key), other) == Pressed(w, other)
  {
    forall other: nat | WordIndex(other) < |w| && other != key
      ensures Pressed(Toggled(w, key), other) == Pressed(w, other)
    {
      ToggleLeavesOthers(w, key, other);
    }
  }

  /** Toggling the same key twice restores the original words. */
  lemma ToggleTwice(w: seq<bv64>, key: nat)
    requires WordIndex(key) < |w|
    ensures Toggled(Toggled(w, key), key) == w
  {
    FlipWordTwice(w, WordIndex(key), KeyMask(key));
  }

}

/** The per-device input state whose key bitmap the three C functions update. */
module InputState {
  import opened KeyWords
  import opened KeyBits

  /** The per-device input state: `keys_pressed`, updated in place. */
  class KeyState {
    var keysPressed: array<bv64>

    /** A state with every key released. */
    constructor (nrWords: nat)
      ensures fresh(keysPressed) && keysPressed.Length == nrWords
      ensures forall k: nat :: WordIndex(k) < nrWords ==> !IsPressed(k)
    {
      keysPressed := new bv64[nrWords](_ => 0);
    }

    /**
     * `input_state_key_is_pressed`: test the key's bit. The answer is bit
     * `key % 64` of word `key / 64`, read by shifting it down.
     */
    predicate IsPressed(key: nat): (pressed: bool)
      requires WordIndex(key) < keysPressed.Length
      reads this, keysPressed
      ensures pressed <==> (keysPressed[key / KEYS_PER_LONG] >> (key % KEYS_PER_LONG)) & 1 == 1
    {
      MaskedIsShifted(keysPressed[WordIndex(key)], BitIndex(key));
      BitIndexExact(key);
      Pressed(keysPressed[..], key)
    }

    /** `input_state_set_key_state`: set or clear the key's bit in its word. */
    method SetKeyState(key: nat, pressed: bool)
      requires WordIndex(key) < keysPressed.Length
      modifies keysPressed
      ensures keysPressed[..] == WithKey(old(keysPressed[..]), key, pressed)
      ensures IsPressed(key) == pressed
      ensures forall other: nat :: WordIndex(other) < keysPressed.Length && other != key ==>
                IsPressed(other) == old(IsPressed(other))
    {
      ghost var before := keysPressed[..];
      var idx := WordIndex(key);
      keysPressed[idx] := SetBits(keysPressed[idx], KeyMask(key), pressed);
      assert keysPressed[..] == WithKey(before, key, pressed);
      SetThenTest(before, key, pressed);
      SetLeavesAllOthers(before, key, pressed);
    }

    /** `input_state_toggle_key`: flip the key's bit and report its new value. */
    method ToggleKey(key: nat) returns (nowPressed: bool)
      requires WordIndex(key) < keysPressed.Length
      modifies keysPressed
      ensures keysPressed[..] == Toggled(old(keysPressed[..]), key)
      ensures nowPressed == IsPressed(key) && nowPressed == !old(IsPressed(key))
      ensures forall other: nat :: WordIndex(other) < keysPressed.Length && other != key ==>
                IsPressed(other) == old(IsPressed(other))
    {
      ghost var before := keysPressed[..];
      var idx := WordIndex(key);
      var mask := KeyMask(key);
      keysPressed[idx] := FlipBits(keysPressed[idx], mask);
      assert keysPressed[..] == Toggled(before, key);
      nowPressed := AnySet(keysPressed[idx], mask);
      ToggleFlips(before, key);
      ToggleLeavesAllOthers(before, key);
    }
  }
}
