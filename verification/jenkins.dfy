/**
 * Bob Jenkins's one-at-a-time hash, as both hash tables compute it over a
 * key of `len` bytes in 32-bit unsigned arithmetic (every `+` and `<<`
 * wraps modulo 2^32, which `bv32` does natively).
 */
module Jenkins {

  type Bytes = seq<bv8>

  /**
   * The 32-bit value `hash += key[i]` adds for one key byte. src/htable.c
   * reads the key as `uint8_t`, so the byte is zero-extended; src/hashtable.c
   * reads it as plain `char`, which is signed on x86 and x86-64 (and unsigned
   * on AArch64, ARM and PowerPC Linux), so on a signed-`char` target a byte of
   * 0x80 or more is sign-extended there.
   */
  function Widen(b: bv8, signedChars: bool): bv32 {
    if signedChars && b >= 0x80 then (b as bv32) | 0xFFFF_FF00 else b as bv32
  }

  /** One iteration of the mixing loop. */
  function Mix(h: bv32, c: bv32): bv32 {
    var a := h + c;
    var b := a + (a << 10);
    b ^ (b >> 6)
  }

  /** The loop state after the first `|key|` bytes, starting from 0. */
  function Absorb(key: Bytes, signedChars: bool): bv32
    decreases |key|
  {
    if |key| == 0 then 0
    else Mix(Absorb(key[..|key| - 1], signedChars), Widen(key[|key| - 1], signedChars))
  }

  /** The final avalanche after the loop. */
  function Finish(h: bv32): bv32 {
    var a := h + (h << 3);
    var b := a ^ (a >> 11);
    b + (b << 15)
  }

  /** The reference definition of the one-at-a-time hash. */
  function Hash(key: Bytes, signedChars: bool): (r: bv32)
    ensures |key| == 0 ==> r == 0
  {
    Finish(Absorb(key, signedChars))
  }

  /** The loop of `hash` in src/htable.c and src/hashtable.c, left to right over the key. */
  method HashLoop(key: Bytes, signedChars: bool) returns (h: bv32)
    ensures h == Hash(key, signedChars)
  {
    h := 0;
    var i := 0;
    while i < |key|
      invariant 0 <= i <= |key|
      invariant h == Absorb(key[..i], signedChars)
    {
      assert key[..i + 1][..i] == key[..i];
      h := Mix(h, Widen(key[i], signedChars));
      i := i + 1;
    }
    assert key[..i] == key;
    h := Finish(h);
  }

  /** The published test vector: one_at_a_time("a") is 0xca2e9442. */
  lemma HashOfA()
    ensures Hash([0x61], false) == 0xca2e9442
    ensures Hash([0x61], true) == 0xca2e9442
  {
  }

  /** The two readings of a key byte differ as soon as the byte has its top bit set. */
  lemma SignednessMatters()
    ensures Hash([0xFF], false) == 0xc7b20f1d
    ensures Hash([0xFF], true) == 0xae65a494
  {
  }

  /** On 7-bit keys the `char` and `uint8_t` readings hash identically. */
  lemma {:induction false} AsciiKeysHashAlike(key: Bytes)
    requires forall i | 0 <= i < |key| :: key[i] < 0x80
    ensures Absorb(key, true) == Absorb(key, false)
    ensures Hash(key, true) == Hash(key, false)
    decreases |key|
  {
    if |key| > 0 {
      AsciiKeysHashAlike(key[..|key| - 1]);
    }
  }
}
