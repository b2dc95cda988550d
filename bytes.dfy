/** Bytes and 32-bit words as the texture code reads them.

    A buffer is a `seq<bv8>` (a `std::vector<unsigned char>`). A 32-bit
    field is read with a little-endian load, as an `int` or `unsigned int`
    dereference does on the x86 Windows host the code targets. */
module Bytes {

  /** Byte `k` of a word, byte 0 being the least significant. */
  function ByteOf(w: bv32, k: nat): bv8
    requires k < 4
  {
    if k == 0 then (w & 0xFF) as bv8
    else if k == 1 then ((w >> 8) & 0xFF) as bv8
    else if k == 2 then ((w >> 16) & 0xFF) as bv8
    else (w >> 24) as bv8
  }

  /** Two words are equal exactly when all four of their bytes are. */
  lemma WordsEqualByBytes(a: bv32, b: bv32)
    ensures a == b <==>
      ByteOf(a, 0) == ByteOf(b, 0) && ByteOf(a, 1) == ByteOf(b, 1) &&
      ByteOf(a, 2) == ByteOf(b, 2) && ByteOf(a, 3) == ByteOf(b, 3)
  {
  }

  /** The four bytes a little-endian store of `w` writes. */
  function BytesOf(w: bv32): (b: seq<bv8>)
    ensures |b| == 4 && LeWord(b, 0) == w
  {
    var b := [ByteOf(w, 0), ByteOf(w, 1), ByteOf(w, 2), ByteOf(w, 3)];
    LeWordBytes(b, 0);
    WordsEqualByBytes(LeWord(b, 0), w);
    b
  }

  /** The 32-bit little-endian field that starts at offset `off`. */
  function LeWord(s: seq<bv8>, off: nat): bv32
    requires off + 4 <= |s|
  {
    Word4(s[off], s[off + 1], s[off + 2], s[off + 3])
  }

  /** The word whose bytes, least significant first, are `b0` to `b3`. */
  function Word4(b0: bv8, b1: bv8, b2: bv8, b3: bv8): bv32 {
    (b0 as bv32) | ((b1 as bv32) << 8) | ((b2 as bv32) << 16) | ((b3 as bv32) << 24)
  }

  /** Byte `k` of the assembled word is argument `bk`. */
  lemma Word4Bytes(b0: bv8, b1: bv8, b2: bv8, b3: bv8)
    ensures ByteOf(Word4(b0, b1, b2, b3), 0) == b0 && ByteOf(Word4(b0, b1, b2, b3), 1) == b1
    ensures ByteOf(Word4(b0, b1, b2, b3), 2) == b2 && ByteOf(Word4(b0, b1, b2, b3), 3) == b3
  {
  }

  /** Byte `k` of the field at `off` is the buffer's byte `off + k`. */
  lemma LeWordBytes(s: seq<bv8>, off: nat)
    requires off + 4 <= |s|
    ensures ByteOf(LeWord(s, off), 0) == s[off] && ByteOf(LeWord(s, off), 1) == s[off + 1]
    ensures ByteOf(LeWord(s, off), 2) == s[off + 2] && ByteOf(LeWord(s, off), 3) == s[off + 3]
  {
    Word4Bytes(s[off], s[off + 1], s[off + 2], s[off + 3]);
  }

  /** `w` is the little-endian word stored at `off`: its byte `k` is the
      buffer's byte `off + k`. */
  predicate StoredAt(w: bv32, s: seq<bv8>, off: nat) {
    off + 4 <= |s| &&
    ByteOf(w, 0) == s[off] && ByteOf(w, 1) == s[off + 1] &&
    ByteOf(w, 2) == s[off + 2] && ByteOf(w, 3) == s[off + 3]
  }

  /** The value of a word read through a signed 32-bit `int`
      (two's complement). */
  function Int32(w: bv32): (i: int)
    ensures -0x8000_0000 <= i < 0x8000_0000
    ensures i == w as int || i == w as int - 0x1_0000_0000
  {
    var n := w as int;
    if n < 0x8000_0000 then n else n - 0x1_0000_0000
  }

  /** `(int) w >= c` for a non-negative `c`, decided on the bits: the sign
      bit is clear and the value is at least `c`. */
  predicate SignedAtLeast(w: bv32, c: bv32)
    requires c < 0x8000_0000
  {
    w < 0x8000_0000 && c <= w
  }

  /** The bitwise tests the repair rules make agree with comparisons of
      the signed value: at least 24, and equal to 32. */
  lemma SignedTestsAreInt32(w: bv32)
    ensures SignedAtLeast(w, 24) <==> Int32(w) >= 24
    ensures w == 32 <==> Int32(w) == 32
  {
  }
}
