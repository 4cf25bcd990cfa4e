/** The name server's hash: 64-bit arithmetic that wraps around, reduced to a bucket. */
module Djb2 {
  const HASH_SIZE := 1024
  const WORD := 0x1_0000_0000_0000_0000

  /** A character as C's signed `char` reads it. */
  function SignedChar(c: char): int {
    var b := (c as int) % 256;
    if b < 128 then b else b - 256
  }

  /** The polynomial the hash is meant to be, in unbounded integers. */
  function Polynomial(s: string): int {
    if s == "" then 5381 else 33 * Polynomial(s[..|s| - 1]) + SignedChar(s[|s| - 1])
  }

  function Bucket(s: string): (b: nat)
    ensures b < HASH_SIZE
  {
    Polynomial(s) % HASH_SIZE
  }

  /** The polynomial of a text that is appended to. */
  lemma {:induction false} PolynomialOfTwo(s: string, c: char, d: char)
    ensures Polynomial("") == 5381
    ensures Polynomial(s + [c] + [d]) == 1089 * Polynomial(s) + 33 * SignedChar(c) + SignedChar(d)
  {
    var t := s + [c];
    assert (t + [d])[..|t + [d]| - 1] == t && t[..|t| - 1] == s;
    assert Polynomial(t) == 33 * Polynomial(s) + SignedChar(c);
    assert Polynomial(t + [d]) == 33 * Polynomial(t) + SignedChar(d);
  }

  /** Wrapping at 64 bits does not change the remainder. */
  lemma WrapKeepsBucket(a: int)
    ensures (a % WORD) % HASH_SIZE == a % HASH_SIZE
  {
    var q := a / WORD;
    assert a == WORD * q + a % WORD;
    assert a % WORD == a - HASH_SIZE * (0x40_0000_0000_0000 * q);
    RemainderOfShift(a, -0x40_0000_0000_0000 * q);
  }

  lemma RemainderOfShift(a: int, k: int)
    ensures (a + HASH_SIZE * k) % HASH_SIZE == a % HASH_SIZE
  {
    var q, r := a / HASH_SIZE, a % HASH_SIZE;
    assert a + HASH_SIZE * k == HASH_SIZE * (q + k) + r;
  }

  /** One step on congruent values gives congruent values. */
  lemma StepKeepsBucket(h: int, p: int, c: int)
    requires h % HASH_SIZE == p % HASH_SIZE
    ensures (33 * h + c) % HASH_SIZE == (33 * p + c) % HASH_SIZE
  {
    var k := h / HASH_SIZE - p / HASH_SIZE;
    assert h == p + HASH_SIZE * k;
    RemainderOfShift(33 * p + c, 33 * k);
  }

  /** The hash loop, shift and additions each wrapped to 64 bits. Its bucket is that of the unbounded
      polynomial, for names of any length. */
  method HashFunc(str: string) returns (bucket: nat)
    ensures bucket == Bucket(str)
  {
    var hash := 5381;
    for i := 0 to |str|
      invariant 0 <= hash < WORD && hash % HASH_SIZE == Polynomial(str[..i]) % HASH_SIZE
    {
      var c := SignedChar(str[i]);
      var shifted := hash * 32 % WORD;
      var sum := (shifted + hash) % WORD;
      ghost var before := hash;
      hash := (sum + c) % WORD;
      WrappedStep(before, c);
      StepKeepsBucket(before, Polynomial(str[..i]), c);
      assert str[..i + 1][..i] == str[..i];
    }
    assert str[..|str|] == str;
    bucket := hash % HASH_SIZE;
  }

  lemma WrappedStep(h: int, c: int)
    ensures (((h * 32 % WORD + h) % WORD) + c) % WORD == (33 * h + c) % WORD
    ensures ((33 * h + c) % WORD) % HASH_SIZE == (33 * h + c) % HASH_SIZE
  {
    WrapKeepsBucket(33 * h + c);
  }
}
