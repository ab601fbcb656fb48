/** `getHashCode` of the abstract names: a 32-bit fold over the characters of a string. */
module Hashing {

  const TwoTo32: int := 0x1_0000_0000
  const TwoTo31: int := 0x8000_0000

  /** JavaScript's ToInt32 (what `x | 0` and the operands of `<<` go through): wrap modulo 2^32
      into the signed range. */
  function ToInt32(x: int): (r: int)
    ensures -TwoTo31 <= r < TwoTo31
    ensures (x - r) % TwoTo32 == 0
  {
    var m := x % TwoTo32;
    if m >= TwoTo31 then m - TwoTo32 else m
  }

  /** One step of the loop: `hashCode = (hashCode << 5) - hashCode + c; hashCode |= 0`.
      The character code is the character's value. */
  function HashStep(h: int, c: char): int {
    ToInt32(ToInt32(ToInt32(h) * 32) - h + c as int)
  }

  /** The fold over the whole string, from the left, starting at 0. */
  function HashOf(s: string): (h: int)
    ensures -TwoTo31 <= h < TwoTo31
  {
    if s == [] then 0 else HashStep(HashOf(s[..|s| - 1]), s[|s| - 1])
  }

  lemma ToInt32Congruent(x: int, y: int)
    requires (x - y) % TwoTo32 == 0
    ensures ToInt32(x) == ToInt32(y)
  {
    var k := (x - y) / TwoTo32;
    assert x == y + k * TwoTo32;
    assert x % TwoTo32 == y % TwoTo32 by {
      LemmaModAddMultiple(y, k);
    }
  }

  lemma LemmaModAddMultiple(y: int, k: int)
    ensures (y + k * TwoTo32) % TwoTo32 == y % TwoTo32
  {
  }

  /** The shift-and-subtract step is the int32-wrapped `31 * h + c` of the classic string hash. */
  lemma HashStepIsTimes31(h: int, c: char)
    requires -TwoTo31 <= h < TwoTo31
    ensures HashStep(h, c) == ToInt32(31 * h + c as int)
  {
    var shifted := ToInt32(h * 32);
    assert ToInt32(h) == h;
    assert (h * 32 - shifted) % TwoTo32 == 0;
    ToInt32Congruent(shifted - h + c as int, 31 * h + c as int);
  }

  /** Appending a character multiplies the hash by 31 and adds the character code, modulo 2^32. */
  lemma HashSnoc(s: string, c: char)
    ensures HashOf(s + [c]) == ToInt32(31 * HashOf(s) + c as int)
  {
    assert (s + [c])[..|s|] == s;
    HashStepIsTimes31(HashOf(s), c);
  }

  /** The loop of `getHashCode`. */
  method StringHash(s: string) returns (h: int)
    ensures h == HashOf(s)
  {
    h := 0;
    var i := 0;
    while i < |s|
      invariant 0 <= i <= |s|
      invariant h == HashOf(s[..i])
    {
      assert s[..i + 1][..i] == s[..i];
      h := HashStep(h, s[i]);
      i := i + 1;
    }
    assert s[..|s|] == s;
  }
}
