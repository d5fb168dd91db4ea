/** The password-strength rule of the auth handlers, and Go's `len` on a
    string, which counts UTF-8 bytes rather than characters. */
module PasswordPolicy {

  const MinPasswordLen: nat := 8

  /** Number of bytes UTF-8 uses for one Unicode scalar value. */
  function Utf8Width(c: char): (w: nat)
    ensures 1 <= w <= 4
    ensures w == 1 <==> c as int < 0x80
  {
    if c as int < 0x80 then 1
    else if c as int < 0x800 then 2
    else if c as int < 0x10000 then 3
    else 4
  }

  /** Go's `len(s)`: the length of the UTF-8 encoding of `s`. */
  function ByteLen(s: string): (n: nat)
    ensures |s| <= n <= 4 * |s|
    ensures n == |s| <==> IsAscii(s)
  {
    if |s| == 0 then 0
    else
      var init := s[..|s| - 1];
      assert forall i :: 0 <= i < |init| ==> init[i] == s[i];
      ByteLen(init) + Utf8Width(s[|s| - 1])
  }

  predicate IsAscii(s: string) {
    forall i :: 0 <= i < |s| ==> s[i] as int < 0x80
  }

  predicate IsUpper(c: char) { 'A' <= c <= 'Z' }

  predicate IsLower(c: char) { 'a' <= c <= 'z' }

  /** The character class of the special-character pattern. */
  const Specials: string := "~!@#$%^&*()-_+={}[]|\\;:\"<>,./?"

  predicate IsSpecial(c: char) { c in Specials }

  /** Some character of `s` is in the class `p` (Go's `MatchString` for a
      one-character class). */
  predicate Contains(s: string, p: char -> bool) {
    exists i :: 0 <= i < |s| && p(s[i])
  }

  predicate HasUpper(s: string) { Contains(s, IsUpper) }

  predicate HasLower(s: string) { Contains(s, IsLower) }

  predicate HasSpecial(s: string) { Contains(s, IsSpecial) }

  lemma ContainsSnoc(s: string, c: char, p: char -> bool)
    ensures Contains(s + [c], p) <==> Contains(s, p) || p(c)
  {
    var t := s + [c];
    assert t[|s|] == c;
    assert forall i :: 0 <= i < |s| ==> t[i] == s[i];
  }

  lemma ByteLenSnoc(s: string, c: char)
    ensures ByteLen(s + [c]) == ByteLen(s) + Utf8Width(c)
  {
    assert (s + [c])[..|s|] == s;
  }

  /** At least eight bytes, an upper-case and a lower-case ASCII letter, and
      a special character; digits are not required. */
  predicate ValidPassword(s: string)
    // one character of each of three disjoint classes
    ensures ValidPassword(s) ==> |s| >= 3
    // for ASCII text the byte count is the character count
    ensures IsAscii(s) && |s| < MinPasswordLen ==> !ValidPassword(s)
  {
    ByteLen(s) >= MinPasswordLen && HasUpper(s) && HasLower(s) && HasSpecial(s)
  }

  /** A single left-to-right scan that counts bytes and records which
      character classes it has seen; it agrees with the policy. */
  method CheckPassword(s: string) returns (ok: bool)
    ensures ok <==> ValidPassword(s)
  {
    var n := 0;
    var upper, lower, special := false, false, false;
    var i := 0;
    while i < |s|
      invariant 0 <= i <= |s|
      invariant n == ByteLen(s[..i])
      invariant upper <==> HasUpper(s[..i])
      invariant lower <==> HasLower(s[..i])
      invariant special <==> HasSpecial(s[..i])
    {
      var c := s[i];
      assert s[..i + 1] == s[..i] + [c];
      ByteLenSnoc(s[..i], c);
      ContainsSnoc(s[..i], c, IsUpper);
      ContainsSnoc(s[..i], c, IsLower);
      ContainsSnoc(s[..i], c, IsSpecial);
      n := n + Utf8Width(c);
      upper := upper || IsUpper(c);
      lower := lower || IsLower(c);
      special := special || IsSpecial(c);
      i := i + 1;
    }
    assert s[..i] == s;
    ok := n >= MinPasswordLen && upper && lower && special;
  }

  /** Letters and digits alone fail: a special character is required. */
  lemma LettersAndDigitsRejected()
    ensures !ValidPassword("Abc12345")
  {
    assert !HasSpecial("Abc12345");
  }

  /** No upper-case letter and no special character. */
  lemma AllLowerRejected()
    ensures !ValidPassword("abcdefgh")
  {
    assert !HasUpper("abcdefgh");
  }

  /** Every class present but only four bytes long. */
  lemma ShortRejected()
    ensures !ValidPassword("Ab1!")
  {
    assert ByteLen("Ab1!") == 4;
  }

  /** Upper, lower and special characters in eight bytes. */
  lemma MixedAccepted()
    ensures ValidPassword("Abc1234!")
  {
    var s := "Abc1234!";
    assert IsUpper(s[0]) && IsLower(s[1]) && IsSpecial(s[7]);
    assert ByteLen(s) == 8;
  }

  /** Seven characters can be eight bytes: the length rule counts bytes. */
  lemma MultiByteLengthCounts()
    ensures ValidPassword("Ab!éxyz")
  {
    var s := "Ab!éxyz";
    assert IsUpper(s[0]) && IsLower(s[1]) && IsSpecial(s[2]);
    assert ByteLen("Ab!") == 3 by { assert IsAscii("Ab!"); }
    ByteLenSnoc("Ab!", 'é');
    ByteLenSnoc("Ab!é", 'x');
    ByteLenSnoc("Ab!éx", 'y');
    ByteLenSnoc("Ab!éxy", 'z');
    assert "Ab!éxy" + ['z'] == s;
  }
}
