/**
 * How a room code is made from generated text: the first six characters of
 * the text, upper-cased. The text itself (a GUID in its usual hyphenated,
 * lower-case hexadecimal form) is an input, so the randomness stays outside.
 */
module RoomCode {

  /** Number of characters of the generated text that make up a room code. */
  const CodeLength: nat := 6

  predicate IsAsciiLower(c: char) { 'a' <= c <= 'z' }

  predicate IsLowerHexDigit(c: char) { '0' <= c <= '9' || 'a' <= c <= 'f' }

  predicate IsUpperHexDigit(c: char) { '0' <= c <= '9' || 'A' <= c <= 'F' }

  /** Upper-cases an ASCII letter and leaves every other character alone. */
  function ToUpperChar(c: char): (u: char)
    ensures !IsAsciiLower(u)
    ensures !IsAsciiLower(c) ==> u == c
    ensures IsAsciiLower(c) ==> 'A' <= u <= 'Z' && u as int - 'A' as int == c as int - 'a' as int
  {
    if IsAsciiLower(c) then (c as int - 32) as char else c
  }

  /** Upper-cases a string character by character. */
  function ToUpper(s: string): (r: string)
    ensures |r| == |s|
    ensures forall i | 0 <= i < |s| :: r[i] == ToUpperChar(s[i])
    ensures forall i | 0 <= i < |r| :: !IsAsciiLower(r[i])
  {
    if s == [] then [] else [ToUpperChar(s[0])] + ToUpper(s[1..])
  }

  /**
   * The code a room gets from its generated text: the first `CodeLength`
   * characters, upper-cased. Taking the prefix needs at least that many
   * characters; a shorter text would make the slice throw.
   */
  function RoomCodeOf(candidate: string): (code: string)
    requires |candidate| >= CodeLength
    ensures |code| == CodeLength
    ensures forall i | 0 <= i < CodeLength :: code[i] == ToUpperChar(candidate[i])
    ensures forall i | 0 <= i < |code| :: !IsAsciiLower(code[i])
  {
    ToUpper(candidate[..CodeLength])
  }

  /**
   * The text of a GUID in its default form: 36 characters, hyphens at
   * positions 8, 13, 18 and 23, lower-case hexadecimal digits elsewhere.
   */
  predicate IsGuidText(s: string)
  {
    && |s| == 36
    && forall i | 0 <= i < |s| ::
         if i == 8 || i == 13 || i == 18 || i == 23 then s[i] == '-' else IsLowerHexDigit(s[i])
  }

  /** A code made from GUID text consists of six upper-case hexadecimal digits. */
  lemma GuidCodeIsUpperHex(candidate: string)
    requires IsGuidText(candidate)
    ensures |RoomCodeOf(candidate)| == CodeLength
    ensures forall i | 0 <= i < CodeLength :: IsUpperHexDigit(RoomCodeOf(candidate)[i])
  {
    var code := RoomCodeOf(candidate);
    forall i | 0 <= i < CodeLength
      ensures IsUpperHexDigit(code[i])
    {
      assert IsLowerHexDigit(candidate[i]);
    }
  }

  /** Upper-casing twice is upper-casing once. */
  lemma {:induction false} ToUpperIdempotent(s: string)
    ensures ToUpper(ToUpper(s)) == ToUpper(s)
  {
    if s != [] {
      ToUpperIdempotent(s[1..]);
      assert ToUpper(s)[1..] == ToUpper(s[1..]);
    }
  }

  /** A room code is its own code: making a code from a code gives it back. */
  lemma RoomCodeIsFixedPoint(candidate: string)
    requires |candidate| >= CodeLength
    ensures RoomCodeOf(RoomCodeOf(candidate)) == RoomCodeOf(candidate)
  {
    var code := RoomCodeOf(candidate);
    assert code[..CodeLength] == code;
    assert code == ToUpper(candidate[..CodeLength]);
    ToUpperIdempotent(candidate[..CodeLength]);
  }
}
