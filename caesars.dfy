/**
 * caesars.py: `caesar_cipher(text, shift, mode)` rotates every ASCII letter
 * by `shift` places within its own case ("encrypt") or back ("decrypt"),
 * copies every other character, and with any other mode drops the letters.
 */
module Caesars {

  const Encrypt: string := "encrypt"
  const Decrypt: string := "decrypt"

  predicate IsUpper(c: char) { 'A' <= c <= 'Z' }

  predicate IsLower(c: char) { 'a' <= c <= 'z' }

  predicate IsAlpha(c: char) { IsUpper(c) || IsLower(c) }

  predicate ValidMode(mode: string) { mode == Encrypt || mode == Decrypt }

  /**
   * `chr((ord(c) - base + delta) % 26 + base)` (caesars.py:5, 7, 9): Python's
   * `%` by 26 is never negative, like Dafny's, so every shift lands on a
   * letter of the same case.
   */
  function Rotate(c: char, delta: int): (r: char)
    requires IsAlpha(c)
    ensures IsUpper(r) == IsUpper(c) && IsLower(r) == IsLower(c)
  {
    var base := if IsUpper(c) then 'A' as int else 'a' as int;
    ((c as int - base + delta) % 26 + base) as char
  }

  /** The signed rotation a valid mode applies. */
  function Delta(shift: int, mode: string): int {
    if mode == Encrypt then shift else -shift
  }

  /** What one input character adds to the result (caesars.py:4-11). */
  function Step(c: char, shift: int, mode: string): (out: string)
    ensures |out| <= 1
  {
    if IsAlpha(c) then
      if mode == Encrypt then [Rotate(c, shift)]
      else if mode == Decrypt then [Rotate(c, -shift)]
      else []
    else [c]
  }

  /** The result after the loop has consumed all of `text`. */
  function Cipher(text: string, shift: int, mode: string): (r: string)
    ensures |r| <= |text|
  {
    if text == [] then ""
    else Cipher(text[..|text| - 1], shift, mode) + Step(text[|text| - 1], shift, mode)
  }

  /** The non-letters of `text`, in order. */
  function NonLetters(text: string): (r: string)
    ensures forall k :: 0 <= k < |r| ==> !IsAlpha(r[k])
  {
    if text == [] then ""
    else NonLetters(text[..|text| - 1]) + (if IsAlpha(text[|text| - 1]) then "" else [text[|text| - 1]])
  }

  /** `caesar_cipher` (caesars.py:1-12). */
  method CaesarCipher(text: string, shift: int, mode: string) returns (result: string)
    ensures result == Cipher(text, shift, mode)
    ensures ValidMode(mode) ==> |result| == |text|
    ensures ValidMode(mode) ==> forall k :: 0 <= k < |text| ==>
      && IsUpper(result[k]) == IsUpper(text[k])
      && IsLower(result[k]) == IsLower(text[k])
      && (!IsAlpha(text[k]) ==> result[k] == text[k])
    ensures !ValidMode(mode) ==> result == NonLetters(text)
  {
    result := "";
    for i := 0 to |text|
      invariant result == Cipher(text[..i], shift, mode)
    {
      var c := text[i];
      assert text[..i + 1][..i] == text[..i];
      if IsAlpha(c) {
        if mode == Encrypt {
          result := result + [Rotate(c, shift)];
        } else if mode == Decrypt {
          result := result + [Rotate(c, -shift)];
        }
      } else {
        result := result + [c];
      }
    }
    assert text[..|text|] == text;
    if ValidMode(mode) {
      CipherAt(text, shift, mode);
    } else {
      UnknownModeKeepsNonLetters(text, shift, mode);
    }
  }

  /** In a valid mode the output is the input with each letter rotated and nothing else changed. */
  lemma {:induction false} CipherAt(text: string, shift: int, mode: string)
    requires ValidMode(mode)
    ensures |Cipher(text, shift, mode)| == |text|
    ensures forall k :: 0 <= k < |text| ==>
      Cipher(text, shift, mode)[k] == if IsAlpha(text[k]) then Rotate(text[k], Delta(shift, mode)) else text[k]
  {
    if text != [] {
      var n := |text| - 1;
      CipherAt(text[..n], shift, mode);
      forall k | 0 <= k < n ensures text[..n][k] == text[k] { }
    }
  }

  lemma CipherAtIndex(text: string, shift: int, mode: string, k: int)
    requires ValidMode(mode) && 0 <= k < |text|
    ensures |Cipher(text, shift, mode)| == |text|
    ensures Cipher(text, shift, mode)[k] == if IsAlpha(text[k]) then Rotate(text[k], Delta(shift, mode)) else text[k]
  {
    CipherAt(text, shift, mode);
  }

  /** With an unknown mode the letters vanish and the other characters stay, in order (caesars.py:6-11). */
  lemma {:induction false} UnknownModeKeepsNonLetters(text: string, shift: int, mode: string)
    requires !ValidMode(mode)
    ensures Cipher(text, shift, mode) == NonLetters(text)
  {
    if text != [] {
      UnknownModeKeepsNonLetters(text[..|text| - 1], shift, mode);
    }
  }

  /** Undoing a shift modulo 26 restores an offset into the alphabet. */
  lemma ShiftBack(x: int, delta: int)
    requires 0 <= x < 26
    ensures ((x + delta) % 26 - delta) % 26 == x
  {
    var q := (x + delta) / 26;
    var y := (x + delta) % 26;
    assert x + delta == 26 * q + y;
    assert y - delta == x + 26 * -q;
    MultipleOf26Vanishes(x, -q);
  }

  lemma MultipleOf26Vanishes(x: int, m: int)
    requires 0 <= x < 26
    ensures (x + 26 * m) % 26 == x
  {
  }

  lemma RotateBack(c: char, delta: int)
    requires IsAlpha(c)
    ensures Rotate(Rotate(c, delta), -delta) == c
  {
    var base := if IsUpper(c) then 'A' as int else 'a' as int;
    var x := c as int - base;
    var y := (x + delta) % 26;
    var r := Rotate(c, delta);
    assert r as int == y + base;
    ShiftBack(x, delta);
    assert (r as int - base - delta) % 26 == x;
  }

  lemma UndoModeAt(text: string, shift: int, first: string, second: string, k: int)
    requires ValidMode(first) && ValidMode(second) && first != second && 0 <= k < |text|
    ensures |Cipher(text, shift, first)| == |text|
    ensures |Cipher(Cipher(text, shift, first), shift, second)| == |text|
    ensures Cipher(Cipher(text, shift, first), shift, second)[k] == text[k]
  {
    var once := Cipher(text, shift, first);
    CipherAtIndex(text, shift, first, k);
    CipherAtIndex(once, shift, second, k);
    if IsAlpha(text[k]) {
      assert Delta(shift, second) == -Delta(shift, first);
      RotateBack(text[k], Delta(shift, first));
    }
  }

  /** Applying one valid mode and then the other restores the text. */
  lemma UndoMode(text: string, shift: int, first: string, second: string)
    requires ValidMode(first) && ValidMode(second) && first != second
    ensures Cipher(Cipher(text, shift, first), shift, second) == text
  {
    var once := Cipher(text, shift, first);
    var twice := Cipher(once, shift, second);
    CipherAt(text, shift, first);
    CipherAt(once, shift, second);
    forall k | 0 <= k < |text| ensures twice[k] == text[k] {
      UndoModeAt(text, shift, first, second, k);
    }
  }

  /** Decrypting with the same shift undoes encrypting, and the other way round (caesars.py:7, 9). */
  lemma RoundTrip(text: string, shift: int)
    ensures Cipher(Cipher(text, shift, Encrypt), shift, Decrypt) == text
    ensures Cipher(Cipher(text, shift, Decrypt), shift, Encrypt) == text
  {
    UndoMode(text, shift, Encrypt, Decrypt);
    UndoMode(text, shift, Decrypt, Encrypt);
  }

  lemma RotatePeriodic(c: char, delta: int, turns: int)
    requires IsAlpha(c)
    ensures Rotate(c, delta + 26 * turns) == Rotate(c, delta)
  {
    var base := if IsUpper(c) then 'A' as int else 'a' as int;
    var x := c as int - base + delta;
    assert (x + 26 * turns) % 26 == x % 26;
  }

  lemma StepPeriodic(c: char, shift: int, turns: int, mode: string)
    ensures Step(c, shift + 26 * turns, mode) == Step(c, shift, mode)
  {
    if IsAlpha(c) {
      RotatePeriodic(c, shift, turns);
      assert -(shift + 26 * turns) == -shift + 26 * -turns;
      RotatePeriodic(c, -shift, -turns);
    }
  }

  /** Shifts that differ by a multiple of 26 give the same output, in every mode. */
  lemma {:induction false} ShiftPeriodic(text: string, shift: int, turns: int, mode: string)
    ensures Cipher(text, shift + 26 * turns, mode) == Cipher(text, shift, mode)
  {
    if text != [] {
      var n := |text| - 1;
      ShiftPeriodic(text[..n], shift, turns, mode);
      StepPeriodic(text[n], shift, turns, mode);
    }
  }

  /** Shift 0 leaves the text as it is in both valid modes. */
  lemma ZeroShiftIsIdentity(text: string, mode: string)
    requires ValidMode(mode)
    ensures Cipher(text, 0, mode) == text
  {
    CipherAt(text, 0, mode);
    forall k | 0 <= k < |text| && IsAlpha(text[k]) ensures Rotate(text[k], Delta(0, mode)) == text[k] {
      var base := if IsUpper(text[k]) then 'A' as int else 'a' as int;
      assert (text[k] as int - base) % 26 == text[k] as int - base;
    }
  }
}
