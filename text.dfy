/**
 * The few Python `str` operations the extractor relies on: `strip()` with no
 * arguments, `lower()`, and the substring test `w in s`.
 */
module Text {

  /**
   * Python's `str.isspace`: exactly the code points that `str.strip()` with no
   * arguments removes.
   */
  predicate IsSpace(c: char) {
    var n := c as int;
    (9 <= n <= 13) || (28 <= n <= 32) || n == 0x85 || n == 0xA0 || n == 0x1680
    || (0x2000 <= n <= 0x200A) || n == 0x2028 || n == 0x2029 || n == 0x202F
    || n == 0x205F || n == 0x3000
  }

  /** `r` is `s[i..j]`, and everything outside that slice is whitespace. */
  predicate StrippedAt(s: string, r: string, i: int, j: int) {
    && 0 <= i <= j <= |s|
    && r == s[i..j]
    && (forall k :: 0 <= k < i ==> IsSpace(s[k]))
    && (forall k :: j <= k < |s| ==> IsSpace(s[k]))
    && (r == [] || (!IsSpace(r[0]) && !IsSpace(r[|r| - 1])))
  }

  /** `r` is `s` with its leading and trailing whitespace removed, and nothing else. */
  ghost predicate IsStripped(s: string, r: string) {
    exists i, j :: StrippedAt(s, r, i, j)
  }

  /** Drops leading whitespace. */
  function TrimStart(s: string): (r: string)
    ensures |r| <= |s|
  {
    if s != [] && IsSpace(s[0]) then TrimStart(s[1..]) else s
  }

  /** Drops trailing whitespace. */
  function TrimEnd(s: string): (r: string)
    ensures |r| <= |s|
  {
    if s != [] && IsSpace(s[|s| - 1]) then TrimEnd(s[..|s| - 1]) else s
  }

  /** Python's `s.strip()`. */
  function Strip(s: string): (r: string)
    ensures |r| <= |s|
  {
    TrimEnd(TrimStart(s))
  }

  /** TrimStart removes a whitespace prefix, and all of it. */
  lemma {:induction false} TrimStartRemovesPrefix(s: string)
    ensures var r := TrimStart(s);
      && r == s[|s| - |r|..]
      && (forall k :: 0 <= k < |s| - |r| ==> IsSpace(s[k]))
      && (r == [] || !IsSpace(r[0]))
  {
    if s != [] && IsSpace(s[0]) {
      TrimStartRemovesPrefix(s[1..]);
    }
  }

  /** TrimEnd removes a whitespace suffix, and all of it. */
  lemma {:induction false} TrimEndRemovesSuffix(s: string)
    ensures var r := TrimEnd(s);
      && r == s[..|r|]
      && (forall k :: |r| <= k < |s| ==> IsSpace(s[k]))
      && (r == [] || !IsSpace(r[|r| - 1]))
  {
    if s != [] && IsSpace(s[|s| - 1]) {
      TrimEndRemovesSuffix(s[..|s| - 1]);
    }
  }

  /** `strip()` removes the surrounding whitespace and nothing else. */
  lemma StripRemovesOnlyMargins(s: string)
    ensures IsStripped(s, Strip(s))
  {
    var t := TrimStart(s);
    var r := TrimEnd(t);
    TrimStartRemovesPrefix(s);
    TrimEndRemovesSuffix(t);
    var i := |s| - |t|;
    var j := i + |r|;
    assert r == s[i..j] by {
      assert t == s[i..];
      assert r == t[..|r|];
    }
    forall k | j <= k < |s| ensures IsSpace(s[k]) {
      assert s[k] == t[k - i];
    }
    assert StrippedAt(s, r, i, j);
  }

  /** Python's `c.lower()` on ASCII; every other character is left as it is. */
  function LowerChar(c: char): char {
    if 'A' <= c <= 'Z' then (c as int - 'A' as int + 'a' as int) as char else c
  }

  /** Python's `s.lower()` on ASCII. */
  function Lower(s: string): (r: string)
    ensures |r| == |s|
    ensures forall k :: 0 <= k < |s| ==> r[k] == LowerChar(s[k])
  {
    seq(|s|, k requires 0 <= k < |s| => LowerChar(s[k]))
  }

  /** Python's substring test `w in s`. */
  predicate Contains(s: string, w: string)
    ensures w == [] ==> Contains(s, w)
    ensures Contains(s, w) ==> |w| <= |s|
  {
    assert w == [] ==> w <= s[0..];
    exists i :: 0 <= i <= |s| && w <= s[i..]
  }
}
