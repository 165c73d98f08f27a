/**
  `unicode_to_emoji` (`[hex.hex].pack('U')`) and `emoji_without_skin_tone`
  (the first code point, printed with `to_s(16)` and decoded again).
*/
module Codepoints {

  predicate IsHexDigit(c: char) {
    '0' <= c <= '9' || 'a' <= c <= 'f' || 'A' <= c <= 'F'
  }

  predicate IsHexString(h: string) {
    forall i :: 0 <= i < |h| ==> IsHexDigit(h[i])
  }

  function DigitValue(c: char): (v: nat)
    requires IsHexDigit(c)
    ensures v < 16
  {
    if '0' <= c <= '9' then c as int - '0' as int
    else if 'a' <= c <= 'f' then c as int - 'a' as int + 10
    else c as int - 'A' as int + 10
  }

  /** `String#hex` on a string of hex digits (the empty string reads as 0). */
  function HexValue(h: string): nat
    requires IsHexString(h)
  {
    if h == [] then 0 else HexValue(h[..|h| - 1]) * 16 + DigitValue(h[|h| - 1])
  }

  function HexDigit(d: nat): (c: char)
    requires d < 16
    ensures IsHexDigit(c) && DigitValue(c) == d
    ensures !('A' <= c <= 'F')
  {
    if d < 10 then ('0' as int + d) as char else ('a' as int + d - 10) as char
  }

  /** `Integer#to_s(16)`: lower-case digits, no leading zero; it reads back as `n`. */
  function ToHex(n: nat): (h: string)
    ensures |h| > 0 && IsHexString(h)
    ensures HexValue(h) == n
    ensures n > 0 ==> h[0] != '0'
    ensures forall i :: 0 <= i < |h| ==> !('A' <= h[i] <= 'F')
  {
    if n < 16 then [HexDigit(n)]
    else
      var h := ToHex(n / 16) + [HexDigit(n % 16)];
      assert h[..|h| - 1] == ToHex(n / 16);
      h
  }

  /** Canonical `to_s(16)` output: nonempty, lower-case, no leading zero. */
  predicate IsCanonicalHex(h: string) {
    && |h| > 0 && IsHexString(h)
    && (|h| > 1 ==> h[0] != '0')
    && forall i :: 0 <= i < |h| ==> !('A' <= h[i] <= 'F')
  }

  lemma {:induction false} HexValueLeading(h: string)
    requires IsHexString(h) && |h| > 0 && h[0] != '0'
    ensures HexValue(h) >= 1
  {
    if |h| > 1 {
      HexValueLeading(h[..|h| - 1]);
    }
  }

  /** Printing `16 * x + d` prints `x`, then the digit `d`. */
  lemma ToHexStep(x: nat, d: nat)
    requires x >= 1 && d < 16
    ensures ToHex(x * 16 + d) == ToHex(x) + [HexDigit(d)]
  {
    var n := x * 16 + d;
    assert n / 16 == x && n % 16 == d;
  }

  /** Reading a lower-case digit and printing it back gives the digit. */
  lemma HexDigitOfValue(c: char)
    requires IsHexDigit(c) && !('A' <= c <= 'F')
    ensures HexDigit(DigitValue(c)) == c
  {
  }

  /** One more digit after a canonical prefix that already round-trips. */
  lemma ToHexAppend(init: string, c: char)
    requires IsHexString(init) && HexValue(init) >= 1 && ToHex(HexValue(init)) == init
    requires IsHexDigit(c) && !('A' <= c <= 'F')
    ensures IsHexString(init + [c]) && ToHex(HexValue(init + [c])) == init + [c]
  {
    var h := init + [c];
    assert h[..|h| - 1] == init;
    var x := HexValue(init);
    var d := DigitValue(c);
    assert HexValue(h) == x * 16 + d;
    ToHexStep(x, d);
    HexDigitOfValue(c);
  }

  lemma ToHexSingle(h: string)
    requires IsCanonicalHex(h) && |h| == 1
    ensures ToHex(HexValue(h)) == h
  {
    HexDigitOfValue(h[0]);
    assert HexValue(h) == DigitValue(h[0]);
  }

  lemma CanonicalInit(h: string)
    requires IsCanonicalHex(h) && |h| > 1
    ensures IsCanonicalHex(h[..|h| - 1]) && h[..|h| - 1][0] != '0'
  {
  }

  /** The other round trip: a canonical hex string is what `to_s(16)` prints for its value. */
  lemma {:induction false} ToHexOfHexValue(h: string)
    requires IsCanonicalHex(h)
    ensures ToHex(HexValue(h)) == h
    decreases |h|
  {
    var c := h[|h| - 1];
    if |h| == 1 {
      ToHexSingle(h);
    } else {
      var init := h[..|h| - 1];
      CanonicalInit(h);
      HexValueLeading(init);
      ToHexOfHexValue(init);
      ToHexAppend(init, c);
      assert init + [c] == h;
    }
  }

  /** A code point that `char` can hold. */
  predicate IsScalarValue(n: int) {
    0 <= n < 0xD800 || 0xE000 <= n < 0x11_0000
  }

  /** `[hex.hex].pack('U')`: the one-character string of that code point. */
  function UnicodeToEmoji(hex: string): (r: string)
    requires IsHexString(hex) && IsScalarValue(HexValue(hex))
    ensures |r| == 1 && r[0] as int == HexValue(hex)
  {
    [HexValue(hex) as char]
  }

  /** The lookup key of an emoji grapheme: its first code point only. */
  function EmojiWithoutSkinTone(emoji: string): (r: string)
    requires |emoji| > 0
    ensures r == emoji[..1]
  {
    UnicodeToEmoji(ToHex(emoji[0] as int))
  }

  /** A base emoji and the same emoji followed by a skin-tone modifier share one key, the base itself. */
  lemma SkinToneShareKey(base: char, modifier: char)
    ensures EmojiWithoutSkinTone([base, modifier]) == EmojiWithoutSkinTone([base]) == [base]
  {
  }
}
