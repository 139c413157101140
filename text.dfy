/** String helpers shared by the ledger and the pages: JavaScript truthiness
    of an optional string, the case folding that `toLowerCase` performs on
    addresses, and lowercase hexadecimal digits as printed by
    `Number.prototype.toString(16)`. */
module Text {
  import opened Wrappers

  /** A string-or-null value that JavaScript treats as truthy: present and
      not empty. */
  predicate Present(a: Option<string>) {
    a.Some? && a.value != ""
  }

  /** `toLowerCase` on one character; only ASCII letters are folded. */
  function LowerChar(c: char): (r: char)
    ensures 'A' <= c <= 'Z' ==> r as int == c as int + 32
    ensures !('A' <= c <= 'Z') ==> r == c
    ensures !('A' <= r <= 'Z')
  {
    if 'A' <= c <= 'Z' then (c as int + 32) as char else c
  }

  /** `toLowerCase` on a string, character by character. */
  function Lower(s: string): (r: string)
    ensures |r| == |s|
    ensures forall k :: 0 <= k < |s| ==> r[k] == LowerChar(s[k])
  {
    if s == [] then [] else [LowerChar(s[0])] + Lower(s[1..])
  }

  /** The address comparison used throughout the source:
      `a.toLowerCase() === b.toLowerCase()`. */
  predicate SameAddress(a: string, b: string): (r: bool)
    ensures a == b ==> r
    ensures r ==> |a| == |b|
  {
    Lower(a) == Lower(b)
  }

  /** Two strings are the same address exactly when they have the same length
      and agree position by position once each character is folded. */
  lemma SameAddressPointwise(a: string, b: string)
    ensures SameAddress(a, b) <==>
            |a| == |b| && forall k :: 0 <= k < |a| ==> LowerChar(a[k]) == LowerChar(b[k])
  {
  }

  /** The sixteen characters `toString(16)` prints for 0 .. 15. */
  const HexDigits: string := "0123456789abcdef"

  predicate IsLowerHex(c: char) {
    '0' <= c <= '9' || 'a' <= c <= 'f'
  }

  /** `d.toString(16)` for a single digit `d` in 0 .. 15. */
  function HexDigit(d: int): (c: char)
    requires 0 <= d < 16
    ensures IsLowerHex(c)
    ensures HexValue(c) == d
  {
    HexDigits[d]
  }

  /** The value of a lowercase hexadecimal digit: the inverse of HexDigit. */
  function HexValue(c: char): (d: int)
    requires IsLowerHex(c)
    ensures 0 <= d < 16
    ensures HexDigits[d] == c
  {
    if '0' <= c <= '9' then c as int - '0' as int else c as int - 'a' as int + 10
  }
}
