/**
 * Character classes used by the regular expressions and string methods of
 * the indexer: `\s` (and `String.prototype.trim`), `\p{P}` and
 * `toLowerCase`.
 */
module Chars {

  /** Membership in `\s`: the ECMAScript WhiteSpace and LineTerminator code
      points. `trim()` removes exactly this set from both ends. */
  predicate IsSpace(c: char)
    ensures IsSpace(c) ==> !IsPunct(c) && !IsUpper(c)
  {
    if c < '\U{80}' then ('\t' <= c <= '\r') || c == ' '
    else
      || c == '\U{A0}' || c == '\U{1680}' || ('\U{2000}' <= c <= '\U{200A}')
      || c == '\U{2028}' || c == '\U{2029}' || c == '\U{202F}' || c == '\U{205F}'
      || c == '\U{3000}' || c == '\U{FEFF}'
  }

  /** Membership in `\p{P}` (Unicode general category Punctuation), restricted
      to the Basic Latin, Latin-1, General Punctuation and CJK Symbols and
      Punctuation blocks. The ASCII symbols `$ + < = > ^ ` | ~` are category S,
      not P, and no capital letter is punctuation. */
  predicate IsPunct(c: char)
    ensures IsPunct(c) ==> !IsUpper(c) && !IsSymbol(c)
  {
    if c < '\U{80}' then
      || ('!' <= c <= '#') || ('%' <= c <= '*') || (',' <= c <= '/')
      || c == ':' || c == ';' || c == '?' || c == '@' || ('[' <= c <= ']')
      || c == '_' || c == '{' || c == '}'
    else
      || c == '\U{A1}' || c == '\U{A7}' || c == '\U{AB}' || c == '\U{B6}'
      || c == '\U{B7}' || c == '\U{BB}' || c == '\U{BF}'
      || ('\U{2010}' <= c <= '\U{2027}') || ('\U{2030}' <= c <= '\U{2043}')
      || ('\U{2045}' <= c <= '\U{2051}') || ('\U{2053}' <= c <= '\U{205E}')
      || ('\U{3001}' <= c <= '\U{3003}') || ('\U{3008}' <= c <= '\U{3011}')
      || ('\U{3014}' <= c <= '\U{301F}') || c == '\U{3030}' || c == '\U{303D}'
  }

  /** The ASCII characters of category S (symbols): `$ + < = > ^ ` | ~`. */
  predicate IsSymbol(c: char) {
    c == '$' || c == '+' || ('<' <= c <= '>') || c == '^' || c == '`' || c == '|' || c == '~'
  }

  /** Upper-case letters that `toLowerCase` maps, restricted to Basic Latin and
      Latin-1 (the multiplication sign U+00D7 is not a letter). */
  predicate IsUpper(c: char) {
    ('A' <= c <= 'Z') || ('\U{C0}' <= c <= '\U{DE}' && c != '\U{D7}')
  }

  /** The ASCII capitals of the regular-expression class `[A-Z]`. */
  predicate IsAsciiUpper(c: char) {
    'A' <= c <= 'Z'
  }

  function LowerChar(c: char): (r: char)
    ensures IsUpper(c) ==> !IsUpper(r) && r as int == c as int + 32
    ensures !IsUpper(c) ==> r == c
    ensures IsSpace(r) <==> IsSpace(c)
    ensures IsPunct(r) <==> IsPunct(c)
  {
    if IsUpper(c) then (c as int + 32) as char else c
  }

  /** `String.prototype.toLowerCase`, code point by code point. */
  function ToLower(s: string): (r: string)
    ensures |r| == |s|
    ensures forall i :: 0 <= i < |s| ==> r[i] == LowerChar(s[i])
    ensures IsLower(r)
  {
    seq(|s|, i requires 0 <= i < |s| => LowerChar(s[i]))
  }

  /** A string that `toLowerCase` leaves as it is. */
  predicate IsLower(s: string) {
    forall i :: 0 <= i < |s| ==> !IsUpper(s[i])
  }

  lemma ToLowerIsLower(s: string)
    ensures IsLower(ToLower(s))
    ensures ToLower(ToLower(s)) == ToLower(s)
  {
  }
}
