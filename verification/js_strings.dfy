/**
 JavaScript strings as the login script sees them: sequences of UTF-16 code units.
 `String.prototype.length` and regular expressions without the `u` flag both count
 code units, so the model does too.
 */
module JsStrings {

  newtype CodeUnit = x: int | 0 <= x < 0x1_0000

  type JsString = seq<CodeUnit>

  const AT: CodeUnit := 0x40
  const DOT: CodeUnit := 0x2E

  /** The ECMAScript WhiteSpace and LineTerminator code points (Unicode category Zs
      plus TAB, VT, FF, ZWNBSP, LF, CR, LS and PS). This one set is both what
      `String.prototype.trim` strips and what the regular-expression class `\s` matches. */
  predicate IsWhitespace(c: CodeUnit) {
    || c == 0x09 || c == 0x0A || c == 0x0B || c == 0x0C || c == 0x0D
    || c == 0x20 || c == 0xA0 || c == 0x1680
    || (0x2000 <= c <= 0x200A)
    || c == 0x2028 || c == 0x2029 || c == 0x202F || c == 0x205F
    || c == 0x3000 || c == 0xFEFF
  }

  /** Every code unit is whitespace (this includes the empty string). */
  predicate Blank(s: JsString) {
    forall k | 0 <= k < |s| :: IsWhitespace(s[k])
  }

  /** Drops the maximal whitespace prefix. */
  function TrimStart(s: JsString): (r: JsString)
    ensures |r| <= |s| && r == s[|s| - |r|..]
    ensures forall k | 0 <= k < |s| - |r| :: IsWhitespace(s[k])
    ensures r != [] ==> !IsWhitespace(r[0])
    decreases |s|
  {
    if s != [] && IsWhitespace(s[0]) then TrimStart(s[1..]) else s
  }

  /** Drops the maximal whitespace suffix. */
  function TrimEnd(s: JsString): (r: JsString)
    ensures |r| <= |s| && r == s[..|r|]
    ensures forall k | |r| <= k < |s| :: IsWhitespace(s[k])
    ensures r != [] ==> !IsWhitespace(r[|r| - 1])
    decreases |s|
  {
    if s != [] && IsWhitespace(s[|s| - 1]) then TrimEnd(s[..|s| - 1]) else s
  }

  /** How many code units `Trim` removes from the front. */
  function LeadingBlanks(s: JsString): (n: nat)
    ensures n <= |s|
  {
    |s| - |TrimStart(s)|
  }

  /** `t` is what is left of `s` after dropping the maximal whitespace run at each end:
      an infix of `s` with whitespace-only margins and non-whitespace ends. */
  predicate TrimmedInfix(s: JsString, t: JsString) {
    var i := LeadingBlanks(s);
    && i + |t| <= |s|
    && t == s[i..i + |t|]
    && (forall k | 0 <= k < i :: IsWhitespace(s[k]))
    && (forall k | i + |t| <= k < |s| :: IsWhitespace(s[k]))
    && (t != [] ==> !IsWhitespace(t[0]) && !IsWhitespace(t[|t| - 1]))
  }

  /** `String.prototype.trim`: the infix of `s` left after removing whitespace at both ends. */
  function Trim(s: JsString): (r: JsString)
    ensures LeadingBlanks(s) + |r| <= |s|
    ensures r == s[LeadingBlanks(s)..LeadingBlanks(s) + |r|]
    ensures forall k | 0 <= k < LeadingBlanks(s) :: IsWhitespace(s[k])
    ensures forall k | LeadingBlanks(s) + |r| <= k < |s| :: IsWhitespace(s[k])
    ensures r != [] ==> !IsWhitespace(r[0]) && !IsWhitespace(r[|r| - 1])
    ensures r == [] <==> Blank(s)
    ensures TrimmedInfix(s, r)
  {
    TrimEnd(TrimStart(s))
  }

  /** Trimming a string that neither starts nor ends with whitespace changes nothing. */
  lemma TrimUnpadded(s: JsString)
    requires s != [] ==> !IsWhitespace(s[0]) && !IsWhitespace(s[|s| - 1])
    ensures Trim(s) == s
  {
    assert TrimStart(s) == s;
    assert TrimEnd(s) == s;
  }

  /** Trimming twice is the same as trimming once. */
  lemma TrimIdempotent(s: JsString)
    ensures Trim(Trim(s)) == Trim(s)
  {
    TrimUnpadded(Trim(s));
  }
}
