/**
 * The JavaScript string operations the user pipeline relies on:
 * `trim`, `toLowerCase`, `includes`, `split(' ')` and `String(n)` for an integer.
 */
module Text {

  type String = seq<char>

  /**
   * JavaScript whitespace: the WhiteSpace and LineTerminator code points of ECMAScript,
   * which is what the regular-expression class `\s` matches and what `trim` strips.
   */
  predicate IsSpace(c: char) {
    || c == '\t' || c == '\n' || c == '\U{000B}' || c == '\U{000C}' || c == '\r'
    || c == ' ' || c == '\U{00A0}' || c == '\U{1680}'
    || ('\U{2000}' <= c <= '\U{200A}')
    || c == '\U{2028}' || c == '\U{2029}' || c == '\U{202F}' || c == '\U{205F}'
    || c == '\U{3000}' || c == '\U{FEFF}'
  }

  /** `s.trim()` is the empty string, i.e. `!s.trim()` holds. */
  predicate IsBlank(s: String) {
    forall i | 0 <= i < |s| :: IsSpace(s[i])
  }

  function TrimStart(s: String): (r: String)
    ensures |r| <= |s| && r == s[|s| - |r|..]
    ensures forall i | 0 <= i < |s| - |r| :: IsSpace(s[i])
    ensures r == [] || !IsSpace(r[0])
  {
    if s != [] && IsSpace(s[0]) then TrimStart(s[1..]) else s
  }

  function TrimEnd(s: String): (r: String)
    ensures |r| <= |s| && r == s[..|r|]
    ensures forall i | |r| <= i < |s| :: IsSpace(s[i])
    ensures r == [] || !IsSpace(r[|r| - 1])
  {
    if s != [] && IsSpace(s[|s| - 1]) then TrimEnd(s[..|s| - 1]) else s
  }

  /**
   * `s.trim()`: the longest infix of `s` that neither starts nor ends with whitespace.
   * It is empty exactly when `s` is blank, and it leaves an already trimmed string alone.
   */
  function Trim(s: String): (r: String)
    ensures r == [] <==> IsBlank(s)
    ensures r != [] ==> !IsSpace(r[0]) && !IsSpace(r[|r| - 1])
    ensures (s == [] || (!IsSpace(s[0]) && !IsSpace(s[|s| - 1]))) ==> r == s
    ensures |r| <= |s|
    ensures InfixWithin(s, r)
  {
    var t := TrimStart(s);
    var r := TrimEnd(t);
    TrimBlank(s, t, r);
    TrimKeepsTrimmed(s, t, r);
    TrimInfix(s, t, r);
    r
  }

  /** `r` is an infix of `s` with only whitespace on either side of it. */
  predicate InfixWithin(s: String, r: String) {
    exists i | 0 <= i <= |s| - |r| :: r == s[i..i + |r|] && IsBlank(s[..i]) && IsBlank(s[i + |r|..])
  }

  /** What the two trims drop is whitespace on either side of an infix of `s`. */
  lemma TrimInfix(s: String, t: String, r: String)
    requires t == TrimStart(s) && r == TrimEnd(t)
    ensures InfixWithin(s, r)
  {
    BlankAround(s, t, r);
  }

  /** A blank prefix dropped from `s`, then a blank suffix dropped from the rest, leave an infix. */
  lemma BlankAround(s: String, t: String, r: String)
    requires |t| <= |s| && t == s[|s| - |t|..] && forall j | 0 <= j < |s| - |t| :: IsSpace(s[j])
    requires |r| <= |t| && r == t[..|r|] && forall j | |r| <= j < |t| :: IsSpace(t[j])
    ensures InfixWithin(s, r)
  {
    var i := |s| - |t|;
    forall j | 0 <= j < i ensures IsSpace(s[..i][j]) {
      assert s[..i][j] == s[j];
    }
    var tail := s[i + |r|..];
    forall j | 0 <= j < |tail| ensures IsSpace(tail[j]) {
      assert tail[j] == t[|r| + j];
    }
    assert r == s[i..i + |r|] && IsBlank(s[..i]) && IsBlank(s[i + |r|..]);
  }

  lemma TrimBlank(s: String, t: String, r: String)
    requires t == TrimStart(s) && r == TrimEnd(t)
    ensures r == [] <==> IsBlank(s)
    ensures r != [] ==> !IsSpace(r[0])
  {
    if r != [] {
      assert r[0] == t[0];
    }
  }

  lemma TrimKeepsTrimmed(s: String, t: String, r: String)
    requires t == TrimStart(s) && r == TrimEnd(t)
    ensures (s == [] || (!IsSpace(s[0]) && !IsSpace(s[|s| - 1]))) ==> r == s
  {
  }

  /** `toLowerCase` on one character; only the ASCII capitals are mapped. */
  function LowerChar(c: char): char {
    if 'A' <= c <= 'Z' then (c as int + 32) as char else c
  }

  /** `s.toLowerCase()`, character by character. */
  function Lower(s: String): String {
    seq(|s|, i requires 0 <= i < |s| => LowerChar(s[i]))
  }

  /** `sub` occurs in `s` at index `i`. */
  predicate OccursAt(s: String, sub: String, i: int) {
    0 <= i && i + |sub| <= |s| && s[i..i + |sub|] == sub
  }

  lemma OccursShift(s: String, sub: String)
    requires s != []
    ensures (exists i :: OccursAt(s[1..], sub, i)) <==> (exists i :: 1 <= i && OccursAt(s, sub, i))
  {
    if i :| OccursAt(s[1..], sub, i) {
      assert s[1..][i..i + |sub|] == s[i + 1..i + 1 + |sub|];
      assert OccursAt(s, sub, i + 1);
    }
    if i :| 1 <= i && OccursAt(s, sub, i) {
      assert s[1..][i - 1..i - 1 + |sub|] == s[i..i + |sub|];
      assert OccursAt(s[1..], sub, i - 1);
    }
  }

  /** `s.includes(sub)`: true exactly when `sub` occurs somewhere in `s`. */
  function Includes(s: String, sub: String): (r: bool)
    ensures r <==> exists i :: OccursAt(s, sub, i)
    decreases |s|
  {
    if |sub| > |s| then false
    else if s[..|sub|] == sub then assert OccursAt(s, sub, 0); true
    else OccursShift(s, sub); Includes(s[1..], sub)
  }

  /** `parts.join([sep])`, the inverse of `Split`. */
  function Join(parts: seq<String>, sep: char): String
    requires |parts| >= 1
  {
    if |parts| == 1 then parts[0] else parts[0] + [sep] + Join(parts[1..], sep)
  }

  /**
   * `s.split(sep)` for a one-character separator: the maximal separator-free pieces of `s`,
   * at least one (possibly empty), which joined back with `sep` give `s`.
   */
  function Split(s: String, sep: char): (parts: seq<String>)
    ensures |parts| >= 1
    ensures forall k | 0 <= k < |parts| :: sep !in parts[k]
    ensures Join(parts, sep) == s
    decreases |s|
  {
    if s == [] then [[]]
    else
      var rest := Split(s[1..], sep);
      if s[0] == sep then
        [[]] + rest
      else
        var parts := [[s[0]] + rest[0]] + rest[1..];
        assert parts[1..] == rest[1..];
        assert s == [s[0]] + s[1..];
        parts
  }

  lemma {:induction false} SplitNoSep(p: String, sep: char)
    requires sep !in p
    ensures Split(p, sep) == [p]
    decreases |p|
  {
    if p != [] {
      SplitNoSep(p[1..], sep);
      assert [p[0]] + p[1..] == p;
    }
  }

  /** A separator-free piece followed by the separator splits off as the first part. */
  lemma {:induction false} SplitAfterPiece(p: String, sep: char, t: String)
    requires sep !in p
    ensures Split(p + [sep] + t, sep) == [p] + Split(t, sep)
    decreases |p|
  {
    var s := p + [sep] + t;
    if p == [] {
      assert s[1..] == t;
    } else {
      assert s[1..] == p[1..] + [sep] + t;
      SplitAfterPiece(p[1..], sep, t);
      assert [p[0]] + p[1..] == p;
    }
  }

  /** Splitting two separator-free words joined by the separator gives back the two words. */
  lemma SplitTwoWords(a: String, b: String, sep: char)
    requires sep !in a && sep !in b
    ensures Split(a + [sep] + b, sep) == [a, b]
  {
    SplitAfterPiece(a, sep, b);
    SplitNoSep(b, sep);
  }

  function DigitChar(d: nat): (c: char)
    requires d < 10
    ensures '0' <= c <= '9'
  {
    ('0' as int + d) as char
  }

  /** The number a string of decimal digits denotes, the last digit being the least significant. */
  function DigitsValue(digits: String): int {
    if digits == [] then 0
    else DigitsValue(digits[..|digits| - 1]) * 10 + (digits[|digits| - 1] as int - '0' as int)
  }

  /** Decimal digits of a natural number, most significant first, without leading zeros. */
  function NatText(n: nat): (r: String)
    ensures |r| >= 1
    ensures forall i | 0 <= i < |r| :: '0' <= r[i] <= '9'
    ensures DigitsValue(r) == n
    ensures r[0] == '0' <==> n == 0
  {
    if n < 10 then [DigitChar(n)]
    else
      var r := NatText(n / 10) + [DigitChar(n % 10)];
      assert r[..|r| - 1] == NatText(n / 10);
      r
  }

  /** `String(n)` for an integer `n`. */
  function DecimalText(n: int): String {
    if n < 0 then "-" + NatText(-n) else NatText(n)
  }

  /** Every character of a decimal text is a digit or a minus sign. */
  lemma DecimalTextChars(n: int)
    ensures forall i | 0 <= i < |DecimalText(n)| :: DecimalText(n)[i] == '-' || '0' <= DecimalText(n)[i] <= '9'
  {
    if n < 0 {
      var d := NatText(-n);
      forall i | 0 < i < |DecimalText(n)| ensures DecimalText(n)[i] == d[i - 1] {
      }
    }
  }

  /**
   * The decimal text of an integer has no whitespace and no capital letters, so trimming
   * and lower-casing it change nothing.
   */
  lemma DecimalTextIsLowerTrimmed(n: int)
    ensures Trim(DecimalText(n)) == DecimalText(n)
    ensures Lower(DecimalText(n)) == DecimalText(n)
  {
    var t := DecimalText(n);
    DecimalTextChars(n);
    assert !IsSpace(t[0]) && !IsSpace(t[|t| - 1]);
    assert Lower(t) == t;
  }

  /** A string contains itself. */
  lemma IncludesSelf(s: String)
    ensures Includes(s, s)
  {
    assert OccursAt(s, s, 0);
  }
}
