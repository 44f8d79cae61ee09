/** Characters, trimming and decimal numbers, as the parsers and the key builders use them. */
module Text {

  predicate Letter(c: char) { 'a' <= c <= 'z' || 'A' <= c <= 'Z' }

  predicate Digit(c: char) { '0' <= c <= '9' }

  /** ASCII case folding. */
  function Lower(c: char): char {
    if 'A' <= c <= 'Z' then (c as int + 32) as char else c
  }

  /** The characters with the Unicode White_Space property. */
  predicate Space(c: char) {
    var n := c as int;
    || 9 <= n <= 13 || n == 0x20 || n == 0x85 || n == 0xA0 || n == 0x1680 || 0x2000 <= n <= 0x200A
    || n == 0x2028 || n == 0x2029 || n == 0x202F || n == 0x205F || n == 0x3000
  }

  predicate Blank(s: string) { forall i :: 0 <= i < |s| ==> Space(s[i]) }

  /** A letter or an underscore, then letters, digits and underscores. */
  predicate Identifier(name: string) {
    && name != ""
    && (name[0] == '_' || Letter(name[0]))
    && forall i :: 1 <= i < |name| ==> name[i] == '_' || Letter(name[i]) || Digit(name[i])
  }

  function TrimStart(s: string): string {
    if s != [] && Space(s[0]) then TrimStart(s[1..]) else s
  }

  function TrimEnd(s: string): string {
    if s != [] && Space(s[|s| - 1]) then TrimEnd(s[..|s| - 1]) else s
  }

  function Trim(s: string): string { TrimEnd(TrimStart(s)) }

  /** Not empty, and with no space at either end. */
  predicate Tight(s: string) {
    s != [] && !Space(s[0]) && !Space(s[|s| - 1])
  }

  lemma TightStays(s: string)
    requires Tight(s)
    ensures Trim(s) == s
  {
  }

  lemma {:induction false} TrimEndPadding(s: string, padding: string)
    requires Blank(padding) && s != [] && !Space(s[|s| - 1])
    ensures TrimEnd(s + padding) == s
  {
    if padding == [] {
      assert s + padding == s;
    } else {
      var n := |padding| - 1;
      assert (s + padding)[..|s| + n] == s + padding[..n];
      TrimEndPadding(s, padding[..n]);
    }
  }

  lemma {:induction false} TrimStartPadding(padding: string, s: string)
    requires Blank(padding) && s != [] && !Space(s[0])
    ensures TrimStart(padding + s) == s
  {
    if padding == [] {
      assert padding + s == s;
    } else {
      assert (padding + s)[1..] == padding[1..] + s;
      TrimStartPadding(padding[1..], s);
    }
  }

  /** Space on either side goes. */
  lemma TrimBoth(before: string, s: string, after: string)
    requires Blank(before) && Tight(s) && Blank(after)
    ensures Trim(before + s + after) == s
  {
    hide TrimStart, TrimEnd;
    assert before + s + after == before + (s + after);
    TrimStartPadding(before, s + after);
    TrimEndPadding(s, after);
  }

  lemma {:induction false} BlankGoes(s: string)
    requires Blank(s)
    ensures Trim(s) == []
  {
    if s != [] {
      BlankGoes(s[1..]);
    }
  }

  predicate AllDigits(s: string) { forall i :: 0 <= i < |s| ==> Digit(s[i]) }

  /** The number a digit string denotes. */
  function Amount(digits: string): nat {
    if digits == [] then 0
    else
      var last := digits[|digits| - 1];
      10 * Amount(digits[..|digits| - 1]) + (if Digit(last) then last as int - '0' as int else 0)
  }

  /** A number in decimal. */
  function Decimal(n: nat): (digits: string)
    ensures digits != [] && AllDigits(digits)
  {
    var last := ((n % 10) + '0' as int) as char;
    if n < 10 then [last] else Decimal(n / 10) + [last]
  }

  lemma {:induction false} DecimalAmount(n: nat)
    ensures Amount(Decimal(n)) == n
  {
    var last := ((n % 10) + '0' as int) as char;
    if n < 10 {
      assert Decimal(n)[..0] == [];
    } else {
      DecimalAmount(n / 10);
      assert Decimal(n)[..|Decimal(n)| - 1] == Decimal(n / 10);
    }
  }
}
