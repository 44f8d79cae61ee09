/** Numeric collation: sort keys in which digit runs compare by value and letters without case. */
module Collation {
  import opened Bytes
  import opened Integers
  import opened Text

  predicate Ascii(s: string) { forall i :: 0 <= i < |s| ==> s[i] < 128 as char }

  /** A folded character, or a run of digits without leading zeros. */
  datatype Token = Character(c: char) | Number(digits: string)

  function RunLength(s: string): (n: nat)
    ensures n <= |s| && (forall i :: 0 <= i < n ==> Digit(s[i])) && (n < |s| ==> !Digit(s[n]))
  {
    if s == [] || !Digit(s[0]) then 0 else 1 + RunLength(s[1..])
  }

  function TrimZeros(digits: string): (r: string)
    ensures r != [] ==> r[0] != '0'
    ensures (forall i :: 0 <= i < |digits| ==> Digit(digits[i])) ==> forall i :: 0 <= i < |r| ==> Digit(r[i])
    ensures |r| <= |digits|
  {
    if digits != [] && digits[0] == '0' then TrimZeros(digits[1..]) else digits
  }

  function Normalized(digits: string): string {
    if TrimZeros(digits) == [] then "0" else TrimZeros(digits)
  }

  function Tokens(s: string): seq<Token>
    decreases |s|
  {
    if s == [] then []
    else if Digit(s[0]) then [Number(Normalized(s[..RunLength(s)]))] + Tokens(s[RunLength(s)..])
    else [Character(Lower(s[0]))] + Tokens(s[1..])
  }

  lemma PowersOf256()
    ensures Pow256(4) == U32_MAX + 1
  {
    assert Pow256(0) == 1 && Pow256(1) == 256 && Pow256(2) == 65536 && Pow256(3) == 16777216;
  }

  /** The length field of a digit run, which saturates. */
  function LengthField(n: nat): (r: Bytes)
    ensures |r| == 4
  {
    PowersOf256();
    BigEndian(if n <= U32_MAX then n else U32_MAX, 4)
  }

  function Encoded(token: Token): Bytes {
    match token
    case Character(c) => [0 as char, c]
    case Number(digits) => [1 as char] + LengthField(|digits|) + digits
  }

  function Key(tokens: seq<Token>): Bytes {
    if tokens == [] then [] else Encoded(tokens[0]) + Key(tokens[1..])
  }

  method NumericSortKey(value: string) returns (out: Bytes)
    ensures out == Key(Tokens(value))
  {
    hide Key;
    out := [];
    var i := 0;
    while i < |value|
      invariant 0 <= i <= |value|
      invariant out + Key(Tokens(value[i..])) == Key(Tokens(value))
    {
      ghost var rest := value[i..];
      if Digit(value[i]) {
        var end := ScanRun(value, i);
        var digits := value[i..end];
        assert digits == rest[..RunLength(rest)] && value[end..] == rest[RunLength(rest)..];
        var normalized := Trim(digits);
        out := AppendRun(out, normalized, Tokens(value[end..]));
        i := end;
      } else {
        assert value[i + 1..] == rest[1..];
        out := AppendCharacter(out, Lower(value[i]), Tokens(value[i + 1..]));
        i := i + 1;
      }
    }
    KeyOfNothing();
  }

  lemma KeyOfNothing()
    ensures Key([]) == []
  {
  }

  /** Where the run of digits that begins here ends. */
  method ScanRun(value: string, start: nat) returns (end: nat)
    requires start < |value| && Digit(value[start])
    ensures start < end <= |value| && end - start == RunLength(value[start..])
  {
    end := start;
    while end < |value| && Digit(value[end])
      invariant start <= end <= |value|
      invariant end - start + RunLength(value[end..]) == RunLength(value[start..])
    {
      end := end + 1;
    }
  }

  method AppendCharacter(before: Bytes, c: char, ghost rest: seq<Token>) returns (out: Bytes)
    ensures out + Key(rest) == before + Key([Character(c)] + rest)
  {
    out := before + [0 as char];
    out := out + [c];
    AppendToken(before, Character(c), rest);
    assert out == before + Encoded(Character(c));
  }

  lemma AppendToken(out: Bytes, token: Token, rest: seq<Token>)
    ensures out + Encoded(token) + Key(rest) == out + Key([token] + rest)
  {
    assert ([token] + rest)[1..] == rest;
  }

  method AppendRun(before: Bytes, digits: string, ghost rest: seq<Token>) returns (out: Bytes)
    ensures out + Key(rest) == before + Key([Number(digits)] + rest)
  {
    hide LengthField;
    out := before + [1 as char];
    out := out + LengthField(|digits|);
    out := out + digits;
    AppendToken(before, Number(digits), rest);
    assert out == before + Encoded(Number(digits));
  }

  /** Drops leading zeros, and keeps one digit. */
  method Trim(digits: string) returns (normalized: string)
    ensures normalized == Normalized(digits)
  {
    var i := 0;
    while i < |digits| && digits[i] == '0'
      invariant 0 <= i <= |digits|
      invariant TrimZeros(digits[i..]) == TrimZeros(digits)
    {
      i := i + 1;
    }
    return if digits[i..] == "" then "0" else digits[i..];
  }

  // ---------------------------------------------------------------------------------------
  // Token order
  // ---------------------------------------------------------------------------------------

  function Pow10(n: nat): (r: nat)
    ensures r > 0
  {
    if n == 0 then 1 else 10 * Pow10(n - 1)
  }

  /** Digits, at least one, and no leading zero but for zero itself. */
  predicate Plain(digits: string) {
    digits != [] && AllDigits(digits) && (|digits| > 1 ==> digits[0] != '0')
  }

  predicate PlainToken(token: Token) {
    token.Number? ==> Plain(token.digits)
  }

  predicate PlainTokens(tokens: seq<Token>) {
    forall i :: 0 <= i < |tokens| ==> PlainToken(tokens[i])
  }

  /** Characters before numbers; characters by code; numbers by amount. */
  predicate TokenBelow(a: Token, b: Token) {
    match (a, b)
    case (Character(c), Character(d)) => c < d
    case (Character(_), Number(_)) => true
    case (Number(_), Character(_)) => false
    case (Number(m), Number(n)) => Amount(m) < Amount(n)
  }

  predicate TokensBelow(xs: seq<Token>, ys: seq<Token>) {
    if ys == [] then false
    else if xs == [] then true
    else if xs[0] != ys[0] then TokenBelow(xs[0], ys[0])
    else TokensBelow(xs[1..], ys[1..])
  }

  lemma {:induction false} TokensArePlain(s: string)
    ensures PlainTokens(Tokens(s))
    decreases |s|
  {
    if s != [] {
      if Digit(s[0]) {
        TokensArePlain(s[RunLength(s)..]);
      } else {
        TokensArePlain(s[1..]);
      }
    }
  }

  lemma {:induction false} AmountIsBounded(digits: string)
    requires AllDigits(digits)
    ensures Amount(digits) < Pow10(|digits|)
    ensures digits != [] && digits[0] != '0' ==> Pow10(|digits| - 1) <= Amount(digits)
  {
    if digits != [] {
      AmountIsBounded(digits[..|digits| - 1]);
    }
  }

  lemma {:induction false} Pow10Grows(m: nat, n: nat)
    requires m <= n
    ensures Pow10(m) <= Pow10(n)
  {
    if m < n {
      Pow10Grows(m, n - 1);
    }
  }

  /** Digit strings of one length compare as numbers the way they compare as bytes. */
  lemma {:induction false} AmountOrder(a: string, b: string)
    requires AllDigits(a) && AllDigits(b) && |a| == |b| && Below(a, b)
    ensures Amount(a) < Amount(b)
  {
    if a != [] {
      var n := |a| - 1;
      var x, y := a[..n], b[..n];
      assert a == x + [a[n]] && b == y + [b[n]];
      if x == y {
        BelowCommonPrefix(x, [a[n]], [b[n]]);
      } else {
        BelowTotal(x, y);
        if Below(y, x) {
          BelowSameLength(y, x, [b[n]], [a[n]]);
          BelowAsymmetric(a, b);
        } else {
          AmountOrder(x, y);
        }
      }
    }
  }

  /** Longer plain numbers are larger. */
  lemma LongerIsLarger(a: string, b: string)
    requires Plain(a) && Plain(b) && |a| < |b|
    ensures Amount(a) < Amount(b)
  {
    AmountIsBounded(a);
    AmountIsBounded(b);
    Pow10Grows(|a|, |b| - 1);
  }

  // ---------------------------------------------------------------------------------------
  // Byte order of keys is token order
  // ---------------------------------------------------------------------------------------

  /** Every run is short enough for its length field. */
  predicate Measured(tokens: seq<Token>, bound: nat) {
    forall i :: 0 <= i < |tokens| && tokens[i].Number? ==> |tokens[i].digits| <= bound
  }

  lemma LengthFieldOrder(m: nat, n: nat)
    requires m < n <= U32_MAX
    ensures Below(LengthField(m), LengthField(n))
  {
    PowersOf256();
    BigEndianOrder(m, n, 4);
  }

  /** Encodings of different tokens differ before either ends, in token order. */
  lemma EncodedOrder(a: Token, b: Token, x: Bytes, y: Bytes)
    requires PlainToken(a) && PlainToken(b) && Measured([a, b], U32_MAX) && a != b
    ensures Below(Encoded(a) + x, Encoded(b) + y) == TokenBelow(a, b)
    ensures TokenBelow(a, b) != TokenBelow(b, a)
  {
    match (a, b) {
      case (Character(c), Character(d)) =>
        BelowSameLength(Encoded(a), Encoded(b), x, y);
      case (Number(m), Number(n)) =>
        assert [a, b][0] == a && [a, b][1] == b;
        NumberOrder(m, n, x, y);
      case (Character(c), Number(n)) =>
        assert (Encoded(a) + x)[0] == 0 as char && (Encoded(b) + y)[0] == 1 as char;
      case (Number(m), Character(d)) =>
        assert (Encoded(a) + x)[0] == 1 as char && (Encoded(b) + y)[0] == 0 as char;
    }
  }

  lemma NumberOrder(m: string, n: string, x: Bytes, y: Bytes)
    requires Plain(m) && Plain(n) && |m| <= U32_MAX && |n| <= U32_MAX && m != n
    ensures Below(Encoded(Number(m)) + x, Encoded(Number(n)) + y) == (Amount(m) < Amount(n))
    ensures Amount(m) != Amount(n)
  {
    hide LengthField;
    if |m| < |n| {
      ShorterFirst(m, n, x, y);
    } else if |n| < |m| {
      ShorterFirst(n, m, y, x);
      BelowAsymmetric(Encoded(Number(n)) + y, Encoded(Number(m)) + x);
    } else {
      SameLengthOrder(m, n, x, y);
    }
  }

  lemma ShorterFirst(m: string, n: string, x: Bytes, y: Bytes)
    requires Plain(m) && Plain(n) && |m| < |n| <= U32_MAX
    ensures Below(Encoded(Number(m)) + x, Encoded(Number(n)) + y) && Amount(m) < Amount(n)
  {
    hide LengthField, Amount;
    LongerIsLarger(m, n);
    LengthFieldOrder(|m|, |n|);
    BelowIrreflexive(LengthField(|n|));
    var a, b := [1 as char] + LengthField(|m|), [1 as char] + LengthField(|n|);
    BelowCommonPrefix([1 as char], LengthField(|m|), LengthField(|n|));
    assert Encoded(Number(m)) + x == a + (m + x) && Encoded(Number(n)) + y == b + (n + y);
    assert a != b by {
      assert a[1..] == LengthField(|m|) && b[1..] == LengthField(|n|);
    }
    BelowSameLength(a, b, m + x, n + y);
  }

  lemma SameLengthOrder(m: string, n: string, x: Bytes, y: Bytes)
    requires AllDigits(m) && AllDigits(n) && |m| == |n| && m != n
    ensures Below(Encoded(Number(m)) + x, Encoded(Number(n)) + y) == (Amount(m) < Amount(n))
    ensures Amount(m) != Amount(n)
  {
    hide LengthField, Amount;
    var head := [1 as char] + LengthField(|m|);
    assert Encoded(Number(m)) + x == head + (m + x) && Encoded(Number(n)) + y == head + (n + y);
    BelowCommonPrefix(head, m + x, n + y);
    BelowSameLength(m, n, x, y);
    BelowTotal(m, n);
    if Below(m, n) {
      AmountOrder(m, n);
    } else {
      BelowAsymmetric(n, m);
      AmountOrder(n, m);
    }
  }

  lemma {:induction false} KeyOrder(xs: seq<Token>, ys: seq<Token>)
    requires PlainTokens(xs) && PlainTokens(ys) && Measured(xs, U32_MAX) && Measured(ys, U32_MAX)
    ensures Below(Key(xs), Key(ys)) == TokensBelow(xs, ys)
    ensures Key(xs) == Key(ys) <==> xs == ys
  {
    hide LengthField, TokenBelow, Plain;
    if xs == [] {
      KeyIsEmptyOnlyForNothing(ys);
    } else if ys == [] {
      KeyIsEmptyOnlyForNothing(xs);
    } else {
      hide Encoded;
      if xs[0] == ys[0] {
        BelowCommonPrefix(Encoded(xs[0]), Key(xs[1..]), Key(ys[1..]));
        KeyOrder(xs[1..], ys[1..]);
        assert xs == [xs[0]] + xs[1..] && ys == [ys[0]] + ys[1..];
        CommonPrefixCancels(Encoded(xs[0]), Key(xs[1..]), Key(ys[1..]));
      } else {
        EncodedOrder(xs[0], ys[0], Key(xs[1..]), Key(ys[1..]));
        EncodedOrder(ys[0], xs[0], Key(ys[1..]), Key(xs[1..]));
        BelowIrreflexive(Key(xs));
      }
    }
  }

  lemma CommonPrefixCancels(p: Bytes, a: Bytes, b: Bytes)
    ensures p + a == p + b <==> a == b
  {
    assert (p + a)[|p|..] == a && (p + b)[|p|..] == b;
  }

  lemma KeyIsEmptyOnlyForNothing(tokens: seq<Token>)
    ensures Key(tokens) == [] <==> tokens == []
  {
  }

  // ---------------------------------------------------------------------------------------
  // What the keys say about the strings
  // ---------------------------------------------------------------------------------------

  /** The string in lower case, without the zeros that lead a run of digits. */
  function Canonical(s: string, inRun: bool): string {
    if s == [] then []
    else if !inRun && s[0] == '0' && |s| > 1 && Digit(s[1]) then Canonical(s[1..], false)
    else [Lower(s[0])] + Canonical(s[1..], Digit(s[0]))
  }

  /** String order: where the strings first part, the one that has ended comes first; a character
  comes before a run of digits; characters go by their lower case, and runs by their amount. */
  predicate StringBelow(s: string, t: string)
    decreases |s| + |t|
  {
    if t == [] then false
    else if s == [] then true
    else if Digit(s[0]) && Digit(t[0]) then
      var m, n := RunLength(s), RunLength(t);
      if Amount(s[..m]) != Amount(t[..n]) then Amount(s[..m]) < Amount(t[..n])
      else StringBelow(s[m..], t[n..])
    else if Digit(s[0]) || Digit(t[0]) then Digit(t[0])
    else if Lower(s[0]) != Lower(t[0]) then Lower(s[0]) < Lower(t[0])
    else StringBelow(s[1..], t[1..])
  }

  /** No run of digits, from its first digit that is not zero, is longer than the bound. */
  ghost predicate ShortRuns(s: string, bound: nat) {
    forall i, j :: 0 <= i < j <= |s| && AllDigits(s[i..j]) && s[i] != '0' ==> j - i <= bound
  }

  /** The amount of a run does not depend on its leading zeros. */
  lemma {:induction false} ZerosCountNothing(digits: string)
    requires AllDigits(digits)
    ensures Amount(TrimZeros(digits)) == Amount(digits)
  {
    if digits != [] && digits[0] == '0' {
      DropZero(digits);
      ZerosCountNothing(digits[1..]);
    }
  }

  lemma {:induction false} DropZero(digits: string)
    requires digits != [] && AllDigits(digits) && digits[0] == '0'
    ensures Amount(digits[1..]) == Amount(digits)
  {
    var n := |digits| - 1;
    if n > 0 {
      DropZero(digits[..n]);
      assert digits[1..][..n - 1] == digits[..n][1..];
    } else {
      assert digits[..0] == [] && digits[1..] == [];
    }
  }

  lemma NormalizedAmount(digits: string)
    requires digits != [] && AllDigits(digits)
    ensures Plain(Normalized(digits)) && Amount(Normalized(digits)) == Amount(digits)
  {
    ZerosCountNothing(digits);
  }

  /** Plain numbers differ exactly when their amounts do. */
  lemma PlainAmounts(m: string, n: string)
    requires Plain(m) && Plain(n)
    ensures Amount(m) == Amount(n) <==> m == n
  {
    if |m| < |n| {
      LongerIsLarger(m, n);
    } else if |n| < |m| {
      LongerIsLarger(n, m);
    } else if m != n {
      SameLengthOrder(m, n, [], []);
    }
  }

  /** Token order is string order. */
  lemma {:induction false} TokenOrderIsStringOrder(s: string, t: string)
    ensures TokensBelow(Tokens(s), Tokens(t)) == StringBelow(s, t)
    decreases |s| + |t|
  {
    hide Amount, Normalized, RunLength;
    if s != [] && t != [] {
      if Digit(s[0]) && Digit(t[0]) {
        var m, n := RunLength(s), RunLength(t);
        var x, y := s[..m], t[..n];
        NormalizedAmount(x);
        NormalizedAmount(y);
        PlainAmounts(Normalized(x), Normalized(y));
        TokenOrderIsStringOrder(s[m..], t[n..]);
        HeadDecides(Number(Normalized(x)), Tokens(s[m..]), Number(Normalized(y)), Tokens(t[n..]));
      } else if !Digit(s[0]) && !Digit(t[0]) {
        TokenOrderIsStringOrder(s[1..], t[1..]);
        HeadDecides(Character(Lower(s[0])), Tokens(s[1..]), Character(Lower(t[0])), Tokens(t[1..]));
      } else if Digit(s[0]) {
        HeadDecides(Number(Normalized(s[..RunLength(s)])), Tokens(s[RunLength(s)..]), Character(Lower(t[0])), Tokens(t[1..]));
      } else {
        HeadDecides(Character(Lower(s[0])), Tokens(s[1..]), Number(Normalized(t[..RunLength(t)])), Tokens(t[RunLength(t)..]));
      }
    }
  }

  lemma HeadDecides(a: Token, x: seq<Token>, b: Token, y: seq<Token>)
    ensures TokensBelow([a] + x, [b] + y) == if a == b then TokensBelow(x, y) else TokenBelow(a, b)
  {
    assert ([a] + x)[1..] == x && ([b] + y)[1..] == y;
  }

  // ---- Canonical strings ----

  lemma LowerKeepsKind(c: char)
    ensures Digit(Lower(c)) <==> Digit(c)
    ensures Digit(c) ==> Lower(c) == c
    ensures Lower(Lower(c)) == Lower(c)
  {
  }

  /** Inside a run digits are kept, to the end of the run. */
  lemma {:induction false} CanonicalInRun(s: string)
    ensures Canonical(s, true) == s[..RunLength(s)] + Canonical(s[RunLength(s)..], false)
  {
    if s != [] {
      LowerKeepsKind(s[0]);
      if Digit(s[0]) {
        CanonicalInRun(s[1..]);
        assert s[..RunLength(s)] == [s[0]] + s[1..][..RunLength(s) - 1];
        assert s[1..][RunLength(s) - 1..] == s[RunLength(s)..];
      } else {
        assert s[..0] == [] && s[0..] == s;
      }
    }
  }

  lemma NormalizedDropsZero(digits: string)
    requires |digits| > 1 && digits[0] == '0'
    ensures Normalized(digits) == Normalized(digits[1..])
  {
  }

  /** The run that begins at the second character of a run is the rest of it. */
  lemma RunGoesOn(s: string)
    requires s != [] && Digit(s[0])
    ensures var m, n := RunLength(s), RunLength(s[1..]);
            m == 1 + n && s[1..][..n] == s[..m][1..] && s[1..][n..] == s[m..] && s[..m] == [s[0]] + s[..m][1..]
  {
  }

  lemma KeepsDigit(s: string)
    requires s != [] && Digit(s[0]) && (s[0] == '0' ==> |s| == 1 || !Digit(s[1]))
    ensures Canonical(s, false) == [s[0]] + Canonical(s[1..], true)
  {
  }

  lemma Regroup(a: string, b: string, c: string)
    ensures a + (b + c) == (a + b) + c
  {
  }

  /** A run that is a single digit, or does not begin with zero, is kept. */
  lemma CanonicalKeepsRun(s: string)
    requires s != [] && Digit(s[0]) && (s[0] == '0' ==> |s| == 1 || !Digit(s[1]))
    ensures Canonical(s, false) == s[..RunLength(s)] + Canonical(s[RunLength(s)..], false)
  {
    hide RunLength, Canonical;
    RunGoesOn(s);
    KeepsDigit(s);
    CanonicalInRun(s[1..]);
    Regroup([s[0]], s[..RunLength(s)][1..], Canonical(s[RunLength(s)..], false));
  }

  lemma {:induction false} CanonicalRun(s: string)
    requires s != [] && Digit(s[0])
    ensures Canonical(s, false) == Normalized(s[..RunLength(s)]) + Canonical(s[RunLength(s)..], false)
  {
    hide Normalized, RunLength;
    RunGoesOn(s);
    var m := RunLength(s);
    if s[0] == '0' && |s| > 1 && Digit(s[1]) {
      CanonicalRun(s[1..]);
      NormalizedDropsZero(s[..m]);
    } else {
      hide Canonical;
      CanonicalKeepsRun(s);
      PlainStays(s[..m]);
    }
  }

  /** What a string's tokens spell out. */
  function Spelled(tokens: seq<Token>): string {
    if tokens == [] then []
    else (if tokens[0].Character? then [tokens[0].c] else tokens[0].digits) + Spelled(tokens[1..])
  }

  lemma {:induction false} CanonicalIsSpelled(s: string)
    ensures Canonical(s, false) == Spelled(Tokens(s))
    decreases |s|
  {
    if s != [] {
      if Digit(s[0]) {
        CanonicalRun(s);
        CanonicalIsSpelled(s[RunLength(s)..]);
      } else {
        CanonicalIsSpelled(s[1..]);
      }
    }
  }

  lemma {:induction false} RunOf(digits: string, rest: string)
    requires AllDigits(digits) && (rest != [] ==> !Digit(rest[0]))
    ensures RunLength(digits + rest) == |digits|
  {
    if digits != [] {
      assert (digits + rest)[1..] == digits[1..] + rest;
      RunOf(digits[1..], rest);
    }
  }

  /** A canonical string has the tokens of the string it comes from. */
  lemma {:induction false} CanonicalHasSameTokens(s: string)
    ensures Tokens(Canonical(s, false)) == Tokens(s)
    ensures s != [] ==> Canonical(s, false) != [] && (Digit(Canonical(s, false)[0]) <==> Digit(s[0]))
    decreases |s|
  {
    hide Normalized, RunLength;
    if s != [] {
      if Digit(s[0]) {
        var m := RunLength(s);
        var digits, rest := Normalized(s[..m]), Canonical(s[m..], false);
        CanonicalRun(s);
        CanonicalHasSameTokens(s[m..]);
        NormalizedAmount(s[..m]);
        RunOf(digits, rest);
        PlainStays(digits);
        assert (digits + rest)[..|digits|] == digits && (digits + rest)[|digits|..] == rest;
        assert rest != [] ==> s[m..] != [];
      } else {
        LowerKeepsKind(s[0]);
        CanonicalHasSameTokens(s[1..]);
      }
    }
  }

  lemma PlainStays(digits: string)
    requires Plain(digits)
    ensures Normalized(digits) == digits
  {
    if digits[0] == '0' {
      assert digits == "0" && digits[1..] == [];
    }
  }

  /** Strings have the same tokens exactly when they agree after folding case and dropping the
  leading zeros of digit runs. */
  lemma SameTokensExactly(s: string, t: string)
    ensures Tokens(s) == Tokens(t) <==> Canonical(s, false) == Canonical(t, false)
  {
    CanonicalIsSpelled(s);
    CanonicalIsSpelled(t);
    CanonicalHasSameTokens(s);
    CanonicalHasSameTokens(t);
  }

  // ---- Short runs ----

  lemma {:induction false} ZerosThenRest(digits: string) returns (zeros: nat)
    ensures zeros <= |digits| && TrimZeros(digits) == digits[zeros..]
  {
    if digits != [] && digits[0] == '0' {
      var more := ZerosThenRest(digits[1..]);
      zeros := more + 1;
    } else {
      zeros := 0;
    }
  }

  lemma {:induction false} ShortRunsAreMeasured(s: string, bound: nat)
    requires ShortRuns(s, bound)
    ensures Measured(Tokens(s), Max(bound, 1))
    decreases |s|
  {
    if s != [] {
      var m := if Digit(s[0]) then RunLength(s) else 1;
      ShortRunsGoOn(s, bound, m);
      ShortRunsAreMeasured(s[m..], bound);
      if Digit(s[0]) {
        var zeros := ZerosThenRest(s[..m]);
        assert s[..m][zeros..] == s[zeros..m];
        assert |Normalized(s[..m])| <= Max(bound, 1);
      }
    }
  }

  lemma ShortRunsGoOn(s: string, bound: nat, m: nat)
    requires ShortRuns(s, bound) && m <= |s|
    ensures ShortRuns(s[m..], bound)
  {
    var rest := s[m..];
    forall i, j | 0 <= i < j <= |rest| && AllDigits(rest[i..j]) && rest[i] != '0' ensures j - i <= bound {
      assert rest[i..j] == s[m + i..m + j];
    }
  }

  // ---- The theorem ----

  /** Two strings collate right: their keys compare as the strings do, and are equal exactly when
  the strings agree but for case and leading zeros. */
  ghost predicate CollatesRight(s: string, t: string) {
    && Below(Key(Tokens(s)), Key(Tokens(t))) == StringBelow(s, t)
    && (Key(Tokens(s)) == Key(Tokens(t)) <==> Canonical(s, false) == Canonical(t, false))
  }

  lemma KeysPreserveOrder(s: string, t: string)
    requires Measured(Tokens(s), U32_MAX) && Measured(Tokens(t), U32_MAX)
    ensures CollatesRight(s, t)
  {
    hide Tokens, Key, TokensBelow, StringBelow, Canonical;
    TokensArePlain(s);
    TokensArePlain(t);
    KeyOrder(Tokens(s), Tokens(t));
    TokenOrderIsStringOrder(s, t);
    SameTokensExactly(s, t);
  }

  /** The same letter, in either case. */
  predicate SameLetter(c: char, d: char) {
    c == d || (Letter(c) && Letter(d) && (c as int - d as int == 32 || d as int - c as int == 32))
  }

  lemma {:induction false} CaseDoesNotShow(s: string, t: string, inRun: bool)
    requires |s| == |t| && forall i :: 0 <= i < |s| ==> SameLetter(s[i], t[i])
    ensures Canonical(s, inRun) == Canonical(t, inRun)
  {
    if s != [] {
      assert SameLetter(s[0], t[0]);
      assert |s| > 1 ==> SameLetter(s[1], t[1]);
      assert forall i :: 0 <= i < |s| - 1 ==> s[1..][i] == s[i + 1] && t[1..][i] == t[i + 1];
      CaseDoesNotShow(s[1..], t[1..], false);
      CaseDoesNotShow(s[1..], t[1..], true);
    }
  }

  /** Strings that differ only in the case of ASCII letters have the same key, however long. */
  lemma CaseDoesNotCount(s: string, t: string)
    requires |s| == |t| && forall i :: 0 <= i < |s| ==> SameLetter(s[i], t[i])
    ensures Key(Tokens(s)) == Key(Tokens(t))
  {
    CaseDoesNotShow(s, t, false);
    SameTokensExactly(s, t);
  }

  function Repeated(c: char, n: nat): (r: string)
    ensures |r| == n && forall i :: 0 <= i < n ==> r[i] == c
  {
    seq(n, _ => c)
  }

  lemma RunTokens(digits: string)
    requires digits != [] && AllDigits(digits) && digits[0] != '0'
    ensures Tokens(digits) == [Number(digits)]
  {
    assert RunLength(digits) == |digits|;
    assert digits[..|digits|] == digits && digits[|digits|..] == [];
  }

  /** Two runs at the limit of the length field: the shorter, all nines, sorts after the longer. */
  lemma SaturatedLengthMisorders()
    ensures var s, t := Repeated('9', U32_MAX), ['1'] + Repeated('0', U32_MAX);
            && ShortRuns(s, U32_MAX + 1) && ShortRuns(t, U32_MAX + 1) && Ascii(s) && Ascii(t)
            && !CollatesRight(s, t)
  {
    hide LengthField, Amount, Tokens, TokensBelow, StringBelow, Canonical;
    var s, t := Repeated('9', U32_MAX), ['1'] + Repeated('0', U32_MAX);
    RunTokens(s);
    RunTokens(t);
    LongerIsLarger(s, t);
    SingleTokens(Number(s), Number(t));
    TokenOrderIsStringOrder(s, t);
    SaturatedField();
    SingleKey(Number(s));
    SingleKey(Number(t));
    var head := [1 as char] + LengthField(U32_MAX);
    assert Key(Tokens(s)) == head + s && Key(Tokens(t)) == head + t;
    BelowCommonPrefix(head, s, t);
    assert !Below(s, t);
  }

  lemma SaturatedField()
    ensures LengthField(U32_MAX + 1) == LengthField(U32_MAX)
  {
  }

  lemma SingleKey(token: Token)
    ensures Key([token]) == Encoded(token)
  {
    assert [token][1..] == [];
  }

  lemma SingleTokens(a: Token, b: Token)
    requires a != b
    ensures TokensBelow([a], [b]) == TokenBelow(a, b)
  {
  }

  /**
    For every bound on digit runs: the keys of all ASCII strings within the bound preserve
    order, exactly when the bound fits the 32-bit length field.
  */
  lemma OrderHoldsUpToLengthField(bound: nat)
    ensures (forall s, t :: Ascii(s) && Ascii(t) && ShortRuns(s, bound) && ShortRuns(t, bound) ==> CollatesRight(s, t))
            <==> bound <= U32_MAX
  {
    hide CollatesRight, Tokens;
    if bound <= U32_MAX {
      forall s, t | Ascii(s) && Ascii(t) && ShortRuns(s, bound) && ShortRuns(t, bound)
        ensures CollatesRight(s, t)
      {
        ShortRunsAreMeasured(s, bound);
        ShortRunsAreMeasured(t, bound);
        KeysPreserveOrder(s, t);
      }
    } else {
      SaturatedLengthMisorders();
      var s, t := Repeated('9', U32_MAX), ['1'] + Repeated('0', U32_MAX);
      LongerBound(s, U32_MAX + 1, bound);
      LongerBound(t, U32_MAX + 1, bound);
    }
  }

  lemma LongerBound(s: string, bound: nat, longer: nat)
    requires ShortRuns(s, bound) && bound <= longer
    ensures ShortRuns(s, longer)
  {
  }
}
