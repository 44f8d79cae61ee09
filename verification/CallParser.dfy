/** Recognising `SELECT name(args)` as a call of a user-defined function with literal arguments. */
module CallParser {
  import opened Bytes
  import opened Text
  import opened Masking

  const I64_MIN: int := -0x8000_0000_0000_0000
  const I64_MAX: int := 0x7FFF_FFFF_FFFF_FFFF

  datatype Result<+T> = Ok(value: T) | Err

  datatype Call = Call(name: string, args: seq<Value>)

  /** How the platform reads a decimal fraction. */
  type Floats = string -> Option<real>

  function Shift(at: Option<nat>, offset: nat): Option<nat> {
    if at.Some? then Some(at.value + offset) else None
  }

  /** Where the parenthesis that brings the depth to zero stands, quoted strings left aside. */
  function Closes(s: string, depth: nat, inString: bool): (at: Option<nat>)
    ensures at.Some? ==> at.value < |s|
    decreases |s|
  {
    if s == [] then None
    else if s[0] == '\'' then Shift(Closes(s[1..], depth, !inString), 1)
    else if s[0] == '(' && !inString then Shift(Closes(s[1..], depth + 1, inString), 1)
    else if s[0] == ')' && !inString then
      if depth == 0 then None else if depth == 1 then Some(0) else Shift(Closes(s[1..], depth - 1, inString), 1)
    else Shift(Closes(s[1..], depth, inString), 1)
  }

  function ClosingParen(expr: string, open: nat): Option<nat>
    requires open <= |expr|
  {
    Shift(Closes(expr[open..], 0, false), open)
  }

  method FindClosingParen(expr: string, open: nat) returns (at: Option<nat>)
    requires open <= |expr|
    ensures at == ClosingParen(expr, open)
  {
    var depth, inString, i := 0, false, open;
    while i < |expr|
      invariant open <= i <= |expr|
      invariant ClosingParen(expr, open) == Shift(Closes(expr[i..], depth, inString), i)
    {
      var c := expr[i];
      assert expr[i..][1..] == expr[i + 1..];
      if c == '\'' {
        inString := !inString;
      } else if c == '(' && !inString {
        depth := depth + 1;
      } else if c == ')' && !inString {
        if depth == 0 {
          return None;
        }
        depth := depth - 1;
        if depth == 0 {
          return Some(i);
        }
      }
      i := i + 1;
    }
    return None;
  }

  /** Puts a value before those that follow. */
  function Before<T>(first: seq<T>, rest: Result<seq<T>>): Result<seq<T>> {
    if rest.Ok? then Ok(first + rest.value) else Err
  }

  lemma BeforeJoins<T>(a: seq<T>, b: seq<T>, rest: Result<seq<T>>)
    ensures Before(a, Before(b, rest)) == Before(a + b, rest)
    ensures Before([], rest) == rest
  {
    if rest.Ok? {
      assert a + (b + rest.value) == a + b + rest.value;
      assert [] + rest.value == rest.value;
    }
  }

  /** The arguments between commas outside strings, trimmed; a doubled quote stays in its string. */
  function Split(s: string, current: string, inString: bool): Result<seq<string>>
    decreases |s|
  {
    if s == [] then
      if inString then Err else if Trim(current) == [] then Ok([]) else Ok([Trim(current)])
    else if s[0] == '\'' then
      if inString && |s| > 1 && s[1] == '\'' then Split(s[2..], current + ['\'', '\''], true)
      else Split(s[1..], current + ['\''], !inString)
    else if s[0] == ',' && !inString then Before([Trim(current)], Split(s[1..], [], false))
    else Split(s[1..], current + [s[0]], inString)
  }

  method SplitArgs(args: string) returns (r: Result<seq<string>>)
    ensures r == Split(args, [], false)
  {
    hide Trim;
    var values: seq<string> := [];
    var current: string := [];
    var inString, i := false, 0;
    assert args[0..] == args;
    BeforeJoins([], [], Split(args, [], false));
    while i < |args|
      invariant 0 <= i <= |args|
      invariant Split(args, [], false) == Before(values, Split(args[i..], current, inString))
    {
      var c := args[i];
      assert args[i..][1..] == args[i + 1..];
      if c == '\'' {
        ghost var before := current;
        current := current + [c];
        if inString && i + 1 < |args| && args[i + 1] == '\'' {
          assert args[i..][2..] == args[i + 2..] && args[i..][1] == '\'';
          assert current + ['\''] == before + ['\'', '\''];
          current := current + ['\''];
          i := i + 1;
        } else {
          assert |args[i..]| > 1 ==> args[i..][1] == args[i + 1];
          inString := !inString;
        }
      } else if c == ',' && !inString {
        BeforeJoins(values, [Trim(current)], Split(args[i + 1..], [], false));
        values := values + [Trim(current)];
        current := [];
      } else {
        current := current + [c];
      }
      i := i + 1;
    }
    assert args[i..] == [];
    if inString {
      return Err;
    }
    assert values + [] == values;
    if Trim(current) != [] {
      values := values + [Trim(current)];
    }
    return Ok(values);
  }

  predicate SameFolded(a: string, b: string) {
    |a| == |b| && forall i :: 0 <= i < |a| ==> Lower(a[i]) == Lower(b[i])
  }

  /** Every doubled quote, from the left, replaced. */
  function ReplacePairs(s: string, replacement: string): string
    decreases |s|
  {
    if s == [] then []
    else if |s| > 1 && s[0] == '\'' && s[1] == '\'' then replacement + ReplacePairs(s[2..], replacement)
    else [s[0]] + ReplacePairs(s[1..], replacement)
  }

  /** A decimal integer with an optional sign, within 64 bits. */
  function ParseInt(s: string): Option<int> {
    var signed := s != [] && (s[0] == '-' || s[0] == '+');
    var digits := if signed then s[1..] else s;
    if digits == [] || !AllDigits(digits) then None
    else
      var n: int := if signed && s[0] == '-' then 0 - Amount(digits) else Amount(digits);
      if I64_MIN <= n <= I64_MAX then Some(n) else None
  }

  function ParseUnwrapped(value: string, floats: Floats): Result<Value> {
    if SameFolded(value, "null") then Ok(Null)
    else if SameFolded(value, "true") then Ok(Value.Bool(true))
    else if SameFolded(value, "false") then Ok(Value.Bool(false))
    else if |value| >= 2 && value[0] == '\'' && value[|value| - 1] == '\'' then
      var stripped := value[1..|value| - 1];
      if '\'' in ReplacePairs(stripped, []) then Err else Ok(Str(ReplacePairs(stripped, ['\''])))
    else if '.' in value then
      match floats(value) case Some(x) => Ok(Value.Float(x)) case None => Err
    else
      match ParseInt(value) case Some(n) => Ok(Value.Int(n)) case None => Err
  }

  function ParseLiteral(text: string, floats: Floats): Result<Value> {
    var value := Trim(text);
    if |value| >= 2 && value[0] == '(' && value[|value| - 1] == ')' && ClosingParen(value, 0) == Some(|value| - 1)
    then ParseUnwrapped(Trim(value[1..|value| - 1]), floats)
    else ParseUnwrapped(value, floats)
  }

  function ParseAll(texts: seq<string>, floats: Floats): Result<seq<Value>> {
    if texts == [] then Ok([])
    else
      match ParseLiteral(texts[0], floats)
      case Err => Err
      case Ok(first) => Before([first], ParseAll(texts[1..], floats))
  }

  predicate At(s: string, part: string, i: nat) {
    i + |part| <= |s| && s[i..i + |part|] == part
  }

  predicate Contains(s: string, part: string) {
    exists i: nat :: i <= |s| && At(s, part, i)
  }

  function Folded(s: string): (r: string)
    ensures |r| == |s|
  {
    seq(|s|, i requires 0 <= i < |s| => Lower(s[i]))
  }

  function TrimEndMatches(s: string, c: char): string {
    if s != [] && s[|s| - 1] == c then TrimEndMatches(s[..|s| - 1], c) else s
  }

  function TrimStartMatches(s: string, c: char): string {
    if s != [] && s[0] == c then TrimStartMatches(s[1..], c) else s
  }

  function Index(s: string, c: char): (at: Option<nat>)
    ensures at.Some? ==> at.value < |s| && s[at.value] == c
  {
    if s == [] then None else if s[0] == c then Some(0) else Shift(Index(s[1..], c), 1)
  }

  const SELECT: string := "select "
  const FROM: string := " from "

  /** The whole parser: no call, a call with its values, or a syntax error. */
  function ParseCall(sql: string, floats: Floats): Result<Option<Call>> {
    var trimmed := Trim(TrimEndMatches(Trim(sql), ';'));
    var lower := Folded(trimmed);
    if !(SELECT <= lower) || Contains(lower, FROM) then Ok(None) else
    var expr := Trim(trimmed[|SELECT|..]);
    match Index(expr, '(')
    case None => Ok(None)
    case Some(open) =>
      if ClosingParen(expr, open) != Some(|expr| - 1) then Ok(None) else
      var name := TrimEndMatches(TrimStartMatches(Trim(expr[..open]), '"'), '"');
      if !Identifier(name) then Ok(None)
      else
        CloseFollowsOpen(expr, open);
        var args := Trim(expr[open + 1..|expr| - 1]);
        if args == [] then Ok(Some(Call(name, []))) else
        match Split(args, [], false)
        case Err => Err
        case Ok(texts) => match ParseAll(texts, floats) case Err => Err case Ok(values) => Ok(Some(Call(name, values)))
  }

  method ParseSelectUdfCall(sql: string, floats: Floats) returns (r: Result<Option<Call>>)
    ensures r == ParseCall(sql, floats)
  {
    hide Trim, ParseLiteral, Split, Contains, Closes, TrimEndMatches, TrimStartMatches, Identifier;
    var trimmed := Trim(TrimEndMatches(Trim(sql), ';'));
    var lower := Folded(trimmed);
    if !(SELECT <= lower) || Contains(lower, FROM) {
      return Ok(None);
    }
    var expr := Trim(trimmed[|SELECT|..]);
    var found := Index(expr, '(');
    if found.None? {
      return Ok(None);
    }
    var open := found.value;
    var close := FindClosingParen(expr, open);
    if close != Some(|expr| - 1) {
      return Ok(None);
    }
    var name := TrimEndMatches(TrimStartMatches(Trim(expr[..open]), '"'), '"');
    if !Identifier(name) {
      return Ok(None);
    }
    CloseFollowsOpen(expr, open);
    var args := Trim(expr[open + 1..|expr| - 1]);
    if args == [] {
      return Ok(Some(Call(name, [])));
    }
    var texts := SplitArgs(args);
    if texts.Err? {
      return Err;
    }
    var values: seq<Value> := [];
    var i := 0;
    assert texts.value[0..] == texts.value;
    BeforeJoins([], [], ParseAll(texts.value, floats));
    while i < |texts.value|
      invariant 0 <= i <= |texts.value|
      invariant ParseAll(texts.value, floats) == Before(values, ParseAll(texts.value[i..], floats))
    {
      assert texts.value[i..][1..] == texts.value[i + 1..];
      var value := ParseLiteral(texts.value[i], floats);
      if value.Err? {
        return Err;
      }
      BeforeJoins(values, [value.value], ParseAll(texts.value[i + 1..], floats));
      values := values + [value.value];
      i := i + 1;
    }
    assert values + [] == values;
    return Ok(Some(Call(name, values)));
  }

  /** The parenthesis at the end is not the one that opens. */
  lemma CloseFollowsOpen(expr: string, open: nat)
    requires open < |expr| && expr[open] == '(' && ClosingParen(expr, open) == Some(|expr| - 1)
    ensures open + 1 <= |expr| - 1
  {
    assert expr[open..][0] == '(';
    assert Closes(expr[open..], 0, false) == Shift(Closes(expr[open..][1..], 1, false), 1);
  }
}
