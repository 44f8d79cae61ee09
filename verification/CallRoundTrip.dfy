/** What the call parser makes of a literal, for every text, and of a call, however it is written. */
module CallRoundTrip {
  import opened Bytes
  import opened Text
  import opened Masking
  import opened CallParser

  // ---------------------------------------------------------------------------------------
  // Literals
  // ---------------------------------------------------------------------------------------

  function Doubled(s: string): string {
    if s == [] then [] else (if s[0] == '\'' then ['\'', '\''] else [s[0]]) + Doubled(s[1..])
  }

  function Quoted(s: string): string { ['\''] + Doubled(s) + ['\''] }

  /** A lower-case word, written in any case. */
  predicate InAnyCase(text: string, word: string) {
    |text| == |word| && forall i :: 0 <= i < |text| ==> text[i] == word[i] || text[i] as int + 32 == word[i] as int
  }

  /** Digits, after a sign or not, that denote a number of 64 bits. */
  predicate SpellsInt(text: string, n: int) {
    && -0x8000_0000_0000_0000 <= n <= 0x7FFF_FFFF_FFFF_FFFF
    && text != [] && var digits := if text[0] in {'+', '-'} then text[1..] else text;
    && digits != [] && AllDigits(digits)
    && n == if text[0] == '-' then -(Amount(digits) as int) else Amount(digits)
  }

  /** The text is a literal of the value: a word in any case, an integer, a fraction that the
  platform reads, or a string in quotes with the quotes inside it doubled. */
  predicate Spells(text: string, value: Value, floats: Floats) {
    match value
    case Null => InAnyCase(text, "null")
    case Bool(b) => InAnyCase(text, if b then "true" else "false")
    case Int(n) => SpellsInt(text, n)
    case Float(x) => '.' in text && floats(text) == Some(x) && !('\'' == text[0] == text[|text| - 1])
    case Str(s) => text == Quoted(s)
    case _ => false
  }

  lemma FoldsToWord(text: string, word: string)
    requires forall i :: 0 <= i < |word| ==> 'a' <= word[i] <= 'z'
    ensures SameFolded(text, word) <==> InAnyCase(text, word)
  {
    forall i | 0 <= i < |text| && i < |word|
      ensures Lower(text[i]) == Lower(word[i]) <==> text[i] == word[i] || text[i] as int + 32 == word[i] as int
    {
    }
  }

  lemma {:induction false} PairsUndouble(s: string)
    ensures ReplacePairs(Doubled(s), ['\'']) == s
    ensures '\'' !in ReplacePairs(Doubled(s), [])
  {
    if s != [] {
      PairsUndouble(s[1..]);
      var t := Doubled(s[1..]);
      if s[0] == '\'' {
        assert Doubled(s) == ['\'', '\''] + t && Doubled(s)[2..] == t;
        assert [] + ReplacePairs(t, []) == ReplacePairs(t, []);
      } else {
        assert Doubled(s) == [s[0]] + t && Doubled(s)[1..] == t;
      }
      assert s == [s[0]] + s[1..];
    }
  }

  /** A string in which quotes come in pairs is another one with its quotes doubled. */
  lemma {:induction false} PairsAreDoubled(s: string)
    requires '\'' !in ReplacePairs(s, [])
    ensures Doubled(ReplacePairs(s, ['\''])) == s
    decreases |s|
  {
    if s != [] {
      if |s| > 1 && s[0] == '\'' && s[1] == '\'' {
        assert [] + ReplacePairs(s[2..], []) == ReplacePairs(s[2..], []);
        PairsAreDoubled(s[2..]);
        var t := ReplacePairs(s[2..], ['\'']);
        assert (['\''] + t)[1..] == t;
        assert s == ['\'', '\''] + s[2..];
      } else {
        var t, u := ReplacePairs(s[1..], ['\'']), ReplacePairs(s[1..], []);
        assert ([s[0]] + u)[0] == s[0] && forall c :: c in u ==> c in [s[0]] + u;
        PairsAreDoubled(s[1..]);
        assert ([s[0]] + t)[1..] == t;
        assert s == [s[0]] + s[1..];
      }
    }
  }

  /** The text between quotes is a string exactly when its quotes come in pairs. */
  lemma QuotedExactly(text: string, s: string)
    ensures text == Quoted(s) <==>
            && |text| >= 2 && '\'' == text[0] == text[|text| - 1]
            && var inner := text[1..|text| - 1];
            '\'' !in ReplacePairs(inner, []) && s == ReplacePairs(inner, ['\''])
  {
    if text == Quoted(s) {
      PairsUndouble(s);
      assert text[1..|text| - 1] == Doubled(s);
    }
    if |text| >= 2 && '\'' == text[0] == text[|text| - 1] {
      var inner := text[1..|text| - 1];
      assert text == ['\''] + inner + ['\''];
      if '\'' !in ReplacePairs(inner, []) {
        PairsAreDoubled(inner);
      }
    }
  }

  lemma IntExactly(text: string, n: int)
    ensures ParseInt(text) == Some(n) <==> SpellsInt(text, n)
  {
    hide Amount;
  }

  lemma WordsExactly(text: string)
    ensures SameFolded(text, "null") <==> InAnyCase(text, "null")
    ensures SameFolded(text, "true") <==> InAnyCase(text, "true")
    ensures SameFolded(text, "false") <==> InAnyCase(text, "false")
  {
    hide InAnyCase, SameFolded;
    FoldsToWord(text, "null");
    FoldsToWord(text, "true");
    FoldsToWord(text, "false");
  }

  /** A text is at most one kind of literal. */
  lemma KindsDiffer(text: string)
    ensures InAnyCase(text, "null") || InAnyCase(text, "true") || InAnyCase(text, "false") ==>
              text != [] && text[0] != '\'' && '.' !in text && forall n :: !SpellsInt(text, n)
    ensures !(InAnyCase(text, "null") && InAnyCase(text, "true"))
    ensures InAnyCase(text, "false") ==> !InAnyCase(text, "null") && !InAnyCase(text, "true")
    ensures forall n :: SpellsInt(text, n) ==> '.' !in text && text[0] != '\''
  {
    hide Amount;
    forall n | SpellsInt(text, n) ensures '.' !in text && text[0] != '\'' {
      var digits := if text[0] in {'+', '-'} then text[1..] else text;
      assert forall i :: 1 <= i < |text| ==> Digit(text[i]);
    }
  }

  /** The literal parser, for every text and every value: it reads the value exactly when the text
  is a literal of it, so it refuses exactly the texts that are a literal of none. */
  lemma LiteralExactly(text: string, value: Value, floats: Floats)
    ensures ParseUnwrapped(text, floats) == Ok(value) <==> Spells(text, value, floats)
  {
    hide SameFolded, InAnyCase, SpellsInt, ParseInt, ReplacePairs, Quoted;
    WordsExactly(text);
    KindsDiffer(text);
    if value.Str? {
      QuotedExactly(text, value.text);
    }
    if value.Int? {
      IntExactly(text, value.number);
    }
  }

  // ---------------------------------------------------------------------------------------
  // Calls
  // ---------------------------------------------------------------------------------------

  /** An argument: its text, bare or in parentheses, and the space around the comma after it. */
  datatype Arg = Arg(text: string, wrapped: bool, left: string, right: string)

  /** A string in quotes, or text without quotes, commas and parentheses, and no space at its ends. */
  ghost predicate Clean(text: string) {
    || (exists s :: text == Quoted(s))
    || (Tight(text) && Solid(text) && Unmarked(text))
  }

  ghost predicate CleanArgs(args: seq<Arg>) {
    forall i :: 0 <= i < |args| ==> Clean(args[i].text) && Blank(args[i].left) && Blank(args[i].right)
  }

  /** The plain text of a null, a boolean, an integer of 64 bits or a string. */
  function Bare(value: Value): string
    requires value.Null? || value.Bool? || value.Str? || (value.Int? && I64_MIN <= value.number <= I64_MAX)
  {
    match value
    case Null => "null"
    case Bool(b) => if b then "true" else "false"
    case Int(n) => if n < 0 then ['-'] + Decimal(-n) else Decimal(n)
    case Str(s) => Quoted(s)
  }

  /** Each of these values can be written as an argument. */
  lemma EveryValueHasAText(value: Value, floats: Floats)
    requires value.Null? || value.Bool? || value.Str? || (value.Int? && I64_MIN <= value.number <= I64_MAX)
    ensures Clean(Bare(value)) && Spells(Bare(value), value, floats)
  {
    hide Decimal, Amount;
    if value.Int? {
      var n := value.number;
      DecimalAmount(if n < 0 then -n else n);
      if n < 0 {
        assert Bare(value)[1..] == Decimal(-n);
      }
    }
  }

  function Written(arg: Arg): string {
    if arg.wrapped then ['('] + arg.text + [')'] else arg.text
  }

  function Join(args: seq<Arg>): string {
    if args == [] then []
    else if |args| == 1 then Written(args[0])
    else Written(args[0]) + args[0].left + [','] + args[0].right + Join(args[1..])
  }

  function Semicolons(n: nat): (r: string)
    ensures |r| == n && forall i :: 0 <= i < n ==> r[i] == ';'
  {
    seq(n, _ => ';')
  }

  /** How a call is written: the case of SELECT, quotes around the name or not, semicolons at the
  end, and space wherever it may stand. */
  datatype Form = Form(
    keyword: string, quoted: bool, semicolons: nat,
    lead: string, afterKeyword: string, afterName: string, opening: string, closing: string, trail: string, end: string)
  {
    ghost predicate Valid() {
      && InAnyCase(keyword, "select")
      && Blank(lead) && Blank(afterKeyword) && Blank(afterName) && Blank(opening) && Blank(closing)
      && Blank(trail) && Blank(end)
    }

    function Name(name: string): string { (if quoted then ['"'] + name + ['"'] else name) + afterName }

    function Args(args: seq<Arg>): string { opening + Join(args) + closing }

    function Projection(name: string, args: seq<Arg>): string { Name(name) + ['('] + Args(args) + [')'] }

    function Core(name: string, args: seq<Arg>): string {
      keyword + [' '] + afterKeyword + Projection(name, args)
    }

    function Text(name: string, args: seq<Arg>): string {
      lead + Core(name, args) + trail + Semicolons(semicolons) + end
    }
  }

  // ---------------------------------------------------------------------------------------
  // Parentheses
  // ---------------------------------------------------------------------------------------

  /** Text that neither opens, closes nor quotes. */
  predicate Unmarked(s: string) {
    forall i :: 0 <= i < |s| ==> s[i] != '\'' && s[i] != '(' && s[i] != ')'
  }

  lemma {:induction false} UnmarkedIsNeutral(s: string, rest: string, depth: nat)
    requires Unmarked(s)
    ensures Closes(s + rest, depth, false) == Shift(Closes(rest, depth, false), |s|)
  {
    if s == [] {
      assert s + rest == rest;
    } else {
      assert (s + rest)[1..] == s[1..] + rest;
      UnmarkedIsNeutral(s[1..], rest, depth);
    }
  }

  lemma QuoteFlips(t: string, depth: nat, inString: bool)
    ensures Closes(['\''] + t, depth, inString) == Shift(Closes(t, depth, !inString), 1)
  {
    assert (['\''] + t)[1..] == t;
  }

  lemma QuotedCharIsNeutral(c: char, t: string, depth: nat)
    requires c != '\''
    ensures Closes([c] + t, depth, true) == Shift(Closes(t, depth, true), 1)
  {
    assert ([c] + t)[1..] == t;
  }

  lemma {:induction false} DoubledIsNeutral(s: string, rest: string, depth: nat)
    ensures Closes(Doubled(s) + rest, depth, true) == Shift(Closes(rest, depth, true), |Doubled(s)|)
  {
    hide Closes;
    if s == [] {
      assert Doubled(s) + rest == rest;
    } else {
      var t := Doubled(s[1..]) + rest;
      DoubledIsNeutral(s[1..], rest, depth);
      if s[0] == '\'' {
        assert Doubled(s) + rest == ['\''] + (['\''] + t);
        QuoteFlips(['\''] + t, depth, true);
        QuoteFlips(t, depth, false);
      } else {
        assert Doubled(s) + rest == [s[0]] + t;
        QuotedCharIsNeutral(s[0], t, depth);
      }
    }
  }

  lemma QuotedIsNeutral(s: string, rest: string, depth: nat)
    ensures Closes(Quoted(s) + rest, depth, false) == Shift(Closes(rest, depth, false), |Quoted(s)|)
  {
    hide Closes;
    var inner := Doubled(s) + (['\''] + rest);
    assert Quoted(s) + rest == ['\''] + inner;
    QuoteFlips(inner, depth, false);
    DoubledIsNeutral(s, ['\''] + rest, depth);
    QuoteFlips(rest, depth, true);
  }

  lemma ParenOpens(t: string, depth: nat)
    ensures Closes(['('] + t, depth, false) == Shift(Closes(t, depth + 1, false), 1)
  {
    assert (['('] + t)[1..] == t;
  }

  lemma ParenCloses(t: string, depth: nat)
    requires depth > 0
    ensures Closes([')'] + t, depth, false) == if depth == 1 then Some(0) else Shift(Closes(t, depth - 1, false), 1)
  {
    assert ([')'] + t)[1..] == t;
  }

  lemma CleanIsNeutral(text: string, rest: string, depth: nat)
    requires Clean(text)
    ensures Closes(text + rest, depth, false) == Shift(Closes(rest, depth, false), |text|)
  {
    hide Closes, Quoted;
    if s :| text == Quoted(s) {
      QuotedIsNeutral(s, rest, depth);
    } else {
      UnmarkedIsNeutral(text, rest, depth);
    }
  }

  lemma WrappedIsNeutral(text: string, rest: string, depth: nat)
    requires Clean(text)
    ensures var wrapped := ['('] + text + [')'];
            Closes(wrapped + rest, depth, false) ==
            if depth == 0 then Some(|wrapped| - 1) else Shift(Closes(rest, depth, false), |wrapped|)
  {
    hide Closes, Clean;
    var wrapped := ['('] + text + [')'];
    var inner := text + ([')'] + rest);
    assert wrapped + rest == ['('] + inner;
    ParenOpens(inner, depth);
    CleanIsNeutral(text, [')'] + rest, depth + 1);
    ParenCloses(rest, depth + 1);
  }

  lemma WrittenIsNeutral(arg: Arg, rest: string, depth: nat)
    requires Clean(arg.text) && depth > 0
    ensures Closes(Written(arg) + rest, depth, false) == Shift(Closes(rest, depth, false), |Written(arg)|)
  {
    hide Closes, Clean;
    if arg.wrapped {
      WrappedIsNeutral(arg.text, rest, depth);
    } else {
      CleanIsNeutral(arg.text, rest, depth);
    }
  }

  lemma BlankIsUnmarked(s: string)
    requires Blank(s)
    ensures Unmarked(s) && Solid(s)
  {
  }

  lemma {:induction false} JoinIsNeutral(args: seq<Arg>, rest: string, depth: nat)
    requires CleanArgs(args) && depth > 0
    ensures Closes(Join(args) + rest, depth, false) == Shift(Closes(rest, depth, false), |Join(args)|)
  {
    hide Closes, Written, Clean, Unmarked, Blank;
    if args == [] {
      assert Join(args) + rest == rest;
    } else if |args| == 1 {
      WrittenIsNeutral(args[0], rest, depth);
    } else {
      var gap, tail := args[0].left + [','] + args[0].right, Join(args[1..]) + rest;
      assert Join(args) + rest == Written(args[0]) + (gap + tail);
      WrittenIsNeutral(args[0], gap + tail, depth);
      GapIsUnmarked(args[0]);
      UnmarkedIsNeutral(gap, tail, depth);
      JoinIsNeutral(args[1..], rest, depth);
    }
  }

  lemma GapIsUnmarked(arg: Arg)
    requires Blank(arg.left) && Blank(arg.right)
    ensures Unmarked(arg.left + [','] + arg.right)
  {
    BlankIsUnmarked(arg.left);
    BlankIsUnmarked(arg.right);
  }

  // ---------------------------------------------------------------------------------------
  // Commas
  // ---------------------------------------------------------------------------------------

  /** Text that neither quotes nor separates. */
  predicate Solid(s: string) {
    forall i :: 0 <= i < |s| ==> s[i] != '\'' && s[i] != ','
  }

  lemma {:induction false} SolidIsTaken(s: string, rest: string, current: string)
    requires Solid(s)
    ensures Split(s + rest, current, false) == Split(rest, current + s, false)
  {
    if s == [] {
      assert s + rest == rest && current + s == current;
    } else {
      assert (s + rest)[1..] == s[1..] + rest;
      assert current + [s[0]] + s[1..] == current + s;
      SolidIsTaken(s[1..], rest, current + [s[0]]);
    }
  }

  lemma QuoteEnds(rest: string, current: string)
    requires rest != [] ==> rest[0] != '\''
    ensures Split(['\''] + rest, current, true) == Split(rest, current + ['\''], false)
  {
    hide Trim;
    assert (['\''] + rest)[1..] == rest;
  }

  lemma PairStays(t: string, current: string)
    ensures Split(['\'', '\''] + t, current, true) == Split(t, current + ['\'', '\''], true)
  {
    hide Trim;
    assert (['\'', '\''] + t)[2..] == t;
  }

  lemma CharStays(c: char, t: string, current: string)
    requires c != '\''
    ensures Split([c] + t, current, true) == Split(t, current + [c], true)
  {
    hide Trim;
    assert ([c] + t)[1..] == t;
  }

  /** Inside a string everything up to the closing quote is taken, doubled quotes and commas included. */
  lemma {:induction false} DoubledIsTaken(s: string, rest: string, current: string)
    requires rest != [] ==> rest[0] != '\''
    ensures Split(Doubled(s) + ['\''] + rest, current, true) == Split(rest, current + Doubled(s) + ['\''], false)
  {
    hide Split;
    if s == [] {
      assert Doubled(s) + ['\''] + rest == ['\''] + rest;
      assert current + Doubled(s) + ['\''] == current + ['\''];
      QuoteEnds(rest, current);
    } else {
      var head := if s[0] == '\'' then ['\'', '\''] else [s[0]];
      var tail := Doubled(s[1..]);
      Regroup(current, head, tail, ['\''], rest);
      DoubledIsTaken(s[1..], rest, current + head);
      if s[0] == '\'' {
        PairStays(tail + ['\''] + rest, current);
      } else {
        CharStays(s[0], tail + ['\''] + rest, current);
      }
    }
  }

  lemma Regroup(current: string, head: string, tail: string, quote: string, rest: string)
    ensures (head + tail) + quote + rest == head + (tail + quote + rest)
    ensures current + (head + tail) + quote == (current + head) + tail + quote
  {
  }

  lemma QuoteOpens(inner: string, current: string)
    ensures Split(['\''] + inner, current, false) == Split(inner, current + ['\''], true)
  {
    hide Trim;
    assert (['\''] + inner)[1..] == inner;
  }

  lemma CleanIsTaken(text: string, rest: string, current: string)
    requires Clean(text) && (rest != [] ==> rest[0] != '\'')
    ensures Split(text + rest, current, false) == Split(rest, current + text, false)
  {
    hide Split, Doubled;
    if s :| text == Quoted(s) {
      var inner := Doubled(s) + ['\''] + rest;
      assert text + rest == ['\''] + inner;
      QuoteOpens(inner, current);
      DoubledIsTaken(s, rest, current + ['\'']);
      assert current + ['\''] + Doubled(s) + ['\''] == current + text;
    } else {
      SolidIsTaken(text, rest, current);
    }
  }

  lemma WrittenIsTaken(arg: Arg, rest: string, current: string)
    requires Clean(arg.text) && (rest != [] ==> rest[0] != '\'')
    ensures Split(Written(arg) + rest, current, false) == Split(rest, current + Written(arg), false)
  {
    hide Split, Clean;
    if arg.wrapped {
      var inner := arg.text + ([')'] + rest);
      assert Written(arg) + rest == ['('] + inner;
      SolidIsTaken(['('], inner, current);
      CleanIsTaken(arg.text, [')'] + rest, current + ['(']);
      SolidIsTaken([')'], rest, current + ['('] + arg.text);
      assert current + ['('] + arg.text + [')'] == current + Written(arg);
    } else {
      CleanIsTaken(arg.text, rest, current);
    }
  }

  lemma CleanIsTight(text: string)
    requires Clean(text)
    ensures Tight(text) && text[0] != '('
  {
    hide Doubled;
  }

  lemma WrittenIsTight(arg: Arg)
    requires Clean(arg.text)
    ensures Tight(Written(arg))
  {
    CleanIsTight(arg.text);
  }

  function Texts(args: seq<Arg>): seq<string> {
    if args == [] then [] else [Written(args[0])] + Texts(args[1..])
  }

  lemma SplitEnds(current: string)
    requires Trim(current) != []
    ensures Split([], current, false) == Ok([Trim(current)])
  {
  }

  lemma CommaSeparates(rest: string, current: string)
    ensures Split([','] + rest, current, false) == Before([Trim(current)], Split(rest, [], false))
  {
    hide Trim;
    assert ([','] + rest)[1..] == rest;
  }

  /** Space between two arguments goes to the one before the comma and to the one after it. */
  lemma GapSplits(left: string, right: string, rest: string, current: string)
    requires Blank(left) && Blank(right)
    ensures Split(left + [','] + right + rest, current, false)
         == Before([Trim(current + left)], Split(rest, right, false))
  {
    hide Split, Trim, Blank;
    BlankIsUnmarked(left);
    BlankIsUnmarked(right);
    assert left + [','] + right + rest == left + ([','] + (right + rest));
    SolidIsTaken(left, [','] + (right + rest), current);
    CommaSeparates(right + rest, current + left);
    SolidIsTaken(right, rest, []);
    assert [] + right == right;
  }

  lemma GapStarts(left: string, right: string, rest: string)
    requires Blank(left)
    ensures (left + [','] + right + rest)[0] != '\''
  {
  }

  lemma {:induction false} JoinSplits(args: seq<Arg>, padding: string)
    requires args != [] && CleanArgs(args) && Blank(padding)
    ensures Split(Join(args), padding, false) == Ok(Texts(args))
  {
    hide Written, Trim, Split, Clean, Blank;
    var first := Written(args[0]);
    WrittenIsTight(args[0]);
    if |args| == 1 {
      assert first + [] == first && padding + first + [] == padding + first;
      WrittenIsTaken(args[0], [], padding);
      assert args[1..] == [] && Texts(args) == [first];
      NothingIsBlank();
      TrimBoth(padding, first, []);
      SplitEnds(padding + first);
    } else {
      var left, right, tail := args[0].left, args[0].right, Join(args[1..]);
      assert Join(args) == first + (left + [','] + right + tail);
      GapStarts(left, right, tail);
      WrittenIsTaken(args[0], left + [','] + right + tail, padding);
      GapSplits(left, right, tail, padding + first);
      TrimBoth(padding, first, left);
      JoinSplits(args[1..], right);
    }
  }

  lemma NothingIsBlank()
    ensures Blank([])
  {
  }

  // ---------------------------------------------------------------------------------------
  // Arguments
  // ---------------------------------------------------------------------------------------

  /** An argument is read as its text is, in parentheses or not. */
  lemma WrittenParses(arg: Arg, floats: Floats)
    requires Clean(arg.text)
    ensures ParseLiteral(Written(arg), floats) == ParseUnwrapped(arg.text, floats)
  {
    hide ParseUnwrapped, Closes, Trim, Clean;
    var text := Written(arg);
    WrittenIsTight(arg);
    TightStays(text);
    CleanIsTight(arg.text);
    TightStays(arg.text);
    if arg.wrapped {
      assert text + [] == text && text[0..] == text;
      WrappedIsNeutral(arg.text, [], 0);
      assert text[1..|text| - 1] == arg.text;
    }
  }

  /** The texts are literals of the values, one by one. */
  predicate AllSpell(args: seq<Arg>, values: seq<Value>, floats: Floats) {
    |args| == |values| && forall i :: 0 <= i < |args| ==> Spells(args[i].text, values[i], floats)
  }

  ghost predicate NoLiteral(text: string, floats: Floats) {
    forall value :: !Spells(text, value, floats)
  }

  /** Some text is a literal of no value. */
  ghost predicate SomeIsNoLiteral(args: seq<Arg>, floats: Floats) {
    exists i :: 0 <= i < |args| && NoLiteral(args[i].text, floats)
  }

  lemma {:induction false} TextsParse(args: seq<Arg>, values: seq<Value>, floats: Floats)
    requires CleanArgs(args) && AllSpell(args, values, floats)
    ensures ParseAll(Texts(args), floats) == Ok(values)
  {
    hide ParseLiteral, Written, ParseUnwrapped, Spells, Clean;
    if args != [] {
      WrittenParses(args[0], floats);
      LiteralExactly(args[0].text, values[0], floats);
      TextsParse(args[1..], values[1..], floats);
      assert Texts(args)[1..] == Texts(args[1..]);
      assert values == [values[0]] + values[1..];
    }
  }

  lemma {:induction false} TextsFail(args: seq<Arg>, i: nat, floats: Floats)
    requires CleanArgs(args) && i < |args| && NoLiteral(args[i].text, floats)
    ensures ParseAll(Texts(args), floats) == Err
  {
    hide ParseLiteral, Written, ParseUnwrapped, Spells, Clean;
    assert Texts(args)[1..] == Texts(args[1..]);
    if i == 0 {
      WrittenParses(args[0], floats);
      var r := ParseUnwrapped(args[0].text, floats);
      if r.Ok? {
        LiteralExactly(args[0].text, r.value, floats);
      }
    } else {
      TextsFail(args[1..], i - 1, floats);
    }
  }

  // ---------------------------------------------------------------------------------------
  // The call
  // ---------------------------------------------------------------------------------------

  lemma {:induction false} IndexAfter(s: string, rest: string)
    requires forall i :: 0 <= i < |s| ==> s[i] != '('
    ensures Index(s + ['('] + rest, '(') == Some(|s|)
  {
    var text := s + ['('] + rest;
    if s == [] {
      assert text[0] == '(';
    } else {
      assert text[1..] == s[1..] + ['('] + rest;
      IndexAfter(s[1..], rest);
    }
  }

  lemma {:induction false} JoinIsTight(args: seq<Arg>)
    requires args != [] && CleanArgs(args)
    ensures Tight(Join(args))
  {
    hide Written, Clean;
    WrittenIsTight(args[0]);
    if |args| > 1 {
      JoinIsTight(args[1..]);
    }
  }

  lemma {:induction false} SemicolonsGo(s: string, n: nat)
    requires s == [] || s[|s| - 1] != ';'
    ensures TrimEndMatches(s + Semicolons(n), ';') == s
  {
    var text := s + Semicolons(n);
    if n == 0 {
      assert text == s;
    } else {
      assert text[|text| - 1] == ';' && text[..|text| - 1] == s + Semicolons(n - 1);
      SemicolonsGo(s, n - 1);
    }
  }

  /** Around the call only space and, at the end, semicolons are dropped. */
  lemma CoreIsLeft(core: string, lead: string, trail: string, n: nat, end: string)
    requires Tight(core) && core[|core| - 1] != ';' && Blank(lead) && Blank(trail) && Blank(end)
    ensures Trim(TrimEndMatches(Trim(lead + core + trail + Semicolons(n) + end), ';')) == core
  {
    hide Trim, TrimEndMatches;
    var text := core + trail + Semicolons(n);
    NothingIsBlank();
    if n == 0 {
      assert lead + core + trail + Semicolons(n) + end == lead + core + (trail + end);
      TrimBoth(lead, core, trail + end);
      SemicolonsGo(core, 0);
      assert core + Semicolons(0) == core;
      TightStays(core);
    } else {
      assert text[|text| - 1] == ';' && text[0] == core[0];
      assert lead + core + trail + Semicolons(n) + end == lead + text + end;
      TrimBoth(lead, text, end);
      SpacesEnd(core, trail);
      SemicolonsGo(core + trail, n);
      assert core + trail == [] + core + trail;
      TrimBoth([], core, trail);
    }
  }

  lemma SpacesEnd(core: string, trail: string)
    requires core != [] && core[|core| - 1] != ';' && Blank(trail)
    ensures (core + trail)[|core + trail| - 1] != ';'
  {
    if trail != [] {
      assert Space(trail[|trail| - 1]);
    }
  }

  lemma HeadIsSelect(form: Form, name: string, args: seq<Arg>)
    requires form.Valid()
    ensures |form.keyword| == 6 && SELECT <= Folded(form.Core(name, args))
    ensures var core := form.Core(name, args);
            |core| >= 7 && core[7..] == form.afterKeyword + form.Projection(name, args)
  {
    hide Blank;
    var core := form.Core(name, args);
    assert |form.keyword| == 6;
    assert core[..6] == form.keyword && core[6] == ' ';
    forall i | 0 <= i < 6 ensures Folded(core)[i] == "select"[i] {
      assert core[i] == form.keyword[i];
    }
    assert Folded(core)[..7] == SELECT;
  }

  /** The name, in quotes or not, is recovered from the text before the parenthesis. */
  lemma NameIsRead(form: Form, name: string)
    requires form.Valid() && Identifier(name)
    ensures TrimEndMatches(TrimStartMatches(Trim(form.Name(name)), '"'), '"') == name
    ensures forall i :: 0 <= i < |form.Name(name)| ==> form.Name(name)[i] != '('
    ensures form.Name(name) != [] && !Space(form.Name(name)[0])
  {
    hide Trim;
    var written := if form.quoted then ['"'] + name + ['"'] else name;
    assert Tight(written);
    NothingIsBlank();
    assert form.Name(name) == [] + written + form.afterName;
    TrimBoth([], written, form.afterName);
    if form.quoted {
      assert written[1..] == name + ['"'] && (name + ['"'])[..|name|] == name;
    }
  }

  lemma ProjectionCloses(form: Form, name: string, args: seq<Arg>)
    requires form.Valid() && Identifier(name) && CleanArgs(args)
    ensures var expr, open := form.Projection(name, args), |form.Name(name)|;
            && Index(expr, '(') == Some(open) && ClosingParen(expr, open) == Some(|expr| - 1)
            && expr[..open] == form.Name(name) && expr[open + 1..|expr| - 1] == form.Args(args)
  {
    hide Join, Index, Clean, Identifier, Trim, Closes;
    var written, inner := form.Name(name), form.Args(args) + [')'];
    var expr := form.Projection(name, args);
    NameIsRead(form, name);
    assert expr == written + ['('] + inner;
    IndexAfter(written, inner);
    assert expr[|written|..] == ['('] + inner;
    ParenOpens(inner, 0);
    ArgsClose(form, args);
  }

  lemma ArgsClose(form: Form, args: seq<Arg>)
    requires Blank(form.opening) && Blank(form.closing) && CleanArgs(args)
    ensures Closes(form.Args(args) + [')'], 1, false) == Some(|form.Args(args)|)
  {
    hide Join, Closes, Clean, Blank;
    assert [')'] + [] == [')'];
    ArgsCloseThere(form, args, []);
  }

  lemma ArgsAreRead(form: Form, args: seq<Arg>)
    requires form.Valid() && CleanArgs(args)
    ensures Trim(form.Args(args)) == Join(args)
    ensures args != [] ==> Join(args) != []
  {
    hide Trim, Join, Clean;
    if args == [] {
      JoinOfNothing();
      assert form.Args(args) == form.opening + form.closing;
      BlankGoes(form.opening + form.closing);
    } else {
      JoinIsTight(args);
      TrimBoth(form.opening, Join(args), form.closing);
    }
  }

  lemma JoinOfNothing()
    ensures Join([]) == []
  {
  }

  /** What the parser takes a written call apart into. */
  lemma CoreIsRead(form: Form, name: string, args: seq<Arg>)
    requires form.Valid() && Identifier(name) && CleanArgs(args)
    ensures Trim(TrimEndMatches(Trim(form.Text(name, args)), ';')) == form.Core(name, args)
    ensures |form.Core(name, args)| >= 7 && Trim(form.Core(name, args)[7..]) == form.Projection(name, args)
  {
    hide Trim, Join, Clean, Identifier, TrimEndMatches, TrimStartMatches;
    var core, expr := form.Core(name, args), form.Projection(name, args);
    HeadIsSelect(form, name, args);
    NameIsRead(form, name);
    assert core[0] == form.keyword[0];
    assert Tight(core);
    CoreIsLeft(core, form.lead, form.trail, form.semicolons, form.end);
    assert Tight(expr);
    NothingIsBlank();
    assert form.afterKeyword + expr == form.afterKeyword + expr + [];
    TrimBoth(form.afterKeyword, expr, []);
  }

  /**
    However a call is written, it is read as its name and the values its arguments spell; when one
    of them spells none, it is refused.  A call whose text has " from " in it, in any case, is left
    to the SQL engine.
  */
  lemma WrittenCallParses(form: Form, name: string, args: seq<Arg>, floats: Floats)
    requires form.Valid() && Identifier(name) && CleanArgs(args)
    ensures var r := ParseCall(form.Text(name, args), floats);
            if Contains(Folded(form.Core(name, args)), " from ") then r == Ok(None)
            else
              && (forall values :: AllSpell(args, values, floats) ==> r == Ok(Some(Call(name, values))))
              && (SomeIsNoLiteral(args, floats) ==> r == Err)
  {
    hide Trim, TrimEndMatches, TrimStartMatches, ClosingParen, Index, Split, ParseAll, Contains, Identifier, Join, Clean,
      Spells, Form.Text, Form.Core, Form.Projection, Form.Name, Form.Args, Form.Valid, Texts;
    CoreIsRead(form, name, args);
    HeadIsSelect(form, name, args);
    ProjectionCloses(form, name, args);
    NameIsRead(form, name);
    ArgsAreRead(form, args);
    if args == [] {
      JoinOfNothing();
      assert forall values :: AllSpell(args, values, floats) ==> values == [];
    } else {
      NothingIsBlank();
      JoinSplits(args, []);
      forall values | AllSpell(args, values, floats) ensures ParseAll(Texts(args), floats) == Ok(values) {
        TextsParse(args, values, floats);
      }
      if SomeIsNoLiteral(args, floats) {
        var i :| 0 <= i < |args| && NoLiteral(args[i].text, floats);
        TextsFail(args, i, floats);
      }
    }
  }

  // ---------------------------------------------------------------------------------------
  // What is no call
  // ---------------------------------------------------------------------------------------

  /** Text that is left as it is around its ends: no space there and no semicolon at the end. */
  predicate Trimmed(text: string) {
    Tight(text) && text[|text| - 1] != ';'
  }

  lemma TrimmedStays(text: string)
    requires Trimmed(text)
    ensures Trim(TrimEndMatches(Trim(text), ';')) == text
  {
    hide Trim;
    TightStays(text);
  }

  lemma SelectInAnyCase(text: string)
    ensures SELECT <= Folded(text) ==> |text| >= 7 && InAnyCase(text[..6], "select") && text[6] == ' '
  {
    if SELECT <= Folded(text) {
      forall i | 0 <= i < 7 ensures Lower(text[i]) == SELECT[i] {
        assert Folded(text)[i] == SELECT[i];
      }
      forall i | 0 <= i < 6 ensures text[i] == "select"[i] || text[i] as int + 32 == "select"[i] as int {
        assert SELECT[i] == "select"[i];
      }
    }
  }

  /** Text that does not begin with SELECT and a space, in any case, is no call. */
  lemma OnlySelectsAreCalls(text: string, floats: Floats)
    requires Trimmed(text) && (|text| < 7 || !InAnyCase(text[..6], "select") || text[6] != ' ')
    ensures ParseCall(text, floats) == Ok(None)
  {
    hide Trim, TrimEndMatches, Index, Closes, Split, ParseAll, Contains, Identifier, Folded;
    TrimmedStays(text);
    SelectInAnyCase(text);
  }

  /** An expression that only begins with a call, such as a sum, is left to the SQL engine. */
  lemma LongerExpressionIsNoCall(form: Form, name: string, args: seq<Arg>, more: string, floats: Floats)
    requires form.Valid() && Identifier(name) && CleanArgs(args)
    requires more != [] && !Space(more[|more| - 1]) && more[|more| - 1] != ';'
    ensures ParseCall(form.Core(name, args) + more, floats) == Ok(None)
  {
    hide Trim, TrimEndMatches, TrimStartMatches, Index, Closes, Split, ParseAll, Contains, Identifier, Clean,
      Form.Projection, Form.Valid;
    var core, expr := form.Core(name, args), form.Projection(name, args);
    var text := core + more;
    HeadIsSelect(form, name, args);
    assert text[0] == form.keyword[0] by { assert core[0] == form.keyword[0]; }
    assert Trimmed(text) by { KeywordIsNoSpace(form); }
    TrimmedStays(text);
    assert Folded(text)[..7] == Folded(core)[..7] == SELECT;
    assert text[7..] == form.afterKeyword + (expr + more);
    ProjectionTrims(form, name, args, more);
    ProjectionStops(form, name, args, more);
  }

  lemma KeywordIsNoSpace(form: Form)
    requires form.Valid()
    ensures form.keyword != [] && !Space(form.keyword[0])
  {
  }

  lemma Associates(a: string, b: string, c: string, d: string, e: string)
    ensures a + b + c + d + e == a + b + (c + (d + e))
  {
  }

  lemma EndsWith(a: string, b: string, c: string)
    requires a != [] && c != []
    ensures (a + b + c)[0] == a[0] && (a + b + c)[|a + b + c| - 1] == c[|c| - 1]
  {
  }

  lemma CallTrims(pad: string, written: string, inner: string, more: string)
    requires Blank(pad) && written != [] && !Space(written[0]) && more != [] && !Space(more[|more| - 1])
    ensures var text := written + ['('] + inner + [')'] + more;
            Trim(pad + text) == text
  {
    hide Trim, Blank, Space;
    var text := written + ['('] + inner + [')'] + more;
    assert text == written + (['('] + inner + [')']) + more;
    EndsWith(written, ['('] + inner + [')'], more);
    NothingIsBlank();
    assert pad + text == pad + text + [];
    TrimBoth(pad, text, []);
  }

  lemma CallCloses(written: string, rest: string, n: nat)
    requires forall i :: 0 <= i < |written| ==> written[i] != '('
    requires Closes(rest, 1, false) == Some(n)
    ensures var text := written + ['('] + rest;
            Index(text, '(') == Some(|written|) && ClosingParen(text, |written|) == Some(|written| + 1 + n)
  {
    hide Index, Closes;
    IndexAfter(written, rest);
    assert (written + ['('] + rest)[|written|..] == ['('] + rest;
    ParenOpens(rest, 0);
  }

  lemma ProjectionTrims(form: Form, name: string, args: seq<Arg>, more: string)
    requires form.Valid() && Identifier(name) && more != [] && !Space(more[|more| - 1])
    ensures var text := form.Projection(name, args) + more;
            Trim(form.afterKeyword + text) == text
  {
    hide Join, Identifier, Trim, Form.Name, Form.Args, TrimEndMatches, TrimStartMatches, InAnyCase, Blank, Space;
    NameIsRead(form, name);
    CallTrims(form.afterKeyword, form.Name(name), form.Args(args), more);
  }

  lemma ProjectionStops(form: Form, name: string, args: seq<Arg>, more: string)
    requires form.Valid() && Identifier(name) && CleanArgs(args)
    ensures var expr, open := form.Projection(name, args), |form.Name(name)|;
            Index(expr + more, '(') == Some(open) && ClosingParen(expr + more, open) == Some(|expr| - 1)
  {
    hide Join, Index, Clean, Identifier, Trim, Closes, ClosingParen, Form.Name, Form.Args, TrimEndMatches, TrimStartMatches,
      InAnyCase, Blank, Space, CleanArgs;
    var written, inner := form.Name(name), form.Args(args);
    NameIsRead(form, name);
    ArgsCloseThere(form, args, more);
    CallCloses(written, inner + ([')'] + more), |inner|);
    Associates(written, ['('], inner, [')'], more);
  }

  lemma ArgsCloseThere(form: Form, args: seq<Arg>, more: string)
    requires Blank(form.opening) && Blank(form.closing) && CleanArgs(args)
    ensures Closes(form.Args(args) + ([')'] + more), 1, false) == Some(|form.Args(args)|)
  {
    hide Join, Closes, Clean, Blank;
    var rest := form.closing + ([')'] + more);
    assert form.Args(args) + ([')'] + more) == form.opening + (Join(args) + rest);
    BlankIsUnmarked(form.opening);
    UnmarkedIsNeutral(form.opening, Join(args) + rest, 1);
    JoinIsNeutral(args, rest, 1);
    BlankIsUnmarked(form.closing);
    UnmarkedIsNeutral(form.closing, [')'] + more, 1);
    ParenCloses(more, 1);
  }

  /** What is recognised as a call has a well-formed name. */
  lemma CallsAreNamed(text: string, floats: Floats)
    requires var r := ParseCall(text, floats); r.Ok? && r.value.Some?
    ensures var name := ParseCall(text, floats).value.value.name;
            && name != "" && !('0' <= name[0] <= '9')
            && forall c :: c in name ==> 'a' <= c <= 'z' || 'A' <= c <= 'Z' || '0' <= c <= '9' || c == '_'
  {
    hide Trim, TrimEndMatches, TrimStartMatches, Index, Closes, Split, ParseAll, Contains;
    var name := ParseCall(text, floats).value.value.name;
    assert Identifier(name);
    forall c | c in name ensures 'a' <= c <= 'z' || 'A' <= c <= 'Z' || '0' <= c <= '9' || c == '_' {
      var i :| 0 <= i < |name| && name[i] == c;
    }
  }
}
