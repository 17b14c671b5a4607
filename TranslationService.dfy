/**
 * The mapping builders of the translation service: they turn a translated
 * text into the ordered `{japanese, phonetic, index}` records the display
 * animates.  Japanese text is cut into tokens and each token romanized;
 * if anything on that path fails, every character becomes its own record.
 * Other text is cut at white-space runs, keeping the runs.  `TranslateText`
 * checks its input, asks the translation route, and picks the builder by
 * target language.
 *
 * The methods follow the loops of the service; each is proved equal to a
 * specification function, and the properties are stated about those.
 */
module TranslationService {
  import opened Strings
  import opened Outcomes
  import opened Kuroshiro

  /** One displayed unit: its text, its reading, and its position in the list. */
  datatype TextMapping = TextMapping(japanese: string, phonetic: string, index: int)

  /** The `japanese` fields, in order. */
  function JapaneseOf(ms: seq<TextMapping>): (r: seq<string>)
    ensures |r| == |ms|
    ensures forall i :: 0 <= i < |ms| ==> r[i] == ms[i].japanese
  {
    seq(|ms|, i requires 0 <= i < |ms| => ms[i].japanese)
  }

  /** The records are numbered 0, 1, 2, ... in order, with no gap. */
  predicate Numbered(ms: seq<TextMapping>) {
    forall i :: 0 <= i < |ms| ==> ms[i].index == i
  }

  /** Every record reads as itself. */
  predicate ReadsAsWritten(ms: seq<TextMapping>) {
    forall i :: 0 <= i < |ms| ==> ms[i].phonetic == ms[i].japanese
  }

  // ---------------------------------------------------------------------------
  // Fallback: one record per character

  /**
   * The mapping returned when building the Japanese mapping fails
   * (`text.split('').map(...)`): one record per character, reading as
   * itself, numbered by position, and together spelling the text.
   */
  function CharacterMapping(text: string): (ms: seq<TextMapping>)
    ensures |ms| == |text| && Numbered(ms) && ReadsAsWritten(ms)
    ensures forall i :: 0 <= i < |ms| ==> ms[i].japanese == [text[i]]
    ensures Concat(JapaneseOf(ms)) == text
  {
    var ms := seq(|text|, i requires 0 <= i < |text| => TextMapping([text[i]], [text[i]], i));
    assert JapaneseOf(ms) == Chars(text);
    ConcatChars(text);
    ms
  }

  // ---------------------------------------------------------------------------
  // Token by token

  /** The tokens the loop keeps: those whose surface form is not blank, in order. */
  function KeptTokens(tokens: seq<Token>): (kept: seq<Token>)
    ensures |kept| <= |tokens|
    ensures forall i :: 0 <= i < |kept| ==> !IsBlank(kept[i].surfaceForm)
  {
    if tokens == [] then []
    else
      var last := tokens[|tokens| - 1];
      KeptTokens(tokens[..|tokens| - 1]) + (if IsBlank(last.surfaceForm) then [] else [last])
  }

  /** A token that is kept but that the converter fails on. */
  /** A single token is kept exactly when it is not blank. */
  lemma KeptTokensSingle(t: Token)
    ensures KeptTokens([t]) == if IsBlank(t.surfaceForm) then [] else [t]
  {
    assert [t][..0] == [];
  }

  /** Skipping blank tokens distributes over concatenation, so it keeps the order of the tokens it keeps. */
  lemma {:induction false} KeptTokensAppend(a: seq<Token>, b: seq<Token>)
    ensures KeptTokens(a + b) == KeptTokens(a) + KeptTokens(b)
    decreases |b|
  {
    if b == [] {
      assert a + b == a;
    } else {
      var init := b[..|b| - 1];
      var last := b[|b| - 1];
      assert (a + b)[..|a + b| - 1] == a + init;
      assert (a + b)[|a + b| - 1] == last;
      KeptTokensAppend(a, init);
      var tail := if IsBlank(last.surfaceForm) then [] else [last];
      calc {
        KeptTokens(a + b);
        KeptTokens(a + init) + tail;
        (KeptTokens(a) + KeptTokens(init)) + tail;
        KeptTokens(a) + (KeptTokens(init) + tail);
        KeptTokens(a) + KeptTokens(b);
      }
    }
  }

  /** Every kept token is one of the tokens, and every non-blank token is kept. */
  lemma {:induction false} KeptTokensFilter(tokens: seq<Token>)
    ensures forall t :: t in KeptTokens(tokens) ==> t in tokens
    ensures forall i :: 0 <= i < |tokens| && !IsBlank(tokens[i].surfaceForm) ==> tokens[i] in KeptTokens(tokens)
  {
    forall t | t in KeptTokens(tokens)
      ensures t in tokens
    {
      KeptTokensIn(tokens, t);
    }
    forall i | 0 <= i < |tokens| && !IsBlank(tokens[i].surfaceForm)
      ensures tokens[i] in KeptTokens(tokens)
    {
      assert tokens == tokens[..i] + ([tokens[i]] + tokens[i + 1..]);
      KeptTokensAppend(tokens[..i], [tokens[i]] + tokens[i + 1..]);
      KeptTokensAppend([tokens[i]], tokens[i + 1..]);
      KeptTokensSingle(tokens[i]);
    }
  }

  /** A kept token comes from the tokens. */
  lemma {:induction false} KeptTokensIn(tokens: seq<Token>, t: Token)
    requires t in KeptTokens(tokens)
    ensures t in tokens
    decreases |tokens|
  {
    var init := tokens[..|tokens| - 1];
    if t in KeptTokens(init) {
      KeptTokensIn(init, t);
      assert t in tokens[..|tokens| - 1];
    }
  }

  predicate FailsToConvert(convert: string -> Outcome<string>, token: Token) {
    !IsBlank(token.surfaceForm) && convert(token.surfaceForm).Err?
  }

  /**
   * What the token loop builds: for every kept token, in order, its surface
   * form, its conversion trimmed, and the next index; no result as soon as
   * one conversion fails.
   */
  function TokenMappings(tokens: seq<Token>, convert: string -> Outcome<string>): (r: Option<seq<TextMapping>>)
    ensures r.Some? ==> |r.value| == |KeptTokens(tokens)| && Numbered(r.value)
  {
    if tokens == [] then Some([])
    else
      var last := tokens[|tokens| - 1];
      match TokenMappings(tokens[..|tokens| - 1], convert)
      case None => None
      case Some(ms) =>
        if IsBlank(last.surfaceForm) then Some(ms)
        else match convert(last.surfaceForm)
          case Err(_) => None
          case Ok(romaji) => Some(ms + [TextMapping(last.surfaceForm, Trim(romaji), |ms|)])
  }

  /** The token mapping is missing exactly when some kept token fails to convert. */
  lemma {:induction false} TokenMappingsFail(tokens: seq<Token>, convert: string -> Outcome<string>)
    ensures TokenMappings(tokens, convert).None? <==>
      exists i :: 0 <= i < |tokens| && FailsToConvert(convert, tokens[i])
    decreases |tokens|
  {
    if tokens != [] {
      TokenMappingsFail(tokens[..|tokens| - 1], convert);
      TokenMappingsNoneStep(tokens, convert);
      SomeFailsStep(tokens, convert);
    }
  }

  /** The token mapping is missing when that of all tokens but the last is, or when the last fails to convert. */
  lemma TokenMappingsNoneStep(tokens: seq<Token>, convert: string -> Outcome<string>)
    requires tokens != []
    ensures TokenMappings(tokens, convert).None? <==>
      TokenMappings(tokens[..|tokens| - 1], convert).None? || FailsToConvert(convert, tokens[|tokens| - 1])
  {
  }

  /** Some token fails exactly when one of all but the last does, or the last one does. */
  lemma SomeFailsStep(tokens: seq<Token>, convert: string -> Outcome<string>)
    requires tokens != []
    ensures var init := tokens[..|tokens| - 1];
      (exists i :: 0 <= i < |tokens| && FailsToConvert(convert, tokens[i])) <==>
      (exists i :: 0 <= i < |init| && FailsToConvert(convert, init[i])) || FailsToConvert(convert, tokens[|tokens| - 1])
  {
    var init := tokens[..|tokens| - 1];
    if exists i :: 0 <= i < |tokens| && FailsToConvert(convert, tokens[i]) {
      var i :| 0 <= i < |tokens| && FailsToConvert(convert, tokens[i]);
      if i < |init| {
        assert init[i] == tokens[i];
      }
    }
    if exists i :: 0 <= i < |init| && FailsToConvert(convert, init[i]) {
      var i :| 0 <= i < |init| && FailsToConvert(convert, init[i]);
      assert init[i] == tokens[i];
    }
  }

  /** Record `i` of the token mapping is kept token `i`, with its trimmed conversion. */
  lemma {:induction false} TokenMappingsAt(tokens: seq<Token>, convert: string -> Outcome<string>, i: nat)
    requires TokenMappings(tokens, convert).Some? && i < |KeptTokens(tokens)|
    ensures var kept := KeptTokens(tokens)[i].surfaceForm;
      && convert(kept).Ok?
      && TokenMappings(tokens, convert).value[i] == TextMapping(kept, Trim(convert(kept).value), i)
    decreases |tokens|
  {
    var init := tokens[..|tokens| - 1];
    if i < |KeptTokens(init)| {
      TokenMappingsAt(init, convert, i);
    }
  }

  /**
   * The result of `createJapaneseRomajiMapping`: the token mapping when the
   * tools are there and neither tokenizing nor any conversion fails, and the
   * per-character mapping otherwise.  Either way the records are numbered
   * without gaps.
   */
  function JapaneseMapping(text: string, tools: Option<JapaneseTools>): (ms: seq<TextMapping>)
    ensures Numbered(ms)
    ensures tools.None? ==> ms == CharacterMapping(text)
    ensures tools.Some? && tools.value.tokenize(text).Err? ==> ms == CharacterMapping(text)
    ensures tools.Some? && tools.value.tokenize(text).Ok? ==>
      var tokens := tools.value.tokenize(text).value;
      (exists i :: 0 <= i < |tokens| && FailsToConvert(tools.value.convert, tokens[i])) ==>
        ms == CharacterMapping(text)
    ensures (tools.Some? && tools.value.tokenize(text).Ok? &&
             TokenMappings(tools.value.tokenize(text).value, tools.value.convert).Some?) ==>
      ms == TokenMappings(tools.value.tokenize(text).value, tools.value.convert).value
  {
    match tools
    case None => CharacterMapping(text)
    case Some(t) =>
      match t.tokenize(text)
      case Err(_) => CharacterMapping(text)
      case Ok(tokens) =>
        TokenMappingsFail(tokens, t.convert);
        match TokenMappings(tokens, t.convert)
        case None => CharacterMapping(text)
        case Some(ms) => ms
  }

  /**
   * When the tools are there, tokenizing succeeds and no kept token fails to
   * convert, the mapping holds one record per kept token, in order: its
   * surface form, its conversion trimmed, and its position.
   */
  lemma JapaneseMappingRecords(text: string, tools: Option<JapaneseTools>)
    requires tools.Some? && tools.value.tokenize(text).Ok?
    requires var tokens := tools.value.tokenize(text).value;
      forall i :: 0 <= i < |tokens| ==> !FailsToConvert(tools.value.convert, tokens[i])
    ensures var kept := KeptTokens(tools.value.tokenize(text).value);
      var convert := tools.value.convert;
      var ms := JapaneseMapping(text, tools);
      && |ms| == |kept|
      && forall i :: 0 <= i < |ms| ==>
        && convert(kept[i].surfaceForm).Ok?
        && ms[i] == TextMapping(kept[i].surfaceForm, Trim(convert(kept[i].surfaceForm).value), i)
  {
    var tokens := tools.value.tokenize(text).value;
    var convert := tools.value.convert;
    TokenMappingsFail(tokens, convert);
    var ms := JapaneseMapping(text, tools);
    forall i | 0 <= i < |ms|
      ensures convert(KeptTokens(tokens)[i].surfaceForm).Ok?
      ensures ms[i] == TextMapping(KeptTokens(tokens)[i].surfaceForm, Trim(convert(KeptTokens(tokens)[i].surfaceForm).value), i)
    {
      TokenMappingsAt(tokens, convert, i);
    }
  }

  /** One more token extends the token mapping of a prefix by that token's record, if it is kept. */
  lemma TokenMappingsStep(tokens: seq<Token>, i: nat, convert: string -> Outcome<string>, ms: seq<TextMapping>)
    requires i < |tokens| && TokenMappings(tokens[..i], convert) == Some(ms)
    ensures var t := tokens[i].surfaceForm;
      TokenMappings(tokens[..i + 1], convert) ==
        if IsBlank(t) then Some(ms)
        else if convert(t).Err? then None
        else Some(ms + [TextMapping(t, Trim(convert(t).value), |ms|)])
  {
    assert tokens[..i + 1][..i] == tokens[..i];
    assert tokens[..i + 1][i] == tokens[i];
  }

  /**
   * `createJapaneseRomajiMapping`: tokenizes `text`, skips blank tokens,
   * converts the others one at a time and numbers the records; falls back
   * to one record per character when the tools are missing or a step fails.
   */
  method CreateJapaneseRomajiMapping(text: string, tools: Option<JapaneseTools>) returns (mappings: seq<TextMapping>)
    ensures mappings == JapaneseMapping(text, tools)
  {
    if tools.None? {
      return CharacterMapping(text);
    }
    var t := tools.value;
    var tokenized := t.tokenize(text);
    if tokenized.Err? {
      return CharacterMapping(text);
    }
    var tokens := tokenized.value;
    mappings := [];
    var index := 0;
    var i := 0;
    while i < |tokens|
      invariant 0 <= i <= |tokens|
      invariant TokenMappings(tokens[..i], t.convert) == Some(mappings)
      invariant index == |mappings|
    {
      var token := tokens[i];
      TokenMappingsStep(tokens, i, t.convert, mappings);
      if IsBlank(token.surfaceForm) {
        i := i + 1;
        continue;
      }
      var romaji := t.convert(token.surfaceForm);
      if romaji.Err? {
        assert FailsToConvert(t.convert, tokens[i]);
        TokenMappingsFail(tokens, t.convert);
        return CharacterMapping(text);
      }
      mappings := mappings + [TextMapping(token.surfaceForm, Trim(romaji.value), index)];
      index := index + 1;
      i := i + 1;
    }
    assert tokens[..i] == tokens;
  }

  // ---------------------------------------------------------------------------
  // Demonstration mode end to end

  /** The characters of `text` that are not white space, in order. */
  function NonBlankChars(text: string): (r: string)
    ensures |r| <= |text|
    ensures NoWhitespace(r)
  {
    if text == [] then []
    else
      var last := text[|text| - 1];
      NonBlankChars(text[..|text| - 1]) + (if IsWhitespace(last) then [] else [last])
  }

  /** A one-character string is blank exactly when its character is white space. */
  lemma BlankChar(c: char)
    ensures IsBlank([c]) <==> IsWhitespace(c)
  {
    assert AllWhitespace([c]) <==> IsWhitespace([c][0]);
  }

  /** The demonstration tokenizer keeps one token per non-blank character. */
  lemma {:induction false} DemoKeptTokens(text: string)
    ensures var kept := KeptTokens(DemoTokenize(text));
      var chars := NonBlankChars(text);
      && |kept| == |chars|
      && forall i :: 0 <= i < |kept| ==> kept[i] == Token([chars[i]])
    decreases |text|
  {
    if text != [] {
      var init := text[..|text| - 1];
      var c := text[|text| - 1];
      var tokens := DemoTokenize(text);
      assert tokens[..|tokens| - 1] == DemoTokenize(init);
      assert tokens[|tokens| - 1] == Token([c]);
      DemoKeptTokens(init);
      BlankChar(c);
      var keptInit := KeptTokens(DemoTokenize(init));
      var charsInit := NonBlankChars(init);
      assert KeptTokens(tokens) == keptInit + (if IsBlank([c]) then [] else [Token([c])]);
      assert NonBlankChars(text) == charsInit + (if IsWhitespace(c) then [] else [c]);
    }
  }

  /**
   * With the demonstration tools installed, the Japanese mapping has one
   * record per non-blank character, read through the demonstration table.
   */
  lemma DemoMapping(text: string)
    ensures var ms := JapaneseMapping(text, Some(DEMO_TOOLS));
      var chars := NonBlankChars(text);
      && |ms| == |chars|
      && forall i :: 0 <= i < |ms| ==>
           ms[i] == TextMapping([chars[i]], LookupIn(SimpleMapping, chars[i]), i)
  {
    var tokens := DemoTokenize(text);
    var convert := DEMO_TOOLS.convert;
    assert DEMO_TOOLS.tokenize(text) == Ok(tokens);
    assert forall i :: 0 <= i < |tokens| ==> !FailsToConvert(convert, tokens[i]);
    TokenMappingsFail(tokens, convert);
    var ms := TokenMappings(tokens, convert).value;
    assert JapaneseMapping(text, Some(DEMO_TOOLS)) == ms;
    DemoKeptTokens(text);
    var kept := KeptTokens(tokens);
    var chars := NonBlankChars(text);
    forall i | 0 <= i < |ms|
      ensures ms[i] == TextMapping([chars[i]], LookupIn(SimpleMapping, chars[i]), i)
    {
      TokenMappingsAt(tokens, convert, i);
      var c := chars[i];
      assert kept[i].surfaceForm == [c];
      assert !IsWhitespace(c);
      RomanizeSnoc("", c);
      assert "" + [c] == [c];
      TableValuesTrimmed(c);
      assert convert([c]) == Ok(Romanize([c]));
    }
  }

  // ---------------------------------------------------------------------------
  // Other languages: words and the white space between them

  /**
   * `text.split(/(\s+)/)`: the words and, between them, the white-space runs
   * that separated them (the capturing group keeps them).  There is always
   * one more word than runs; a word may be empty at either end.
   */
  function SplitKeepingWhitespace(s: string): (pieces: seq<string>)
    ensures |pieces| % 2 == 1
    ensures s == [] ==> pieces == [[]]
    ensures s != [] ==> (pieces[0] == [] <==> IsWhitespace(s[0]))
    ensures s != [] && IsWhitespace(s[0]) ==> |pieces| >= 3
  {
    if s == [] then [[]]
    else
      var rest := SplitKeepingWhitespace(s[1..]);
      if !IsWhitespace(s[0]) then
        [[s[0]] + rest[0]] + rest[1..]
      else if |s| > 1 && IsWhitespace(s[1]) then
        [[], [s[0]] + rest[1]] + rest[2..]
      else
        [[], [s[0]]] + rest
  }

  /**
   * The shape of a split that keeps its separators: pieces alternate word /
   * run / word / ... / word, every run is non-empty white space, no word
   * holds white space, and only the first and last words may be empty (so
   * every run is maximal).
   */
  ghost predicate Alternates(pieces: seq<string>) {
    && |pieces| % 2 == 1
    && (forall i :: 0 <= i < |pieces| && i % 2 == 0 ==> NoWhitespace(pieces[i]))
    && (forall i :: 0 <= i < |pieces| && i % 2 == 1 ==> pieces[i] != [] && AllWhitespace(pieces[i]))
    && (forall i :: 0 < i < |pieces| - 1 && i % 2 == 0 ==> pieces[i] != [])
  }

  /** What it means to split `s` at white-space runs, keeping them: the pieces alternate and spell `s`. */
  ghost predicate SplitsAtWhitespace(s: string, pieces: seq<string>) {
    Alternates(pieces) && Concat(pieces) == s
  }

  /** The split meets that description. */
  lemma SplitIsCorrect(s: string)
    ensures SplitsAtWhitespace(s, SplitKeepingWhitespace(s))
  {
    SplitSpells(s);
    SplitAlternates(s);
  }

  /** The pieces of the split spell the text. */
  lemma {:induction false} SplitSpells(s: string)
    ensures Concat(SplitKeepingWhitespace(s)) == s
    decreases |s|
  {
    if s == [] {
      assert Concat([[]]) == [];
    } else {
      var rest := SplitKeepingWhitespace(s[1..]);
      SplitSpells(s[1..]);
      if !IsWhitespace(s[0]) {
        SpellsWordStep(s[0], rest, s[1..]);
      } else if |s| > 1 && IsWhitespace(s[1]) {
        SpellsRunExtendStep(s[0], rest, s[1..]);
      } else {
        SpellsRunStartStep(s[0], rest, s[1..]);
      }
      assert [s[0]] + s[1..] == s;
    }
  }

  /** A character before a first word joins it. */
  lemma SpellsWordStep(c: char, rest: seq<string>, t: string)
    requires rest != [] && Concat(rest) == t
    ensures Concat([[c] + rest[0]] + rest[1..]) == [c] + t
  {
    ConcatCons([c] + rest[0], rest[1..]);
    ConcatCons(rest[0], rest[1..]);
    assert rest == [rest[0]] + rest[1..];
  }

  /** A character before a first run (after an empty first word) joins the run. */
  lemma SpellsRunExtendStep(c: char, rest: seq<string>, t: string)
    requires |rest| >= 2 && rest[0] == [] && Concat(rest) == t
    ensures Concat([[], [c] + rest[1]] + rest[2..]) == [c] + t
  {
    var q := [[], [c] + rest[1]] + rest[2..];
    assert q[0] == [] && q[1] == [c] + rest[1] && q[2..] == rest[2..];
    ConcatFirstTwo(q);
    ConcatFirstTwo(rest);
  }

  /** A character that starts a run of its own adds an empty word and that run. */
  lemma SpellsRunStartStep(c: char, rest: seq<string>, t: string)
    requires Concat(rest) == t
    ensures Concat([[], [c]] + rest) == [c] + t
  {
    assert [[], [c]] + rest == [[]] + ([[c]] + rest);
    ConcatCons([], [[c]] + rest);
    ConcatCons([c], rest);
  }

  /** The pieces of the split alternate between words and maximal white-space runs. */
  lemma {:induction false} SplitAlternates(s: string)
    ensures Alternates(SplitKeepingWhitespace(s))
    decreases |s|
  {
    if s != [] {
      var rest := SplitKeepingWhitespace(s[1..]);
      SplitAlternates(s[1..]);
      if !IsWhitespace(s[0]) {
        var word := [s[0]] + rest[0];
        assert NoWhitespace(word) by {
          forall k | 0 <= k < |word| ensures !IsWhitespace(word[k]) {
            if k > 0 { assert word[k] == rest[0][k - 1]; }
          }
        }
        AlternatesUpdate(rest, 0, word);
        assert [word] + rest[1..] == rest[0 := word];
      } else if |s| > 1 && IsWhitespace(s[1]) {
        var run := [s[0]] + rest[1];
        assert AllWhitespace(run) by {
          forall k | 0 <= k < |run| ensures IsWhitespace(run[k]) {
            if k > 0 { assert run[k] == rest[1][k - 1]; }
          }
        }
        AlternatesUpdate(rest, 1, run);
        assert [[], run] + rest[2..] == rest[1 := run];
      } else {
        AlternatesPrepend(s[0], rest);
      }
    }
  }

  /** An empty word and a one-character run before alternating pieces that start with a word keep them alternating. */
  lemma AlternatesPrepend(c: char, rest: seq<string>)
    requires IsWhitespace(c) && Alternates(rest) && (|rest| == 1 || rest[0] != [])
    ensures Alternates([[], [c]] + rest)
  {
    var q := [[], [c]] + rest;
    assert forall k :: 2 <= k < |q| ==> q[k] == rest[k - 2];
    assert AllWhitespace(q[1]);
  }

  /**
   * Only the split meets that description: any pieces that alternate and
   * spell `s` are the pieces of the split.
   */
  lemma {:induction false} SplitIsUnique(s: string, pieces: seq<string>)
    requires SplitsAtWhitespace(s, pieces)
    ensures pieces == SplitKeepingWhitespace(s)
    decreases |s|
  {
    if |pieces| == 1 {
      assert Concat(pieces) == pieces[0] + Concat([]);
      if s != [] {
        UniqueWordStep(s, pieces);
        SplitIsUnique(s[1..], pieces[0 := pieces[0][1..]]);
      }
    } else {
      SpellsFirstRun(pieces);
      if pieces[0] != [] {
        UniqueWordStep(s, pieces);
        SplitIsUnique(s[1..], pieces[0 := pieces[0][1..]]);
      } else if |pieces[1]| >= 2 {
        UniqueRunExtendStep(s, pieces);
        SplitIsUnique(s[1..], pieces[1 := pieces[1][1..]]);
      } else {
        UniqueRunStartStep(s, pieces);
        SplitIsUnique(s[1..], pieces[2..]);
      }
    }
  }

  /** Pieces that alternate spell their first word, then their first run, then the rest. */
  lemma SpellsFirstRun(pieces: seq<string>)
    requires Alternates(pieces) && |pieces| > 1
    ensures |pieces| >= 3 && pieces[1] != [] && AllWhitespace(pieces[1])
    ensures Concat(pieces) == pieces[0] + (pieces[1] + Concat(pieces[2..]))
  {
    ConcatFirstTwo(pieces);
  }

  /** Putting another word first, or another run second, keeps the pieces alternating. */
  lemma AlternatesUpdate(pieces: seq<string>, i: nat, p: string)
    requires Alternates(pieces) && i < |pieces| && i <= 1
    requires i == 0 ==> NoWhitespace(p)
    requires i == 1 ==> p != [] && AllWhitespace(p)
    ensures Alternates(pieces[i := p])
  {
    var q := pieces[i := p];
    assert forall k :: 0 <= k < |q| && k != i ==> q[k] == pieces[k];
  }

  /** Dropping the first word and run of alternating pieces leaves alternating pieces. */
  lemma AlternatesDropFirstRun(pieces: seq<string>)
    requires Alternates(pieces) && |pieces| >= 3
    ensures Alternates(pieces[2..])
    ensures |pieces| > 3 ==> pieces[2] != []
  {
    var tail := pieces[2..];
    assert forall k :: 0 <= k < |tail| ==> tail[k] == pieces[k + 2];
  }

  /** Uniqueness, when the first word is not empty: dropping its first character leaves a split of the rest. */
  lemma UniqueWordStep(s: string, pieces: seq<string>)
    requires SplitsAtWhitespace(s, pieces) && pieces[0] != []
    requires Concat(pieces) == pieces[0] + Concat(pieces[1..])
    ensures s != [] && !IsWhitespace(s[0])
    ensures SplitsAtWhitespace(s[1..], pieces[0 := pieces[0][1..]])
    ensures pieces[0 := pieces[0][1..]] == SplitKeepingWhitespace(s[1..]) ==> pieces == SplitKeepingWhitespace(s)
  {
    var w := pieces[0];
    var tail := pieces[0 := w[1..]];
    assert s[0] == w[0];
    assert NoWhitespace(w[1..]) by {
      forall k | 0 <= k < |w[1..]| ensures !IsWhitespace(w[1..][k]) {
        assert w[1..][k] == w[k + 1];
      }
    }
    AlternatesUpdate(pieces, 0, w[1..]);
    assert tail[1..] == pieces[1..];
    assert Concat(tail) == w[1..] + Concat(pieces[1..]);
    assert s[1..] == Concat(tail);
    if tail == SplitKeepingWhitespace(s[1..]) {
      assert w == [s[0]] + tail[0];
      assert pieces == [[s[0]] + tail[0]] + tail[1..];
    }
  }

  /** Uniqueness, when the first run is two or more long: dropping its first character leaves a split of the rest. */
  lemma UniqueRunExtendStep(s: string, pieces: seq<string>)
    requires SplitsAtWhitespace(s, pieces) && |pieces| >= 3 && pieces[0] == [] && |pieces[1]| >= 2
    requires Concat(pieces) == pieces[0] + (pieces[1] + Concat(pieces[2..]))
    ensures |s| > 1 && IsWhitespace(s[0]) && IsWhitespace(s[1])
    ensures SplitsAtWhitespace(s[1..], pieces[1 := pieces[1][1..]])
    ensures pieces[1 := pieces[1][1..]] == SplitKeepingWhitespace(s[1..]) ==> pieces == SplitKeepingWhitespace(s)
  {
    var run := pieces[1];
    var tail := pieces[1 := run[1..]];
    var c := Concat(pieces[2..]);
    assert s == run + c;
    assert s[0] == run[0] && s[1] == run[1];
    assert s[1..] == run[1..] + c;
    assert AllWhitespace(run[1..]) by {
      forall k | 0 <= k < |run[1..]| ensures IsWhitespace(run[1..][k]) {
        assert run[1..][k] == run[k + 1];
      }
    }
    AlternatesUpdate(pieces, 1, run[1..]);
    SpellsFirstRun(tail);
    assert tail[2..] == pieces[2..];
    assert run == [s[0]] + tail[1];
    assert pieces == [pieces[0], run] + pieces[2..];
    if tail == SplitKeepingWhitespace(s[1..]) {
      SplitOfRun(s);
    }
  }

  /** The split of text starting with two white-space characters, from the split of all but the first. */
  lemma SplitOfRun(s: string)
    requires |s| > 1 && IsWhitespace(s[0]) && IsWhitespace(s[1])
    ensures var rest := SplitKeepingWhitespace(s[1..]);
      SplitKeepingWhitespace(s) == [[], [s[0]] + rest[1]] + rest[2..]
  {
  }

  /** Uniqueness, when the first run is one character: dropping the empty word and the run leaves a split of the rest. */
  lemma UniqueRunStartStep(s: string, pieces: seq<string>)
    requires SplitsAtWhitespace(s, pieces) && |pieces| >= 3 && pieces[0] == [] && |pieces[1]| < 2
    requires pieces[1] != [] && AllWhitespace(pieces[1])
    requires Concat(pieces) == pieces[0] + (pieces[1] + Concat(pieces[2..]))
    ensures s != [] && IsWhitespace(s[0]) && (|s| == 1 || !IsWhitespace(s[1]))
    ensures SplitsAtWhitespace(s[1..], pieces[2..])
    ensures pieces[2..] == SplitKeepingWhitespace(s[1..]) ==> pieces == SplitKeepingWhitespace(s)
  {
    var tail := pieces[2..];
    assert pieces[1] == [s[0]];
    assert s[1..] == Concat(tail);
    AlternatesDropFirstRun(pieces);
    if |s| > 1 {
      ConcatCons(tail[0], tail[1..]);
      assert tail == [tail[0]] + tail[1..];
      if |tail| == 1 {
        assert Concat(tail[1..]) == [];
      }
      assert s[1] == tail[0][0];
    }
    assert pieces == [[], [s[0]]] + tail;
    if tail == SplitKeepingWhitespace(s[1..]) {
      SplitOfRunStart(s);
    }
  }

  /** The split of text starting with a lone white-space character, from the split of the rest. */
  lemma SplitOfRunStart(s: string)
    requires s != [] && IsWhitespace(s[0]) && (|s| == 1 || !IsWhitespace(s[1]))
    ensures SplitKeepingWhitespace(s) == [[], [s[0]]] + SplitKeepingWhitespace(s[1..])
  {
  }

  /**
   * The result of `createTextMapping`: one record per piece of the split,
   * reading as itself, numbered in order; the records spell the text.
   */
  function WordMapping(text: string): (ms: seq<TextMapping>)
    ensures Numbered(ms) && ReadsAsWritten(ms)
    ensures JapaneseOf(ms) == SplitKeepingWhitespace(text)
    ensures Concat(JapaneseOf(ms)) == text
  {
    var pieces := SplitKeepingWhitespace(text);
    var ms := seq(|pieces|, i requires 0 <= i < |pieces| => TextMapping(pieces[i], pieces[i], i));
    assert JapaneseOf(ms) == pieces;
    SplitIsCorrect(text);
    ms
  }

  /** `createTextMapping`: one record per piece, pushed with a running index. */
  method CreateTextMapping(text: string) returns (mappings: seq<TextMapping>)
    ensures mappings == WordMapping(text)
  {
    var words := SplitKeepingWhitespace(text);
    mappings := [];
    var index := 0;
    for i := 0 to |words|
      invariant index == i == |mappings|
      invariant forall j :: 0 <= j < i ==> mappings[j] == TextMapping(words[j], words[j], j)
    {
      mappings := mappings + [TextMapping(words[i], words[i], index)];
      index := index + 1;
    }
  }

  // ---------------------------------------------------------------------------
  // translateText

  /** The body posted to the translation route. */
  datatype TranslateRequest = TranslateRequest(text: string, sourceLanguage: string, targetLanguage: string)

  /** What the call to the translation route gives back. */
  datatype Reply =
    | NetworkFailure(message: string)
    | Response(ok: bool, error: Option<string>, translatedText: string)

  const NO_INPUT_ERROR: string := "Aucun texte d'entrée fourni pour la traduction"
  const TRANSLATION_ERROR: string := "Erreur lors de la traduction"

  /** A missing, empty or all-white-space input. */
  predicate NoInput(inputText: Option<string>) {
    inputText.None? || IsBlank(inputText.value)
  }

  /** The error message of a failed reply: the route's own `error`, or a generic one when it is missing or empty. */
  function ReplyError(error: Option<string>): (message: string)
    ensures error.Some? && error.value != [] ==> message == error.value
    ensures message != []
  {
    if error.Some? && error.value != [] then error.value else TRANSLATION_ERROR
  }

  /**
   * `translateText`: refuses a missing or blank input before any request;
   * otherwise posts the text, propagates a failed call or reply, and builds
   * the Japanese mapping of the translation when the target is `ja`, the
   * word mapping otherwise.
   */
  method TranslateText(
    inputText: Option<string>,
    inputLanguage: Option<string>,
    fetchTranslation: TranslateRequest -> Reply,
    tools: Option<JapaneseTools>,
    targetLang: string := "ja")
    returns (r: Outcome<seq<TextMapping>>)
    ensures NoInput(inputText) ==> r == Err(NO_INPUT_ERROR)
    ensures !NoInput(inputText) ==>
      var request := TranslateRequest(
        inputText.value, if inputLanguage.Some? then inputLanguage.value else "auto", targetLang);
      match fetchTranslation(request)
      case NetworkFailure(message) => r == Err(message)
      case Response(ok, error, translated) =>
        && (!ok ==> r == Err(ReplyError(error)))
        && (ok && targetLang == "ja" ==> r == Ok(JapaneseMapping(translated, tools)))
        && (ok && targetLang != "ja" ==> r == Ok(WordMapping(translated)))
  {
    if inputText.None? || IsBlank(inputText.value) {
      return Err(NO_INPUT_ERROR);
    }
    var sourceLanguage := if inputLanguage.Some? then inputLanguage.value else "auto";
    var reply := fetchTranslation(TranslateRequest(inputText.value, sourceLanguage, targetLang));
    if reply.NetworkFailure? {
      return Err(reply.message);
    }
    if !reply.ok {
      return Err(ReplyError(reply.error));
    }
    var mappings;
    if targetLang == "ja" {
      mappings := CreateJapaneseRomajiMapping(reply.translatedText, tools);
    } else {
      mappings := CreateTextMapping(reply.translatedText);
    }
    r := Ok(mappings);
  }
}
