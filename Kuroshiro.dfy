/**
 * The Japanese tools the translation service drives: a tokenizer and a
 * romaji converter.  The real ones (the kuroshiro library with the kuromoji
 * analyzer) are out of reach and are passed around as function values; the
 * demonstration stand-in the service installs when the analyzer's dictionary
 * cannot be loaded is modelled in full: a per-character table lookup with
 * passthrough, and a tokenizer that makes one token per character.
 */
module Kuroshiro {
  import opened Strings
  import opened Outcomes

  /** A token of the analyzer; only its surface form is used. */
  datatype Token = Token(surfaceForm: string)

  /** A tokenizer and a romaji converter, either of which may fail. */
  datatype JapaneseTools = JapaneseTools(
    tokenize: string -> Outcome<seq<Token>>,
    convert: string -> Outcome<string>)

  /**
   * `simpleMappings[key]` for the demonstration table: the value the table
   * gives `key`, or `None` when `key` is not one of its 69 keys.  The keys
   * of one character are listed by character, the longer keys after them.
   */
  function SimpleMapping(key: string): (v: Option<string>)
    ensures v.Some? ==> v.value != []
  {
    if |key| == 1 then SingleCharMapping(key[0])
    else if key == "彼女" then Some("kanojo")
    else if key == "言っ" then Some("it")
    else if key == "ほしかった" then Some("hoshikatta")
    else if key == "thank" then Some("thank")
    else if key == "you" then Some("you")
    else None
  }

  /** The demonstration table's entries whose key is one character long. */
  function SingleCharMapping(c: char): (v: Option<string>)
    ensures v.Some? ==> '\U{0080}' <= c && PlainRomaji(v.value)
  {
    match c
    case 'は' => Some("wa")
    case 'か' => Some("ka")
    case 'き' => Some("ki")
    case 'く' => Some("ku")
    case 'け' => Some("ke")
    case 'こ' => Some("ko")
    case 'さ' => Some("sa")
    case 'し' => Some("shi")
    case 'す' => Some("su")
    case 'せ' => Some("se")
    case 'そ' => Some("so")
    case 'た' => Some("ta")
    case 'ち' => Some("chi")
    case 'つ' => Some("tsu")
    case 'て' => Some("te")
    case 'と' => Some("to")
    case 'な' => Some("na")
    case 'に' => Some("ni")
    case 'ぬ' => Some("nu")
    case 'ね' => Some("ne")
    case 'の' => Some("no")
    case 'ま' => Some("ma")
    case 'み' => Some("mi")
    case 'む' => Some("mu")
    case 'め' => Some("me")
    case 'も' => Some("mo")
    case 'や' => Some("ya")
    case 'ゆ' => Some("yu")
    case 'よ' => Some("yo")
    case 'ら' => Some("ra")
    case 'り' => Some("ri")
    case 'る' => Some("ru")
    case 'れ' => Some("re")
    case 'ろ' => Some("ro")
    case 'わ' => Some("wa")
    case 'を' => Some("wo")
    case 'ん' => Some("n")
    case 'が' => Some("ga")
    case 'ぎ' => Some("gi")
    case 'ぐ' => Some("gu")
    case 'げ' => Some("ge")
    case 'ご' => Some("go")
    case 'ざ' => Some("za")
    case 'じ' => Some("ji")
    case 'ず' => Some("zu")
    case 'ぜ' => Some("ze")
    case 'ぞ' => Some("zo")
    case 'だ' => Some("da")
    case 'ぢ' => Some("ji")
    case 'づ' => Some("zu")
    case 'で' => Some("de")
    case 'ど' => Some("do")
    case 'ば' => Some("ba")
    case 'び' => Some("bi")
    case 'ぶ' => Some("bu")
    case 'べ' => Some("be")
    case 'ぼ' => Some("bo")
    case 'ぱ' => Some("pa")
    case 'ぴ' => Some("pi")
    case 'ぷ' => Some("pu")
    case 'ぺ' => Some("pe")
    case 'ぽ' => Some("po")
    case '君' => Some("kimi")
    case '？' => Some("?")
    case _ => None
  }

  /** Non-empty, and neither starting nor ending with anything but a lower-case ASCII letter, or `?`. */
  predicate PlainRomaji(v: string) {
    || v == "?"
    || (v != [] && 'a' <= v[0] <= 'z' && 'a' <= v[|v| - 1] <= 'z')
  }

  /** `table[char] || char`: the table's value for the one-character key, unless missing or empty. */
  function LookupIn(table: string -> Option<string>, c: char): (r: string)
    ensures r != []
    ensures table([c]).Some? && table([c]).value != [] ==> r == table([c]).value
    ensures table([c]).None? ==> r == [c]
  {
    match table([c])
    case Some(v) => if v != [] then v else [c]
    case None => [c]
  }

  /** The romanization of `text` under `table`, character by character, left to right. */
  function RomanizeWith(table: string -> Option<string>, text: string): (r: string)
    ensures |r| >= |text|
    ensures r == [] <==> text == []
  {
    if text == [] then [] else RomanizeWith(table, text[..|text| - 1]) + LookupIn(table, text[|text| - 1])
  }

  /** The demonstration converter's output. */
  function Romanize(text: string): string {
    RomanizeWith(SimpleMapping, text)
  }

  /** The demonstration `convert`: appends, for each character in turn, its table value or the character itself. */
  method Convert(text: string) returns (result: string)
    ensures result == Romanize(text)
  {
    result := "";
    var i := 0;
    while i < |text|
      invariant 0 <= i <= |text|
      invariant result == Romanize(text[..i])
    {
      assert text[..i + 1][..i] == text[..i];
      result := result + LookupIn(SimpleMapping, text[i]);
      i := i + 1;
    }
    assert text[..i] == text;
  }

  /** The demonstration `tokenize`: `text.split('')`, one token per character. */
  function DemoTokenize(text: string): (tokens: seq<Token>)
    ensures |tokens| == |text|
    ensures forall i :: 0 <= i < |text| ==> tokens[i].surfaceForm == [text[i]]
  {
    seq(|text|, i requires 0 <= i < |text| => Token([text[i]]))
  }

  /** The demonstration tools: neither tokenizing nor converting ever fails. */
  const DEMO_TOOLS: JapaneseTools := JapaneseTools(
    s => Ok(DemoTokenize(s)),
    s => Ok(Romanize(s)))

  // ---------------------------------------------------------------------------
  // Properties of the demonstration converter

  /** Converting a concatenation converts the parts independently. */
  lemma {:induction false} RomanizeAppend(table: string -> Option<string>, a: string, b: string)
    ensures RomanizeWith(table, a + b) == RomanizeWith(table, a) + RomanizeWith(table, b)
    decreases |b|
  {
    if b == [] {
      assert a + b == a;
    } else {
      var b', c := b[..|b| - 1], b[|b| - 1];
      calc {
        RomanizeWith(table, a + b);
        { assert a + b == (a + b') + [c]; }
        RomanizeWith(table, (a + b') + [c]);
        { RomanizeWithSnoc(table, a + b', c); }
        RomanizeWith(table, a + b') + LookupIn(table, c);
        { RomanizeAppend(table, a, b'); }
        (RomanizeWith(table, a) + RomanizeWith(table, b')) + LookupIn(table, c);
        RomanizeWith(table, a) + (RomanizeWith(table, b') + LookupIn(table, c));
        { assert b == b' + [c]; RomanizeWithSnoc(table, b', c); }
        RomanizeWith(table, a) + RomanizeWith(table, b);
      }
    }
  }

  /** Converting one more character appends its lookup. */
  lemma RomanizeWithSnoc(table: string -> Option<string>, text: string, c: char)
    ensures RomanizeWith(table, text + [c]) == RomanizeWith(table, text) + LookupIn(table, c)
  {
    assert (text + [c])[..|text|] == text;
  }

  /**
   * Only the one-character keys of a table matter: any table that agrees with
   * the demonstration table on them gives the same output, so the longer keys
   * (`彼女`, `言っ`, `ほしかった`, `thank`, `you`) never fire.
   */
  lemma {:induction false} OnlyOneCharKeysMatter(table: string -> Option<string>, text: string)
    requires forall c: char :: table([c]) == SimpleMapping([c])
    ensures RomanizeWith(table, text) == Romanize(text)
    decreases |text|
  {
    if text != [] {
      OnlyOneCharKeysMatter(table, text[..|text| - 1]);
      assert table([text[|text| - 1]]) == SimpleMapping([text[|text| - 1]]);
    }
  }

  /** No one-character key of the demonstration table is an ASCII character. */
  lemma AsciiLookupIsIdentity(c: char)
    requires c < '\U{0080}'
    ensures LookupIn(SimpleMapping, c) == [c]
  {
  }

  /** ASCII-only input comes back unchanged (`thank` and `you` are never looked up as words). */
  lemma {:induction false} AsciiUnchanged(text: string)
    requires forall i :: 0 <= i < |text| ==> text[i] < '\U{0080}'
    ensures Romanize(text) == text
    decreases |text|
  {
    if text != [] {
      AsciiUnchanged(text[..|text| - 1]);
      AsciiLookupIsIdentity(text[|text| - 1]);
    }
  }

  /** Every value of the demonstration table is non-empty ASCII letters or `?`: no white space at either end. */
  lemma TableValuesTrimmed(c: char)
    ensures Trim(LookupIn(SimpleMapping, c)) == LookupIn(SimpleMapping, c) || IsWhitespace(c)
  {
    var v := LookupIn(SimpleMapping, c);
    if SingleCharMapping(c).Some? {
      assert PlainRomaji(v);
      assert !IsWhitespace(v[0]) && !IsWhitespace(v[|v| - 1]);
    }
  }

  /** Converting one more character appends its lookup. */
  lemma RomanizeSnoc(text: string, c: char)
    ensures Romanize(text + [c]) == Romanize(text) + LookupIn(SimpleMapping, c)
  {
    RomanizeWithSnoc(SimpleMapping, text, c);
  }

  /** A character the table lists appends its table value. */
  lemma RomanizeHit(text: string, c: char, v: string)
    requires SingleCharMapping(c) == Some(v)
    ensures Romanize(text + [c]) == Romanize(text) + v
  {
    RomanizeSnoc(text, c);
  }

  /** A character the table does not list appends itself. */
  lemma RomanizeMiss(text: string, c: char)
    requires SingleCharMapping(c) == None
    ensures Romanize(text + [c]) == Romanize(text) + [c]
  {
    RomanizeSnoc(text, c);
  }

  /** `は` reads `wa` (not `ha`). */
  lemma ParticleExample()
    ensures Romanize("は") == "wa"
  {
    var s0: string := [];
    RomanizeHit(s0, 'は', "wa");
    assert s0 + ['は'] == "は";
  }

  /** A greeting built from listed kana converts in full. */
  lemma GreetingExample()
    ensures Romanize("こんにちは") == "konnichiwa"
  {
    var s0: string := [];
    var s1 := s0 + ['こ'];
    var s2 := s1 + ['ん'];
    var s3 := s2 + ['に'];
    var s4 := s3 + ['ち'];
    RomanizeHit(s0, 'こ', "ko");
    RomanizeHit(s1, 'ん', "n");
    RomanizeHit(s2, 'に', "ni");
    RomanizeHit(s3, 'ち', "chi");
    RomanizeHit(s4, 'は', "wa");
    assert s4 + ['は'] == "こんにちは";
  }

  /** The vowel kana are missing from the table. */
  lemma VowelsUnlisted()
    ensures SingleCharMapping('あ') == None && SingleCharMapping('う') == None
  {
  }

  /** Kana missing from the table, such as the vowels, pass through as they are. */
  lemma UnlistedKanaExample()
    ensures Romanize("ありがとう") == "あrigatoう"
  {
    VowelsUnlisted();
    var s0: string := [];
    var s1 := s0 + ['あ'];
    var s2 := s1 + ['り'];
    var s3 := s2 + ['が'];
    var s4 := s3 + ['と'];
    RomanizeMiss(s0, 'あ');
    RomanizeHit(s1, 'り', "ri");
    RomanizeHit(s2, 'が', "ga");
    RomanizeHit(s3, 'と', "to");
    RomanizeMiss(s4, 'う');
    assert s4 + ['う'] == "ありがとう";
  }

  /** The two-character key `彼女` never fires: its characters pass through one by one. */
  lemma LongerKeyExample()
    ensures Romanize("彼女") == "彼女"
  {
  }
}
