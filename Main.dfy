/**
  The text menu of `Main`: the start-up that loads the standard alphabet into
  the shared `MorseTree`, and the four menu actions with their input checks.
  Console input becomes parameters and each printed message becomes a `Reply`.
*/
module MorseMenu {
  import opened MorseSpec
  import opened JavaText
  import opened MorseTrees
  import opened MorseAlphabet
  import opened MenuInput

  /** What a menu action reports. */
  datatype Reply =
    | NotOneCharacter
    | InvalidCode
    | Inserted(character: char)
    | EmptyTree
    | InvalidText
    | Encoded(text: string)
    | InvalidMorse
    | Decoded(text: string)
    | NothingToDisplay
    | LaunchVisualizer

  /** What `handleInsert` reports for its two lines of input. */
  function InsertReply(charInput: string, morseCode: string): (r: Reply)
    ensures r == NotOneCharacter <==> |charInput| != 1
    ensures r.Inserted? <==> |charInput| == 1 && IsMorseCode(morseCode)
    ensures r.Inserted? ==> r.character == UpperChar(charInput[0])
    ensures r.NotOneCharacter? || r.InvalidCode? || r.Inserted?
  {
    if |charInput| != 1 then NotOneCharacter
    else if !IsMorseCode(morseCode) then InvalidCode
    else Inserted(ToUpperCase(charInput)[0])
  }

  /** The trie after `handleInsert`: unchanged unless the input passed both checks. */
  function InsertEffect(t: Trie, charInput: string, morseCode: string): (r: Trie)
    ensures t.Keys <= r.Keys
    ensures !(|charInput| == 1 && IsMorseCode(morseCode)) ==> r == t
  {
    var reply := InsertReply(charInput, morseCode);
    if reply.Inserted? then Insert(t, reply.character, morseCode, Blank) else t
  }

  /** What `handleEncode` reports. */
  ghost function EncodeReply(t: Trie, text: string): (r: Reply)
    ensures r == EmptyTree <==> t.Keys == {[]}
    ensures r.Encoded? <==> t.Keys != {[]} && IsPlainText(text)
    ensures r.EmptyTree? || r.InvalidText? || r.Encoded?
  {
    if t.Keys == {[]} then EmptyTree
    else if !IsPlainText(text) then InvalidText
    else Encoded(EncodeText(t, text))
  }

  /**
    The decoding pipeline of `handleDecode` as written: every "/" becomes the word
    " space ", the result is decoded, and every "space" in the output becomes " ".
  */
  function DecodePipeline(t: Trie, morse: string): (r: string)
    ensures !Holds(t, 's') && (forall i | 0 <= i < |morse| :: morse[i] != '/') ==> r == DecodeText(t, morse)
  {
    var d := DecodeText(t, Replace(morse, "/", " space "));
    assert !Holds(t, 's') && (forall i | 0 <= i < |morse| :: morse[i] != '/') ==> Replace(d, "space", " ") == DecodeText(t, morse) by {
      if !Holds(t, 's') && (forall i | 0 <= i < |morse| :: morse[i] != '/') {
        ReplaceAbsent(morse, "/", " space ");
        DecodedChars(t, morse);
        ReplaceAbsent(d, "space", " ");
      }
    }
    Replace(d, "space", " ")
  }

  /** What `handleDecode` reports. */
  function DecodeReply(t: Trie, morse: string): (r: Reply)
    ensures r == EmptyTree <==> t.Keys == {[]}
    ensures r.Decoded? <==> t.Keys != {[]} && IsMorseText(morse)
    ensures r.EmptyTree? || r.InvalidMorse? || r.Decoded?
  {
    if t.Keys == {[]} then EmptyTree
    else if !IsMorseText(morse) then InvalidMorse
    else Decoded(DecodePipeline(t, morse))
  }

  /**
    `main`'s start-up: a new tree loaded with the default alphabet; the menu loop
    and the console are not modelled.
  */
  method Startup() returns (morseTree: MorseTree)
    ensures fresh(morseTree) && morseTree.Valid()
    ensures morseTree.Payload() == DefaultTrie(Blank)
  {
    morseTree := new MorseTree();
    PopulateDefaultMorseTree(morseTree);
  }

  /** `populateDefaultMorseTree`: the 36 default entries, inserted in table order. */
  method PopulateDefaultMorseTree(morseTree: MorseTree)
    requires morseTree.Valid()
    modifies morseTree.Repr
    ensures morseTree.Valid() && fresh(morseTree.Repr - old(morseTree.Repr))
    ensures morseTree.Payload() == InsertAll(old(morseTree.Payload()), Defaults, Blank)
  {
    InsertEntries(morseTree, Defaults);
  }

  /** One `insert` call per entry of a table, in table order. */
  method InsertEntries(morseTree: MorseTree, entries: seq<(char, string)>)
    requires morseTree.Valid()
    modifies morseTree.Repr
    ensures morseTree.Valid() && fresh(morseTree.Repr - old(morseTree.Repr))
    ensures morseTree.Payload() == InsertAll(old(morseTree.Payload()), entries, Blank)
  {
    ghost var t0 := morseTree.Payload();
    for i := 0 to |entries|
      invariant morseTree.Valid() && fresh(morseTree.Repr - old(morseTree.Repr))
      invariant morseTree.Payload() == InsertAll(t0, entries[..i], Blank)
    {
      ghost var before := morseTree.Repr;
      morseTree.Insert(entries[i].0, entries[i].1);
      assert morseTree.Repr - old(morseTree.Repr) <= (morseTree.Repr - before) + (before - old(morseTree.Repr));
      InsertAllStep(t0, entries, Blank, i);
    }
    assert entries[..|entries|] == entries;
  }

  /**
    `handleInsert`: exactly one character, upper-cased, and a code over '.' and
    '-' only; anything else is refused and the tree is left as it was.
  */
  method HandleInsert(morseTree: MorseTree, charInput: string, morseCode: string) returns (reply: Reply)
    requires morseTree.Valid()
    modifies morseTree.Repr
    ensures morseTree.Valid() && fresh(morseTree.Repr - old(morseTree.Repr))
    ensures reply == InsertReply(charInput, morseCode)
    ensures morseTree.Payload() == InsertEffect(old(morseTree.Payload()), charInput, morseCode)
  {
    if |charInput| != 1 {
      return NotOneCharacter;
    }
    var character := ToUpperCase(charInput)[0];
    if !IsMorseCode(morseCode) {
      return InvalidCode;
    }
    morseTree.Insert(character, morseCode);
    reply := Inserted(character);
  }

  /** `handleEncode`: refused on an empty tree and on text other than letters and spaces. */
  method HandleEncode(morseTree: MorseTree, text: string) returns (reply: Reply)
    requires morseTree.Valid()
    ensures reply == EncodeReply(morseTree.Payload(), text)
  {
    if morseTree.IsEmpty() {
      return EmptyTree;
    }
    if !IsPlainText(text) {
      return InvalidText;
    }
    var encodedText := morseTree.Encode(text);
    reply := Encoded(encodedText);
  }

  /** `handleDecode`: refused on an empty tree and on text other than '.', '-', ' ' and '/'. */
  method HandleDecode(morseTree: MorseTree, morse: string) returns (reply: Reply)
    requires morseTree.Valid()
    ensures reply == DecodeReply(morseTree.Payload(), morse)
  {
    if morseTree.IsEmpty() {
      return EmptyTree;
    }
    if !IsMorseText(morse) {
      return InvalidMorse;
    }
    var replaced := Replace(morse, "/", " space ");
    var decodedText := morseTree.Decode(replaced);
    reply := Decoded(Replace(decodedText, "space", " "));
  }

  /** `handleDisplayTree`: refused on an empty tree, otherwise the visualizer is launched. */
  method HandleDisplayTree(morseTree: MorseTree) returns (reply: Reply)
    requires morseTree.Valid()
    ensures reply == NothingToDisplay <==> morseTree.Payload().Keys == {[]}
    ensures reply == NothingToDisplay || reply == LaunchVisualizer
  {
    if morseTree.IsEmpty() {
      return NothingToDisplay;
    }
    reply := LaunchVisualizer;
  }

  /** A menu insertion that is accepted stores its character where decoding the code looks. */
  lemma InsertThenDecode(t: Trie, charInput: string, morseCode: string)
    requires WellFormed(t) && InsertReply(charInput, morseCode).Inserted?
    requires InsertReply(charInput, morseCode).character != Blank
    ensures DecodeText(InsertEffect(t, charInput, morseCode), morseCode) == [InsertReply(charInput, morseCode).character]
  {
    var c := InsertReply(charInput, morseCode).character;
    var r := Insert(t, c, morseCode, Blank);
    ReachOfCode(morseCode);
    assert morseCode in Walked(morseCode);
    DecodeJoin(r, [morseCode], [c]);
  }

  /** An accepted insertion stores an upper-cased character, so it never brings in a lower-case 's'. */
  lemma InsertKeepsLowerSOut(t: Trie, charInput: string, morseCode: string)
    requires !Holds(t, 's')
    ensures !Holds(InsertEffect(t, charInput, morseCode), 's')
  {
    var reply := InsertReply(charInput, morseCode);
    if reply.Inserted? {
      assert reply.character != 's';
      var r := Insert(t, reply.character, morseCode, Blank);
      forall p | p in r ensures r[p] != 's' {
        if p in t && p != morseCode {
          assert t[p] != 's';
        }
      }
    }
  }

  /**
    The last step of the decoding pipeline never changes anything on a tree that holds
    no lower-case 's': decoded characters are '?' or payloads, so "space" cannot occur.
  */
  lemma FinalReplaceNeverFires(t: Trie, morse: string)
    requires !Holds(t, 's')
    ensures DecodePipeline(t, morse) == DecodeText(t, Replace(morse, "/", " space "))
  {
    var d := DecodeText(t, Replace(morse, "/", " space "));
    DecodedChars(t, Replace(morse, "/", " space "));
    ReplaceAbsent(d, "space", " ");
  }

  /** The tree after start-up holds no lower-case 's'. */
  lemma StartupLacksLowerS()
    ensures !Holds(DefaultTrie(Blank), 's')
  {
    MarksNotDefault();
    DefaultLacks(Blank, 's');
  }

  /**
    The decoding the pipeline evidently intends: a "/" token stands for the space
    between two words, every other token is decoded as `decode` does.
  */
  function DecodeWordToken(t: Trie, token: string): char
  {
    if token == "/" then ' ' else DecodeLetter(t, token)
  }

  function DecodeWords(t: Trie, morse: string): (r: string)
    ensures |r| == |Split(Trim(morse))|
  {
    var ks := Split(Trim(morse));
    seq(|ks|, i requires 0 <= i < |ks| => DecodeWordToken(t, ks[i]))
  }

  /**
    With "/" read as a word break, encoding a text of words and decoding the result gives
    the upper-cased text back, spaces included.
  */
  lemma WordsRoundTrip(t: Trie, s: string)
    requires WellFormed(t) && s != [] && EncodableText(t, s)
    ensures DecodeWords(t, EncodeText(t, s)) == ToUpperCase(s)
  {
    var u := ToUpperCase(s);
    var ks := EncodeTokens(t, u);
    TextTokens(t, s);
    SplitEncoding(t, s);
    var r := DecodeWords(t, EncodeText(t, s));
    forall i | 0 <= i < |u| ensures r[i] == u[i] {
      assert r[i] == DecodeWordToken(t, ks[i]);
      if u[i] != ' ' {
        assert s[i] != ' ' && u[i] == UpperChar(s[i]);
        assert EncodableChar(t, u[i]);
        DecodeCodeToken(t, ks[i], u[i]);
      }
    }
  }

  /** `decode`'s trim and split recover the tokens of an encodable text, "/" tokens included. */
  lemma SplitEncoding(t: Trie, s: string)
    requires WellFormed(t) && s != [] && EncodableText(t, s)
    ensures Split(Trim(EncodeText(t, s))) == EncodeTokens(t, ToUpperCase(s))
  {
    var u := ToUpperCase(s);
    var ks := EncodeTokens(t, u);
    assert forall i | 0 <= i < |ks| :: ks[i] != [] && forall k | 0 <= k < |ks[i]| :: !IsTrimmed(ks[i][k]) by {
      TextTokens(t, s);
      forall i | 0 <= i < |ks| ensures ks[i] != [] && forall k | 0 <= k < |ks[i]| :: !IsTrimmed(ks[i][k]) {
        if u[i] != ' ' {
          assert IsCode(ks[i]);
        } else {
          assert ks[i] == "/";
        }
      }
    }
    SplitTrimJoin(ks);
    EncodeJoin(t, s);
  }

  /** A non-empty code of a node that holds a character other than '\0' decodes as that character. */
  lemma DecodeCodeToken(t: Trie, k: string, c: char)
    requires k != [] && IsCode(k) && k in t && t[k] == c && c != Blank
    ensures DecodeWordToken(t, k) == c
  {
    assert k != "/" by {
      assert IsSymbol(k[0]);
    }
  }

  /** After start-up the tree is not empty, so no menu action is refused for emptiness. */
  lemma StartupNotEmpty()
    ensures DefaultTrie(Blank).Keys != {[]}
  {
    DefaultAt(Blank, 0);
    DefaultCodesShape();
  }

  /** After start-up every letter is held at a non-root node, so every text of letters and spaces is encodable. */
  lemma StartupEncodable(s: string)
    requires IsPlainText(s)
    ensures [] in DefaultTrie(Blank) && EncodableText(DefaultTrie(Blank), s)
  {
    var t := DefaultTrie(Blank);
    DefaultRoot(Blank);
    forall i | 0 <= i < |s| && s[i] != ' ' ensures EncodableChar(t, UpperChar(s[i])) {
      var c := UpperChar(s[i]);
      assert 'A' <= c <= 'Z';
      AlnumIsDefault(c);
      DefaultAt(Blank, CharIndex(c));
    }
  }

  /**
    On a tree that is not empty and holds no lower-case 's', a single code entered at
    the decode prompt gives the one character `decode` finds for it.
  */
  lemma DecodePromptOneCode(t: Trie, code: string)
    requires t.Keys != {[]} && !Holds(t, 's')
    requires code != [] && IsCode(code)
    ensures DecodeReply(t, code) == Decoded([DecodeLetter(t, code)])
  {
    assert IsMorseText(code);
    assert Replace(code, "/", " space ") == code by {
      ReplaceAbsent(code, "/", " space ");
    }
    assert DecodeText(t, code) == [DecodeLetter(t, code)] by {
      forall k | 0 <= k < |code| ensures !IsTrimmed(code[k]) {
        assert IsSymbol(code[k]);
      }
      SplitTrimJoin([code]);
      assert Join([code]) == code;
    }
    FinalReplaceNeverFires(t, code);
  }

  /** After start-up each default code, entered at the decode prompt, gives its character. */
  lemma StartupDecodesDefaults(i: int)
    requires 0 <= i < |Defaults|
    ensures DecodeReply(DefaultTrie(Blank), Defaults[i].1) == Decoded([Defaults[i].0])
  {
    StartupNotEmpty();
    StartupLacksLowerS();
    DefaultCodesShape();
    DefaultAt(Blank, i);
    MarksNotDefault();
    SteerOfCode(Defaults[i].1);
    DecodePromptOneCode(DefaultTrie(Blank), Defaults[i].1);
  }

  /** On a tree that is not empty and holds no lower-case 's', a code whose node holds '\0' decodes as "?". */
  lemma WaypointPrompt(t: Trie, code: string)
    requires t.Keys != {[]} && !Holds(t, 's')
    requires code != [] && IsCode(code) && code in t && t[code] == Blank
    ensures DecodeReply(t, code) == Decoded("?")
  {
    WaypointDecodesUnknown(t, code);
    DecodePromptOneCode(t, code);
  }

  /** After start-up "..--", on the way to the code of '2' but the code of no character, decodes as "?". */
  lemma StartupDecodesWaypoint()
    ensures DecodeReply(DefaultTrie(Blank), "..--") == Decoded("?")
  {
    StartupNotEmpty();
    StartupLacksLowerS();
    DefaultWaypoint(Blank);
    WaypointCode();
    WaypointPrompt(DefaultTrie(Blank), "..--");
  }

  /** A one-character text whose character stays the same when upper-cased is encoded as the path of its first holder. */
  lemma EncodeOneChar(t: Trie, c: char, p: string)
    requires WellFormed(t) && UpperChar(c) == c && EncodableChar(t, c) && IsFirstHolder(t, c, p)
    ensures EncodeText(t, [c]) == p
  {
    assert ToUpperCase([c]) == [c];
    assert EncodableText(t, [c]);
    EncodeJoin(t, [c]);
    EncodeCharFound(t, c, p);
  }

  /** After start-up each default character, letter or digit, is encoded as its code. */
  lemma StartupEncodesDefaults(i: int)
    requires 0 <= i < |Defaults|
    ensures EncodeText(DefaultTrie(Blank), [Defaults[i].0]) == Defaults[i].1
  {
    DefaultWellFormed(Blank);
    DefaultRoot(Blank);
    DefaultCharsAlnum();
    MarksNotDefault();
    DefaultFirstHolder(Blank, i);
    EncodeOneChar(DefaultTrie(Blank), Defaults[i].0, Defaults[i].1);
  }

  /** The encoding of a word whose letters are all found is a non-empty text of '.', '-' and ' ' only. */
  lemma EncodedWordIsMorse(t: Trie, w: string)
    requires WellFormed(t) && w != [] && Encodable(t, w)
    ensures var e := EncodeText(t, w);
      e != [] && forall i | 0 <= i < |e| :: IsSymbol(e[i]) || e[i] == ' '
  {
    var u := ToUpperCase(w);
    var ks := EncodeTokens(t, u);
    assert EncodableText(t, w);
    TextTokens(t, w);
    EncodeJoin(t, w);
    forall i, k | 0 <= i < |ks| && 0 <= k < |ks[i]| ensures ks[i][k] in {'.', '-'} {
      assert u[i] != ' ' by {
        assert w[i] != ' ' && u[i] == UpperChar(w[i]);
      }
      assert IsCode(ks[i]);
      assert IsSymbol(ks[i][k]);
    }
    JoinAlphabet(ks, {'.', '-'});
    JoinNonEmpty(ks);
    SymbolsOrSpaces(Join(ks));
    assert EncodeText(t, w) == Join(ks);
  }

  /** A text spaced over the two Morse symbols is made of '.', '-' and ' ' only. */
  lemma SymbolsOrSpaces(s: string)
    requires SpacedOver(s, {'.', '-'})
    ensures forall i | 0 <= i < |s| :: IsSymbol(s[i]) || s[i] == ' '
  {
    forall i | 0 <= i < |s| ensures IsSymbol(s[i]) || s[i] == ' ' {
      assert s[i] == ' ' || s[i] in {'.', '-'};
    }
  }

  /**
    On a tree that is not empty and holds no lower-case 's', a word of letters typed at
    the encode prompt is accepted, and its encoding typed at the decode prompt gives the
    word back in upper case, when every letter is held at a node other than the root.
  */
  lemma WordPromptRoundTrip(t: Trie, w: string)
    requires WellFormed(t) && t.Keys != {[]} && !Holds(t, 's')
    requires IsPlainText(w) && Encodable(t, w)
    ensures var e := EncodeText(t, w);
      && EncodeReply(t, w) == Encoded(e)
      && DecodeReply(t, e) == Decoded(ToUpperCase(w))
  {
    var e := EncodeText(t, w);
    assert IsMorseText(e) && Replace(e, "/", " space ") == e by {
      EncodedWordIsMorse(t, w);
      ReplaceAbsent(e, "/", " space ");
    }
    assert DecodePipeline(t, e) == ToUpperCase(w) by {
      RoundTrip(t, w);
      FinalReplaceNeverFires(t, e);
    }
  }

  /**
    After start-up a word of letters typed at the encode prompt is accepted, and its
    encoding typed at the decode prompt gives the word back in upper case.
  */
  lemma MenuWordRoundTrip(w: string)
    requires IsPlainText(w) && HasNoSpace(w)
    ensures var e := EncodeText(DefaultTrie(Blank), w);
      && EncodeReply(DefaultTrie(Blank), w) == Encoded(e)
      && DecodeReply(DefaultTrie(Blank), e) == Decoded(ToUpperCase(w))
  {
    StartupNotEmpty();
    StartupLacksLowerS();
    DefaultWellFormed(Blank);
    StartupEncodable(w);
    WordPromptRoundTrip(DefaultTrie(Blank), w);
  }

  /** After start-up every text of letters and spaces comes back upper-cased when "/" is read as a word break. */
  lemma MenuTextRoundTrip(s: string)
    requires IsPlainText(s)
    ensures DecodeWords(DefaultTrie(Blank), EncodeText(DefaultTrie(Blank), s)) == ToUpperCase(s)
  {
    DefaultWellFormed(Blank);
    StartupEncodable(s);
    WordsRoundTrip(DefaultTrie(Blank), s);
  }

  /** A text encodes as the given tokens when they are "/" for its spaces and the first holders of its other characters. */
  lemma EncodesAsTokens(t: Trie, w: string, ks: seq<string>)
    requires WellFormed(t) && w != [] && EncodableText(t, w) && |ks| == |w|
    requires forall i | 0 <= i < |w| ::
      if w[i] == ' ' then ks[i] == "/" else IsFirstHolder(t, UpperChar(w[i]), ks[i])
    ensures EncodeText(t, w) == Join(ks)
  {
    EncodeJoin(t, w);
    var u := ToUpperCase(w);
    var es := EncodeTokens(t, u);
    forall i | 0 <= i < |w| ensures es[i] == ks[i] {
      if w[i] != ' ' {
        EncodeCharFound(t, u[i], ks[i]);
      }
    }
    assert es == ks;
  }

  /** The three-character case, with a letter at each end and a letter or a space between. */
  lemma EncodesAsThree(t: Trie, a: char, b: char, c: char, pa: string, pb: string, pc: string)
    requires WellFormed(t) && EncodableText(t, [a, b, c])
    requires a != ' ' && IsFirstHolder(t, UpperChar(a), pa)
    requires if b == ' ' then pb == "/" else IsFirstHolder(t, UpperChar(b), pb)
    requires c != ' ' && IsFirstHolder(t, UpperChar(c), pc)
    ensures EncodeText(t, [a, b, c]) == Join([pa, pb, pc])
  {
    EncodesAsTokens(t, [a, b, c], [pa, pb, pc]);
  }

  /** After start-up "sos" is encoded as "... --- ...", which decodes back to "SOS". */
  lemma SosExample()
    ensures EncodeReply(DefaultTrie(Blank), "sos") == Encoded("... --- ...")
    ensures DecodeReply(DefaultTrie(Blank), "... --- ...") == Decoded("SOS")
  {
    SosInput();
    ExampleEntries();
    MarksNotDefault();
    DefaultFirstHolder(Blank, 6);
    DefaultFirstHolder(Blank, 13);
    DefaultWellFormed(Blank);
    StartupEncodable("sos");
    EncodesAsThree(DefaultTrie(Blank), 's', 'o', 's', "...", "---", "...");
    MenuWordRoundTrip("sos");
  }

  /** After start-up the two words "s s" are encoded as "... / ...". */
  lemma SeparatorEncoded()
    ensures EncodeReply(DefaultTrie(Blank), "s s") == Encoded("... / ...")
  {
    SosInput();
    SpacedInput();
    ExampleEntries();
    MarksNotDefault();
    DefaultFirstHolder(Blank, 6);
    DefaultWellFormed(Blank);
    StartupNotEmpty();
    StartupEncodable("s s");
    EncodesAsThree(DefaultTrie(Blank), 's', ' ', 's', "...", "/", "...");
  }

  /**
    The pipeline as written: when "..." holds 'S', "-----" holds '0' and the root holds
    '\0', the separator of "... / ..." comes out as "?0?" instead of a space: the word
    "space" is steered along "-----" and the empty tokens around it find the root.
  */
  lemma SeparatorPipeline(t: Trie)
    requires t.Keys != {[]} && !Holds(t, 's')
    requires [] in t && t[[]] == Blank
    requires "..." in t && t["..."] == 'S' && "-----" in t && t["-----"] == '0'
    ensures DecodeReply(t, "... / ...") == Decoded("S?0?S")
  {
    SpacedInput();
    SeparatorReplaced();
    SeparatorTokens();
    SeparatorSteers();
    var ks := ["...", "", "space", "", "..."];
    var r := DecodeTokens(t, ks);
    assert r[0] == DecodeLetter(t, ks[0]) && r[1] == DecodeLetter(t, ks[1]) && r[2] == DecodeLetter(t, ks[2]);
    assert r[3] == DecodeLetter(t, ks[3]) && r[4] == DecodeLetter(t, ks[4]);
    SeparatorDecoded(r);
    FinalReplaceNeverFires(t, "... / ...");
  }

  /** After start-up the encoding of "s s", decoded at the menu, gives "S?0?S" instead of "S S". */
  lemma SeparatorAsWritten()
    ensures EncodeReply(DefaultTrie(Blank), "s s") == Encoded("... / ...")
    ensures DecodeReply(DefaultTrie(Blank), "... / ...") == Decoded("S?0?S")
  {
    SeparatorEncoded();
    StartupNotEmpty();
    StartupLacksLowerS();
    DefaultRoot(Blank);
    ExampleEntries();
    DefaultAt(Blank, 6);
    DefaultAt(Blank, 35);
    SeparatorPipeline(DefaultTrie(Blank));
  }

  /** With "/" read as a word break, the same encoding decodes to "S S". */
  lemma SeparatorIntended()
    ensures DecodeWords(DefaultTrie(Blank), "... / ...") == "S S"
  {
    SeparatorEncoded();
    SpacedInput();
    MenuTextRoundTrip("s s");
  }
}
