/**
  `MorseTree`: the trie used by the text menu. Its root and every waypoint node
  created by insertion hold '\0', the character decoding reports as not found.
  The module also states what `decode` and `encode` compute, as functions of the
  abstract trie, and proves that encoding and then decoding a word gives the word back.
*/
module MorseTrees {
  import opened MorseSpec
  import opened MorseNodes
  import opened JavaText

  /** The payload marking a node that holds no character. */
  const Blank: char := '\0'

  /** One decoded token: the character at the steered path, with '?' for '\0' and for a missing node. */
  function DecodeLetter(t: Trie, token: string): (c: char)
    ensures c == '?' <==> Lookup(t, token) == '\0' || Lookup(t, token) == '?'
    ensures c != '?' ==> c == Lookup(t, token)
  {
    var c := Lookup(t, token);
    if c == '\0' then '?' else c
  }

  /** Decoding one more token appends its letter. */
  lemma DecodeTokensStep(t: Trie, tokens: seq<string>, i: nat)
    requires i < |tokens|
    ensures DecodeTokens(t, tokens[..i + 1]) == DecodeTokens(t, tokens[..i]) + [DecodeLetter(t, tokens[i])]
  {
    assert tokens[..i + 1][..i] == tokens[..i];
  }

  /** The characters of a sequence of tokens: exactly one per token. */
  function DecodeTokens(t: Trie, tokens: seq<string>): (r: string)
    ensures |r| == |tokens|
    ensures forall i | 0 <= i < |tokens| :: r[i] == DecodeLetter(t, tokens[i])
  {
    if tokens == [] then []
    else DecodeTokens(t, tokens[..|tokens| - 1]) + [DecodeLetter(t, tokens[|tokens| - 1])]
  }

  /** What `decode` returns: the trimmed text split at single spaces, one character per token. */
  function DecodeText(t: Trie, morseText: string): (r: string)
    ensures |r| == |Split(Trim(morseText))|
    ensures [] in t && t[[]] == Blank && Trim(morseText) == [] ==> r == "?"
  {
    DecodeTokens(t, Split(Trim(morseText)))
  }

  /**
    The token `encode` emits for one (upper-cased) character: "/" for a space, the
    path of the first node holding it in dot-first preorder, or "?" when no node does.
  */
  ghost function EncodeChar(t: Trie, c: char): (r: string)
    ensures c == ' ' ==> r == "/"
    ensures c != ' ' ==> r == "?" || (r in t && t[r] == c)
  {
    if c == ' ' then "/"
    else if exists p :: IsFirstHolder(t, c, p) then var p :| IsFirstHolder(t, c, p); p
    else "?"
  }

  /** The tokens of a text, one per character. */
  ghost function EncodeTokens(t: Trie, s: string): (ks: seq<string>)
    ensures |ks| == |s| && forall i | 0 <= i < |s| :: ks[i] == EncodeChar(t, s[i])
  {
    seq(|s|, i requires 0 <= i < |s| => EncodeChar(t, s[i]))
  }

  /** The builder's content before the final `trim`: each token followed by one space. */
  ghost function EncodeRaw(t: Trie, s: string): (r: string)
    ensures r == [] <==> s == []
    ensures s != [] ==> r[|r| - 1] == ' '
  {
    if s == [] then "" else EncodeRaw(t, s[..|s| - 1]) + EncodeChar(t, s[|s| - 1]) + " "
  }

  /** Encoding one more character appends its token and a space. */
  lemma EncodeRawStep(t: Trie, s: string, i: nat)
    requires i < |s|
    ensures EncodeRaw(t, s[..i + 1]) == EncodeRaw(t, s[..i]) + EncodeChar(t, s[i]) + " "
  {
    assert s[..i + 1][..i] == s[..i] && s[..i + 1][i] == s[i];
  }

  /** What `encode` returns: the raw tokens of the upper-cased text, trimmed. */
  ghost function EncodeText(t: Trie, plainText: string): (r: string)
    ensures plainText == [] ==> r == []
  {
    Trim(EncodeRaw(t, ToUpperCase(plainText)))
  }

  class MorseTree {
    var root: Node
    ghost var Repr: set<object>

    ghost predicate Valid()
      reads this, Repr
    {
      && this in Repr && root in Repr && root.Repr <= Repr && this !in root.Repr
      && root.Valid()
    }

    /** Model only: the abstract trie, the path of every node mapped to its payload. */
    ghost function Payload(): Trie
      reads this, Repr
      requires Valid()
    {
      Paths(root.Sub)
    }

    /** A new tree is a lone root holding '\0'. */
    constructor ()
      ensures Valid() && fresh(Repr)
      ensures Payload() == map[[] := Blank]
    {
      root := new Node(Blank);
      new;
      Repr := {this} + root.Repr;
      GraftLeaf(Blank);
    }

    /** The tree counts as empty exactly when its root has no children, that is when the root is its only node. */
    function IsEmpty(): (r: bool)
      reads this, Repr
      requires Valid()
      ensures r <==> Payload().Keys == {[]}
    {
      assert root.left != null ==> root.left.Valid() && root.left.Sub.Br?;
      assert root.right != null ==> root.right.Valid() && root.right.Sub.Br?;
      BareGraft(root.character, Paths(SubOf(root.left)), Paths(SubOf(root.right)));
      root.left == null && root.right == null
    }

    /** `insert(character, morseCode)`: the walk starts at the root. */
    method Insert(character: char, morseCode: string)
      requires Valid()
      modifies Repr
      ensures Valid() && fresh(Repr - old(Repr))
      ensures Payload() == MorseSpec.Insert(old(Payload()), character, morseCode, Blank)
    {
      InsertRecursive(root, character, morseCode);
      Repr := Repr + root.Repr;
      InsertTreePaths(old(root.Sub), character, morseCode, Blank);
    }

    /**
      Follows `morseCode` from `current`, creating each missing child as a waypoint
      holding '\0', and stores `character` where the code ends. A symbol other than
      '.' and '-' ends the walk without storing anything.
    */
    method InsertRecursive(current: Node, character: char, morseCode: string)
      requires current.Valid()
      modifies current.Repr
      ensures current.Valid() && fresh(current.Repr - old(current.Repr))
      ensures current.Sub == InsertTree(old(current.Sub), character, morseCode, Blank)
      decreases |morseCode|
    {
      if morseCode == [] {
        current.character := character;
        current.Sub := Br(character, SubOf(current.left), SubOf(current.right));
        return;
      }
      var direction := morseCode[0];
      var remainingCode := morseCode[1..];
      if direction == '.' {
        if current.left == null {
          current.left := new Node(Blank);
        }
        InsertRecursive(current.left, character, remainingCode);
        current.Repr := current.Repr + current.left.Repr;
        current.Sub := Br(current.character, current.left.Sub, SubOf(current.right));
      } else if direction == '-' {
        if current.right == null {
          current.right := new Node(Blank);
        }
        InsertRecursive(current.right, character, remainingCode);
        current.Repr := current.Repr + current.right.Repr;
        current.Sub := Br(current.character, SubOf(current.left), current.right.Sub);
      }
    }

    /**
      Follows `morseCode` from `current`: '.' to the left child and every other
      symbol to the right child; a missing node yields '\0', an exhausted code the
      node's payload.
    */
    function DecodeRecursive(current: Node?, morseCode: string): (r: char)
      reads current, if current != null then current.Repr else {}
      requires current != null ==> current.Valid()
      ensures r == Lookup(Paths(SubOf(current)), morseCode)
      decreases |morseCode|
    {
      if current == null then '\0'
      else
        LookupGraft(current.character, Paths(SubOf(current.left)), Paths(SubOf(current.right)), morseCode);
        if morseCode == [] then current.character
        else
          var direction := morseCode[0];
          var remainingCode := morseCode[1..];
          if direction == '.' then DecodeRecursive(current.left, remainingCode)
          else DecodeRecursive(current.right, remainingCode)
    }

    /** `decode(morseText)`: one character per token of the trimmed text split at single spaces. */
    method Decode(morseText: string) returns (decodedWord: string)
      requires Valid()
      ensures decodedWord == DecodeText(Payload(), morseText)
    {
      decodedWord := "";
      var letters := Split(Trim(morseText));
      for i := 0 to |letters|
        invariant decodedWord == DecodeTokens(Payload(), letters[..i])
      {
        var decodedChar := DecodeRecursive(root, letters[i]);
        decodedWord := decodedWord + [if decodedChar == '\0' then '?' else decodedChar];
        DecodeTokensStep(Payload(), letters, i);
      }
      assert letters[..|letters|] == letters;
    }

    /**
      Searches below `current`, whose path is `currentPath`, for the first node
      holding `targetChar`: the node itself, then its left subtree, then its right
      subtree. The result is that node's path, or `None` when no node holds it.
    */
    function FindMorseCodeRecursive(current: Node?, targetChar: char, currentPath: string): (r: Option<string>)
      reads current, if current != null then current.Repr else {}
      requires current != null ==> current.Valid()
      ensures SearchResult(SubOf(current), targetChar, currentPath, r)
      decreases ReprOf(current)
    {
      if current == null then None
      else
        var tr := current.Sub;
        assert tr == Br(current.character, SubOf(current.left), SubOf(current.right));
        if current.character == targetChar then
          SearchHere(tr, targetChar, currentPath);
          Some(currentPath)
        else
          var foundPath := FindMorseCodeRecursive(current.left, targetChar, currentPath + ".");
          if foundPath.Some? then
            SearchDot(tr, targetChar, currentPath, foundPath.value);
            foundPath
          else
            var r := FindMorseCodeRecursive(current.right, targetChar, currentPath + "-");
            SearchDash(tr, targetChar, currentPath, r);
            r
    }

    /**
      `encode(plainText)`: the text is upper-cased; each space becomes "/", each
      character the path of its first holder, or "?" when nothing holds it; every
      token is followed by a space and the result is trimmed.
    */
    method Encode(plainText: string) returns (encoded: string)
      requires Valid()
      ensures encoded == EncodeText(Payload(), plainText)
    {
      var morseResult := "";
      var text := ToUpperCase(plainText);
      for i := 0 to |text|
        invariant morseResult == EncodeRaw(Payload(), text[..i])
      {
        var character := text[i];
        EncodeRawStep(Payload(), text, i);
        if character == ' ' {
          assert morseResult + "/ " == morseResult + EncodeChar(Payload(), character) + " ";
          morseResult := morseResult + "/ ";
          continue;
        }
        var morseCode := FindMorseCodeRecursive(root, character, "");
        if morseCode.Some? {
          assert morseCode.value[|""|..] == morseCode.value;
          EncodeCharFound(Payload(), character, morseCode.value);
          morseResult := morseResult + morseCode.value + " ";
        } else {
          EncodeCharMissing(Payload(), character);
          assert morseResult + "? " == morseResult + EncodeChar(Payload(), character) + " ";
          morseResult := morseResult + "? ";
        }
      }
      assert text[..|text|] == text;
      encoded := Trim(morseResult);
    }
  }

  /** A character held somewhere is encoded as the path of its first holder. */
  lemma EncodeCharFound(t: Trie, c: char, p: string)
    requires c != ' ' && IsFirstHolder(t, c, p)
    ensures EncodeChar(t, c) == p
  {
    var q :| IsFirstHolder(t, c, q) && EncodeChar(t, c) == q;
    FirstHolderUnique(t, c, p, q);
  }

  /** A character held nowhere is encoded as "?". */
  lemma EncodeCharMissing(t: Trie, c: char)
    requires c != ' ' && !Holds(t, c)
    ensures EncodeChar(t, c) == "?"
  {
  }

  /** A node that exists but holds '\0', such as the root or a waypoint, decodes as "?". */
  lemma WaypointDecodesUnknown(t: Trie, code: string)
    requires IsCode(code) && code in t && t[code] == Blank
    ensures DecodeLetter(t, code) == '?'
  {
    SteerOfCode(code);
  }

  /** Before trimming, the encoding is the tokens joined by single spaces, plus one trailing space. */
  lemma {:induction false} EncodeRawJoin(t: Trie, s: string)
    requires s != []
    ensures EncodeRaw(t, s) == Join(EncodeTokens(t, s)) + " "
    decreases |s|
  {
    var front, ks := s[..|s| - 1], EncodeTokens(t, s);
    if |s| == 1 {
      assert front == [];
    } else {
      EncodeRawJoin(t, front);
      assert ks[..|ks| - 1] == EncodeTokens(t, front);
    }
  }

  /** An upper-cased character encode finds at a node other than the root; '\0' is also decode's not-found value. */
  ghost predicate EncodableChar(t: Trie, c: char)
    requires [] in t
  {
    c != ' ' && c != Blank && c != t[[]] && Holds(t, c)
  }

  /** A text whose every character is a space or encodable once upper-cased. */
  ghost predicate EncodableText(t: Trie, s: string)
    requires [] in t
  {
    forall i | 0 <= i < |s| :: s[i] == ' ' || EncodableChar(t, UpperChar(s[i]))
  }

  /** An encodable word: no space, and every character encodable once upper-cased. */
  ghost predicate Encodable(t: Trie, w: string)
    requires [] in t
  {
    forall i | 0 <= i < |w| :: w[i] != ' ' && EncodableChar(t, UpperChar(w[i]))
  }

  /** Each token of an encodable text is "/" for a space, otherwise the non-empty code of a node holding its character. */
  lemma TextTokens(t: Trie, w: string)
    requires WellFormed(t) && EncodableText(t, w)
    ensures var u, ks := ToUpperCase(w), EncodeTokens(t, ToUpperCase(w));
      forall i | 0 <= i < |ks| ::
        && (u[i] == ' ' ==> ks[i] == "/")
        && (u[i] != ' ' ==> ks[i] != [] && IsCode(ks[i]) && ks[i] in t && t[ks[i]] == u[i])
  {
    var u := ToUpperCase(w);
    var ks := EncodeTokens(t, u);
    forall i | 0 <= i < |ks| && u[i] != ' '
      ensures ks[i] != [] && IsCode(ks[i]) && ks[i] in t && t[ks[i]] == u[i]
    {
      assert EncodableChar(t, u[i]);
      HoldsHasFirst(t, u[i]);
      var p :| IsFirstHolder(t, u[i], p);
      EncodeCharFound(t, u[i], p);
    }
  }

  /** A non-empty encodable text encodes to its tokens joined by single spaces. */
  lemma EncodeJoin(t: Trie, w: string)
    requires WellFormed(t) && w != [] && EncodableText(t, w)
    ensures EncodeText(t, w) == Join(EncodeTokens(t, ToUpperCase(w)))
  {
    var u := ToUpperCase(w);
    var ks := EncodeTokens(t, u);
    TextTokens(t, w);
    EncodeRawJoin(t, u);
    JoinNonEmpty(ks);
    var j := Join(ks);
    var last := ks[|ks| - 1];
    assert !IsTrimmed(ks[0][0]) && !IsTrimmed(last[|last| - 1]) by {
      assert u[0] != ' ' ==> IsSymbol(ks[0][0]);
      assert u[|u| - 1] != ' ' ==> IsSymbol(last[|last| - 1]);
    }
    TrimDropsTrailingSpace(j);
  }

  /** Decoding the codes of existing nodes, token by token, gives back the characters they hold. */
  lemma DecodeCodes(t: Trie, ks: seq<string>, u: string)
    requires |ks| == |u|
    requires forall i | 0 <= i < |ks| :: IsCode(ks[i]) && ks[i] in t && t[ks[i]] == u[i] && u[i] != Blank
    ensures DecodeTokens(t, ks) == u
  {
    var r := DecodeTokens(t, ks);
    forall i | 0 <= i < |ks| ensures r[i] == u[i] {
      SteerOfCode(ks[i]);
    }
  }

  /** Decoding the codes of non-root nodes, joined by single spaces, gives back the characters they hold. */
  lemma DecodeJoin(t: Trie, ks: seq<string>, u: string)
    requires ks != [] && |ks| == |u|
    requires forall i | 0 <= i < |ks| :: ks[i] != [] && IsCode(ks[i]) && ks[i] in t && t[ks[i]] == u[i] && u[i] != Blank
    ensures DecodeText(t, Join(ks)) == u
  {
    SplitJoinedCodes(ks);
    DecodeCodes(t, ks, u);
  }

  /** Codes joined by single spaces split back into the same codes: no symbol is trimmed. */
  lemma SplitJoinedCodes(ks: seq<string>)
    requires ks != []
    requires forall i | 0 <= i < |ks| :: ks[i] != [] && IsCode(ks[i])
    ensures Split(Trim(Join(ks))) == ks
  {
    forall i, k | 0 <= i < |ks| && 0 <= k < |ks[i]| ensures !IsTrimmed(ks[i][k]) {
      assert IsSymbol(ks[i][k]);
    }
    SplitTrimJoin(ks);
  }

  /**
    Encoding a word and decoding the result gives the upper-cased word back, when
    the word has no space and each of its upper-cased characters is held by some
    node other than the root, none being '\0'. A character found first at the root
    encodes as the empty token, which `trim` removes at either end of the text.
  */
  lemma RoundTrip(t: Trie, w: string)
    requires WellFormed(t) && w != [] && Encodable(t, w)
    ensures DecodeText(t, EncodeText(t, w)) == ToUpperCase(w)
  {
    var u := ToUpperCase(w);
    assert EncodableText(t, w);
    TextTokens(t, w);
    EncodeJoin(t, w);
    DecodeJoin(t, EncodeTokens(t, u), u);
  }

  /** Every decoded character is '?' or the payload of some node. */
  lemma DecodedChars(t: Trie, morseText: string)
    ensures var r := DecodeText(t, morseText);
      forall i | 0 <= i < |r| :: r[i] == '?' || Holds(t, r[i])
  {
    var ks := Split(Trim(morseText));
    var r := DecodeText(t, morseText);
    forall i | 0 <= i < |r| && r[i] != '?' ensures Holds(t, r[i]) {
      var p := Steer(ks[i]);
      assert p in t && t[p] == r[i];
    }
  }
}
