/**
  The input checks of the text menu and the facts about the fixed strings of the
  worked examples, kept apart from the trie so that they are read off the literals.
*/
module MenuInput {
  import opened MorseSpec
  import opened JavaText

  /** `matches("[.-]+")`. */
  predicate IsMorseCode(s: string): (b: bool)
    ensures b ==> Reach(s) == |s| && Steer(s) == s
  {
    if s != [] && IsCode(s) then
      ReachOfCode(s);
      SteerOfCode(s);
      true
    else
      false
  }

  /** `matches("[a-zA-Z ]+")`. */
  predicate IsPlainText(s: string): (b: bool)
    ensures b ==> var u := ToUpperCase(s);
      forall i | 0 <= i < |u| :: 'A' <= u[i] <= 'Z' || u[i] == ' '
  {
    s != [] && forall i | 0 <= i < |s| :: IsLetter(s[i]) || s[i] == ' '
  }

  /** `matches("[.\\- /]+")`. */
  predicate IsMorseText(s: string): (b: bool)
    ensures IsMorseCode(s) ==> b
    ensures b && IsPlainText(s) ==> forall i | 0 <= i < |s| :: s[i] == ' '
  {
    s != [] && forall i | 0 <= i < |s| :: IsSymbol(s[i]) || s[i] == ' ' || s[i] == '/'
  }

  /** The word "sos": accepted at the encode prompt, no space, upper-cased "SOS". */
  lemma SosInput()
    ensures IsPlainText("sos") && HasNoSpace("sos") && ToUpperCase("sos") == "SOS"
    ensures UpperChar('s') == 'S' && UpperChar('o') == 'O'
    ensures Join(["...", "---", "..."]) == "... --- ..."
  {
  }

  /** The two words "s s": accepted at the encode prompt, upper-cased "S S". */
  lemma SpacedInput()
    ensures IsPlainText("s s") && ToUpperCase("s s") == "S S"
    ensures Join(["...", "/", "..."]) == "... / ..."
    ensures IsMorseText("... / ...")
  {
  }

  lemma JoinFive(a: string, b: string, c: string, d: string, e: string)
    ensures Join([a, b, c, d, e]) == a + " " + b + " " + c + " " + d + " " + e
  {
    assert [a] + [b] == [a, b];
    JoinSnoc([a], b);
    assert [a, b] + [c] == [a, b, c];
    JoinSnoc([a, b], c);
    assert [a, b, c] + [d] == [a, b, c, d];
    JoinSnoc([a, b, c], d);
    assert [a, b, c, d] + [e] == [a, b, c, d, e];
    JoinSnoc([a, b, c, d], e);
  }

  /** The five tokens around the word "space", joined by single spaces. */
  lemma SeparatorJoined()
    ensures Join(["...", "", "space", "", "..."]) == "... " + (" space " + " ...")
  {
    JoinFive("...", "", "space", "", "...");
    assert "..." + " " + "" + " " + "space" + " " + "" + " " + "..." == "... " + (" space " + " ...");
  }

  /** Replacing the separator in "... / ..." leaves a doubled space on each side of the word "space". */
  lemma SeparatorReplaced()
    ensures Replace("... / ...", "/", " space ") == Join(["...", "", "space", "", "..."])
  {
    var tail := Replace(" ...", "/", " space ");
    assert tail == " ..." by {
      ReplaceAbsent(" ...", "/", " space ");
    }
    var middle := Replace("/ ...", "/", " space ");
    assert middle == " space " + tail by {
      assert "/ ..." == "/" + " ...";
      ReplaceAtFront(" ...", "/", " space ");
    }
    assert Replace("... / ...", "/", " space ") == "... " + middle by {
      assert "... / ..." == "... " + "/ ...";
      ReplaceAfterPrefix("... ", "/ ...", "/", " space ");
    }
    SeparatorJoined();
  }

  /** `decode` splits that text into five tokens, two of them empty. */
  lemma SeparatorTokens()
    ensures Split(Trim(Join(["...", "", "space", "", "..."]))) == ["...", "", "space", "", "..."]
  {
    var ks := ["...", "", "space", "", "..."];
    SeparatorJoined();
    TrimKeeps(Join(ks));
    PiecesOfJoin(ks);
  }

  /** Where decoding steers those tokens: the word "space" along five dashes. */
  lemma SeparatorSteers()
    ensures Steer("...") == "..." && Steer("") == "" && Steer("space") == "-----"
  {
  }

  lemma SeparatorDecoded(r: string)
    requires |r| == 5 && r[0] == 'S' && r[1] == '?' && r[2] == '0' && r[3] == '?' && r[4] == 'S'
    ensures r == "S?0?S"
  {
  }
}
