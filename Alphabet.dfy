/**
  The standard alphabet that both the menu and the visualizer load: 26 letters
  and 10 digits with their International Morse codes, inserted in this order.
*/
module MorseAlphabet {
  import opened MorseSpec

  /** The 36 default entries, in insertion order: shorter codes first. */
  const Defaults: seq<(char, string)> := [
    ('E', "."), ('T', "-"),
    ('I', ".."), ('A', ".-"),
    ('N', "-."), ('M', "--"),
    ('S', "..."), ('U', "..-"),
    ('R', ".-."), ('W', ".--"),
    ('D', "-.."), ('K', "-.-"),
    ('G', "--."), ('O', "---"),
    ('H', "...."), ('V', "...-"),
    ('F', "..-."), ('L', ".-.."),
    ('P', ".--."), ('J', ".---"),
    ('B', "-..."), ('X', "-..-"),
    ('C', "-.-."), ('Y', "-.--"),
    ('Z', "--.."), ('Q', "--.-"),
    ('1', ".----"), ('2', "..---"),
    ('3', "...--"), ('4', "....-"),
    ('5', "....."), ('6', "-...."),
    ('7', "--..."), ('8', "---.."),
    ('9', "----."), ('0', "-----")
  ]

  /** Position of a default character in the table, or -1. */
  function CharIndex(c: char): int
  {
    match c
    case 'E' => 0
    case 'T' => 1
    case 'I' => 2
    case 'A' => 3
    case 'N' => 4
    case 'M' => 5
    case 'S' => 6
    case 'U' => 7
    case 'R' => 8
    case 'W' => 9
    case 'D' => 10
    case 'K' => 11
    case 'G' => 12
    case 'O' => 13
    case 'H' => 14
    case 'V' => 15
    case 'F' => 16
    case 'L' => 17
    case 'P' => 18
    case 'J' => 19
    case 'B' => 20
    case 'X' => 21
    case 'C' => 22
    case 'Y' => 23
    case 'Z' => 24
    case 'Q' => 25
    case '1' => 26
    case '2' => 27
    case '3' => 28
    case '4' => 29
    case '5' => 30
    case '6' => 31
    case '7' => 32
    case '8' => 33
    case '9' => 34
    case '0' => 35
    case _ => -1
  }

  function Bit(c: char): int
  {
    if c == '-' then 1 else 0
  }

  /** The symbols of a code of at most five symbols read as a binary number after a leading 1. */
  function Num(code: string): int
  {
    if |code| == 0 then 1
    else if |code| == 1 then 2 + Bit(code[0])
    else if |code| == 2 then 4 + 2 * Bit(code[0]) + Bit(code[1])
    else if |code| == 3 then 8 + 4 * Bit(code[0]) + 2 * Bit(code[1]) + Bit(code[2])
    else if |code| == 4 then 16 + 8 * Bit(code[0]) + 4 * Bit(code[1]) + 2 * Bit(code[2]) + Bit(code[3])
    else if |code| == 5 then 32 + 16 * Bit(code[0]) + 8 * Bit(code[1]) + 4 * Bit(code[2]) + 2 * Bit(code[3]) + Bit(code[4])
    else 0
  }

  /** Position of a default code in the table, by its number, or -1. */
  function CodeIndex(code: string): int
  {
    match Num(code)
    case 2 => 0
    case 3 => 1
    case 4 => 2
    case 5 => 3
    case 6 => 4
    case 7 => 5
    case 8 => 6
    case 9 => 7
    case 10 => 8
    case 11 => 9
    case 12 => 10
    case 13 => 11
    case 14 => 12
    case 15 => 13
    case 16 => 14
    case 17 => 15
    case 18 => 16
    case 20 => 17
    case 22 => 18
    case 23 => 19
    case 24 => 20
    case 25 => 21
    case 26 => 22
    case 27 => 23
    case 28 => 24
    case 29 => 25
    case 47 => 26
    case 39 => 27
    case 35 => 28
    case 33 => 29
    case 32 => 30
    case 48 => 31
    case 56 => 32
    case 60 => 33
    case 62 => 34
    case 63 => 35
    case _ => -1
  }

  /** `c` is not the character of any default entry. */
  ghost predicate NotDefault(c: char)
  {
    forall j | 0 <= j < |Defaults| :: Defaults[j].0 != c
  }

  /** Every default code is a non-empty code of at most five symbols. */
  lemma DefaultCodesShape()
    ensures forall i | 0 <= i < |Defaults| :: Defaults[i].1 != [] && |Defaults[i].1| <= 5 && IsCode(Defaults[i].1)
  {
  }

  lemma CharsIndexed()
    ensures forall i | 0 <= i < |Defaults| :: CharIndex(Defaults[i].0) == i
  {
  }

  lemma CodesIndexedA()
    ensures forall i | 0 <= i < 9 :: CodeIndex(Defaults[i].1) == i
  {
  }

  lemma CodesIndexedB()
    ensures forall i | 9 <= i < 18 :: CodeIndex(Defaults[i].1) == i
  {
  }

  lemma CodesIndexedC()
    ensures forall i | 18 <= i < 27 :: CodeIndex(Defaults[i].1) == i
  {
  }

  lemma CodesIndexedD()
    ensures forall i | 27 <= i < 32 :: CodeIndex(Defaults[i].1) == i
  {
  }

  lemma CodesIndexedE()
    ensures forall i | 32 <= i < 36 :: CodeIndex(Defaults[i].1) == i
  {
  }

  lemma CodesIndexed()
    ensures forall i | 0 <= i < |Defaults| :: CodeIndex(Defaults[i].1) == i
  {
    CodesIndexedA();
    CodesIndexedB();
    CodesIndexedC();
    CodesIndexedD();
    CodesIndexedE();
  }

  /** No character occurs twice in the table. */
  lemma DefaultCharsDistinct()
    ensures forall i, j | 0 <= i < j < |Defaults| :: Defaults[i].0 != Defaults[j].0
  {
    CharsIndexed();
  }

  /** No code occurs twice in the table. */
  lemma DefaultCodesDistinct()
    ensures forall i, j | 0 <= i < j < |Defaults| :: Defaults[i].1 != Defaults[j].1
  {
    CodesIndexed();
  }

  lemma NotDefaultByIndex(c: char)
    requires CharIndex(c) == -1
    ensures NotDefault(c)
  {
    CharsIndexed();
  }

  /** The two waypoint payloads of the program and the lower-case 's' are not default characters. */
  lemma MarksNotDefault()
    ensures NotDefault('\0') && NotDefault(' ') && NotDefault('s')
  {
    NotDefaultByIndex('\0');
    NotDefaultByIndex(' ');
    NotDefaultByIndex('s');
  }

  /** The trie after the 36 default insertions into a lone root holding `blank`. */
  function DefaultTrie(blank: char): Trie
  {
    InsertAll(map[[] := blank], Defaults, blank)
  }

  lemma DefaultWellFormed(blank: char)
    ensures WellFormed(DefaultTrie(blank))
  {
    InsertAllWellFormed(map[[] := blank], Defaults, blank);
  }

  /** The nodes after the defaults: the root and every prefix of a default code. */
  lemma DefaultKeys(blank: char)
    ensures forall p :: p in DefaultTrie(blank) <==> p == [] || exists j | 0 <= j < |Defaults| :: p <= Defaults[j].1
  {
    DefaultCodesShape();
    InsertAllKeys(map[[] := blank], Defaults, blank);
  }

  /** After the defaults, each default code leads to its own character. */
  lemma DefaultAt(blank: char, i: int)
    requires 0 <= i < |Defaults|
    ensures Defaults[i].1 in DefaultTrie(blank) && DefaultTrie(blank)[Defaults[i].1] == Defaults[i].0
  {
    DefaultCodesShape();
    DefaultCodesDistinct();
    InsertAllLookup(map[[] := blank], Defaults, blank, i);
  }

  /** After the defaults, a node holds `blank` or is the node of a default entry holding its character. */
  lemma DefaultPayload(blank: char, p: string)
    requires p in DefaultTrie(blank)
    ensures var v := DefaultTrie(blank)[p];
      v == blank || exists j | 0 <= j < |Defaults| :: Defaults[j] == (v, p)
  {
    InsertAllOrigin(map[[] := blank], Defaults, blank, p);
  }

  /** The root keeps `blank`: no default code is empty. */
  lemma DefaultRoot(blank: char)
    ensures [] in DefaultTrie(blank) && DefaultTrie(blank)[[]] == blank
  {
    DefaultWellFormed(blank);
    DefaultCodesShape();
    DefaultPayload(blank, []);
  }

  lemma LongestCode()
    ensures |Defaults[30].1| == 5
  {
  }

  /** The longest default codes have five symbols, so the tree has six levels. */
  lemma DefaultHeight(blank: char)
    ensures IsHeight(DefaultTrie(blank), 6)
  {
    var t := DefaultTrie(blank);
    DefaultKeys(blank);
    DefaultCodesShape();
    forall p | p in t ensures |p| < 6 {
      if p != [] {
        var j :| 0 <= j < |Defaults| && p <= Defaults[j].1;
      }
    }
    DefaultAt(blank, 30);
    LongestCode();
  }

  /** A default character other than `blank` is held only at its own code, which is therefore its first holder. */
  lemma DefaultFirstHolder(blank: char, i: int)
    requires 0 <= i < |Defaults| && NotDefault(blank)
    ensures IsFirstHolder(DefaultTrie(blank), Defaults[i].0, Defaults[i].1)
  {
    var t, c := DefaultTrie(blank), Defaults[i].0;
    DefaultAt(blank, i);
    DefaultCharsDistinct();
    forall q | q in t && t[q] == c ensures PreorderBefore(Defaults[i].1, q) {
      DefaultPayload(blank, q);
      assert c != blank;
      var j :| 0 <= j < |Defaults| && Defaults[j] == (c, q);
      assert j == i;
      PrefixPrecedes(q, q);
    }
  }

  /** After the defaults, a character that is neither a default character nor `blank` is held by no node. */
  lemma DefaultLacks(blank: char, c: char)
    requires NotDefault(c) && c != blank
    ensures !Holds(DefaultTrie(blank), c)
  {
    var t := DefaultTrie(blank);
    forall p | p in t ensures t[p] != c {
      DefaultPayload(blank, p);
    }
  }

  lemma WaypointCode()
    ensures "..--" != [] && IsCode("..--")
    ensures "..--" <= Defaults[27].1
    ensures forall j | 0 <= j < |Defaults| :: Defaults[j].1 != "..--"
  {
    CodesIndexed();
    assert CodeIndex("..--") == -1;
  }

  /** The node "..--" exists, as a waypoint on the way to the code of '2', and holds `blank`. */
  lemma DefaultWaypoint(blank: char)
    ensures "..--" in DefaultTrie(blank) && DefaultTrie(blank)["..--"] == blank
  {
    DefaultKeys(blank);
    WaypointCode();
    DefaultPayload(blank, "..--");
  }

  /** Every default character is an upper-case letter or a digit. */
  lemma DefaultCharsAlnum()
    ensures forall i | 0 <= i < |Defaults| :: 'A' <= Defaults[i].0 <= 'Z' || '0' <= Defaults[i].0 <= '9'
  {
  }

  /** Every upper-case letter and every digit is a default character: the table is the whole alphabet. */
  lemma AlnumIsDefault(c: char)
    requires 'A' <= c <= 'Z' || '0' <= c <= '9'
    ensures 0 <= CharIndex(c) < |Defaults| && Defaults[CharIndex(c)].0 == c
  {
  }

  /** The entries the worked examples use: 'S', 'O' and '0'. */
  lemma ExampleEntries()
    ensures Defaults[6] == ('S', "...") && Defaults[13] == ('O', "---") && Defaults[35] == ('0', "-----")
  {
  }
}
