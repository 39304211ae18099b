/**
  The few `java.lang.String` operations the program relies on, on `seq<char>`:
  ASCII upper-casing, `trim`, `split(" ")`, `replace` and the character classes
  of the menu's regular expressions.
*/
module JavaText {

  /** `toUpperCase` on one character, restricted to ASCII letters. */
  function UpperChar(c: char): (u: char)
    ensures 'a' <= c <= 'z' ==> u as int == c as int - 32
    ensures !('a' <= c <= 'z') ==> u == c
  {
    if 'a' <= c <= 'z' then (c as int - 32) as char else c
  }

  /** `toUpperCase` on a string, restricted to ASCII letters. */
  function ToUpperCase(s: string): (u: string)
    ensures |u| == |s| && forall i | 0 <= i < |s| :: u[i] == UpperChar(s[i])
  {
    seq(|s|, i requires 0 <= i < |s| => UpperChar(s[i]))
  }

  /** `trim` removes every leading and trailing character up to and including ' '. */
  predicate IsTrimmed(c: char)
  {
    c <= ' '
  }

  /** `trim`'s left end: the suffix after the leading characters up to ' '. */
  function TrimStart(s: string): (r: string)
    ensures |r| <= |s| && r == s[|s| - |r|..]
    ensures forall i | 0 <= i < |s| - |r| :: IsTrimmed(s[i])
    ensures r != [] ==> !IsTrimmed(r[0])
    decreases |s|
  {
    if s != [] && IsTrimmed(s[0]) then TrimStart(s[1..]) else s
  }

  /** `trim`'s right end: the prefix before the trailing characters up to ' '. */
  function TrimEnd(s: string): (r: string)
    ensures r <= s
    ensures forall i | |r| <= i < |s| :: IsTrimmed(s[i])
    ensures r != [] ==> !IsTrimmed(r[|r| - 1])
    decreases |s|
  {
    if s != [] && IsTrimmed(s[|s| - 1]) then TrimEnd(s[..|s| - 1]) else s
  }

  /** `trim`: the result starts and ends with a character above ' ', or is empty. */
  function Trim(s: string): (r: string)
    ensures |r| <= |s|
    ensures r != [] ==> !IsTrimmed(r[0]) && !IsTrimmed(r[|r| - 1])
  {
    TrimEnd(TrimStart(s))
  }

  /**
    `trim` removes exactly the blanks at both ends: a text with no blank at
    either end, padded on both sides with characters up to ' ', trims back to it.
  */
  lemma TrimPadded(a: string, m: string, b: string)
    requires forall i | 0 <= i < |a| :: IsTrimmed(a[i])
    requires forall i | 0 <= i < |b| :: IsTrimmed(b[i])
    requires m != [] ==> !IsTrimmed(m[0]) && !IsTrimmed(m[|m| - 1])
    ensures Trim(a + m + b) == m
  {
    if m == [] {
      var ab := a + b;
      assert forall i | 0 <= i < |ab| :: IsTrimmed(ab[i]);
      TrimStartPadded(ab, []);
      assert a + m + b == ab + [];
    } else {
      TrimStartPadded(a, m + b);
      assert a + m + b == a + (m + b);
      TrimEndPadded(m, b);
    }
  }

  /** Leading blanks before a text that does not start with one are exactly what `trim` removes at the start. */
  lemma {:induction false} TrimStartPadded(a: string, x: string)
    requires forall i | 0 <= i < |a| :: IsTrimmed(a[i])
    requires x != [] ==> !IsTrimmed(x[0])
    ensures TrimStart(a + x) == x
    decreases |a|
  {
    if a == [] {
      assert a + x == x;
    } else {
      assert (a + x)[0] == a[0];
      assert (a + x)[1..] == a[1..] + x;
      TrimStartPadded(a[1..], x);
    }
  }

  /** Trailing blanks after a text that does not end with one are exactly what `trim` removes at the end. */
  lemma {:induction false} TrimEndPadded(x: string, b: string)
    requires forall i | 0 <= i < |b| :: IsTrimmed(b[i])
    requires x != [] ==> !IsTrimmed(x[|x| - 1])
    ensures TrimEnd(x + b) == x
    decreases |b|
  {
    if b == [] {
      assert x + b == x;
    } else {
      var s := x + b;
      assert s[|s| - 1] == b[|b| - 1];
      assert s[..|s| - 1] == x + b[..|b| - 1];
      TrimEndPadded(x, b[..|b| - 1]);
    }
  }

  /** A string without leading or trailing blanks is left alone by `trim`. */
  lemma TrimKeeps(s: string)
    requires s != [] ==> !IsTrimmed(s[0]) && !IsTrimmed(s[|s| - 1])
    ensures Trim(s) == s
  {
  }

  /** Trailing blanks are what `trim` removes at the end. */
  lemma {:induction false} TrimDropsTrailingSpace(s: string)
    requires s != [] ==> !IsTrimmed(s[0]) && !IsTrimmed(s[|s| - 1])
    ensures Trim(s + " ") == s
  {
    var t := s + " ";
    assert t[..|t| - 1] == s;
    if s == [] {
      assert TrimStart(t) == [];
    } else {
      assert t[0] == s[0];
      assert TrimStart(t) == t;
      assert TrimEnd(t) == TrimEnd(s);
    }
  }

  /**
    The pieces of `s` between its ' ' characters, empty pieces included:
    one more piece than `s` has spaces.
  */
  function Pieces(s: string): (r: seq<string>)
    ensures |r| >= 1
    decreases |s|
  {
    if s == [] then [""]
    else
      var front := Pieces(s[..|s| - 1]);
      if s[|s| - 1] == ' ' then front + [""]
      else front[..|front| - 1] + [front[|front| - 1] + [s[|s| - 1]]]
  }

  /** The pieces without their trailing run of empty pieces. */
  function DropTrailingEmpty(r: seq<string>): (d: seq<string>)
    ensures d <= r
    ensures forall i | |d| <= i < |r| :: r[i] == ""
    ensures d != [] ==> d[|d| - 1] != ""
  {
    if r != [] && r[|r| - 1] == "" then DropTrailingEmpty(r[..|r| - 1]) else r
  }

  /**
    `split(" ")`: the pieces between single spaces, interior empty pieces kept,
    trailing empty pieces dropped; `""` splits into `[""]`.
  */
  function Split(s: string): (r: seq<string>)
    ensures s == [] ==> r == [""]
    ensures s != [] ==> r <= Pieces(s) && forall i | |r| <= i < |Pieces(s)| :: Pieces(s)[i] == ""
    ensures s != [] && r != [] ==> r[|r| - 1] != ""
  {
    if s == [] then [""] else DropTrailingEmpty(Pieces(s))
  }

  predicate HasNoSpace(k: string)
  {
    forall i | 0 <= i < |k| :: k[i] != ' '
  }

  /** Tokens joined by single spaces. */
  function Join(ks: seq<string>): (r: string)
    ensures ks != [] ==> ks[0] <= r
    decreases |ks|
  {
    if ks == [] then ""
    else if |ks| == 1 then ks[0]
    else Join(ks[..|ks| - 1]) + " " + ks[|ks| - 1]
  }

  /** Appending a piece without spaces extends the last piece. */
  lemma {:induction false} PiecesAppendWord(s: string, k: string)
    requires HasNoSpace(k)
    ensures var p := Pieces(s + k);
            var q := Pieces(s);
            p == q[..|q| - 1] + [q[|q| - 1] + k]
    decreases |k|
  {
    if k == [] {
      assert s + k == s;
      var q := Pieces(s);
      assert q[|q| - 1] + k == q[|q| - 1];
      assert q[..|q| - 1] + [q[|q| - 1]] == q;
    } else {
      var k', last := k[..|k| - 1], k[|k| - 1];
      assert HasNoSpace(k');
      assert (s + k)[..|s + k| - 1] == s + k';
      assert (s + k)[|s + k| - 1] == last && last != ' ';
      PiecesAppendWord(s, k');
      var q, front := Pieces(s), Pieces(s + k');
      assert front[..|front| - 1] == q[..|q| - 1];
      assert front[|front| - 1] + [last] == q[|q| - 1] + k;
    }
  }

  /** A piece without spaces is a single piece. */
  lemma PiecesOfWord(k: string)
    requires HasNoSpace(k)
    ensures Pieces(k) == [k]
  {
    PiecesAppendWord([], k);
    assert [] + k == k;
  }

  /** A trailing space starts a new, empty piece. */
  lemma PiecesAfterSpace(s: string)
    ensures Pieces(s + " ") == Pieces(s) + [""]
  {
    assert (s + " ")[..|s|] == s;
  }

  /** Splitting tokens joined by single spaces gives the tokens back, when none holds a space. */
  lemma {:induction false} PiecesOfJoin(ks: seq<string>)
    requires ks != []
    requires forall i | 0 <= i < |ks| :: HasNoSpace(ks[i])
    ensures Pieces(Join(ks)) == ks
    decreases |ks|
  {
    var k := ks[|ks| - 1];
    assert HasNoSpace(k);
    if |ks| == 1 {
      PiecesOfWord(k);
    } else {
      var front := ks[..|ks| - 1];
      assert forall i | 0 <= i < |front| :: front[i] == ks[i];
      PiecesOfJoin(front);
      var j := Join(front) + " ";
      PiecesAfterSpace(Join(front));
      PiecesAppendWord(j, k);
      assert Join(ks) == j + k;
      var q := Pieces(j);
      assert q[..|q| - 1] == front && q[|q| - 1] + k == k;
      FrontAndLast(ks);
    }
  }

  /** A non-empty sequence is its front followed by its last element. */
  lemma FrontAndLast<T>(s: seq<T>)
    requires s != []
    ensures s[..|s| - 1] + [s[|s| - 1]] == s
  {
  }

  lemma SplitOfJoin(ks: seq<string>)
    requires ks != []
    requires forall i | 0 <= i < |ks| :: ks[i] != [] && HasNoSpace(ks[i])
    ensures Split(Join(ks)) == ks
  {
    PiecesOfJoin(ks);
    JoinNonEmpty(ks);
  }

  /** Non-empty tokens of characters above ' ', joined by single spaces, survive `trim` and `split(" ")`. */
  lemma SplitTrimJoin(ks: seq<string>)
    requires ks != []
    requires forall i | 0 <= i < |ks| :: ks[i] != [] && forall k | 0 <= k < |ks[i]| :: !IsTrimmed(ks[i][k])
    ensures Split(Trim(Join(ks))) == ks
  {
    JoinNonEmpty(ks);
    var last := ks[|ks| - 1];
    assert !IsTrimmed(ks[0][0]) && !IsTrimmed(last[|last| - 1]);
    TrimKeeps(Join(ks));
    SplitOfJoin(ks);
  }

  /** Joining non-empty tokens: the result starts with the first token and ends with the last. */
  lemma {:induction false} JoinNonEmpty(ks: seq<string>)
    requires ks != []
    requires forall i | 0 <= i < |ks| :: ks[i] != []
    ensures var j := Join(ks);
            j != [] && j[0] == ks[0][0] && j[|j| - 1] == ks[|ks| - 1][|ks[|ks| - 1]| - 1]
    decreases |ks|
  {
    if |ks| > 1 {
      JoinNonEmpty(ks[..|ks| - 1]);
    }
  }

  /** Joining one more token appends a space and the token. */
  lemma JoinSnoc(ks: seq<string>, k: string)
    requires ks != []
    ensures Join(ks + [k]) == Join(ks) + " " + k
  {
    assert (ks + [k])[..|ks|] == ks;
  }

  /** Every character of `s` is a space or drawn from `alphabet`. */
  predicate SpacedOver(s: string, alphabet: set<char>)
  {
    forall i | 0 <= i < |s| :: s[i] == ' ' || s[i] in alphabet
  }

  lemma SpacedOverConcat(a: string, b: string, alphabet: set<char>)
    requires SpacedOver(a, alphabet) && SpacedOver(b, alphabet)
    ensures SpacedOver(a + b, alphabet)
  {
    forall i | 0 <= i < |a + b| ensures (a + b)[i] == ' ' || (a + b)[i] in alphabet {
      if i < |a| {
        assert (a + b)[i] == a[i];
      } else {
        assert (a + b)[i] == b[i - |a|];
      }
    }
  }

  /** Joining adds only spaces: every character of the result is a space or drawn from the tokens' alphabet. */
  lemma {:induction false} JoinAlphabet(ks: seq<string>, alphabet: set<char>)
    requires forall i, k | 0 <= i < |ks| && 0 <= k < |ks[i]| :: ks[i][k] in alphabet
    ensures SpacedOver(Join(ks), alphabet)
    decreases |ks|
  {
    if ks != [] {
      var last := ks[|ks| - 1];
      assert SpacedOver(last, alphabet) by {
        forall k | 0 <= k < |last| ensures last[k] in alphabet {
          assert ks[|ks| - 1][k] in alphabet;
        }
      }
      if |ks| > 1 {
        var front := ks[..|ks| - 1];
        assert forall i | 0 <= i < |front| :: front[i] == ks[i];
        JoinAlphabet(front, alphabet);
        SpacedOverConcat(Join(front), " ", alphabet);
        SpacedOverConcat(Join(front) + " ", last, alphabet);
      }
    }
  }

  /** `replace(target, replacement)`: every occurrence of `target`, left to right, without overlaps. */
  function Replace(s: string, target: string, replacement: string): (r: string)
    requires target != []
    ensures replacement == target ==> r == s
    ensures |replacement| == |target| ==> |r| == |s|
    decreases |s|
  {
    if |s| < |target| then s
    else if s[..|target|] == target then replacement + Replace(s[|target|..], target, replacement)
    else [s[0]] + Replace(s[1..], target, replacement)
  }

  /** A string in which the first character of `target` never occurs contains no occurrence to replace. */
  lemma {:induction false} ReplaceAbsent(s: string, target: string, replacement: string)
    requires target != [] && forall i | 0 <= i < |s| :: s[i] != target[0]
    ensures Replace(s, target, replacement) == s
    decreases |s|
  {
    if |s| >= |target| {
      assert s[..|target|][0] == s[0];
      ReplaceAbsent(s[1..], target, replacement);
      assert s == [s[0]] + s[1..];
    }
  }

  predicate IsLetter(c: char)
  {
    'a' <= c <= 'z' || 'A' <= c <= 'Z'
  }

  /** Replacing a one-character target: a prefix free of it is copied unchanged. */
  lemma {:induction false} ReplaceAfterPrefix(a: string, b: string, target: string, replacement: string)
    requires |target| == 1 && forall i | 0 <= i < |a| :: a[i] != target[0]
    ensures Replace(a + b, target, replacement) == a + Replace(b, target, replacement)
    decreases |a|
  {
    if a != [] {
      var s := a + b;
      assert s[0] == a[0] && s[..1] == [a[0]] && s[..1] != target && s[1..] == a[1..] + b;
      assert forall i | 0 <= i < |a[1..]| :: a[1..][i] == a[i + 1];
      ReplaceAfterPrefix(a[1..], b, target, replacement);
      assert Replace(s, target, replacement) == [a[0]] + Replace(a[1..] + b, target, replacement);
      var rest := Replace(b, target, replacement);
      assert a + rest == [a[0]] + (a[1..] + rest);
    } else {
      assert a + b == b;
    }
  }

  /** Replacing a one-character target at the front of the text. */
  lemma ReplaceAtFront(b: string, target: string, replacement: string)
    requires |target| == 1
    ensures Replace(target + b, target, replacement) == replacement + Replace(b, target, replacement)
  {
    var s := target + b;
    assert s[..1] == target && s[1..] == b;
  }
}
