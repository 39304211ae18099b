/**
  The abstract view of a Morse prefix trie.

  A trie is described by the map `t` from the path of every node that exists
  (a string over '.' and '-', the root being the empty path) to the one-character
  payload that node holds.  Both trees of the program (`MorseTree` and the
  visualizer's `MorseBST`) are proved against the functions of this module.
*/
module MorseSpec {

  /** Path of every existing node, mapped to the payload it holds. */
  type Trie = map<string, char>

  datatype Option<T> = None | Some(value: T)

  predicate IsSymbol(c: char)
  {
    c == '.' || c == '-'
  }

  /** A code is a string over the two Morse symbols. */
  predicate IsCode(s: string)
  {
    forall i | 0 <= i < |s| :: IsSymbol(s[i])
  }

  /** The longest leading part of `code` made of Morse symbols: insertion walks exactly that far. */
  function Reach(code: string): (n: nat)
    ensures n <= |code| && IsCode(code[..n])
    ensures n < |code| ==> !IsSymbol(code[n])
  {
    if code == [] || !IsSymbol(code[0]) then 0
    else
      var n := 1 + Reach(code[1..]);
      assert forall i | 1 <= i < n :: code[..n][i] == code[1..][..n - 1][i - 1];
      n
  }

  lemma {:induction false} ReachOfCode(s: string)
    requires IsCode(s)
    ensures Reach(s) == |s|
  {
    if s != [] {
      assert IsCode(s[1..]) by {
        forall i | 0 <= i < |s[1..]| ensures IsSymbol(s[1..][i]) {
          assert s[1..][i] == s[i + 1];
        }
      }
      ReachOfCode(s[1..]);
    }
  }

  /** Reach over a prefix that is already a code. */
  lemma {:induction false} ReachAppend(a: string, b: string)
    requires IsCode(a)
    ensures Reach(a + b) == |a| + Reach(b)
  {
    if a != [] {
      assert (a + b)[0] == a[0];
      assert (a + b)[1..] == a[1..] + b;
      assert IsCode(a[1..]) by {
        forall i | 0 <= i < |a[1..]| ensures IsSymbol(a[1..][i]) {
          assert a[1..][i] == a[i + 1];
        }
      }
      ReachAppend(a[1..], b);
    } else {
      assert a + b == b;
    }
  }

  /** The paths of the nodes insertion visits (the root included) when it follows `code`. */
  function Walked(code: string): (w: set<string>)
    ensures forall p :: p in w <==> p <= code && |p| <= Reach(code)
  {
    var w := set i | 0 <= i <= Reach(code) :: code[..i];
    assert forall p | p <= code && |p| <= Reach(code) :: p == code[..|p|];
    w
  }

  /**
    The shape every trie built from a single root by insertion has: the root exists,
    every path is a code and every prefix of an existing path exists too.
  */
  ghost predicate WellFormed(t: Trie)
  {
    && [] in t
    && (forall p | p in t :: IsCode(p))
    && (forall p, k | p in t && 0 <= k <= |p| :: p[..k] in t)
  }

  /**
    The trie after `insert(c, code)`: the missing nodes on the walked part of `code`
    are created holding `blank`, and the node at `code` (reached only when every
    symbol of `code` is '.' or '-') takes `c`; nothing else changes.
  */
  function Insert(t: Trie, c: char, code: string, blank: char): (r: Trie)
    ensures r.Keys == t.Keys + Walked(code)
    ensures forall p | p in t && p != code :: r[p] == t[p]
    ensures forall p | p in r && p !in t && p != code :: r[p] == blank
    ensures code in r ==> r[code] == c
  {
    map p | p in t.Keys + Walked(code) :: if p == code then c else if p in t then t[p] else blank
  }

  /** Insertion keeps a trie well formed. */
  lemma InsertWellFormed(t: Trie, c: char, code: string, blank: char)
    requires WellFormed(t)
    ensures WellFormed(Insert(t, c, code, blank))
  {
    var r, n := Insert(t, c, code, blank), Reach(code);
    forall p | p in r && p !in t ensures IsCode(p) {
      assert p == code[..n][..|p|];
    }
    forall p, k | p in r && p !in t && 0 <= k <= |p| ensures p[..k] in r {
      assert p[..k] <= code;
    }
  }

  /** Decoding follows '.' to the dot child and every other symbol to the dash child. */
  function Steer(code: string): (s: string)
    ensures |s| == |code| && IsCode(s)
    ensures forall i | 0 <= i < |code| :: (s[i] == '.' <==> code[i] == '.')
  {
    if code == [] then []
    else [if code[0] == '.' then '.' else '-'] + Steer(code[1..])
  }

  lemma SteerOfCode(code: string)
    requires IsCode(code)
    ensures Steer(code) == code
  {
    var s := Steer(code);
    forall i | 0 <= i < |code| ensures s[i] == code[i] {
      assert IsSymbol(code[i]) && IsSymbol(s[i]);
    }
  }

  /** What the decoding walk returns: the payload at the steered path, or '\0' when that node is missing. */
  function Lookup(t: Trie, code: string): (c: char)
    ensures c == '\0' || c in t.Values
    ensures IsCode(code) && code in t ==> c == t[code]
  {
    var p := Steer(code);
    assert IsCode(code) ==> p == code by {
      if IsCode(code) {
        SteerOfCode(code);
      }
    }
    if p in t then t[p] else '\0'
  }

  /** After `insert(c, code)` with `code` over '.' and '-', decoding `code` yields `c`. */
  lemma InsertThenLookup(t: Trie, c: char, code: string, blank: char)
    requires IsCode(code)
    ensures Lookup(Insert(t, c, code, blank), code) == c
  {
    SteerOfCode(code);
    ReachOfCode(code);
    assert code in Walked(code);
  }

  /** Inserting twice at the same code: the last write wins. */
  lemma LastWriteWins(t: Trie, c1: char, c2: char, code: string, blank: char)
    requires IsCode(code)
    ensures Insert(Insert(t, c1, code, blank), c2, code, blank) == Insert(t, c2, code, blank)
  {
    var once, twice := Insert(t, c2, code, blank), Insert(Insert(t, c1, code, blank), c2, code, blank);
    assert once.Keys == twice.Keys;
    forall p | p in once ensures once[p] == twice[p] {
    }
  }

  /**
    A code with a symbol other than '.' and '-': the nodes for the symbols before it
    are created, nothing is stored and no payload changes.
  */
  lemma InsertStopsAtBadSymbol(t: Trie, c: char, code: string, blank: char)
    requires WellFormed(t) && Reach(code) < |code|
    ensures var r := Insert(t, c, code, blank);
            && code !in r
            && r.Keys == t.Keys + Walked(code[..Reach(code)])
            && forall p | p in t :: r[p] == t[p]
  {
    var n := Reach(code);
    WalkedUpToReach(code);
    assert !IsSymbol(code[n]);
    assert !IsCode(code);
  }

  /** Walking `code` visits the same nodes as walking its leading run of symbols. */
  lemma WalkedUpToReach(code: string)
    ensures Walked(code) == Walked(code[..Reach(code)])
  {
    var n := Reach(code);
    var head := code[..n];
    ReachOfCode(head);
    forall p | p in Walked(code) ensures p in Walked(head) {
      assert p == head[..|p|];
    }
    forall p | p in Walked(head) ensures p in Walked(code) {
      assert p == code[..|p|];
    }
  }

  /** The `isEmpty` test on the root's two child slots: true exactly when the root is the only node. */
  lemma BareRoot(t: Trie)
    requires WellFormed(t)
    ensures ("." !in t && "-" !in t) <==> t.Keys == {[]}
  {
    forall p | p in t && p != [] ensures p[..1] in t && (p[..1] == "." || p[..1] == "-") {
      assert IsSymbol(p[0]);
    }
  }

  /** Inserting a code that starts with '.' or '-' creates a child of the root. */
  lemma InsertMakesNonEmpty(t: Trie, c: char, code: string, blank: char)
    requires code != [] && IsSymbol(code[0])
    ensures var r := Insert(t, c, code, blank);
            ("." in r || "-" in r) && r.Keys != {[]}
  {
    assert code[..1] in Walked(code);
    assert code[..1] == "." || code[..1] == "-";
  }


  /** Every path of `s`, moved one level down below the symbol `d`. */
  function Shift(d: char, s: set<string>): (r: set<string>)
    ensures forall p :: p in r <==> p != [] && p[0] == d && p[1..] in s
  {
    var r := set q | q in s :: [d] + q;
    assert forall p | p != [] && p[0] == d && p[1..] in s :: p == [d] + p[1..];
    r
  }

  /**
    The trie of a node that holds `c`, whose dot child carries the trie `dot` and
    whose dash child carries the trie `dash` (an empty trie for a missing child),
    every path taken relative to the node.
  */
  function Graft(c: char, dot: Trie, dash: Trie): (t: Trie)
    ensures t.Keys == {[]} + Shift('.', dot.Keys) + Shift('-', dash.Keys)
    ensures t[[]] == c
    ensures forall p | p in t && p != [] ::
              if p[0] == '.' then p[1..] in dot && t[p] == dot[p[1..]] else p[1..] in dash && t[p] == dash[p[1..]]
  {
    map p | p in {[]} + Shift('.', dot.Keys) + Shift('-', dash.Keys) ::
      if p == [] then c else if p[0] == '.' then dot[p[1..]] else dash[p[1..]]
  }

  /** A node without children carries the one-node trie of its own payload. */
  lemma GraftLeaf(c: char)
    ensures Graft(c, map[], map[]) == map[[] := c]
  {
    assert Graft(c, map[], map[]).Keys == {[]};
  }

  /** A node is the only node of its trie exactly when both its child tries are empty. */
  lemma BareGraft(c: char, dot: Trie, dash: Trie)
    ensures Graft(c, dot, dash).Keys == {[]} <==> dot == map[] && dash == map[]
  {
    var t := Graft(c, dot, dash);
    if dot != map[] {
      var q :| q in dot;
      assert ['.'] + q in t;
    }
    if dash != map[] {
      var q :| q in dash;
      assert ['-'] + q in t;
    }
  }

  /** A node's trie is well formed when each child's trie is empty or well formed. */
  lemma GraftWellFormed(c: char, dot: Trie, dash: Trie)
    requires dot == map[] || WellFormed(dot)
    requires dash == map[] || WellFormed(dash)
    ensures WellFormed(Graft(c, dot, dash))
  {
    var t := Graft(c, dot, dash);
    forall p | p in t && p != [] ensures IsCode(p) && forall k | 0 <= k <= |p| :: p[..k] in t {
      var rest := p[1..];
      assert rest in (if p[0] == '.' then dot else dash);
      assert p == [p[0]] + rest;
      forall k | 1 <= k <= |p| ensures p[..k] in t {
        assert p[..k][1..] == rest[..k - 1];
      }
      assert p[..0] == [];
    }
  }

  /** The paths walked by a code that starts with a symbol: the root, and the walk of the rest one level down. */
  lemma WalkedCons(d: char, code: string)
    requires IsSymbol(d)
    ensures Walked([d] + code) == {[]} + Shift(d, Walked(code))
  {
    var full := [d] + code;
    assert full[1..] == code;
    forall p | p in Walked(full) && p != [] ensures p[1..] in Walked(code) {
      assert p[1..] <= code;
    }
    forall p | p in Shift(d, Walked(code)) ensures p in Walked(full) {
      assert p == [d] + p[1..];
    }
  }

  /** `insert` with an exhausted code: the node's own payload is overwritten. */
  lemma InsertHere(c: char, dot: Trie, dash: Trie, x: char, blank: char)
    ensures Insert(Graft(c, dot, dash), x, [], blank) == Graft(x, dot, dash)
  {
    assert Walked([]) == {[]};
  }

  /**
    `insert` below a node, for a code that starts with a symbol: the rest of the
    code is inserted into the trie of the child on that side; the other side and
    the node's own payload are untouched.
  */
  lemma InsertChild(c: char, dot: Trie, dash: Trie, x: char, d: char, code: string, blank: char)
    requires IsSymbol(d)
    ensures Insert(Graft(c, dot, dash), x, [d] + code, blank)
            == if d == '.' then Graft(c, Insert(dot, x, code, blank), dash)
               else Graft(c, dot, Insert(dash, x, code, blank))
  {
    var lhs := Insert(Graft(c, dot, dash), x, [d] + code, blank);
    var rhs := if d == '.' then Graft(c, Insert(dot, x, code, blank), dash)
               else Graft(c, dot, Insert(dash, x, code, blank));
    InsertChildKeys(c, dot, dash, x, d, code, blank);
    forall p | p in lhs ensures lhs[p] == rhs[p] {
      InsertChildAt(c, dot, dash, x, d, code, blank, p);
    }
  }

  /** The nodes of `InsertChild`. */
  lemma InsertChildKeys(c: char, dot: Trie, dash: Trie, x: char, d: char, code: string, blank: char)
    requires IsSymbol(d)
    ensures Insert(Graft(c, dot, dash), x, [d] + code, blank).Keys
            == (if d == '.' then Graft(c, Insert(dot, x, code, blank), dash)
                else Graft(c, dot, Insert(dash, x, code, blank))).Keys
  {
    WalkedCons(d, code);
  }

  /** One path of `InsertChild`. */
  lemma InsertChildAt(c: char, dot: Trie, dash: Trie, x: char, d: char, code: string, blank: char, p: string)
    requires IsSymbol(d)
    requires p in Insert(Graft(c, dot, dash), x, [d] + code, blank)
    requires p in if d == '.' then Graft(c, Insert(dot, x, code, blank), dash)
                  else Graft(c, dot, Insert(dash, x, code, blank))
    ensures Insert(Graft(c, dot, dash), x, [d] + code, blank)[p]
            == (if d == '.' then Graft(c, Insert(dot, x, code, blank), dash)
                else Graft(c, dot, Insert(dash, x, code, blank)))[p]
  {
    if p != [] {
      assert p == [p[0]] + p[1..];
      assert p == [d] + code <==> p[0] == d && p[1..] == code;
    }
  }

  /** `insert` at a symbol other than '.' and '-' changes nothing. */
  lemma InsertStop(c: char, dot: Trie, dash: Trie, x: char, code: string, blank: char)
    requires code != [] && !IsSymbol(code[0])
    ensures Insert(Graft(c, dot, dash), x, code, blank) == Graft(c, dot, dash)
  {
    assert Walked(code) == {[]};
  }

  /** Walking on from a freshly created waypoint adds the same nodes as walking into a missing child. */
  lemma InsertFromBlank(x: char, code: string, blank: char)
    ensures Insert(map[[] := blank], x, code, blank) == Insert(map[], x, code, blank)
  {
    assert [] in Walked(code);
  }

  /** Decoding at a node: an exhausted code yields its payload, otherwise the walk goes on in one child. */
  lemma LookupGraft(c: char, dot: Trie, dash: Trie, code: string)
    ensures Lookup(Graft(c, dot, dash), code)
            == if code == [] then c
               else if code[0] == '.' then Lookup(dot, code[1..])
               else Lookup(dash, code[1..])
  {
    if code != [] {
      var s := Steer(code);
      assert s[1..] == Steer(code[1..]);
    }
  }

  function Max(a: int, b: int): int
  {
    if a < b then b else a
  }

  /**
    The trie as a value of the same shape as the linked nodes: `Nil` for a missing
    child, `Br(c, dot, dash)` for a node holding `c`.
  */
  datatype Tree = Nil | Br(c: char, dot: Tree, dash: Tree)

  /** The path of every node of a tree, mapped to its payload. */
  function Paths(t: Tree): (m: Trie)
    ensures t.Nil? <==> m == map[]
    ensures t.Br? ==> [] in m && m[[]] == t.c
  {
    if t.Nil? then map[] else Graft(t.c, Paths(t.dot), Paths(t.dash))
  }

  /** Every tree with a node is a well-formed trie. */
  lemma {:induction false} PathsWellFormed(t: Tree)
    requires t.Br?
    ensures WellFormed(Paths(t))
  {
    if t.dot.Br? {
      PathsWellFormed(t.dot);
    }
    if t.dash.Br? {
      PathsWellFormed(t.dash);
    }
    GraftWellFormed(t.c, Paths(t.dot), Paths(t.dash));
  }

  /**
    `insertRecursive` on tree values: a missing node met on the walk is first
    created holding `blank`; an exhausted code stores `x`; '.' and '-' go on into
    the dot and dash child; any other symbol ends the walk.
  */
  function InsertTree(t: Tree, x: char, code: string, blank: char): (r: Tree)
    ensures r.Br?
    ensures code != [] ==> r.c == (if t.Nil? then blank else t.c)
    decreases |code|
  {
    var n := if t.Nil? then Br(blank, Nil, Nil) else t;
    if code == [] then Br(x, n.dot, n.dash)
    else if code[0] == '.' then Br(n.c, InsertTree(n.dot, x, code[1..], blank), n.dash)
    else if code[0] == '-' then Br(n.c, n.dot, InsertTree(n.dash, x, code[1..], blank))
    else n
  }

  /** Inserting into the tree is inserting into its trie of paths. */
  lemma {:induction false} InsertTreePaths(t: Tree, x: char, code: string, blank: char)
    ensures Paths(InsertTree(t, x, code, blank)) == Insert(Paths(t), x, code, blank)
    decreases |code|
  {
    var n := if t.Nil? then Br(blank, Nil, Nil) else t;
    if t.Nil? {
      GraftLeaf(blank);
      InsertFromBlank(x, code, blank);
    }
    assert Paths(n) == Graft(n.c, Paths(n.dot), Paths(n.dash));
    if code == [] {
      InsertHere(n.c, Paths(n.dot), Paths(n.dash), x, blank);
    } else if IsSymbol(code[0]) {
      assert code == [code[0]] + code[1..];
      InsertChild(n.c, Paths(n.dot), Paths(n.dash), x, code[0], code[1..], blank);
      if code[0] == '.' {
        InsertTreePaths(n.dot, x, code[1..], blank);
      } else {
        InsertTreePaths(n.dash, x, code[1..], blank);
      }
    } else {
      InsertStop(n.c, Paths(n.dot), Paths(n.dash), x, code, blank);
    }
  }

  /**
    `h` is the height of the trie, counting nodes: 0 for the empty trie (a missing
    node), otherwise one more than the length of its longest path.
  */
  ghost predicate IsHeight(t: Trie, h: int): (b: bool)
    ensures b ==> (t == map[] <==> h == 0) && h >= 0
  {
    if t == map[] then h == 0
    else (forall p | p in t :: |p| < h) && (exists p | p in t :: |p| == h - 1)
  }

  lemma HeightUnique(t: Trie, h1: int, h2: int)
    requires IsHeight(t, h1) && IsHeight(t, h2)
    ensures h1 == h2
  {
    if t != map[] {
      var p1 :| p1 in t && |p1| == h1 - 1;
      var p2 :| p2 in t && |p2| == h2 - 1;
    }
  }

  /** A trie with only its root has height 1. */
  lemma RootOnlyHeight(blank: char)
    ensures IsHeight(map[[] := blank], 1)
  {
    var t: Trie := map[[] := blank];
    var root: string := [];
    assert root in t;
  }

  /** The rule of `getHeight`: a node is one taller than the taller of its two subtrees. */
  lemma HeightGraft(c: char, dot: Trie, dash: Trie, hl: int, hr: int)
    requires IsHeight(dot, hl) && IsHeight(dash, hr)
    ensures IsHeight(Graft(c, dot, dash), 1 + Max(hl, hr))
  {
    var t, h := Graft(c, dot, dash), 1 + Max(hl, hr);
    assert hl >= 0 && hr >= 0 by {
      if dot != map[] {
        var p :| p in dot && |p| == hl - 1;
      }
      if dash != map[] {
        var p :| p in dash && |p| == hr - 1;
      }
    }
    forall p | p in t ensures |p| < h {
      if p != [] {
        assert p[1..] in dot || p[1..] in dash;
      }
    }
    var root: string := [];
    if hl == 0 && hr == 0 {
      assert root in t && |root| == h - 1;
    } else if hl >= hr {
      assert dot != map[];
      var p :| p in dot && |p| == hl - 1;
      assert ['.'] + p in t && |['.'] + p| == h - 1;
    } else {
      assert dash != map[];
      var p :| p in dash && |p| == hr - 1;
      assert ['-'] + p in t && |['-'] + p| == h - 1;
    }
  }

  /** Inserting `code` makes the trie exactly as tall as the path it walks, if it was not already taller. */
  lemma InsertHeight(t: Trie, c: char, code: string, blank: char, h: int)
    requires WellFormed(t) && IsHeight(t, h)
    ensures IsHeight(Insert(t, c, code, blank), Max(h, Reach(code) + 1))
  {
    var r, n := Insert(t, c, code, blank), Reach(code);
    var w :| w in t && |w| == h - 1;
    if h < n + 1 {
      assert code[..n] in r;
    } else {
      assert w in r;
    }
  }

  /**
    Dot-first preorder on paths: `a` is visited no later than `b`. This is the
    lexicographic order with '.' before '-' in which a prefix comes before its extensions.
  */
  predicate PreorderBefore(a: string, b: string)
    decreases |a|
  {
    if a == [] then true
    else if b == [] then false
    else if a[0] == b[0] then PreorderBefore(a[1..], b[1..])
    else a[0] == '.' && b[0] == '-'
  }

  /** A node is visited before every node of its subtree. */
  lemma {:induction false} PrefixPrecedes(a: string, b: string)
    requires a <= b
    ensures PreorderBefore(a, b)
    decreases |a|
  {
    if a != [] {
      assert a[1..] <= b[1..];
      PrefixPrecedes(a[1..], b[1..]);
    }
  }

  lemma {:induction false} PreorderAntisymmetric(a: string, b: string)
    requires PreorderBefore(a, b) && PreorderBefore(b, a)
    ensures a == b
    decreases |a|
  {
    if a != [] && b != [] && a[0] == b[0] {
      PreorderAntisymmetric(a[1..], b[1..]);
      assert a == [a[0]] + a[1..] && b == [b[0]] + b[1..];
    }
  }

  lemma {:induction false} PreorderTransitive(a: string, b: string, c: string)
    requires PreorderBefore(a, b) && PreorderBefore(b, c)
    ensures PreorderBefore(a, c)
    decreases |a|
  {
    if a != [] && a[0] == b[0] && b[0] == c[0] {
      PreorderTransitive(a[1..], b[1..], c[1..]);
    }
  }

  /** On codes the preorder is total: any two paths are comparable. */
  lemma {:induction false} PreorderTotal(a: string, b: string)
    requires IsCode(a) && IsCode(b)
    ensures PreorderBefore(a, b) || PreorderBefore(b, a)
    decreases |a|
  {
    if a != [] && b != [] {
      assert IsSymbol(a[0]) && IsSymbol(b[0]);
      if a[0] == b[0] {
        assert forall i | 0 <= i < |a[1..]| :: a[1..][i] == a[i + 1];
        assert forall i | 0 <= i < |b[1..]| :: b[1..][i] == b[i + 1];
        PreorderTotal(a[1..], b[1..]);
      }
    }
  }

  /** Some node of the trie holds `c`. */
  ghost predicate Holds(t: Trie, c: char)
  {
    exists p | p in t :: t[p] == c
  }

  /** `p` is the first node holding `c` in dot-first preorder. */
  ghost predicate IsFirstHolder(t: Trie, c: char, p: string)
  {
    && p in t && t[p] == c
    && forall q | q in t && t[q] == c :: PreorderBefore(p, q)
  }

  /** The first holder is unique, so the search result is determined by the trie. */
  lemma FirstHolderUnique(t: Trie, c: char, p1: string, p2: string)
    requires IsFirstHolder(t, c, p1) && IsFirstHolder(t, c, p2)
    ensures p1 == p2
  {
    PreorderAntisymmetric(p1, p2);
  }

  /** Every non-empty finite set of codes has a first element in preorder. */
  lemma {:induction false} FirstExists(s: set<string>)
    requires s != {} && forall p | p in s :: IsCode(p)
    ensures exists p | p in s :: forall q | q in s :: PreorderBefore(p, q)
    decreases |s|
  {
    var x :| x in s;
    if s == {x} {
      assert forall q | q in s :: q == x;
      assert PreorderBefore(x, x) by {
        PrefixPrecedes(x, x);
      }
    } else {
      var rest := s - {x};
      FirstExists(rest);
      var m :| m in rest && forall q | q in rest :: PreorderBefore(m, q);
      PreorderTotal(m, x);
      if PreorderBefore(m, x) {
        assert forall q | q in s :: PreorderBefore(m, q);
      } else {
        forall q | q in s ensures PreorderBefore(x, q) {
          if q == x {
            PrefixPrecedes(x, x);
          } else {
            PreorderTransitive(x, m, q);
          }
        }
      }
    }
  }

  /** In a well-formed trie, a held character has a first holder. */
  lemma HoldsHasFirst(t: Trie, c: char)
    requires WellFormed(t) && Holds(t, c)
    ensures exists p :: IsFirstHolder(t, c, p)
  {
    var s := set p | p in t && t[p] == c;
    var w :| w in t && t[w] == c;
    assert w in s;
    FirstExists(s);
    var p :| p in s && forall q | q in s :: PreorderBefore(p, q);
    assert IsFirstHolder(t, c, p);
  }

  /** A character is held below a node exactly when the node, its dot subtree or its dash subtree holds it. */
  lemma HoldsGraft(c: char, dot: Trie, dash: Trie, x: char)
    ensures Holds(Graft(c, dot, dash), x) <==> c == x || Holds(dot, x) || Holds(dash, x)
  {
    var t := Graft(c, dot, dash);
    var root: string := [];
    if c == x {
      assert root in t && t[root] == x;
    }
    if Holds(dot, x) {
      var q :| q in dot && dot[q] == x;
      assert ['.'] + q in t && t[['.'] + q] == x;
    }
    if Holds(dash, x) {
      var q :| q in dash && dash[q] == x;
      assert ['-'] + q in t && t[['-'] + q] == x;
    }
    if Holds(t, x) && c != x {
      var p :| p in t && t[p] == x;
      assert p != [];
    }
  }

  /** The search tests a node before its children: a node holding the target is the first holder. */
  lemma FirstHere(c: char, dot: Trie, dash: Trie)
    ensures IsFirstHolder(Graft(c, dot, dash), c, [])
  {
  }

  /** A first holder in the dot subtree of a node not holding the target is the first holder below the node. */
  lemma FirstDot(c: char, dot: Trie, dash: Trie, x: char, p: string)
    requires c != x && IsFirstHolder(dot, x, p)
    ensures IsFirstHolder(Graft(c, dot, dash), x, ['.'] + p)
  {
    var t, dp := Graft(c, dot, dash), ['.'] + p;
    assert dp[1..] == p;
    forall q | q in t && t[q] == x ensures PreorderBefore(dp, q) {
      assert q != [];
      if q[0] == '.' {
        assert PreorderBefore(p, q[1..]);
      }
    }
  }

  /** With no holder in the dot subtree, a first holder in the dash subtree is the first holder below the node. */
  lemma FirstDash(c: char, dot: Trie, dash: Trie, x: char, p: string)
    requires c != x && !Holds(dot, x) && IsFirstHolder(dash, x, p)
    ensures IsFirstHolder(Graft(c, dot, dash), x, ['-'] + p)
  {
    var t, dp := Graft(c, dot, dash), ['-'] + p;
    assert dp[1..] == p;
    forall q | q in t && t[q] == x ensures PreorderBefore(dp, q) {
      assert q != [] && q[0] == '-';
      assert PreorderBefore(p, q[1..]);
    }
  }

  /** A path extending `prefix + [d]` continues from `prefix` with the symbol `d`. */
  lemma StepBelow(prefix: string, d: char, v: string)
    requires prefix + [d] <= v
    ensures |prefix| < |v| && v[|prefix|..] == [d] + v[|prefix| + 1..]
  {
    assert v[|prefix|] == (prefix + [d])[|prefix|];
  }

  /**
    What a search of the tree `tr` for `x`, started at path `prefix`, may return: `None`
    exactly when no node holds `x`, otherwise `prefix` followed by the path of the first
    holder in dot-first preorder.
  */
  ghost predicate SearchResult(tr: Tree, x: char, prefix: string, r: Option<string>)
  {
    && (r.Some? <==> Holds(Paths(tr), x))
    && (r.Some? ==> prefix <= r.value && IsFirstHolder(Paths(tr), x, r.value[|prefix|..]))
  }

  /** The search stops at a root that holds `x`. */
  lemma SearchHere(tr: Tree, x: char, prefix: string)
    requires tr.Br? && tr.c == x
    ensures SearchResult(tr, x, prefix, Some(prefix))
  {
    HoldsGraft(tr.c, Paths(tr.dot), Paths(tr.dash), x);
    FirstHere(tr.c, Paths(tr.dot), Paths(tr.dash));
    assert prefix[|prefix|..] == [];
  }

  /** Otherwise a hit below the dot child is the answer. */
  lemma SearchDot(tr: Tree, x: char, prefix: string, v: string)
    requires tr.Br? && tr.c != x && SearchResult(tr.dot, x, prefix + ".", Some(v))
    ensures SearchResult(tr, x, prefix, Some(v))
  {
    HoldsGraft(tr.c, Paths(tr.dot), Paths(tr.dash), x);
    StepBelow(prefix, '.', v);
    FirstDot(tr.c, Paths(tr.dot), Paths(tr.dash), x, v[|prefix| + 1..]);
  }

  /** Otherwise the answer is that of the dash child. */
  lemma SearchDash(tr: Tree, x: char, prefix: string, r: Option<string>)
    requires tr.Br? && tr.c != x && SearchResult(tr.dot, x, prefix + ".", None)
    requires SearchResult(tr.dash, x, prefix + "-", r)
    ensures SearchResult(tr, x, prefix, r)
  {
    HoldsGraft(tr.c, Paths(tr.dot), Paths(tr.dash), x);
    if r.Some? {
      StepBelow(prefix, '-', r.value);
      FirstDash(tr.c, Paths(tr.dot), Paths(tr.dash), x, r.value[|prefix| + 1..]);
    }
  }

  /** The trie after inserting each entry of `ps` in order, every walk creating waypoints holding `blank`. */
  function InsertAll(t: Trie, ps: seq<(char, string)>, blank: char): Trie
    decreases |ps|
  {
    if ps == [] then t
    else
      var k := |ps| - 1;
      Insert(InsertAll(t, ps[..k], blank), ps[k].0, ps[k].1, blank)
  }

  /** The paths walked by inserting each code of `ps`. */
  function WalkedAll(ps: seq<(char, string)>): set<string>
    decreases |ps|
  {
    if ps == [] then {} else WalkedAll(ps[..|ps| - 1]) + Walked(ps[|ps| - 1].1)
  }

  /** Inserting several entries adds exactly the paths their walks visit, and removes nothing. */
  lemma {:induction false} InsertAllDomain(t: Trie, ps: seq<(char, string)>, blank: char)
    ensures InsertAll(t, ps, blank).Keys == t.Keys + WalkedAll(ps)
    decreases |ps|
  {
    if ps != [] {
      InsertAllDomain(t, ps[..|ps| - 1], blank);
    }
  }

  /** `p` is a prefix of the code of some entry of `ps`. */
  predicate OnSomeCode(ps: seq<(char, string)>, p: string)
  {
    exists j | 0 <= j < |ps| :: p <= ps[j].1
  }

  /** A prefix of some code of `ps` is one of a code before the last, or of the last. */
  lemma OnSomeCodeSnoc(ps: seq<(char, string)>, p: string)
    requires ps != []
    ensures OnSomeCode(ps, p) <==> OnSomeCode(ps[..|ps| - 1], p) || p <= ps[|ps| - 1].1
  {
    var k := |ps| - 1;
    if OnSomeCode(ps, p) && !(p <= ps[k].1) {
      var j :| 0 <= j < |ps| && p <= ps[j].1;
      assert ps[..k][j] == ps[j];
    }
    if OnSomeCode(ps[..k], p) {
      var j :| 0 <= j < k && p <= ps[..k][j].1;
      assert ps[..k][j] == ps[j];
    }
  }

  /** Walking codes of '.' and '-' visits exactly their prefixes. */
  lemma {:induction false} WalkedAllCodes(ps: seq<(char, string)>)
    requires forall j | 0 <= j < |ps| :: IsCode(ps[j].1)
    ensures forall p :: p in WalkedAll(ps) <==> OnSomeCode(ps, p)
    decreases |ps|
  {
    if ps != [] {
      var k := |ps| - 1;
      var front := ps[..k];
      assert forall j | 0 <= j < |front| :: IsCode(front[j].1) by {
        assert forall j | 0 <= j < k :: front[j] == ps[j];
      }
      WalkedAllCodes(front);
      ReachOfCode(ps[k].1);
      forall p ensures p in WalkedAll(ps) <==> OnSomeCode(ps, p) {
        OnSomeCodeSnoc(ps, p);
      }
    }
  }

  /** Inserting several codes creates exactly the prefixes of those codes, and removes nothing. */
  lemma InsertAllKeys(t: Trie, ps: seq<(char, string)>, blank: char)
    requires forall j | 0 <= j < |ps| :: IsCode(ps[j].1)
    ensures forall p :: p in InsertAll(t, ps, blank) <==> p in t || exists j | 0 <= j < |ps| :: p <= ps[j].1
  {
    InsertAllDomain(t, ps, blank);
    WalkedAllCodes(ps);
  }

  /** After several insertions a node holds its original payload, `blank`, or the character of an entry whose code is the node's path. */
  lemma {:induction false} InsertAllOrigin(t: Trie, ps: seq<(char, string)>, blank: char, p: string)
    requires p in InsertAll(t, ps, blank)
    ensures var v := InsertAll(t, ps, blank)[p];
      (p in t && v == t[p]) || v == blank || exists j | 0 <= j < |ps| :: ps[j].1 == p && v == ps[j].0
    decreases |ps|
  {
    if ps != [] {
      var k := |ps| - 1;
      var front := ps[..k];
      var before := InsertAll(t, front, blank);
      if p != ps[k].1 && p in before {
        InsertAllOrigin(t, front, blank, p);
        var v := before[p];
        if !(p in t && v == t[p]) && v != blank {
          var j :| 0 <= j < |front| && front[j].1 == p && v == front[j].0;
          assert ps[j] == front[j];
        }
      }
    }
  }

  /** `t` holds `c` at `p`. */
  ghost predicate Stores(t: Trie, p: string, c: char)
  {
    p in t && t[p] == c
  }

  /** An entry not overwritten by a later entry with the same code is found at its code. */
  lemma {:induction false} InsertAllLookup(t: Trie, ps: seq<(char, string)>, blank: char, i: int)
    requires 0 <= i < |ps| && IsCode(ps[i].1)
    requires forall j | i < j < |ps| :: ps[j].1 != ps[i].1
    ensures Stores(InsertAll(t, ps, blank), ps[i].1, ps[i].0)
    decreases |ps|
  {
    var k := |ps| - 1;
    var front := ps[..k];
    var before := InsertAll(t, front, blank);
    if i < k {
      assert front[i] == ps[i];
      assert forall j | i < j < |front| :: front[j] == ps[j];
      InsertAllLookup(t, front, blank, i);
      InsertKeeps(before, ps[k].0, ps[k].1, blank, ps[i].1);
    } else {
      InsertStores(before, ps[k].0, ps[k].1, blank);
    }
  }

  /** Insertion leaves every other existing node's payload alone. */
  lemma InsertKeeps(t: Trie, c: char, code: string, blank: char, p: string)
    requires p in t && p != code
    ensures p in Insert(t, c, code, blank) && Insert(t, c, code, blank)[p] == t[p]
  {
  }

  /** Insertion along a code of '.' and '-' stores the character at the code. */
  lemma InsertStores(t: Trie, c: char, code: string, blank: char)
    requires IsCode(code)
    ensures code in Insert(t, c, code, blank) && Insert(t, c, code, blank)[code] == c
  {
    ReachOfCode(code);
    assert code in Walked(code);
  }

  /** Inserting several entries keeps a trie well formed. */
  lemma {:induction false} InsertAllWellFormed(t: Trie, ps: seq<(char, string)>, blank: char)
    requires WellFormed(t)
    ensures WellFormed(InsertAll(t, ps, blank))
    decreases |ps|
  {
    if ps != [] {
      var k := |ps| - 1;
      InsertAllWellFormed(t, ps[..k], blank);
      InsertWellFormed(InsertAll(t, ps[..k], blank), ps[k].0, ps[k].1, blank);
    }
  }

  /** One more entry: the fold over a longer prefix inserts the next entry last. */
  lemma InsertAllStep(t: Trie, ps: seq<(char, string)>, blank: char, k: int)
    requires 0 <= k < |ps|
    ensures InsertAll(t, ps[..k + 1], blank) == Insert(InsertAll(t, ps[..k], blank), ps[k].0, ps[k].1, blank)
  {
    assert ps[..k + 1][..k] == ps[..k];
  }
}
