/**
  The visualizer's own copy of the trie, `TreeVisualizer.MorseBST`: the same
  insertion as the menu's tree, but with waypoints holding ' ', plus the height
  computation that sizes the drawing.
*/
module MorseVisualizer {
  import opened MorseSpec
  import opened MorseNodes
  import opened MorseAlphabet

  /** The payload of the visualizer's root and waypoints: a space, so that they draw as empty circles. */
  const Waypoint: char := ' '

  class MorseBST {
    var root: Node
    ghost var Repr: set<object>

    ghost predicate Valid()
      reads this, Repr
    {
      && this in Repr && root in Repr && root.Repr <= Repr && this !in root.Repr
      && root.Valid()
    }

    /** Model only: the abstract trie, the path of every node mapped to its payload. */
    ghost function Payload(): Trie
      reads this, Repr
      requires Valid()
    {
      Paths(root.Sub)
    }

    /** A new tree is a lone root holding ' '. */
    constructor ()
      ensures Valid() && fresh(Repr)
      ensures Payload() == map[[] := Waypoint]
    {
      root := new Node(Waypoint);
      new;
      Repr := {this} + root.Repr;
      GraftLeaf(Waypoint);
    }

    /** `insert(letter, morseCode)`: the walk starts at the root. */
    method Insert(letter: char, morseCode: string)
      requires Valid()
      modifies Repr
      ensures Valid() && fresh(Repr - old(Repr))
      ensures Payload() == MorseSpec.Insert(old(Payload()), letter, morseCode, Waypoint)
    {
      InsertRecursive(root, letter, morseCode);
      Repr := Repr + root.Repr;
      InsertTreePaths(old(root.Sub), letter, morseCode, Waypoint);
    }

    /**
      Follows `morseCode` from `current`, creating each missing child as a waypoint
      holding ' ', and stores `letter` where the code ends. A symbol other than
      '.' and '-' ends the walk without storing anything.
    */
    method InsertRecursive(current: Node, letter: char, morseCode: string)
      requires current.Valid()
      modifies current.Repr
      ensures current.Valid() && fresh(current.Repr - old(current.Repr))
      ensures current.Sub == InsertTree(old(current.Sub), letter, morseCode, Waypoint)
      decreases |morseCode|
    {
      if morseCode == [] {
        current.character := letter;
        current.Sub := Br(letter, SubOf(current.left), SubOf(current.right));
        return;
      }
      var direction := morseCode[0];
      var remainingCode := morseCode[1..];
      if direction == '.' {
        if current.left == null {
          current.left := new Node(Waypoint);
        }
        InsertRecursive(current.left, letter, remainingCode);
        current.Repr := current.Repr + current.left.Repr;
        current.Sub := Br(current.character, current.left.Sub, SubOf(current.right));
      } else if direction == '-' {
        if current.right == null {
          current.right := new Node(Waypoint);
        }
        InsertRecursive(current.right, letter, remainingCode);
        current.Repr := current.Repr + current.right.Repr;
        current.Sub := Br(current.character, SubOf(current.left), current.right.Sub);
      }
    }

    /** `getHeight()`: the number of levels of the tree. */
    function GetHeight(): (h: nat)
      reads this, Repr
      requires Valid()
      ensures IsHeight(Payload(), h)
    {
      GetHeightOf(root)
    }

    /** `getHeight(node)`: 0 for a missing node, otherwise one more than the taller subtree. */
    function GetHeightOf(node: Node?): (h: nat)
      reads node, if node != null then node.Repr else {}
      requires node != null ==> node.Valid()
      ensures IsHeight(Paths(SubOf(node)), h)
      decreases if node != null then node.Repr else {}
    {
      if node == null then 0
      else
        var hl, hr := GetHeightOf(node.left), GetHeightOf(node.right);
        HeightGraft(node.character, Paths(SubOf(node.left)), Paths(SubOf(node.right)), hl, hr);
        1 + Max(hl, hr)
    }
  }

  /**
    The model part of `start`: a new tree receives the 36 default entries, in
    table order, and its height is measured; the drawing itself is not modelled.
  */
  method Start() returns (bst: MorseBST, height: int)
    ensures fresh(bst) && bst.Valid()
    ensures bst.Payload() == DefaultTrie(Waypoint)
    ensures height == 6
  {
    bst := new MorseBST();
    InsertEntries(bst, Defaults);
    height := bst.GetHeight();
    DefaultHeight(Waypoint);
    HeightUnique(bst.Payload(), height, 6);
  }

  /** One `insert` call per entry of a table, in table order. */
  method InsertEntries(bst: MorseBST, entries: seq<(char, string)>)
    requires bst.Valid()
    modifies bst.Repr
    ensures bst.Valid() && fresh(bst.Repr - old(bst.Repr))
    ensures bst.Payload() == InsertAll(old(bst.Payload()), entries, Waypoint)
  {
    ghost var t0 := bst.Payload();
    for i := 0 to |entries|
      invariant bst.Valid() && fresh(bst.Repr - old(bst.Repr))
      invariant bst.Payload() == InsertAll(t0, entries[..i], Waypoint)
    {
      ghost var before := bst.Repr;
      bst.Insert(entries[i].0, entries[i].1);
      assert bst.Repr - old(bst.Repr) <= (bst.Repr - before) + (before - old(bst.Repr));
      InsertAllStep(t0, entries, Waypoint, i);
    }
    assert entries[..|entries|] == entries;
  }
}
