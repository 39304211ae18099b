/**
  The trie node, with the ghost footprint and the ghost trie that its recursive
  invariant ties to the heap below it.
*/
module MorseNodes {
  import opened MorseSpec

  /**
    One node of the trie: a one-character payload and two child slots, `left`
    for the '.' edge and `right` for the '-' edge. There is no parent link.
  */
  class Node {
    var character: char
    var left: Node?
    var right: Node?
    /** Model only: the node and every node below it. */
    ghost var Repr: set<object>
    /** Model only: the tree rooted here, as a value. */
    ghost var Sub: Tree

    /**
      The nodes below form a tree: each child lies in the footprint, does not
      reach back to this node and is itself valid, the two subtrees share no
      node, and `Sub` is this node's payload over its children's trees.
    */
    ghost predicate Valid()
      reads this, Repr
      decreases Repr
    {
      && this in Repr
      && (left != null ==> left in Repr && left.Repr <= Repr && this !in left.Repr && left.Valid())
      && (right != null ==> right in Repr && right.Repr <= Repr && this !in right.Repr && right.Valid())
      && (left != null && right != null ==> left.Repr !! right.Repr)
      && Sub == Br(character, SubOf(left), SubOf(right))
    }

    /** A new node holds its argument and has no children: it is a leaf. */
    constructor (character: char)
      ensures this.character == character
      ensures left == null && right == null
      ensures Valid() && fresh(Repr)
      ensures Sub == Br(character, Nil, Nil)
    {
      this.character := character;
      this.left := null;
      this.right := null;
      Repr := {this};
      Sub := Br(character, Nil, Nil);
    }
  }

  /** The tree carried by a child slot: `Nil` when the slot is null. */
  ghost function SubOf(n: Node?): Tree
    reads n
  {
    if n == null then Nil else n.Sub
  }

  /** The footprint of a child slot. */
  ghost function ReprOf(n: Node?): set<object>
    reads n
  {
    if n == null then {} else n.Repr
  }
}
