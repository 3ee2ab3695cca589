/** The owner registry's search tree as heap objects, updated in place the way the
    program's node dictionaries are: `insert_owner_bst` and `delete_owner_bst` rewrite the
    `left`, `right`, `owner` and `pokedex` fields of existing nodes. Each node carries its
    footprint `Repr` (which holds the nodes of its subtree) and its value `Model`, and every
    operation is proved against the value-level definition in `TreeModel`. */
module OwnerBst {
  import opened Text
  import opened Catalog
  import opened Pokedex
  import opened TreeModel

  class OwnerNode {
    var owner: string
    var pokedex: PokedexList
    var left: OwnerNode?
    var right: OwnerNode?
    /** The nodes of this subtree. */
    ghost var Repr: set<OwnerNode>
    /** This subtree as a value: owner names over references to their pokedex lists. */
    ghost var Model: Tree<PokedexList>

    /** A finite tree: the subtrees' footprints are disjoint, lie within `Repr` and do
        not contain this node; `Model` is this node over its subtrees' values. */
    ghost predicate Valid()
      reads this, Repr
      decreases Repr
    {
      && this in Repr
      && (left != null ==> left in Repr && left.Repr <= Repr && this !in left.Repr && left.Valid())
      && (right != null ==> right in Repr && right.Repr <= Repr && this !in right.Repr && right.Valid())
      && (left != null && right != null ==> left.Repr !! right.Repr)
      && Model == Node(owner, pokedex, ModelOf(left), ModelOf(right))
    }

    /** `create_owner_node`: a childless node holding the given list. */
    constructor (ownerName: string, dex: PokedexList)
      ensures Valid() && fresh(Repr) && Repr == {this}
      ensures owner == ownerName && pokedex == dex && left == null && right == null
      ensures Model == Single(ownerName, dex)
    {
      owner, pokedex := ownerName, dex;
      left, right := null, null;
      Repr := {this};
      Model := Single(ownerName, dex);
    }
  }

  /** The footprint of a possibly empty subtree. */
  ghost function ReprOf(n: OwnerNode?): set<OwnerNode>
    reads n
  {
    if n == null then {} else n.Repr
  }

  /** The value of a possibly empty subtree. */
  ghost function ModelOf(n: OwnerNode?): Tree<PokedexList>
    reads n
  {
    if n == null then Nil else n.Model
  }

  /** `find_owner_bst`: follow the case-insensitive comparisons from the root. On a search
      tree it returns the node holding the name exactly when the name is present. */
  function FindOwner(root: OwnerNode?, name: string): (r: OwnerNode?)
    reads root, if root == null then {} else root.Repr
    requires root != null ==> root.Valid()
    ensures r != null ==> r in ReprOf(root) && Lower(r.owner) == Lower(name)
    ensures IsBst(ModelOf(root)) ==> (r != null <==> Lower(name) in LKeys(ModelOf(root)))
    ensures IsBst(ModelOf(root)) && r != null ==>
              Contents(ModelOf(root))[Lower(name)] == Entry(r.owner, r.pokedex)
    decreases ReprOf(root)
  {
    if root == null || Lower(root.owner) == Lower(name) then
      root
    else if StrLt(Lower(name), Lower(root.owner)) then
      var r := FindOwner(root.left, name);
      FindLeft(root, name, r);
      r
    else
      var r := FindOwner(root.right, name);
      FindRight(root, name, r);
      r
  }

  lemma FindLeft(root: OwnerNode, name: string, r: OwnerNode?)
    requires root.Valid() && StrLt(Lower(name), Lower(root.owner))
    requires IsBst(ModelOf(root.left)) ==> (r != null <==> Lower(name) in LKeys(ModelOf(root.left)))
    requires IsBst(ModelOf(root.left)) && r != null ==>
               Contents(ModelOf(root.left))[Lower(name)] == Entry(r.owner, r.pokedex)
    ensures IsBst(ModelOf(root)) ==> (r != null <==> Lower(name) in LKeys(ModelOf(root)))
    ensures IsBst(ModelOf(root)) && r != null ==>
              Contents(ModelOf(root))[Lower(name)] == Entry(r.owner, r.pokedex)
  {
    var k, ko := Lower(name), Lower(root.owner);
    if IsBst(ModelOf(root)) {
      assert k != ko by { StrLtIrreflexive(k); }
      assert k !in LKeys(ModelOf(root.right)) by {
        if k in LKeys(ModelOf(root.right)) { StrLtTrichotomy(k, ko); }
      }
    }
  }

  lemma FindRight(root: OwnerNode, name: string, r: OwnerNode?)
    requires root.Valid() && Lower(root.owner) != Lower(name) && !StrLt(Lower(name), Lower(root.owner))
    requires IsBst(ModelOf(root.right)) ==> (r != null <==> Lower(name) in LKeys(ModelOf(root.right)))
    requires IsBst(ModelOf(root.right)) && r != null ==>
               Contents(ModelOf(root.right))[Lower(name)] == Entry(r.owner, r.pokedex)
    ensures IsBst(ModelOf(root)) ==> (r != null <==> Lower(name) in LKeys(ModelOf(root)))
    ensures IsBst(ModelOf(root)) && r != null ==>
              Contents(ModelOf(root))[Lower(name)] == Entry(r.owner, r.pokedex)
  {
    var k, ko := Lower(name), Lower(root.owner);
    StrLtTrichotomy(k, ko);
    if IsBst(ModelOf(root)) {
      assert k !in LKeys(ModelOf(root.left)) by {
        if k in LKeys(ModelOf(root.left)) { StrLtTrichotomy(k, ko); }
      }
    }
  }

  /** Makes `l` the left subtree of `n`, keeping its right subtree. */
  method SetLeft(n: OwnerNode, l: OwnerNode?)
    requires l != null ==> l.Valid() && n !in l.Repr
    requires n.right != null ==> n.right.Valid() && n !in n.right.Repr
    requires ReprOf(l) !! ReprOf(n.right)
    modifies n
    ensures n.Valid() && n.left == l && n.right == old(n.right)
    ensures n.owner == old(n.owner) && n.pokedex == old(n.pokedex)
    ensures n.Repr == {n} + ReprOf(l) + ReprOf(n.right)
    ensures n.Model == Node(n.owner, n.pokedex, ModelOf(l), ModelOf(n.right))
  {
    n.left := l;
    n.Repr := {n} + ReprOf(l) + ReprOf(n.right);
    n.Model := Node(n.owner, n.pokedex, ModelOf(l), ModelOf(n.right));
  }

  /** Makes `r` the right subtree of `n`, keeping its left subtree. */
  method SetRight(n: OwnerNode, r: OwnerNode?)
    requires n.left != null ==> n.left.Valid() && n !in n.left.Repr
    requires r != null ==> r.Valid() && n !in r.Repr
    requires ReprOf(n.left) !! ReprOf(r)
    modifies n
    ensures n.Valid() && n.left == old(n.left) && n.right == r
    ensures n.owner == old(n.owner) && n.pokedex == old(n.pokedex)
    ensures n.Repr == {n} + ReprOf(n.left) + ReprOf(r)
    ensures n.Model == Node(n.owner, n.pokedex, ModelOf(n.left), ModelOf(r))
  {
    n.right := r;
    n.Repr := {n} + ReprOf(n.left) + ReprOf(r);
    n.Model := Node(n.owner, n.pokedex, ModelOf(n.left), ModelOf(r));
  }

  /** `insert_owner_bst`: descend from the root and link `newNode` (with whatever subtree it
      carries) as the child where the search ends, rewriting one `left` or `right` field;
      a name already present drops `newNode`. The root of a non-empty tree stays the root. */
  method InsertOwner(root: OwnerNode?, newNode: OwnerNode) returns (r: OwnerNode)
    requires root != null ==> root.Valid()
    requires newNode.Valid()
    requires ReprOf(root) !! newNode.Repr
    modifies ReprOf(root)
    ensures r.Valid()
    ensures r.Repr <= old(ReprOf(root)) + newNode.Repr
    ensures root != null ==> r == root
    ensures r.Model == Insert(old(ModelOf(root)), newNode.Model)
    decreases ReprOf(root)
  {
    if root == null {
      return newNode;
    }
    ghost var lm, rm, nm := ModelOf(root.left), ModelOf(root.right), newNode.Model;
    ghost var o, d := root.owner, root.pokedex;
    assert root.Model == Node(o, d, lm, rm);
    if StrLt(Lower(newNode.owner), Lower(root.owner)) {
      var l := InsertOwner(root.left, newNode);
      assert root.owner == o && root.pokedex == d && ModelOf(root.right) == rm;
      SetLeft(root, l);
      assert root.Model == Node(o, d, Insert(lm, nm), rm);
    } else if StrLt(Lower(root.owner), Lower(newNode.owner)) {
      var rt := InsertOwner(root.right, newNode);
      assert root.owner == o && root.pokedex == d && ModelOf(root.left) == lm;
      SetRight(root, rt);
      assert root.Model == Node(o, d, lm, Insert(rm, nm));
    }
    return root;
  }

  /** `min_node`: walk down the `left` links; an empty subtree gives no node. */
  method MinNode(node: OwnerNode?) returns (m: OwnerNode?)
    requires node != null ==> node.Valid()
    ensures (m == null) == (node == null)
    ensures m != null ==> m in ReprOf(node) && m.Valid() && m.left == null
    ensures m != null ==> m.Model == Leftmost(ModelOf(node))
  {
    m := node;
    while m != null && m.left != null
      invariant (m == null) == (node == null)
      invariant m != null ==> m.Valid() && m.Repr <= ReprOf(node)
      invariant m != null ==> Leftmost(m.Model) == Leftmost(ModelOf(node))
      decreases ReprOf(m)
    {
      m := m.left;
    }
  }

  /** `delete_owner_bst`: descend by the case-insensitive comparisons and relink the
      subtree in which the name was removed; a missing name leaves the tree as it was. */
  method DeleteOwner(root: OwnerNode?, name: string) returns (r: OwnerNode?)
    requires root != null ==> root.Valid()
    modifies ReprOf(root)
    ensures r != null ==> r.Valid() && r.Repr <= old(ReprOf(root))
    ensures ModelOf(r) == Delete(old(ModelOf(root)), name)
    decreases ReprOf(root), 1
  {
    if root == null {
      return null;
    }
    if StrLt(Lower(name), Lower(root.owner)) {
      var l := DeleteOwner(root.left, name);
      SetLeft(root, l);
      return root;
    } else if StrLt(Lower(root.owner), Lower(name)) {
      var rt := DeleteOwner(root.right, name);
      SetRight(root, rt);
      return root;
    }
    StrLtTrichotomy(Lower(name), Lower(root.owner));
    r := DeleteHere(root);
  }

  /** The matching node of `delete_owner_bst`: a missing child lets the other child take
      its place; with two children the node takes over the owner and pokedex of the
      leftmost node of its right subtree, which is then deleted from the right subtree. */
  method DeleteHere(root: OwnerNode) returns (r: OwnerNode?)
    requires root.Valid()
    modifies root.Repr
    ensures r != null ==> r.Valid() && r.Repr <= old(root.Repr)
    ensures ModelOf(r) == Delete(old(root.Model), old(root.owner))
    decreases root.Repr, 0
  {
    StrLtIrreflexive(Lower(root.owner));
    if root.left == null {
      return root.right;
    } else if root.right == null {
      return root.left;
    }
    var temp := MinNode(root.right);
    root.owner, root.pokedex := temp.owner, temp.pokedex;
    var rt := DeleteOwner(root.right, temp.owner);
    SetRight(root, rt);
    return root;
  }
}
