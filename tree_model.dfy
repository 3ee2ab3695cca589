/** The owner registry's tree as a value: the abstraction that every heap-based owner node
    maps to, and the reference definitions of insertion, minimum and deletion that the
    in-place operations are proved against. Keys are lower-cased owner names; `D` is what a
    node holds besides its name (in the registry, a reference to the owner's pokedex list). */
module TreeModel {
  import opened Text

  /** What the registry holds for one owner: the name as typed and the pokedex. */
  datatype Entry<D> = Entry(owner: string, pokedex: D)

  datatype Tree<D> = Nil | Node(owner: string, pokedex: D, left: Tree<D>, right: Tree<D>)

  /** A node as `create_owner_node` builds it: no children. */
  function Single<D>(owner: string, pokedex: D): Tree<D> {
    Node(owner, pokedex, Nil, Nil)
  }

  /** The lower-cased owner names present in the tree. */
  function LKeys<D>(t: Tree<D>): set<string> {
    match t
    case Nil => {}
    case Node(o, _, l, r) => LKeys(l) + LKeys(r) + {Lower(o)}
  }

  /** The case-insensitive search-tree invariant: every name in the left subtree sorts
      strictly below the node's name and every name in the right subtree strictly above. */
  predicate IsBst<D>(t: Tree<D>) {
    match t
    case Nil => true
    case Node(o, _, l, r) =>
      && (forall k :: k in LKeys(l) ==> StrLt(k, Lower(o)))
      && (forall k :: k in LKeys(r) ==> StrLt(Lower(o), k))
      && IsBst(l) && IsBst(r)
  }

  /** The registry's content: lower-cased name to entry. On a search tree the names are
      distinct, so no entry is shadowed. */
  function Contents<D>(t: Tree<D>): (m: map<string, Entry<D>>)
    ensures m.Keys == LKeys(t)
  {
    match t
    case Nil => map[]
    case Node(o, d, l, r) => Contents(l) + Contents(r) + map[Lower(o) := Entry(o, d)]
  }

  /** `insert_owner_bst` on values: descend by case-insensitive comparison and hang `n`
      where the search ends; when neither `<` nor `>` holds, `n` is dropped. */
  function Insert<D>(t: Tree<D>, n: Tree<D>): Tree<D>
    requires n.Node?
  {
    match t
    case Nil => n
    case Node(o, d, l, r) =>
      if StrLt(Lower(n.owner), Lower(o)) then Node(o, d, Insert(l, n), r)
      else if StrLt(Lower(o), Lower(n.owner)) then Node(o, d, l, Insert(r, n))
      else t
  }

  /** `min_node`: the leftmost node of a non-empty tree. */
  function Leftmost<D>(t: Tree<D>): (m: Tree<D>)
    requires t.Node?
    ensures m.Node? && m.left == Nil
  {
    if t.left == Nil then t else Leftmost(t.left)
  }

  /** `delete_owner_bst` on values: a node with at most one child is replaced by that child;
      a node with two children takes over the owner and pokedex of the leftmost node of its
      right subtree, which is then deleted from the right subtree by its name. */
  function Delete<D>(t: Tree<D>, name: string): Tree<D> {
    match t
    case Nil => Nil
    case Node(o, d, l, r) =>
      if StrLt(Lower(name), Lower(o)) then Node(o, d, Delete(l, name), r)
      else if StrLt(Lower(o), Lower(name)) then Node(o, d, l, Delete(r, name))
      else if l == Nil then r
      else if r == Nil then l
      else
        var m := Leftmost(r);
        Node(m.owner, m.pokedex, l, Delete(r, m.owner))
  }

  // ---------------------------------------------------------------------------
  // Map facts used to follow the contents through one level of the tree

  lemma UpdateUnder<D>(a: map<string, Entry<D>>, b: map<string, Entry<D>>, c: map<string, Entry<D>>, k: string, v: Entry<D>)
    requires k !in b && k !in c
    ensures a[k := v] + b + c == (a + b + c)[k := v]
  {
  }

  lemma UpdateUnderRight<D>(a: map<string, Entry<D>>, b: map<string, Entry<D>>, c: map<string, Entry<D>>, k: string, v: Entry<D>)
    requires k !in a && k !in c
    ensures a + b[k := v] + c == (a + b + c)[k := v]
  {
  }

  lemma RemoveUnder<D>(a: map<string, Entry<D>>, b: map<string, Entry<D>>, c: map<string, Entry<D>>, k: string)
    requires k !in b && k !in c
    ensures (a - {k}) + b + c == (a + b + c) - {k}
  {
  }

  lemma RemoveUnderRight<D>(a: map<string, Entry<D>>, b: map<string, Entry<D>>, c: map<string, Entry<D>>, k: string)
    requires k !in a && k !in c
    ensures a + (b - {k}) + c == (a + b + c) - {k}
  {
  }

  lemma RemoveTop<D>(a: map<string, Entry<D>>, b: map<string, Entry<D>>, k: string, v: Entry<D>)
    requires k !in a && k !in b
    ensures (a + b + map[k := v]) - {k} == a + b
  {
  }

  lemma MoveUp<D>(a: map<string, Entry<D>>, b: map<string, Entry<D>>, k: string)
    requires k in b
    ensures a + (b - {k}) + map[k := b[k]] == a + b
  {
  }

  // ---------------------------------------------------------------------------
  // Insertion

  /** The key set after an insertion is the old key set plus the new name (whether or not
      the name was already there). */
  lemma {:induction false} InsertKeys<D>(t: Tree<D>, owner: string, dex: D)
    ensures LKeys(Insert(t, Single(owner, dex))) == LKeys(t) + {Lower(owner)}
  {
    match t
    case Nil =>
    case Node(o, d, l, r) =>
      var k := Lower(owner);
      if StrLt(k, Lower(o)) {
        InsertKeys(l, owner, dex);
      } else if StrLt(Lower(o), k) {
        InsertKeys(r, owner, dex);
      } else {
        StrLtTrichotomy(k, Lower(o));
      }
  }

  /** Insertion keeps the search-tree invariant. */
  lemma {:induction false} InsertBst<D>(t: Tree<D>, owner: string, dex: D)
    requires IsBst(t)
    ensures IsBst(Insert(t, Single(owner, dex)))
  {
    match t
    case Nil =>
    case Node(o, d, l, r) =>
      var k := Lower(owner);
      if StrLt(k, Lower(o)) {
        InsertBst(l, owner, dex);
        InsertKeys(l, owner, dex);
      } else if StrLt(Lower(o), k) {
        InsertBst(r, owner, dex);
        InsertKeys(r, owner, dex);
      }
  }

  /** Inserting a name that is already present (ignoring case) leaves the tree as it was:
      the search reaches the equal node, where neither branch fires. */
  lemma {:induction false} InsertExisting<D>(t: Tree<D>, n: Tree<D>)
    requires n.Node? && IsBst(t) && Lower(n.owner) in LKeys(t)
    ensures Insert(t, n) == t
  {
    match t
    case Node(o, d, l, r) =>
      var k := Lower(n.owner);
      if StrLt(k, Lower(o)) {
        StrLtIrreflexive(k);
        if k in LKeys(r) { StrLtTrichotomy(k, Lower(o)); }
        InsertExisting(l, n);
      } else if StrLt(Lower(o), k) {
        StrLtIrreflexive(k);
        if k in LKeys(l) { StrLtTrichotomy(k, Lower(o)); }
        InsertExisting(r, n);
      }
  }

  /** Inserting a new name adds exactly one entry and changes no other. */
  lemma {:induction false} InsertContents<D>(t: Tree<D>, owner: string, dex: D)
    requires IsBst(t) && Lower(owner) !in LKeys(t)
    ensures Contents(Insert(t, Single(owner, dex))) == Contents(t)[Lower(owner) := Entry(owner, dex)]
  {
    match t
    case Nil =>
    case Node(o, d, l, r) =>
      var k, ko := Lower(owner), Lower(o);
      var e := Entry(owner, dex);
      var top := map[ko := Entry(o, d)];
      StrLtTrichotomy(k, ko);
      if StrLt(k, ko) {
        InsertContents(l, owner, dex);
        assert k !in LKeys(r) by {
          if k in LKeys(r) { StrLtTrichotomy(k, ko); }
        }
        UpdateUnder(Contents(l), Contents(r), top, k, e);
      } else {
        InsertContents(r, owner, dex);
        assert k !in LKeys(l) by {
          if k in LKeys(l) { StrLtTrichotomy(k, ko); }
        }
        UpdateUnderRight(Contents(l), Contents(r), top, k, e);
      }
  }

  // ---------------------------------------------------------------------------
  // Minimum

  /** On a search tree the leftmost node holds the smallest name, and its entry is the
      tree's entry for that name. */
  lemma {:induction false} LeftmostIsMin<D>(t: Tree<D>)
    requires t.Node? && IsBst(t)
    ensures Lower(Leftmost(t).owner) in LKeys(t)
    ensures forall k :: k in LKeys(t) ==> StrLe(Lower(Leftmost(t).owner), k)
    ensures Contents(t)[Lower(Leftmost(t).owner)] == Entry(Leftmost(t).owner, Leftmost(t).pokedex)
  {
    var m := Leftmost(t);
    var km := Lower(m.owner);
    if t.left == Nil {
      assert m == t;
      assert LKeys(t) == LKeys(t.right) + {km};
      forall k | k in LKeys(t) ensures StrLe(km, k) {
      }
    } else {
      LeftmostIsMin(t.left);
      assert km in LKeys(t.left);
      forall k | k in LKeys(t) ensures StrLe(km, k) {
        if k in LKeys(t.right) {
          StrLtTransitive(km, Lower(t.owner), k);
        }
      }
      assert km !in LKeys(t.right) by {
        if km in LKeys(t.right) {
          StrLtTrichotomy(km, Lower(t.owner));
          StrLtTransitive(km, Lower(t.owner), km);
          StrLtIrreflexive(km);
        }
      }
      assert km != Lower(t.owner) by { StrLtIrreflexive(km); }
    }
  }

  // ---------------------------------------------------------------------------
  // Deletion

  /** Deleting a name that is not in the tree changes nothing. */
  lemma {:induction false} DeleteAbsent<D>(t: Tree<D>, name: string)
    requires Lower(name) !in LKeys(t)
    ensures Delete(t, name) == t
  {
    match t
    case Nil =>
    case Node(o, d, l, r) =>
      StrLtTrichotomy(Lower(name), Lower(o));
      if StrLt(Lower(name), Lower(o)) {
        DeleteAbsent(l, name);
      } else {
        DeleteAbsent(r, name);
      }
  }

  /** Deletion keeps the search-tree invariant and removes exactly the entry for the name:
      every other owner keeps its entry, the successor whose data moves up included. */
  lemma {:induction false} DeleteCorrect<D>(t: Tree<D>, name: string)
    requires IsBst(t)
    ensures IsBst(Delete(t, name))
    ensures Contents(Delete(t, name)) == Contents(t) - {Lower(name)}
    decreases t, 1
  {
    match t
    case Nil =>
    case Node(o, d, l, r) =>
      var k, ko := Lower(name), Lower(o);
      var top := map[ko := Entry(o, d)];
      if StrLt(k, ko) {
        DeleteCorrect(l, name);
        assert k !in LKeys(r) by {
          if k in LKeys(r) { StrLtTransitive(k, ko, k); StrLtIrreflexive(k); }
        }
        assert k != ko by { StrLtIrreflexive(k); }
        RemoveUnder(Contents(l), Contents(r), top, k);
      } else if StrLt(ko, k) {
        DeleteCorrect(r, name);
        assert k !in LKeys(l) by {
          if k in LKeys(l) { StrLtTransitive(k, ko, k); StrLtIrreflexive(k); }
        }
        assert k != ko by { StrLtIrreflexive(k); }
        RemoveUnderRight(Contents(l), Contents(r), top, k);
      } else {
        StrLtTrichotomy(k, ko);
        assert ko !in LKeys(l) && ko !in LKeys(r) by {
          StrLtIrreflexive(ko);
        }
        RemoveTop(Contents(l), Contents(r), ko, Entry(o, d));
        if l != Nil && r != Nil {
          DeleteTwoChildren(t);
        }
      }
  }

  /** The two-children case of `DeleteCorrect`, on the node's own name. */
  lemma {:induction false} DeleteTwoChildren<D>(t: Tree<D>)
    requires IsBst(t) && t.Node? && t.left != Nil && t.right != Nil
    ensures IsBst(Delete(t, t.owner))
    ensures Contents(Delete(t, t.owner)) == Contents(t) - {Lower(t.owner)}
    decreases t, 0
  {
    var ko := Lower(t.owner);
    StrLtIrreflexive(ko);
    var m := Leftmost(t.right);
    var km := Lower(m.owner);
    LeftmostIsMin(t.right);
    DeleteCorrect(t.right, m.owner);
    var r' := Delete(t.right, m.owner);
    assert Delete(t, t.owner) == Node(m.owner, m.pokedex, t.left, r');
    assert StrLt(ko, km);
    forall k | k in LKeys(t.left) ensures StrLt(k, km) {
      StrLtTransitive(k, ko, km);
    }
    forall k | k in LKeys(r') ensures StrLt(km, k) {
      assert k in LKeys(t.right) && k != km;
    }
    assert ko !in LKeys(t.left) && ko !in LKeys(t.right);
    RemoveTop(Contents(t.left), Contents(t.right), ko, Entry(t.owner, t.pokedex));
    MoveUp(Contents(t.left), Contents(t.right), km);
  }
}
