/** The program's global `ownerRoot` and the two main-menu actions that replace it: create
    a pokedex for a new owner, delete an owner's pokedex. The registry holds the root of the
    owner tree; its abstract state is the map from lower-cased owner name to the owner's
    name and pokedex list. */
module Registry {
  import opened Text
  import opened Catalog
  import opened Pokedex
  import opened TreeModel
  import opened OwnerBst

  /** Distinct owners hold distinct list objects, so changing one owner's pokedex changes
      no other owner's. */
  predicate OwnLists(m: map<string, Entry<PokedexList>>) {
    forall a, b :: a in m && b in m && a != b ==> m[a].pokedex != m[b].pokedex
  }

  /** A new owner with a list no owner holds keeps the lists apart. */
  lemma OwnListsAdd(m: map<string, Entry<PokedexList>>, k: string, e: Entry<PokedexList>, lists: set<PokedexList>)
    requires OwnLists(m) && k !in m
    requires Held(m, lists) && e.pokedex !in lists
    ensures OwnLists(m[k := e]) && Held(m[k := e], lists + {e.pokedex})
  {
  }

  /** Inserting an owner with a list no owner holds keeps the search-tree invariant and
      the lists apart, and adds exactly that owner's entry. */
  lemma InsertKeeps(t: Tree<PokedexList>, name: string, dex: PokedexList, lists: set<PokedexList>)
    requires IsBst(t) && Lower(name) !in LKeys(t)
    requires OwnLists(Contents(t)) && Held(Contents(t), lists) && dex !in lists
    ensures IsBst(Insert(t, Single(name, dex)))
    ensures Contents(Insert(t, Single(name, dex))) == Contents(t)[Lower(name) := Entry(name, dex)]
    ensures OwnLists(Contents(Insert(t, Single(name, dex))))
    ensures Held(Contents(Insert(t, Single(name, dex))), lists + {dex})
  {
    InsertBst(t, name, dex);
    InsertContents(t, name, dex);
    OwnListsAdd(Contents(t), Lower(name), Entry(name, dex), lists);
  }

  /** Deleting an owner keeps the search-tree invariant and the lists apart, and removes
      exactly that owner's entry. */
  lemma DeleteKeeps(t: Tree<PokedexList>, name: string, lists: set<PokedexList>)
    requires IsBst(t) && OwnLists(Contents(t)) && Held(Contents(t), lists)
    ensures IsBst(Delete(t, name)) && Contents(Delete(t, name)) == Contents(t) - {Lower(name)}
    ensures OwnLists(Contents(Delete(t, name))) && Held(Contents(Delete(t, name)), lists)
  {
    DeleteCorrect(t, name);
  }

  /** Every owner's list is one of `lists`. */
  predicate Held(m: map<string, Entry<PokedexList>>, lists: set<PokedexList>) {
    forall j :: j in m ==> m[j].pokedex in lists
  }

  class OwnerRegistry {
    var root: OwnerNode?
    /** Every node the registry's tree has at some time used. */
    ghost var Nodes: set<OwnerNode>
    /** Every pokedex list the registry has handed to an owner. */
    ghost var Lists: set<PokedexList>

    /** The root's subtree lies within `Nodes` and is a case-insensitive search tree, and
        no two owners share a pokedex list. */
    ghost predicate Valid()
      reads this, Nodes
    {
      && Shaped()
      && IsBst(ModelOf(root))
      && OwnLists(Contents(ModelOf(root)))
      && Held(Contents(ModelOf(root)), Lists)
    }

    /** The root's subtree is a finite tree of nodes within `Nodes`. */
    ghost predicate Shaped()
      reads this, Nodes
    {
      root != null ==> root in Nodes && root.Repr <= Nodes && root.Valid()
    }

    /** The registered owners: lower-cased name to the owner's name and pokedex list. */
    ghost function Owners(): map<string, Entry<PokedexList>>
      reads this, Nodes
      requires Valid()
    {
      Contents(ModelOf(root))
    }

    /** At start-up there are no owners. */
    constructor ()
      ensures Valid() && root == null && Owners() == map[]
    {
      root := null;
      Nodes := {};
      Lists := {};
    }

    /** Main-menu choice 1 with the owner's name and the starter's id already read: an
        owner already present, ignoring case, is refused; otherwise a new node with a new
        list holding the starter (or nothing, if the catalog has no such id) is inserted.
        No other owner and no existing pokedex changes. */
    method NewPokedex(catalog: seq<Pokemon>, name: string, starterId: int) returns (created: bool)
      requires Valid()
      modifies this, Nodes
      ensures Valid()
      ensures created <==> Lower(name) !in old(Owners())
      ensures !created ==> Owners() == old(Owners())
      ensures created ==> Lower(name) in Owners()
      ensures created ==>
                var e := Owners()[Lower(name)];
                && Owners() == old(Owners())[Lower(name) := e]
                && e.owner == name && fresh(e.pokedex)
                && e.pokedex.entries == (var s := FirstById(catalog, starterId); if s.None? then [] else [s.value])
    {
      var found := FindOwner(root, name);
      if found != null {
        return false;
      }
      var first := GetById(catalog, starterId);
      var dex := new PokedexList(first);
      InsertNew(name, dex);
      return true;
    }

    /** `create_owner_node` and `insert_owner_bst` for a name known to be absent. */
    method InsertNew(name: string, dex: PokedexList)
      requires Valid() && Lower(name) !in Owners()
      requires dex !in Lists
      modifies this, Nodes
      ensures Valid()
      ensures Owners() == old(Owners())[Lower(name) := Entry(name, dex)]
    {
      InsertKeeps(ModelOf(root), name, dex, Lists);
      Link(name, dex);
      Lists := Lists + {dex};
    }

    /** The pointer work of `insert_owner_bst` with a new node for the owner. */
    method Link(name: string, dex: PokedexList)
      requires Shaped()
      modifies this, Nodes
      ensures Shaped() && Lists == old(Lists)
      ensures ModelOf(root) == Insert(old(ModelOf(root)), Single(name, dex))
    {
      var node := new OwnerNode(name, dex);
      Nodes := Nodes + {node};
      root := InsertOwner(root, node);
    }

    /** Main-menu choice 3 with the owner's name already read: an owner not present, ignoring
        case, is reported; otherwise the owner is removed. Every other owner keeps its name
        and its very pokedex list, the in-order successor's included. */
    method DeletePokedex(name: string) returns (deleted: bool)
      requires Valid()
      modifies this, Nodes
      ensures Valid()
      ensures deleted <==> Lower(name) in old(Owners())
      ensures Owners() == old(Owners()) - {Lower(name)}
    {
      var found := FindOwner(root, name);
      if found == null {
        assert Owners() - {Lower(name)} == Owners();
        return false;
      }
      DeleteKeeps(ModelOf(root), name, Lists);
      Unlink(name);
      return true;
    }

    /** The pointer work of `delete_owner_bst`. */
    method Unlink(name: string)
      requires Shaped()
      modifies this, Nodes
      ensures Shaped() && Lists == old(Lists)
      ensures ModelOf(root) == Delete(old(ModelOf(root)), name)
    {
      root := DeleteOwner(root, name);
    }
  }
}
