/** The species catalog: an immutable, ordered sequence of records read once at start-up,
    queried by id or by case-insensitive name with a first-match linear scan. */
module Catalog {
  import opened Text

  datatype Option<T> = None | Some(value: T)

  /** One catalog record. Records are compared as whole values (every field); the
      "Can Evolve" column, stored upper-cased and tested against "TRUE", is a bool here. */
  datatype Pokemon = Pokemon(id: int, name: string, kind: string, hp: int, attack: int, canEvolve: bool)

  /** The first record of `catalog` satisfying the id test, if any. */
  function FirstById(catalog: seq<Pokemon>, id: int): (r: Option<Pokemon>)
    ensures r.None? <==> forall i :: 0 <= i < |catalog| ==> catalog[i].id != id
    ensures r.Some? ==> r.value in catalog && r.value.id == id
  {
    if catalog == [] then None
    else if catalog[0].id == id then Some(catalog[0])
    else
      var r := FirstById(catalog[1..], id);
      assert forall i :: 1 <= i < |catalog| ==> catalog[i] == catalog[1..][i - 1];
      r
  }

  /** The record found by id is the first with that id: no earlier record has it. */
  lemma {:induction false} FirstByIdIsFirst(catalog: seq<Pokemon>, id: int)
    requires FirstById(catalog, id).Some?
    ensures exists i :: 0 <= i < |catalog| && catalog[i] == FirstById(catalog, id).value
                        && forall j :: 0 <= j < i ==> catalog[j].id != id
  {
    if catalog[0].id != id {
      var t := catalog[1..];
      FirstByIdIsFirst(t, id);
      var i :| 0 <= i < |t| && t[i] == FirstById(t, id).value
               && forall j :: 0 <= j < i ==> t[j].id != id;
      NoEarlierId(catalog, id, i);
      assert catalog[i + 1] == t[i];
    } else {
      assert catalog[0] == FirstById(catalog, id).value;
    }
  }

  lemma NoEarlierId(catalog: seq<Pokemon>, id: int, i: nat)
    requires i < |catalog| - 1 && catalog[0].id != id
    requires forall j :: 0 <= j < i ==> catalog[1..][j].id != id
    ensures forall j :: 0 <= j < i + 1 ==> catalog[j].id != id
  {
    forall j | 1 <= j < i + 1 ensures catalog[j].id != id {
      assert catalog[j] == catalog[1..][j - 1];
    }
  }

  /** The first record of `catalog` whose lower-cased name equals the lower-cased query. */
  function FirstByName(catalog: seq<Pokemon>, name: string): (r: Option<Pokemon>)
    ensures r.None? <==> forall i :: 0 <= i < |catalog| ==> Lower(catalog[i].name) != Lower(name)
    ensures r.Some? ==> r.value in catalog && Lower(r.value.name) == Lower(name)
  {
    if catalog == [] then None
    else if Lower(catalog[0].name) == Lower(name) then Some(catalog[0])
    else
      var r := FirstByName(catalog[1..], name);
      assert forall i :: 1 <= i < |catalog| ==> catalog[i] == catalog[1..][i - 1];
      r
  }

  /** The record found by name is the first whose name matches, ignoring case. */
  lemma {:induction false} FirstByNameIsFirst(catalog: seq<Pokemon>, name: string)
    requires FirstByName(catalog, name).Some?
    ensures exists i :: 0 <= i < |catalog| && catalog[i] == FirstByName(catalog, name).value
                        && forall j :: 0 <= j < i ==> Lower(catalog[j].name) != Lower(name)
  {
    if Lower(catalog[0].name) != Lower(name) {
      var t := catalog[1..];
      FirstByNameIsFirst(t, name);
      var i :| 0 <= i < |t| && t[i] == FirstByName(t, name).value
               && forall j :: 0 <= j < i ==> Lower(t[j].name) != Lower(name);
      NoEarlierName(catalog, name, i);
      assert catalog[i + 1] == t[i];
    } else {
      assert catalog[0] == FirstByName(catalog, name).value;
    }
  }

  lemma NoEarlierName(catalog: seq<Pokemon>, name: string, i: nat)
    requires i < |catalog| - 1 && Lower(catalog[0].name) != Lower(name)
    requires forall j :: 0 <= j < i ==> Lower(catalog[1..][j].name) != Lower(name)
    ensures forall j :: 0 <= j < i + 1 ==> Lower(catalog[j].name) != Lower(name)
  {
    forall j | 1 <= j < i + 1 ensures Lower(catalog[j].name) != Lower(name) {
      assert catalog[j] == catalog[1..][j - 1];
    }
  }

  /** `get_poke_dict_by_id`: scan the catalog in order, return the first record with that id. */
  method GetById(catalog: seq<Pokemon>, id: int) returns (r: Option<Pokemon>)
    ensures r == FirstById(catalog, id)
  {
    for i := 0 to |catalog|
      invariant FirstById(catalog, id) == FirstById(catalog[i..], id)
    {
      if catalog[i].id == id {
        return Some(catalog[i]);
      }
      assert catalog[i..][1..] == catalog[i + 1..];
    }
    return None;
  }

  /** `get_poke_dict_by_name`: the first record whose name matches, ignoring case. */
  method GetByName(catalog: seq<Pokemon>, name: string) returns (r: Option<Pokemon>)
    ensures r == FirstByName(catalog, name)
  {
    for i := 0 to |catalog|
      invariant FirstByName(catalog, name) == FirstByName(catalog[i..], name)
    {
      if Lower(catalog[i].name) == Lower(name) {
        return Some(catalog[i]);
      }
      assert catalog[i..][1..] == catalog[i + 1..];
    }
    return None;
  }

  /** Every catalog id occurs once; the catalog file lists each species on its own line. */
  predicate UniqueIds(catalog: seq<Pokemon>) {
    forall i, j :: 0 <= i < j < |catalog| ==> catalog[i].id != catalog[j].id
  }
}
