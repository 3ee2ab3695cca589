/** The three operations of an owner's pokedex menu: add a species by id, release one by
    name, evolve one by name. Each is a value-level function from the catalog, the current
    list and the user's (already stripped) input to a status and the new list, with the
    properties the program relies on proved about it; the methods apply them to the list an
    owner node refers to, in place, as the program's `append` and `remove` calls do. */
module PokedexOps {
  import opened Text
  import opened Catalog
  import opened Pokedex
  import opened OwnerBst

  /** Which message the program prints. */
  datatype Status = NotFound | AlreadyOwned | NotEvolvable | EvolutionDataMissing | EvolvedAlreadyOwned | Ok

  datatype Outcome = Outcome(status: Status, dex: seq<Pokemon>)

  /** `add_pokemon_to_owner`: look the id up; an unknown id or a record already in the list
      changes nothing, otherwise the record goes at the end. */
  function Add(catalog: seq<Pokemon>, dex: seq<Pokemon>, id: int): Outcome {
    match FirstById(catalog, id)
    case None => Outcome(NotFound, dex)
    case Some(p) => if p in dex then Outcome(AlreadyOwned, dex) else Outcome(Ok, dex + [p])
  }

  /** What an add reports and does: "not found" exactly when no catalog record has the id,
      "already in the list" exactly when the record found is held; otherwise the list grows
      by that record, at the end. */
  lemma AddSpec(catalog: seq<Pokemon>, dex: seq<Pokemon>, id: int)
    ensures var o := Add(catalog, dex, id);
            && (o.status == NotFound || o.status == AlreadyOwned || o.status == Ok)
            && (o.status == NotFound <==> forall i :: 0 <= i < |catalog| ==> catalog[i].id != id)
            && (o.status == AlreadyOwned <==> FirstById(catalog, id).Some? && FirstById(catalog, id).value in dex)
            && (o.status != Ok ==> o.dex == dex)
            && (o.status == Ok ==>
                  |o.dex| == |dex| + 1 && o.dex[..|dex|] == dex && o.dex[|dex|] !in dex
                  && o.dex[|dex|].id == id && o.dex[|dex|] in catalog)
  {
    match FirstById(catalog, id)
    case None =>
    case Some(p) =>
      assert (dex + [p])[..|dex|] == dex;
  }

  /** `release_pokemon_by_name`: look the name up; a name the catalog does not know, or a
      record the owner does not hold, changes nothing; otherwise `list.remove` drops the
      first entry equal to the record and keeps the others in order. */
  function Release(catalog: seq<Pokemon>, dex: seq<Pokemon>, name: string): Outcome {
    match FirstByName(catalog, name)
    case None => Outcome(NotFound, dex)
    case Some(p) => if p !in dex then Outcome(NotFound, dex) else Outcome(Ok, RemoveFirst(dex, p))
  }

  /** What a release reports and does: "no such Pokemon" exactly when the name finds no
      record or finds one the owner does not hold; otherwise the first entry equal to that
      record is taken out, one occurrence and nothing else. */
  lemma ReleaseSpec(catalog: seq<Pokemon>, dex: seq<Pokemon>, name: string)
    ensures var o := Release(catalog, dex, name);
            && (o.status == NotFound || o.status == Ok)
            && (o.status == NotFound <==> FirstByName(catalog, name).None? || FirstByName(catalog, name).value !in dex)
            && (o.status == NotFound ==> o.dex == dex)
            && (o.status == Ok ==>
                  var p := FirstByName(catalog, name).value;
                  var i := IndexOf(dex, p);
                  Lower(p.name) == Lower(name) && o.dex == dex[..i] + dex[i + 1..]
                  && multiset(o.dex) == multiset(dex) - multiset{p})
  {
    match FirstByName(catalog, name)
    case None =>
    case Some(p) =>
      if p in dex {
        RemoveFirstSpec(dex, p);
        RemoveFirstMultiset(dex, p);
      }
  }

  /** `evolve_pokemon_by_name`: a record that is missing or cannot evolve changes nothing;
      otherwise it is removed, and the record with the next id is appended unless the
      catalog has none or the owner already holds it. The evolved form goes at the end of
      the list, not into the position of the original. */
  function Evolve(catalog: seq<Pokemon>, dex: seq<Pokemon>, name: string): Outcome {
    match FirstByName(catalog, name)
    case None => Outcome(NotFound, dex)
    case Some(p) =>
      if p !in dex then Outcome(NotFound, dex)
      else if !p.canEvolve then Outcome(NotEvolvable, dex)
      else Evolved(catalog, RemoveFirst(dex, p), p.id + 1)
  }

  /** The second half of an evolution, once the original is removed from the list: look
      the next id up and append that record unless it is missing or already held. */
  function Evolved(catalog: seq<Pokemon>, rest: seq<Pokemon>, id: int): (o: Outcome)
    ensures o.status == EvolutionDataMissing || o.status == EvolvedAlreadyOwned || o.status == Ok
  {
    match FirstById(catalog, id)
    case None => Outcome(EvolutionDataMissing, rest)
    case Some(e) => if e in rest then Outcome(EvolvedAlreadyOwned, rest) else Outcome(Ok, rest + [e])
  }

  /** Which message `evolve_pokemon_by_name` prints: not found exactly when a release would
      not find the record, not evolvable when the record's "Can Evolve" is false; in either
      case the list is left as it was. It never reports a record as already owned. */
  lemma EvolveStatus(catalog: seq<Pokemon>, dex: seq<Pokemon>, name: string)
    ensures Evolve(catalog, dex, name).status != AlreadyOwned
    ensures Evolve(catalog, dex, name).status in {NotFound, NotEvolvable} ==> Evolve(catalog, dex, name).dex == dex
    ensures Evolve(catalog, dex, name).status == NotFound <==> Release(catalog, dex, name).status == NotFound
    ensures Evolve(catalog, dex, name).status == NotEvolvable <==>
              Release(catalog, dex, name).status == Ok && !FirstByName(catalog, name).value.canEvolve
  {
    var o, r := Evolve(catalog, dex, name), Release(catalog, dex, name);
    match FirstByName(catalog, name)
    case None =>
      assert o.status == NotFound && r.status == NotFound;
    case Some(p) =>
      if p !in dex {
        assert o == Outcome(NotFound, dex) && r == Outcome(NotFound, dex);
      } else if !p.canEvolve {
        assert o == Outcome(NotEvolvable, dex) && r.status == Ok;
      } else {
        assert o == Evolved(catalog, RemoveFirst(dex, p), p.id + 1) && r.status == Ok;
      }
  }

  /** What an evolution that gets past the checks does: exactly a release of the record
      followed by an add of the next id, with the add's "not found" and "already owned"
      reported as missing evolution data and as an evolved form already owned. */
  lemma EvolveIsReleaseThenAdd(catalog: seq<Pokemon>, dex: seq<Pokemon>, name: string, p: Pokemon)
    requires FirstByName(catalog, name) == Some(p) && p in dex && p.canEvolve
    ensures Release(catalog, dex, name) == Outcome(Ok, RemoveFirst(dex, p))
    ensures Evolve(catalog, dex, name).dex == Add(catalog, RemoveFirst(dex, p), p.id + 1).dex
    ensures Agree(Evolve(catalog, dex, name).status, Add(catalog, RemoveFirst(dex, p), p.id + 1).status)
  {
    var rest := RemoveFirst(dex, p);
    assert Release(catalog, dex, name) == Outcome(Ok, rest);
    assert Evolve(catalog, dex, name) == Evolved(catalog, rest, p.id + 1);
    EvolvedIsAdd(catalog, rest, p.id + 1);
  }

  /** With no catalog record for the next id, an evolution removes the record and reports
      the missing data: its list is the one a release would leave. */
  lemma EvolveWithoutDataIsRelease(catalog: seq<Pokemon>, dex: seq<Pokemon>, name: string, p: Pokemon)
    requires FirstByName(catalog, name) == Some(p) && p in dex && p.canEvolve
    requires forall i :: 0 <= i < |catalog| ==> catalog[i].id != p.id + 1
    ensures Evolve(catalog, dex, name) == Outcome(EvolutionDataMissing, Release(catalog, dex, name).dex)
  {
    EvolveIsReleaseThenAdd(catalog, dex, name, p);
    AddSpec(catalog, RemoveFirst(dex, p), p.id + 1);
  }

  lemma EvolvedIsAdd(catalog: seq<Pokemon>, rest: seq<Pokemon>, id: int)
    ensures Evolved(catalog, rest, id).dex == Add(catalog, rest, id).dex
    ensures Agree(Evolved(catalog, rest, id).status, Add(catalog, rest, id).status)
  {
    match FirstById(catalog, id)
    case None =>
    case Some(e) =>
  }

  /** The status an evolution reports for the status of the add it amounts to. */
  predicate Agree(evolve: Status, add: Status) {
    && (evolve == EvolutionDataMissing <==> add == NotFound)
    && (evolve == EvolvedAlreadyOwned <==> add == AlreadyOwned)
    && (evolve == Ok <==> add == Ok)
  }

  // ---------------------------------------------------------------------------
  // What the operations keep: a pokedex never holds a record twice, and only ever holds
  // catalog records.

  /** Adding never creates a duplicate entry. */
  lemma AddNoDup(catalog: seq<Pokemon>, dex: seq<Pokemon>, id: int)
    requires NoDup(dex)
    ensures NoDup(Add(catalog, dex, id).dex)
  {
    if Add(catalog, dex, id).status == Ok {
      AppendNoDup(dex, FirstById(catalog, id).value);
    }
  }

  /** Releasing keeps a duplicate-free list duplicate-free and leaves no copy of the
      released record. */
  lemma ReleaseNoDup(catalog: seq<Pokemon>, dex: seq<Pokemon>, name: string)
    requires NoDup(dex)
    ensures NoDup(Release(catalog, dex, name).dex)
    ensures Release(catalog, dex, name).status == Ok ==> FirstByName(catalog, name).value !in Release(catalog, dex, name).dex
  {
    if Release(catalog, dex, name).status == Ok {
      RemoveFirstNoDup(dex, FirstByName(catalog, name).value);
    }
  }

  /** Evolving keeps a duplicate-free list duplicate-free: the evolved form is dropped when
      the owner already holds it. */
  lemma EvolveNoDup(catalog: seq<Pokemon>, dex: seq<Pokemon>, name: string)
    requires NoDup(dex)
    ensures NoDup(Evolve(catalog, dex, name).dex)
  {
    match FirstByName(catalog, name)
    case None =>
    case Some(p) =>
      if p in dex && p.canEvolve {
        RemoveFirstNoDup(dex, p);
        EvolveIsReleaseThenAdd(catalog, dex, name, p);
        AddNoDup(catalog, RemoveFirst(dex, p), p.id + 1);
      }
  }

  /** Adding and releasing keep a pokedex made of catalog records. */
  lemma AddReleaseFromCatalog(catalog: seq<Pokemon>, dex: seq<Pokemon>, id: int, name: string)
    requires FromCatalog(dex, catalog)
    ensures FromCatalog(Add(catalog, dex, id).dex, catalog)
    ensures FromCatalog(Release(catalog, dex, name).dex, catalog)
  {
    var p := FirstByName(catalog, name);
    if p.Some? {
      RemoveFirstWithin(dex, p.value);
    }
  }

  /** So does evolving, since the evolved form is itself looked up in the catalog. */
  lemma EvolveFromCatalog(catalog: seq<Pokemon>, dex: seq<Pokemon>, name: string)
    requires FromCatalog(dex, catalog)
    ensures FromCatalog(Evolve(catalog, dex, name).dex, catalog)
  {
    match FirstByName(catalog, name)
    case None =>
    case Some(p) =>
      if p in dex && p.canEvolve {
        AddReleaseFromCatalog(catalog, dex, 0, name);
        EvolveIsReleaseThenAdd(catalog, dex, name, p);
        AddReleaseFromCatalog(catalog, RemoveFirst(dex, p), p.id + 1, name);
      }
  }

  /** Adding the same id twice: the second call finds the record and changes nothing. */
  lemma AddTwice(catalog: seq<Pokemon>, dex: seq<Pokemon>, id: int)
    requires Add(catalog, dex, id).status == Ok
    ensures Add(catalog, Add(catalog, dex, id).dex, id) == Outcome(AlreadyOwned, Add(catalog, dex, id).dex)
  {
    assert Add(catalog, dex, id).dex[|dex|] == FirstById(catalog, id).value;
  }

  /** Releasing, by its name, a record just added gives back the list as it was, provided
      the name finds that same record. */
  lemma ReleaseUndoesAdd(catalog: seq<Pokemon>, dex: seq<Pokemon>, id: int)
    requires Add(catalog, dex, id).status == Ok
    requires FirstByName(catalog, FirstById(catalog, id).value.name) == FirstById(catalog, id)
    ensures Release(catalog, Add(catalog, dex, id).dex, FirstById(catalog, id).value.name) == Outcome(Ok, dex)
  {
    var p := FirstById(catalog, id).value;
    assert Add(catalog, dex, id).dex == dex + [p];
    RemoveFirstAppended(dex, p);
  }

  // ---------------------------------------------------------------------------
  // The menu actions on an owner node: they change the entries of the list object the node
  // refers to, and nothing else.

  /** `add_pokemon_to_owner` on a node, with the id already read. */
  method AddPokemon(node: OwnerNode, catalog: seq<Pokemon>, id: int) returns (status: Status)
    modifies node.pokedex
    ensures Outcome(status, node.pokedex.entries) == Add(catalog, old(node.pokedex.entries), id)
  {
    var pokemon := GetById(catalog, id);
    if pokemon.None? {
      return NotFound;
    }
    if pokemon.value in node.pokedex.entries {
      return AlreadyOwned;
    }
    node.pokedex.entries := node.pokedex.entries + [pokemon.value];
    return Ok;
  }

  /** `release_pokemon_by_name` on a node, with the name already read and stripped. */
  method ReleasePokemon(node: OwnerNode, catalog: seq<Pokemon>, name: string) returns (status: Status)
    modifies node.pokedex
    ensures Outcome(status, node.pokedex.entries) == Release(catalog, old(node.pokedex.entries), name)
  {
    var pokemon := GetByName(catalog, name);
    if pokemon.None? || pokemon.value !in node.pokedex.entries {
      return NotFound;
    }
    node.pokedex.entries := RemoveFirst(node.pokedex.entries, pokemon.value);
    return Ok;
  }

  /** `evolve_pokemon_by_name` on a node, with the name already read and stripped. */
  method EvolvePokemon(node: OwnerNode, catalog: seq<Pokemon>, name: string) returns (status: Status)
    modifies node.pokedex
    ensures Outcome(status, node.pokedex.entries) == Evolve(catalog, old(node.pokedex.entries), name)
  {
    var pokemon := GetByName(catalog, name);
    if pokemon.None? || pokemon.value !in node.pokedex.entries {
      return NotFound;
    }
    if !pokemon.value.canEvolve {
      return NotEvolvable;
    }
    node.pokedex.entries := RemoveFirst(node.pokedex.entries, pokemon.value);
    var evolved := GetById(catalog, pokemon.value.id + 1);
    if evolved.Some? {
      if evolved.value in node.pokedex.entries {
        return EvolvedAlreadyOwned;
      }
      node.pokedex.entries := node.pokedex.entries + [evolved.value];
      return Ok;
    }
    return EvolutionDataMissing;
  }
}
