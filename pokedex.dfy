/** One owner's pokedex as an ordered list of catalog records: the list primitives the
    program relies on (`in`, `list.remove`, list comprehensions) and the display filters. */
module Pokedex {
  import opened Text
  import opened Catalog

  /** An owner's pokedex: a mutable list of records that an owner node refers to. Each
      owner starts with a list of its own; deleting a node with two children hands the
      successor's list to the surviving node as the successor is unlinked. */
  class PokedexList {
    var entries: seq<Pokemon>

    /** The list `create_owner_node` starts an owner with: the starter, if there is one. */
    constructor (first: Option<Pokemon>)
      ensures entries == if first.None? then [] else [first.value]
    {
      entries := if first.None? then [] else [first.value];
    }
  }

  /** No two entries of the list are equal records. */
  predicate NoDup(dex: seq<Pokemon>) {
    forall i, j :: 0 <= i < j < |dex| ==> dex[i] != dex[j]
  }

  /** Position of the first entry equal to `x`. */
  function IndexOf(dex: seq<Pokemon>, x: Pokemon): (i: nat)
    requires x in dex
    ensures i < |dex| && dex[i] == x && x !in dex[..i]
  {
    if dex[0] == x then 0
    else
      var i := IndexOf(dex[1..], x);
      assert dex[..i + 1] == [dex[0]] + dex[1..][..i];
      i + 1
  }

  /** Python's `list.remove(x)` on a list holding `x`: drop the first entry equal to `x`.
      Python raises an error on a list without `x`; this function returns such a list
      unchanged instead, a case no call in the program reaches, since each call is
      preceded by a membership check. */
  function RemoveFirst(dex: seq<Pokemon>, x: Pokemon): seq<Pokemon> {
    if dex == [] then []
    else if dex[0] == x then dex[1..]
    else [dex[0]] + RemoveFirst(dex[1..], x)
  }

  /** `list.remove(x)` keeps the entries before the first `x` and those after it, in order. */
  lemma {:induction false} RemoveFirstSpec(dex: seq<Pokemon>, x: Pokemon)
    ensures x !in dex ==> RemoveFirst(dex, x) == dex
    ensures x in dex ==> RemoveFirst(dex, x) == dex[..IndexOf(dex, x)] + dex[IndexOf(dex, x) + 1..]
  {
    if dex != [] && dex[0] != x {
      RemoveFirstSpec(dex[1..], x);
      assert dex == [dex[0]] + dex[1..];
      if x in dex {
        var i := IndexOf(dex[1..], x);
        assert dex[..i + 1] == [dex[0]] + dex[1..][..i];
        assert dex[i + 2..] == dex[1..][i + 1..];
      }
    }
  }

  /** `list.remove` takes away exactly one occurrence of a present record. */
  lemma RemoveFirstMultiset(dex: seq<Pokemon>, x: Pokemon)
    requires x in dex
    ensures multiset(RemoveFirst(dex, x)) == multiset(dex) - multiset{x}
  {
    RemoveFirstSpec(dex, x);
    var i := IndexOf(dex, x);
    var pre, post := dex[..i], dex[i + 1..];
    assert dex == pre + [x] + post;
    assert RemoveFirst(dex, x) == pre + post;
    calc {
      multiset(dex);
      multiset(pre + [x] + post);
      multiset(pre) + multiset{x} + multiset(post);
    }
  }

  /** `list.remove` only ever takes entries away. */
  lemma {:induction false} RemoveFirstWithin(dex: seq<Pokemon>, x: Pokemon)
    ensures forall y :: y in RemoveFirst(dex, x) ==> y in dex
  {
    if dex != [] && dex[0] != x {
      RemoveFirstWithin(dex[1..], x);
    }
  }

  /** Removing a record just appended to a list without it gives back the list. */
  lemma {:induction false} RemoveFirstAppended(dex: seq<Pokemon>, x: Pokemon)
    requires x !in dex
    ensures RemoveFirst(dex + [x], x) == dex
  {
    if dex != [] {
      assert (dex + [x])[1..] == dex[1..] + [x];
      RemoveFirstAppended(dex[1..], x);
    }
  }

  /** Removing an entry keeps a duplicate-free list duplicate-free, and removes the record. */
  lemma {:induction false} RemoveFirstNoDup(dex: seq<Pokemon>, x: Pokemon)
    requires NoDup(dex)
    ensures NoDup(RemoveFirst(dex, x))
    ensures x !in RemoveFirst(dex, x)
  {
    if dex != [] {
      var t := dex[1..];
      assert NoDup(t) by {
        forall i, j | 0 <= i < j < |t| ensures t[i] != t[j] {
          assert t[i] == dex[i + 1] && t[j] == dex[j + 1];
        }
      }
      assert dex[0] !in t by {
        forall j | 0 <= j < |t| ensures t[j] != dex[0] { assert t[j] == dex[j + 1]; }
      }
      if dex[0] != x {
        RemoveFirstNoDup(t, x);
        RemoveFirstWithin(t, x);
        ConsNoDup(dex[0], RemoveFirst(t, x));
      }
    }
  }

  lemma ConsNoDup(h: Pokemon, t: seq<Pokemon>)
    requires NoDup(t) && h !in t
    ensures NoDup([h] + t)
  {
    forall i, j | 0 <= i < j < |[h] + t| ensures ([h] + t)[i] != ([h] + t)[j] {
      assert ([h] + t)[j] == t[j - 1];
      if i > 0 { assert ([h] + t)[i] == t[i - 1]; }
    }
  }

  /** Appending a record that is not yet present keeps a list duplicate-free. */
  lemma AppendNoDup(dex: seq<Pokemon>, x: Pokemon)
    requires NoDup(dex) && x !in dex
    ensures NoDup(dex + [x])
  {
    forall i, j | 0 <= i < j < |dex + [x]| ensures (dex + [x])[i] != (dex + [x])[j] {
      if j == |dex| { assert (dex + [x])[i] == dex[i]; }
    }
  }

  /** Every record of the list is a catalog record: true of every pokedex, since entries are
      only ever copied out of the catalog. */
  predicate FromCatalog(dex: seq<Pokemon>, catalog: seq<Pokemon>) {
    forall p :: p in dex ==> p in catalog
  }

  /** No two entries share an id. */
  predicate DistinctIds(dex: seq<Pokemon>) {
    forall i, j :: 0 <= i < j < |dex| ==> dex[i].id != dex[j].id
  }

  /** With a catalog whose ids are unique, value-uniqueness of a pokedex drawn from it is
      id-uniqueness: no owner ever holds two records with one id. */
  lemma NoDupGivesDistinctIds(dex: seq<Pokemon>, catalog: seq<Pokemon>)
    requires UniqueIds(catalog) && FromCatalog(dex, catalog) && NoDup(dex)
    ensures DistinctIds(dex)
  {
    forall i, j | 0 <= i < j < |dex| ensures dex[i].id != dex[j].id {
      assert dex[i] in catalog && dex[j] in catalog;
      var a :| 0 <= a < |catalog| && catalog[a] == dex[i];
      var b :| 0 <= b < |catalog| && catalog[b] == dex[j];
      assert a != b;
    }
  }

  // ---------------------------------------------------------------------------
  // Display filters: the list comprehensions of the filter sub-menu. Each keeps the
  // entries that pass its test, in their pokedex order.

  /** `[p for p in dex if keep(p)]`. */
  function Filter(dex: seq<Pokemon>, keep: Pokemon -> bool): seq<Pokemon> {
    if dex == [] then []
    else (if keep(dex[0]) then [dex[0]] else []) + Filter(dex[1..], keep)
  }

  /** The filtered view is no longer than the list, holds exactly the entries that pass,
      and each of them as often as the list does. */
  lemma {:induction false} FilterSpec(dex: seq<Pokemon>, keep: Pokemon -> bool)
    ensures |Filter(dex, keep)| <= |dex|
    ensures forall p :: p in Filter(dex, keep) <==> p in dex && keep(p)
    ensures forall p :: multiset(Filter(dex, keep))[p] == if keep(p) then multiset(dex)[p] else 0
  {
    if dex != [] {
      FilterSpec(dex[1..], keep);
      assert dex == [dex[0]] + dex[1..];
    }
  }

  /** Filtering a concatenation filters each part: the kept entries stay in pokedex order. */
  lemma {:induction false} FilterConcat(a: seq<Pokemon>, b: seq<Pokemon>, keep: Pokemon -> bool)
    ensures Filter(a + b, keep) == Filter(a, keep) + Filter(b, keep)
  {
    if a == [] {
      assert a + b == b;
    } else {
      var h := if keep(a[0]) then [a[0]] else [];
      assert (a + b)[0] == a[0] && (a + b)[1..] == a[1..] + b;
      assert Filter(a + b, keep) == h + Filter(a[1..] + b, keep);
      FilterConcat(a[1..], b, keep);
      var x, y := Filter(a[1..], keep), Filter(b, keep);
      assert h + (x + y) == h + x + y;
    }
  }

  /** A list every entry of which passes is its own filtered view. */
  lemma {:induction false} FilterAllPass(dex: seq<Pokemon>, keep: Pokemon -> bool)
    requires forall p :: p in dex ==> keep(p)
    ensures Filter(dex, keep) == dex
  {
    if dex != [] {
      assert dex == [dex[0]] + dex[1..];
      FilterAllPass(dex[1..], keep);
    }
  }

  /** Choice 1: type equal to the requested type, ignoring case. */
  function OfType(dex: seq<Pokemon>, kind: string): (r: seq<Pokemon>)
    ensures forall p :: p in r <==> p in dex && Lower(p.kind) == Lower(kind)
  {
    FilterSpec(dex, (p: Pokemon) => Lower(p.kind) == Lower(kind));
    Filter(dex, (p: Pokemon) => Lower(p.kind) == Lower(kind))
  }

  /** Choice 2: records whose "Can Evolve" is TRUE. */
  function Evolvable(dex: seq<Pokemon>): (r: seq<Pokemon>)
    ensures forall p :: p in r <==> p in dex && p.canEvolve
  {
    FilterSpec(dex, (p: Pokemon) => p.canEvolve);
    Filter(dex, (p: Pokemon) => p.canEvolve)
  }

  /** Choice 3: attack strictly above the threshold. */
  function AttackAbove(dex: seq<Pokemon>, threshold: int): (r: seq<Pokemon>)
    ensures forall p :: p in r <==> p in dex && p.attack > threshold
  {
    FilterSpec(dex, (p: Pokemon) => p.attack > threshold);
    Filter(dex, (p: Pokemon) => p.attack > threshold)
  }

  /** Choice 4: HP strictly above the threshold. */
  function HpAbove(dex: seq<Pokemon>, threshold: int): (r: seq<Pokemon>)
    ensures forall p :: p in r <==> p in dex && p.hp > threshold
  {
    FilterSpec(dex, (p: Pokemon) => p.hp > threshold);
    Filter(dex, (p: Pokemon) => p.hp > threshold)
  }

  /** Choice 5: lower-cased name starts with the lower-cased prefix. */
  function NameStartsWith(dex: seq<Pokemon>, prefix: string): (r: seq<Pokemon>)
    ensures forall p :: p in r <==> p in dex && Lower(prefix) <= Lower(p.name)
  {
    FilterSpec(dex, (p: Pokemon) => Lower(prefix) <= Lower(p.name));
    Filter(dex, (p: Pokemon) => Lower(prefix) <= Lower(p.name))
  }

  /** Choice 6: the whole pokedex, which is what every filter keeps when all entries pass. */
  function All(dex: seq<Pokemon>): (r: seq<Pokemon>)
    ensures r == Filter(dex, (p: Pokemon) => true)
  {
    FilterAllPass(dex, p => true);
    dex
  }
}
