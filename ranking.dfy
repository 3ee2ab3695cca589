/** `sort_owners_by_num_pokemon`: gather the owner nodes in order, then sort them by the key
    (pokedex is empty, pokedex size, lower-cased owner name), compared as Python compares
    tuples, with False before True.

    As written, that key puts owners with an empty pokedex LAST: their first component is
    True. The program's comments describe them as coming first; this model follows the key. */
module Ranking {
  import opened Text
  import opened Pokedex
  import opened TreeModel
  import opened OwnerBst
  import OwnerTraversal

  datatype RankKey = RankKey(empty: bool, count: nat, name: string)

  /** Tuple order on keys: the first component (False < True), then the size, then the name. */
  predicate KeyLe(a: RankKey, b: RankKey) {
    || (!a.empty && b.empty)
    || (a.empty == b.empty && (a.count < b.count || (a.count == b.count && StrLe(a.name, b.name))))
  }

  lemma KeyLeTotal(a: RankKey, b: RankKey)
    ensures KeyLe(a, b) || KeyLe(b, a)
  {
    StrLtTrichotomy(a.name, b.name);
  }

  lemma KeyLeTransitive(a: RankKey, b: RankKey, c: RankKey)
    requires KeyLe(a, b) && KeyLe(b, c)
    ensures KeyLe(a, c)
  {
    if a.empty == b.empty == c.empty && a.count == b.count == c.count && a.name != b.name && b.name != c.name {
      StrLtTransitive(a.name, b.name, c.name);
    }
  }

  /** Keys that are each at most the other are equal: with distinct names the ranking is a
      strict order and leaves nothing to the stability of the sort. */
  lemma KeyLeAntisymmetric(a: RankKey, b: RankKey)
    requires KeyLe(a, b) && KeyLe(b, a)
    ensures a == b
  {
    StrLtTrichotomy(a.name, b.name);
  }

  /** An owner node's key, read from its current pokedex. */
  function KeyOf(n: OwnerNode): RankKey
    reads n, n.pokedex
  {
    RankKey(|n.pokedex.entries| == 0, |n.pokedex.entries|, Lower(n.owner))
  }

  /** What the key order means for two owners: one holding Pokemon ranks strictly before
      one holding none; otherwise the smaller pokedex ranks first, and equal sizes rank by
      lower-cased name. */
  lemma KeyOrder(a: OwnerNode, b: OwnerNode)
    ensures a.pokedex.entries != [] && b.pokedex.entries == [] ==>
              KeyLe(KeyOf(a), KeyOf(b)) && !KeyLe(KeyOf(b), KeyOf(a))
    ensures (a.pokedex.entries == []) == (b.pokedex.entries == []) ==>
              (KeyLe(KeyOf(a), KeyOf(b)) <==>
                 || |a.pokedex.entries| < |b.pokedex.entries|
                 || (|a.pokedex.entries| == |b.pokedex.entries| && StrLe(Lower(a.owner), Lower(b.owner))))
  {
  }

  /** The pokedex lists the nodes of `s` refer to. */
  ghost function Dexes(s: seq<OwnerNode>): set<object>
    reads s
  {
    set i | 0 <= i < |s| :: s[i].pokedex
  }

  /** The key of every node of `s`, computed once per node as `sort` computes `key(x)`. */
  function Keys(s: seq<OwnerNode>): (m: map<OwnerNode, RankKey>)
    reads s, Dexes(s)
    ensures forall i :: 0 <= i < |s| ==> s[i] in m && m[s[i]] == KeyOf(s[i])
    ensures forall n :: n in m ==> n in s
  {
    if s == [] then map[]
    else
      assert Dexes(s[1..]) <= Dexes(s) by {
        forall o | o in Dexes(s[1..]) ensures o in Dexes(s) {
          var i :| 0 <= i < |s[1..]| && s[1..][i].pokedex == o;
          assert s[i + 1].pokedex == o;
        }
      }
      assert s[0].pokedex in Dexes(s);
      assert forall i :: 1 <= i < |s| ==> s[i] == s[1..][i - 1];
      Keys(s[1..])[s[0] := KeyOf(s[0])]
  }

  /** Every node of `s` has a key and the keys ascend along `s`. */
  predicate Sorted(s: seq<OwnerNode>, key: map<OwnerNode, RankKey>) {
    forall i, j :: 0 <= i < j < |s| ==> s[i] in key && s[j] in key && KeyLe(key[s[i]], key[s[j]])
  }

  /** Places `x` before the first node whose key is not below its own. */
  function Insert(x: OwnerNode, s: seq<OwnerNode>, key: map<OwnerNode, RankKey>): (r: seq<OwnerNode>)
    requires x in key && (forall n :: n in s ==> n in key) && Sorted(s, key)
    ensures |r| == |s| + 1
    ensures multiset(r) == multiset(s) + multiset{x}
    ensures Sorted(r, key)
  {
    if s == [] then [x]
    else if KeyLe(key[x], key[s[0]]) then
      assert Sorted([x] + s, key) by {
        forall i, j | 0 <= i < j < |[x] + s| ensures KeyLe(key[([x] + s)[i]], key[([x] + s)[j]]) {
          if i == 0 && j > 1 { KeyLeTransitive(key[x], key[s[0]], key[s[j - 1]]); }
        }
      }
      [x] + s
    else
      KeyLeTotal(key[x], key[s[0]]);
      var rest := Insert(x, s[1..], key);
      assert s == [s[0]] + s[1..];
      InsertHead(s[0], x, s[1..], rest, key);
      [s[0]] + rest
  }

  lemma InsertHead(h: OwnerNode, x: OwnerNode, t: seq<OwnerNode>, rest: seq<OwnerNode>, key: map<OwnerNode, RankKey>)
    requires h in key && x in key && (forall n :: n in t ==> n in key)
    requires Sorted([h] + t, key) && Sorted(rest, key) && KeyLe(key[h], key[x])
    requires multiset(rest) == multiset(t) + multiset{x}
    ensures Sorted([h] + rest, key)
  {
    forall k | 0 <= k < |rest| ensures rest[k] in key && KeyLe(key[h], key[rest[k]]) {
      assert rest[k] in multiset(rest);
      if rest[k] != x {
        assert rest[k] in t;
        var m :| 0 <= m < |t| && t[m] == rest[k];
        assert ([h] + t)[0] == h && ([h] + t)[m + 1] == t[m];
      }
    }
    forall i, j | 0 <= i < j < |[h] + rest|
      ensures ([h] + rest)[i] in key && ([h] + rest)[j] in key && KeyLe(key[([h] + rest)[i]], key[([h] + rest)[j]])
    {
      if i > 0 { assert ([h] + rest)[i] == rest[i - 1]; }
      assert ([h] + rest)[j] == rest[j - 1];
    }
  }

  /** `list.sort(key=...)`, as an insertion sort: the same nodes, in key order. */
  function Sort(s: seq<OwnerNode>, key: map<OwnerNode, RankKey>): (r: seq<OwnerNode>)
    requires forall n :: n in s ==> n in key
    ensures |r| == |s|
    ensures multiset(r) == multiset(s)
    ensures Sorted(r, key)
  {
    if s == [] then []
    else
      assert s == [s[0]] + s[1..];
      var rest := Sort(s[1..], key);
      assert forall n :: n in rest ==> n in multiset(rest);
      Insert(s[0], rest, key)
  }

  /** `owners.sort(key=...)`: each node's key is computed, then the nodes are sorted by it. */
  function Rank(owners: seq<OwnerNode>): seq<OwnerNode>
    reads owners, Dexes(owners)
  {
    Sort(owners, Keys(owners))
  }

  /** The ranked list holds the gathered nodes, each as often as before, ordered by the
      key read from each node, so owners with an empty pokedex come after all others. */
  lemma RankCorrect(owners: seq<OwnerNode>)
    ensures |Rank(owners)| == |owners|
    ensures multiset(Rank(owners)) == multiset(owners)
    ensures forall i, j :: 0 <= i < j < |Rank(owners)| ==> KeyLe(KeyOf(Rank(owners)[i]), KeyOf(Rank(owners)[j]))
    ensures forall i, j :: 0 <= i < j < |Rank(owners)| && Rank(owners)[i].pokedex.entries == [] ==>
              Rank(owners)[j].pokedex.entries == []
  {
    RankedInOrder(owners, Rank(owners), Keys(owners));
  }

  /** `sort_owners_by_num_pokemon` without its printing: the ranked nodes. Nothing in the
      tree or the pokedexes changes. */
  method SortOwners(root: OwnerNode?) returns (ranked: seq<OwnerNode>)
    requires root != null ==> root.Valid()
    ensures multiset(ranked) == multiset(OwnerTraversal.InOrder(root))
    ensures forall i, j :: 0 <= i < j < |ranked| ==> KeyLe(KeyOf(ranked[i]), KeyOf(ranked[j]))
    ensures forall i, j :: 0 <= i < j < |ranked| && ranked[i].pokedex.entries == [] ==> ranked[j].pokedex.entries == []
    ensures ranked == [] <==> root == null
  {
    NoOwnersNoTree(root);
    ghost var gathered := OwnerTraversal.InOrder(root);
    var owners := OwnerTraversal.GatherAllOwners(root, []);
    assert owners == gathered;
    ranked := Rank(owners);
    RankCorrect(owners);
  }

  lemma NoOwnersNoTree(root: OwnerNode?)
    requires root != null ==> root.Valid()
    ensures OwnerTraversal.InOrder(root) == [] <==> root == null
  {
  }

  /** Sorting by the computed keys sorts by the nodes' current keys. */
  lemma RankedInOrder(owners: seq<OwnerNode>, ranked: seq<OwnerNode>, key: map<OwnerNode, RankKey>)
    requires forall i :: 0 <= i < |owners| ==> owners[i] in key && key[owners[i]] == KeyOf(owners[i])
    requires multiset(ranked) == multiset(owners) && Sorted(ranked, key)
    ensures forall i, j :: 0 <= i < j < |ranked| ==> KeyLe(KeyOf(ranked[i]), KeyOf(ranked[j]))
    ensures forall i, j :: 0 <= i < j < |ranked| && ranked[i].pokedex.entries == [] ==> ranked[j].pokedex.entries == []
  {
    forall k | 0 <= k < |ranked| ensures ranked[k] in key && key[ranked[k]] == KeyOf(ranked[k]) {
      assert ranked[k] in multiset(owners);
      var m :| 0 <= m < |owners| && owners[m] == ranked[k];
    }
  }
}
