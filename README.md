# Pokedex registry (ex7) in Dafny

`ex7.py` is a console program that keeps one pokedex per owner. A pokedex is an ordered
list of Hoenn Pokemon records taken from a catalog. The owners live in an unbalanced
binary search tree, keyed on the owner's name compared case-insensitively. The program can:

- create and delete an owner's pokedex;
- add a Pokemon by id, release one by name, and evolve one by name (the evolved form has
  the next id);
- filter a pokedex by type, evolvability, attack, HP or name prefix;
- print the owners in pre-, in-, post- or level order;
- rank the owners by how many Pokemon they hold.

This project models that core and proves its properties:

- `Text`: lower-casing, and the lexicographic order on lower-cased names.
- `Catalog`: the catalog record and the two first-match lookups, by id and by name.
- `Pokedex`: the pokedex list object, Python's `list.remove`, and the filter comprehensions.
- `TreeModel`: the owner tree as a value, with insertion and deletion as the program
  performs them, and the search-tree invariant.
- `OwnerBst`: the owner tree as heap nodes, updated in place. Each method is proved
  against `TreeModel`.
- `Traversal`: the four visit orders on tree values. It includes a row-by-row definition
  of level order that the queue-driven walk is proved to match.
- `OwnerTraversal`: the visit orders on the heap tree, `gather_all_owners`, and the
  queue of `bfs_traversal`.
- `PokedexOps`: add, release and evolve, as functions on the list and as methods on an
  owner's list object.
- `Ranking`: sorting the gathered owner nodes by the program's key.
- `Registry`: the global root, together with the main-menu actions "new pokedex" and
  "delete a pokedex".

Two places where the program's comments and its code disagree (the model follows the code):

- `evolve_pokemon_by_name` says the evolved form goes into the original's position. The
  code appends it at the end of the list (ex7.py:274), and `PokedexOps.Evolve` does the same.
- The ranking key `(len(pokedex) == 0, len(pokedex), owner.lower())` puts owners with an
  empty pokedex LAST, because `True` sorts after `False`. The comments at ex7.py:289 and
  ex7.py:311 say such owners come first. `Ranking.RankCorrect` and `Ranking.SortOwners`
  state the order the key actually gives.

## Model

| member | source | states |
|---|---|---|
| Text.Lower | ex7.py:72 | lower-casing keeps the length and maps each character through the same per-character lowering |
| Text.StrLtIrreflexive | ex7.py:108-110 | no lowered name is below itself, so an equal name takes neither the `<` nor the `>` branch |
| Text.StrLtTransitive | ex7.py:108-110 | the name order is transitive |
| Text.StrLtTrichotomy | ex7.py:108-110 | any two names are equal or exactly one is below the other |
| Text.StrLt | ex7.py:108-110 | Python's `<` on the lowered strings: lexicographic, a proper prefix first; its order properties are StrLtIrreflexive, StrLtTransitive and StrLtTrichotomy |
| Catalog.FirstById | ex7.py:58-65 | the lookup finds nothing exactly when no record has the id; a record it finds is a catalog record with that id |
| Catalog.FirstByIdIsFirst | ex7.py:62-64 | the record found is the first record with the id: no earlier record has it |
| Catalog.GetById | ex7.py:58-65 | the `for` loop with early return gives the first record with the id, or nothing |
| Catalog.FirstByName | ex7.py:67-74 | the lookup finds nothing exactly when no record's lowered name equals the lowered query; a record it finds matches |
| Catalog.FirstByNameIsFirst | ex7.py:71-73 | the record found is the first whose lowered name matches |
| Catalog.GetByName | ex7.py:67-74 | the `for` loop with early return gives the first matching record by name, or nothing |
| Pokedex.PokedexList.constructor | ex7.py:97 | a new list is empty, or holds just the given first record |
| Pokedex.IndexOf | ex7.py:236 | the position of the first entry equal to the record: it holds the record and no earlier entry does |
| Pokedex.RemoveFirst | ex7.py:236 | `list.remove` as a function; specified by RemoveFirstSpec, RemoveFirstMultiset, RemoveFirstWithin and RemoveFirstNoDup |
| Pokedex.RemoveFirstSpec | ex7.py:236 | on a list holding the record, the removal drops exactly the first equal entry and keeps the rest in order, as `list.remove` does; on a list without it, `RemoveFirst` returns the list unchanged |
| Pokedex.RemoveFirstMultiset | ex7.py:236 | removal takes away one occurrence of the record and nothing else |
| Pokedex.RemoveFirstWithin | ex7.py:236 | removal introduces no new entry |
| Pokedex.RemoveFirstAppended | ex7.py:221-236 | removing a record just appended to a list without it gives that list back |
| Pokedex.RemoveFirstNoDup | ex7.py:236 | removal from a duplicate-free list keeps it duplicate-free and leaves no copy of the record |
| Pokedex.AppendNoDup | ex7.py:221-224 | appending a record that is absent keeps a list duplicate-free |
| Pokedex.NoDupGivesDistinctIds | ex7.py:221-224 | with unique catalog ids, a duplicate-free list of catalog records holds each id at most once |
| Pokedex.Filter | ex7.py:376-387 | the list comprehension with a condition; specified by FilterSpec and FilterConcat |
| Pokedex.FilterSpec | ex7.py:376-387 | a filter keeps exactly the entries that pass, each as often as before, in a list no longer than the original |
| Pokedex.FilterConcat | ex7.py:376-387 | filtering a concatenation filters each part |
| Pokedex.FilterAllPass | ex7.py:376-387 | a filter that every entry passes gives the list back |
| Pokedex.OfType | ex7.py:375-376 | the type filter keeps exactly the entries whose lowered type equals the lowered query |
| Pokedex.Evolvable | ex7.py:378 | the evolvable filter keeps exactly the entries whose "Can Evolve" is TRUE |
| Pokedex.AttackAbove | ex7.py:380-381 | the attack filter keeps exactly the entries whose attack is strictly above the threshold |
| Pokedex.HpAbove | ex7.py:383-384 | the HP filter keeps exactly the entries whose HP is strictly above the threshold |
| Pokedex.NameStartsWith | ex7.py:386-387 | the prefix filter keeps exactly the entries whose lowered name starts with the lowered prefix |
| Pokedex.All | ex7.py:389 | "all of them" is the filter that keeps every entry |
| TreeModel.Contents | ex7.py:91-100 | the tree's map from lowered name to owner entry has exactly the tree's lowered names as keys |
| TreeModel.Leftmost | ex7.py:124-130 | the leftmost node of a non-empty tree has no left child |
| TreeModel.Insert | ex7.py:102-112 | `insert_owner_bst` on tree values; specified by InsertKeys, InsertBst, InsertExisting and InsertContents |
| TreeModel.Delete | ex7.py:132-153 | `delete_owner_bst` on tree values, successor copy-up included; specified by DeleteAbsent, DeleteCorrect and DeleteTwoChildren |
| TreeModel.InsertKeys | ex7.py:102-112 | insertion gives the old names plus the new one |
| TreeModel.InsertBst | ex7.py:102-112 | insertion keeps the case-insensitive search-tree invariant |
| TreeModel.InsertExisting | ex7.py:108-112 | inserting a name already present, ignoring case, leaves the tree unchanged and drops the new node |
| TreeModel.InsertContents | ex7.py:102-112 | inserting an absent name adds its entry and leaves every other owner's entry as it was |
| TreeModel.LeftmostIsMin | ex7.py:124-130 | the leftmost node holds the least name of the tree, with its own pokedex |
| TreeModel.DeleteAbsent | ex7.py:132-153 | deleting a name that is not present leaves the tree unchanged |
| TreeModel.DeleteCorrect | ex7.py:132-153 | deletion keeps the search-tree invariant and removes exactly the lowered name; every other owner keeps its name and pokedex |
| TreeModel.DeleteTwoChildren | ex7.py:148-152 | the two-child case, which copies the in-order successor's owner and pokedex up, keeps the invariant and every other owner's entry, the successor's included |
| OwnerBst.OwnerNode.constructor | ex7.py:91-100 | `create_owner_node`: a childless node holding the name and the given list |
| OwnerBst.FindOwner | ex7.py:114-122 | on a search tree the lookup returns a node exactly when the lowered name is present, and that node holds the owner's entry |
| OwnerBst.SetLeft | ex7.py:109 | relinking the left child keeps the node's name, list and right child and rebuilds its footprint and value |
| OwnerBst.SetRight | ex7.py:111 | relinking the right child keeps the node's name, list and left child and rebuilds its footprint and value |
| OwnerBst.InsertOwner | ex7.py:102-112 | in-place insertion leaves a valid tree whose value is the value-level insertion; a non-empty tree keeps its root |
| OwnerBst.MinNode | ex7.py:124-130 | the `while` loop stops at a node of the subtree with no left child, the subtree's leftmost node; an empty subtree gives nothing |
| OwnerBst.DeleteOwner | ex7.py:132-153 | in-place deletion leaves a valid tree, within the old nodes, whose value is the value-level deletion |
| OwnerBst.DeleteHere | ex7.py:142-152 | deleting at the matching node: a missing child lets the other child take its place; otherwise the successor's data is copied up and the successor is deleted from the right subtree |
| Traversal.PreOrder | ex7.py:175-184 | pre-order visits one entry per node, the root first |
| Traversal.InOrder | ex7.py:186-195 | in-order visits one entry per node, each under a name of the tree |
| Traversal.PostOrder | ex7.py:197-206 | post-order visits one entry per node, the root last |
| Traversal.WalksAgree | ex7.py:175-206 | the three recursive walks visit the same entries, each equally often |
| Traversal.BstSize | ex7.py:102-112 | a search tree has one node per distinct lowered name |
| Traversal.InOrderAscending | ex7.py:186-195 | on a search tree, in-order visits names in strictly ascending case-insensitive order |
| Traversal.InOrderEntries | ex7.py:186-195 | on a search tree, every visited entry is the tree's entry for its name |
| Traversal.InOrderNames | ex7.py:186-195 | in-order visits exactly the names of the tree |
| Traversal.BfsStep | ex7.py:165-173 | one round of the queue visits the first tree's root and enqueues its present children, left first |
| Traversal.Bfs | ex7.py:165-173 | the queue loop on tree values; specified by BfsStep, BfsIsRows and BfsVisitsAll |
| Traversal.LevelOrder | ex7.py:159-173 | `bfs_traversal` from the root on tree values; specified by LevelOrderCorrect |
| Traversal.Rows | ex7.py:159-173 | the independent level order: the roots of one row, then the next row of their children; equal to the queue order by BfsIsRows |
| Traversal.BfsIsRows | ex7.py:159-173 | the queue-driven order equals the independent row-by-row level order |
| Traversal.BfsVisitsAll | ex7.py:159-173 | the queue-driven walk visits every entry of the queued trees, each exactly as often as it occurs |
| Traversal.LevelOrderCorrect | ex7.py:159-173 | the level order of a tree is its rows from the root down, and it visits exactly the entries pre-order visits |
| OwnerTraversal.PreOrderCorrect | ex7.py:175-184 | the nodes the heap pre-order visits show the pre-order of the tree's value |
| OwnerTraversal.PreOrderNodes | ex7.py:175-184 | the heap pre-order visits only nodes of the tree, each at most once |
| OwnerTraversal.PreOrder | ex7.py:175-184 | the heap pre-order; specified by PreOrderCorrect and PreOrderNodes |
| OwnerTraversal.InOrderCorrect | ex7.py:186-195 | the nodes the heap in-order visits show the in-order of the tree's value |
| OwnerTraversal.InOrderNodes | ex7.py:186-195 | the heap in-order visits only nodes of the tree, each at most once |
| OwnerTraversal.InOrder | ex7.py:186-195 | the heap in-order; specified by InOrderCorrect, InOrderNodes and InOrderSorted |
| OwnerTraversal.InOrderSorted | ex7.py:186-195 | on a search tree, in-order visits one distinct node per name, strictly ascending by lowered name |
| OwnerTraversal.PostOrderCorrect | ex7.py:197-206 | the nodes the heap post-order visits show the post-order of the tree's value |
| OwnerTraversal.PostOrderNodes | ex7.py:197-206 | the heap post-order visits only nodes of the tree, each at most once |
| OwnerTraversal.PostOrder | ex7.py:197-206 | the heap post-order; specified by PostOrderCorrect and PostOrderNodes |
| OwnerTraversal.GatherAllOwners | ex7.py:284-295 | the caller's list comes back extended by the tree's nodes in order |
| OwnerTraversal.BfsTraversal | ex7.py:159-173 | the nodes the queue dequeues, in order, show the level order of the tree's value, and are distinct nodes of the tree |
| OwnerTraversal.Dequeue | ex7.py:166-173 | one dequeue-visit-enqueue round keeps the visited-then-pending order and shrinks what is pending |
| OwnerTraversal.DequeueUnvisited | ex7.py:166-173 | one round visits a node not visited before and queues disjoint parts of its subtree holding no visited node |
| PokedexOps.AddSpec | ex7.py:212-225 | unknown id: NotFound, list unchanged; record already held: AlreadyOwned, list unchanged; otherwise the record with that id is appended at the end and earlier entries keep their order |
| PokedexOps.Add | ex7.py:212-225 | `add_pokemon_to_owner` on the list; specified by AddSpec, AddNoDup, AddTwice and AddReleaseFromCatalog |
| PokedexOps.AddNoDup | ex7.py:212-225 | adding never creates a duplicate entry |
| PokedexOps.AddTwice | ex7.py:221-224 | adding the same id again reports AlreadyOwned and changes nothing |
| PokedexOps.AddPokemon | ex7.py:212-225 | the in-place add on an owner's list object yields the status and entries of the value-level add |
| PokedexOps.ReleaseSpec | ex7.py:227-237 | unknown name or record not held: NotFound, list unchanged; otherwise exactly the first equal entry is removed and the others keep their order |
| PokedexOps.Release | ex7.py:227-237 | `release_pokemon_by_name` on the list; specified by ReleaseSpec, ReleaseNoDup and ReleaseUndoesAdd |
| PokedexOps.ReleaseNoDup | ex7.py:227-237 | releasing keeps a list duplicate-free and leaves no copy of the released record |
| PokedexOps.ReleaseUndoesAdd | ex7.py:212-237 | releasing a just-added record by its name gives back the original list |
| PokedexOps.AddReleaseFromCatalog | ex7.py:212-237 | add and release keep a pokedex made of catalog records |
| PokedexOps.ReleasePokemon | ex7.py:227-237 | the in-place release on an owner's list object yields the status and entries of the value-level release |
| PokedexOps.Evolved | ex7.py:264-277 | the second half of an evolution reports missing data, an evolved form already held, or success |
| PokedexOps.Evolve | ex7.py:239-277 | `evolve_pokemon_by_name` on the list; specified by EvolveStatus, EvolveIsReleaseThenAdd, EvolveWithoutDataIsRelease, EvolveNoDup and EvolveFromCatalog |
| PokedexOps.EvolveStatus | ex7.py:248-258 | record missing or not held: NotFound, exactly when a release would not find it; "Can Evolve" false: NotEvolvable; both leave the list unchanged; never AlreadyOwned |
| PokedexOps.EvolveIsReleaseThenAdd | ex7.py:261-274 | an evolution that passes the checks is a release followed by an add of the next id: same resulting list, with missing data, already-owned and success corresponding |
| PokedexOps.EvolvedIsAdd | ex7.py:264-277 | the lookup-and-append tail of an evolution has the list and matching status of an add |
| PokedexOps.EvolveWithoutDataIsRelease | ex7.py:261-277 | with no record for the next id, the evolution reports missing data and leaves the list a release would |
| PokedexOps.EvolveNoDup | ex7.py:239-277 | evolving keeps a duplicate-free list duplicate-free |
| PokedexOps.EvolveFromCatalog | ex7.py:239-277 | evolving keeps a pokedex made of catalog records |
| PokedexOps.EvolvePokemon | ex7.py:239-277 | the in-place evolution on an owner's list object yields the status and entries of the value-level evolution |
| Ranking.KeyLeTotal | ex7.py:315 | any two ranking keys are comparable |
| Ranking.KeyLeTransitive | ex7.py:315 | the key order is transitive |
| Ranking.KeyLeAntisymmetric | ex7.py:315 | keys each at most the other are equal, so with distinct names the order is strict |
| Ranking.KeyLe | ex7.py:315 | Python's tuple order on the key, False before True; a total preorder by KeyLeTotal and KeyLeTransitive, antisymmetric by KeyLeAntisymmetric |
| Ranking.KeyOrder | ex7.py:315 | an owner holding Pokemon ranks strictly before one holding none; otherwise the smaller pokedex ranks first, and equal sizes rank by lowered name |
| Ranking.Keys | ex7.py:315 | every node gets its key, computed once, and no other node has one |
| Ranking.Insert | ex7.py:315 | inserting a node into a key-sorted list gives a key-sorted list with one more occurrence of it |
| Ranking.Sort | ex7.py:315 | the sort gives the same nodes, each as often, in key order |
| Ranking.Rank | ex7.py:315 | `owners.sort(key=...)`; specified by RankCorrect |
| Ranking.RankCorrect | ex7.py:297-315 | the ranked list is a permutation of the gathered nodes, non-decreasing by key, with empty pokedexes after all others |
| Ranking.RankedInOrder | ex7.py:315 | sorting by the precomputed keys orders the nodes by their current keys |
| Ranking.NoOwnersNoTree | ex7.py:302-307 | nothing is gathered exactly when the tree is empty |
| Ranking.SortOwners | ex7.py:297-315 | ranks a permutation of the in-order nodes by key, empty pokedexes last, empty exactly when the tree is empty; the tree is not changed |
| Registry.OwnerRegistry.constructor | ex7.py:4 | the registry starts with no owners |
| Registry.OwnerRegistry.NewPokedex | ex7.py:458-482 | a pokedex is created exactly when the lowered name is absent; the new owner holds a fresh list with the starter, when the catalog has it; no other owner changes |
| Registry.OwnerRegistry.InsertNew | ex7.py:481-482 | inserting a new owner with a list no owner holds adds its entry and keeps the search-tree invariant and the lists apart |
| Registry.OwnerRegistry.Link | ex7.py:481-482 | building the node and linking it in gives the tree whose value is the value-level insertion |
| Registry.OwnerRegistry.Unlink | ex7.py:490 | unlinking gives the tree whose value is the value-level deletion |
| Registry.InsertKeeps | ex7.py:481-482 | inserting an owner with a new list keeps the search-tree invariant and no two owners sharing a list, and adds exactly its entry |
| Registry.DeleteKeeps | ex7.py:490 | deleting an owner keeps the search-tree invariant and no two owners sharing a list, and removes exactly its entry |
| Registry.OwnListsAdd | ex7.py:97 | an owner added with a list no owner holds keeps every owner's list its own |
| Registry.OwnerRegistry.DeletePokedex | ex7.py:486-493 | a pokedex is deleted exactly when the lowered name is present; the owners are the old ones minus that name |

## Left out

- Reading the catalog from `hoenn_pokedex.csv` (ex7.py:10-39) is file I/O. The catalog is a
  parameter: an immutable sequence of records, "Can Evolve" as a boolean.
- `read_int_safe` (ex7.py:48), every `input` and `print`, and `display_pokemon_list`
  (ex7.py:76) are console I/O. Each operation takes its already-read input as a parameter
  and returns a status instead of printing. The walks return the nodes they visit rather
  than printing them.
- The menu loops are prompting and dispatch only: `display_filter_sub_menu`'s loop
  (ex7.py:354), `existing_pokedex` (ex7.py:402), `print_all_owners` (ex7.py:330),
  `main_menu` (ex7.py:438) and `main` (ex7.py:504). The filter conditions at
  ex7.py:376-389 are kept as functions.
- The `.strip()` of typed names is assumed done by the caller before the name is passed in.
- The starter-choice mapping (menu choice 1, 2, 3 to ids 1, 4, 7) is menu glue. So is the
  failure at ex7.py:483 when the starter id is missing from the catalog.
  `Registry.OwnerRegistry.NewPokedex` takes the starter id, and creates an empty list when
  the catalog lacks it.
- Text.Lower: lowers ASCII letters only, not the whole of Python's Unicode `str.lower()`.
  Names are compared as sequences of code points.
- `dict.copy()` (ex7.py:64, 73): records are immutable values compared structurally, which
  is what Python's `==` and `in` on these dictionaries do. Aliasing between copies is not modelled.
- Pokedex lists are objects held by reference. The delete's two-child case moves the
  successor's list reference into the surviving node as the successor is unlinked, as the
  program does, and the registry keeps no two owners on the same list. What a filter
  returns is a fresh value, not the aliased list that "all of them" returns.
- Pokedex.RemoveFirst: Python's `list.remove` raises `ValueError` on an absent value;
  `RemoveFirst` returns the list unchanged. No call site reaches this case, since each call
  follows a membership check (ex7.py:233, ex7.py:251).
- Pokedex.All: states equality with the keep-everything filter. It does not state that
  Python returns the very same list object.
