/** The four print orders of the registry as sequences of visited entries, on tree values:
    the recursive pre-, in- and post-order walks, and the queue-driven breadth-first walk
    together with an independent row-by-row definition of level order. */
module Traversal {
  import opened Text
  import opened TreeModel

  function Size<D>(t: Tree<D>): nat {
    match t
    case Nil => 0
    case Node(_, _, l, r) => Size(l) + Size(r) + 1
  }

  /** `pre_order`: the node, then its left subtree, then its right subtree. */
  function PreOrder<D>(t: Tree<D>): (s: seq<Entry<D>>)
    ensures |s| == Size(t)
    ensures t.Node? ==> s[0] == Entry(t.owner, t.pokedex)
  {
    match t
    case Nil => []
    case Node(o, d, l, r) => [Entry(o, d)] + PreOrder(l) + PreOrder(r)
  }

  /** `in_order` and `gather_all_owners`: left subtree, the node, right subtree. Every
      visited name is a name of the tree. */
  function InOrder<D>(t: Tree<D>): (s: seq<Entry<D>>)
    ensures |s| == Size(t)
    ensures forall i :: 0 <= i < |s| ==> Lower(s[i].owner) in LKeys(t)
  {
    match t
    case Nil => []
    case Node(o, d, l, r) =>
      var s := InOrder(l) + [Entry(o, d)] + InOrder(r);
      assert forall i :: 0 <= i < |InOrder(l)| ==> s[i] == InOrder(l)[i];
      assert forall i :: |InOrder(l)| < i < |s| ==> s[i] == InOrder(r)[i - |InOrder(l)| - 1];
      s
  }

  /** `post_order`: left subtree, right subtree, then the node. */
  function PostOrder<D>(t: Tree<D>): (s: seq<Entry<D>>)
    ensures |s| == Size(t)
    ensures t.Node? ==> s[|s| - 1] == Entry(t.owner, t.pokedex)
  {
    match t
    case Nil => []
    case Node(o, d, l, r) => PostOrder(l) + PostOrder(r) + [Entry(o, d)]
  }

  /** The three recursive walks visit the same entries, each as often as the others. */
  lemma {:induction false} WalksAgree<D>(t: Tree<D>)
    ensures multiset(PreOrder(t)) == multiset(InOrder(t))
    ensures multiset(PostOrder(t)) == multiset(InOrder(t))
  {
    match t
    case Nil =>
    case Node(o, d, l, r) =>
      WalksAgree(l);
      WalksAgree(r);
      var e := Entry(o, d);
      assert multiset(PreOrder(t)) == multiset{e} + multiset(PreOrder(l)) + multiset(PreOrder(r));
      assert multiset(InOrder(t)) == multiset(InOrder(l)) + multiset{e} + multiset(InOrder(r));
      assert multiset(PostOrder(t)) == multiset(PostOrder(l)) + multiset(PostOrder(r)) + multiset{e};
  }

  /** On a search tree the names are distinct, so the tree has one node per name. */
  lemma {:induction false} BstSize<D>(t: Tree<D>)
    requires IsBst(t)
    ensures |LKeys(t)| == Size(t)
  {
    match t
    case Nil =>
    case Node(o, d, l, r) =>
      BstSize(l);
      BstSize(r);
      var ko := Lower(o);
      assert LKeys(l) !! LKeys(r) by {
        forall k | k in LKeys(l) && k in LKeys(r) ensures false {
          StrLtTrichotomy(k, ko);
        }
      }
      assert ko !in LKeys(l) + LKeys(r) by { StrLtIrreflexive(ko); }
      assert |LKeys(l) + LKeys(r)| == |LKeys(l)| + |LKeys(r)|;
  }

  /** On a search tree, `in_order` visits names in strictly ascending case-insensitive
      order. */
  lemma {:induction false} InOrderAscending<D>(t: Tree<D>)
    requires IsBst(t)
    ensures forall i, j :: 0 <= i < j < |InOrder(t)| ==>
              StrLt(Lower(InOrder(t)[i].owner), Lower(InOrder(t)[j].owner))
  {
    match t
    case Nil =>
    case Node(o, d, l, r) =>
      InOrderAscending(l);
      InOrderAscending(r);
      var sl, sr := InOrder(l), InOrder(r);
      var s := InOrder(t);
      var ko, n := Lower(o), |sl|;
      assert forall i :: 0 <= i < n ==> s[i] == sl[i];
      assert forall i :: n < i < |s| ==> s[i] == sr[i - n - 1];
      forall i, j | 0 <= i < j < |s| ensures StrLt(Lower(s[i].owner), Lower(s[j].owner)) {
        if i < n && n < j {
          StrLtTransitive(Lower(s[i].owner), ko, Lower(s[j].owner));
        }
      }
  }

  /** On a search tree, a name of either subtree has the subtree's entry as the tree's. */
  lemma ContentsSides<D>(t: Tree<D>)
    requires IsBst(t) && t.Node?
    ensures forall k :: k in LKeys(t.left) ==> Contents(t)[k] == Contents(t.left)[k]
    ensures forall k :: k in LKeys(t.right) ==> Contents(t)[k] == Contents(t.right)[k]
  {
    var ko := Lower(t.owner);
    StrLtIrreflexive(ko);
    forall k | k in LKeys(t.left) ensures Contents(t)[k] == Contents(t.left)[k] {
      assert k !in LKeys(t.right) by { if k in LKeys(t.right) { StrLtTrichotomy(k, ko); } }
    }
  }

  /** On a search tree, every entry `in_order` visits is the tree's entry for its name. */
  lemma {:induction false} InOrderEntries<D>(t: Tree<D>)
    requires IsBst(t)
    ensures forall e :: e in InOrder(t) ==> Lower(e.owner) in Contents(t) && Contents(t)[Lower(e.owner)] == e
  {
    match t
    case Nil =>
    case Node(o, d, l, r) =>
      InOrderEntries(l);
      InOrderEntries(r);
      ContentsSides(t);
      var sl, sr := InOrder(l), InOrder(r);
      assert InOrder(t) == sl + [Entry(o, d)] + sr;
      forall e | e in InOrder(t) ensures Lower(e.owner) in Contents(t) && Contents(t)[Lower(e.owner)] == e {
        if e in sl {
          assert Lower(e.owner) in LKeys(l);
        } else if e in sr {
          assert Lower(e.owner) in LKeys(r);
        }
      }
  }

  /** The lower-cased names of a visit sequence. */
  function Names<D>(s: seq<Entry<D>>): (r: set<string>)
    ensures forall i :: 0 <= i < |s| ==> Lower(s[i].owner) in r
  {
    if s == [] then {} else {Lower(s[0].owner)} + Names(s[1..])
  }

  lemma {:induction false} NamesConcat<D>(a: seq<Entry<D>>, b: seq<Entry<D>>)
    ensures Names(a + b) == Names(a) + Names(b)
  {
    if a != [] {
      assert (a + b)[0] == a[0] && (a + b)[1..] == a[1..] + b;
      NamesConcat(a[1..], b);
    } else {
      assert a + b == b;
    }
  }

  /** `in_order` visits exactly the names of the tree. */
  lemma {:induction false} InOrderNames<D>(t: Tree<D>)
    ensures Names(InOrder(t)) == LKeys(t)
  {
    match t
    case Nil =>
    case Node(o, d, l, r) =>
      InOrderNames(l);
      InOrderNames(r);
      NamesConcat(InOrder(l) + [Entry(o, d)], InOrder(r));
      NamesConcat(InOrder(l), [Entry(o, d)]);
      assert Names([Entry(o, d)]) == {Lower(o)} by { assert [Entry(o, d)][1..] == []; }
  }

  // ---------------------------------------------------------------------------
  // Breadth-first order

  function SizeSum<D>(q: seq<Tree<D>>): nat {
    if q == [] then 0 else Size(q[0]) + SizeSum(q[1..])
  }

  lemma {:induction false} SizeSumConcat<D>(a: seq<Tree<D>>, b: seq<Tree<D>>)
    ensures SizeSum(a + b) == SizeSum(a) + SizeSum(b)
  {
    if a != [] {
      assert (a + b)[0] == a[0] && (a + b)[1..] == a[1..] + b;
      SizeSumConcat(a[1..], b);
    } else {
      assert a + b == b;
    }
  }

  /** The children `bfs_traversal` enqueues for one node: the present ones, left first. */
  function Kids<D>(t: Tree<D>): seq<Tree<D>> {
    match t
    case Nil => []
    case Node(_, _, l, r) => Present(l) + Present(r)
  }

  /** A child as the queue receives it: nothing for an absent child. */
  function Present<D>(t: Tree<D>): seq<Tree<D>> {
    if t.Node? then [t] else []
  }

  lemma KidsSize<D>(t: Tree<D>)
    ensures SizeSum(Kids(t)) + (if t.Node? then 1 else 0) == Size(t)
  {
    match t
    case Nil =>
    case Node(_, _, l, r) =>
      SizeSumConcat(Present(l), Present(r));
      assert SizeSum(Present(l)) == Size(l) && SizeSum(Present(r)) == Size(r);
  }

  /** `bfs_traversal` driven by its queue: dequeue the first tree, visit its root and
      enqueue its present children. */
  function Bfs<D>(q: seq<Tree<D>>): seq<Entry<D>>
    decreases SizeSum(q), |q|
  {
    if q == [] then []
    else
      match q[0]
      case Nil => Bfs(q[1..])
      case Node(o, d, _, _) =>
        SizeSumConcat(q[1..], Kids(q[0]));
        KidsSize(q[0]);
        [Entry(o, d)] + Bfs(q[1..] + Kids(q[0]))
  }

  /** Level order of a tree: the breadth-first walk started with the root in the queue. */
  function LevelOrder<D>(t: Tree<D>): seq<Entry<D>> {
    Bfs([t])
  }

  /** The roots of a forest, in order. */
  function Roots<D>(q: seq<Tree<D>>): seq<Entry<D>> {
    if q == [] then []
    else (if q[0].Node? then [Entry(q[0].owner, q[0].pokedex)] else []) + Roots(q[1..])
  }

  /** The forest one level down: the present children of each tree, in order. */
  function Children<D>(q: seq<Tree<D>>): seq<Tree<D>> {
    if q == [] then [] else Kids(q[0]) + Children(q[1..])
  }

  /** Going one level down loses exactly the roots. */
  lemma {:induction false} ChildrenSize<D>(q: seq<Tree<D>>)
    ensures SizeSum(Children(q)) + |Roots(q)| == SizeSum(q)
  {
    if q != [] {
      ChildrenSize(q[1..]);
      SizeSumConcat(Kids(q[0]), Children(q[1..]));
      KidsSize(q[0]);
    }
  }

  /** Level order defined independently of the queue: all roots of the forest, then the
      forest of their children, level by level. */
  function Rows<D>(q: seq<Tree<D>>): seq<Entry<D>>
    decreases SizeSum(q)
  {
    if Roots(q) == [] then []
    else
      ChildrenSize(q);
      Roots(q) + Rows(Children(q))
  }

  /** One step of the queue: the first tree's root, if any, is visited and its present
      children join the back of the queue. */
  lemma BfsStep<D>(q: seq<Tree<D>>)
    requires q != []
    ensures Bfs(q) == Roots([q[0]]) + Bfs(q[1..] + Kids(q[0]))
  {
    RootsSingle(q[0]);
    if q[0].Nil? {
      assert q[1..] + Kids(q[0]) == q[1..];
    }
  }

  lemma RootsSingle<D>(t: Tree<D>)
    ensures Roots([t]) == if t.Node? then [Entry(t.owner, t.pokedex)] else []
  {
    assert [t][1..] == [];
  }

  /** Running the queue over `q` followed by `s` visits the roots of `q` first and leaves
      `s` followed by the children of `q` in the queue. */
  lemma {:induction false} BfsSplit<D>(q: seq<Tree<D>>, s: seq<Tree<D>>)
    ensures Bfs(q + s) == Roots(q) + Bfs(s + Children(q))
    decreases |q|
  {
    if q == [] {
      assert q + s == s && s + Children(q) == s;
    } else {
      BfsSplit(q[1..], s + Kids(q[0]));
      BfsSplitStep(q, s);
    }
  }

  /** The inductive step of `BfsSplit`: one dequeue, then the split of the rest. */
  lemma BfsSplitStep<D>(q: seq<Tree<D>>, s: seq<Tree<D>>)
    requires q != []
    requires Bfs(q[1..] + (s + Kids(q[0]))) == Roots(q[1..]) + Bfs(s + Kids(q[0]) + Children(q[1..]))
    ensures Bfs(q + s) == Roots(q) + Bfs(s + Children(q))
  {
    var A, B, C := Roots([q[0]]), Roots(q[1..]), Bfs(s + Children(q));
    DequeueFirst(q, s);
    ChildrenCons(q, s);
    Assoc(A, B, C);
    RootsCons(q);
  }

  /** Dequeuing the first tree of `q + s`. */
  lemma DequeueFirst<D>(q: seq<Tree<D>>, s: seq<Tree<D>>)
    requires q != []
    ensures Bfs(q + s) == Roots([q[0]]) + Bfs(q[1..] + (s + Kids(q[0])))
  {
    ConsSplit(q, s, Kids(q[0]));
    BfsStep(q + s);
  }

  lemma ChildrenCons<D>(q: seq<Tree<D>>, s: seq<Tree<D>>)
    requires q != []
    ensures s + Kids(q[0]) + Children(q[1..]) == s + Children(q)
  {
    Assoc(s, Kids(q[0]), Children(q[1..]));
  }

  lemma Assoc<T>(a: seq<T>, b: seq<T>, c: seq<T>)
    ensures a + (b + c) == a + b + c
  {
  }

  lemma ConsSplit<T>(q: seq<T>, s: seq<T>, k: seq<T>)
    requires q != []
    ensures (q + s)[0] == q[0] && (q + s)[1..] + k == q[1..] + (s + k)
  {
    assert (q + s)[1..] == q[1..] + s;
  }

  lemma RootsCons<D>(q: seq<Tree<D>>)
    requires q != []
    ensures Roots(q) == Roots([q[0]]) + Roots(q[1..])
  {
    assert [q[0]][1..] == [];
  }

  lemma {:induction false} NoRootsNoChildren<D>(q: seq<Tree<D>>)
    requires Roots(q) == []
    ensures Children(q) == []
  {
    if q != [] {
      assert q[0].Nil?;
      NoRootsNoChildren(q[1..]);
    }
  }

  /** The queue-driven walk is level order: it produces the forest row by row. */
  lemma {:induction false} BfsIsRows<D>(q: seq<Tree<D>>)
    ensures Bfs(q) == Rows(q)
    decreases SizeSum(q)
  {
    BfsSplit(q, []);
    assert q + [] == q && [] + Children(q) == Children(q);
    if Roots(q) == [] {
      NoRootsNoChildren(q);
    } else {
      ChildrenSize(q);
      BfsIsRows(Children(q));
    }
  }

  /** The entries of a forest, as often as they occur in its trees. */
  ghost function Forest<D>(q: seq<Tree<D>>): multiset<Entry<D>> {
    if q == [] then multiset{} else Bag(q[0]) + Forest(q[1..])
  }

  /** The entries of one tree, as often as they occur in it. */
  ghost function Bag<D>(t: Tree<D>): multiset<Entry<D>> {
    match t
    case Nil => multiset{}
    case Node(o, d, l, r) => multiset{Entry(o, d)} + Bag(l) + Bag(r)
  }

  lemma {:induction false} BagPreOrder<D>(t: Tree<D>)
    ensures Bag(t) == multiset(PreOrder(t))
  {
    match t
    case Nil =>
    case Node(o, d, l, r) =>
      BagPreOrder(l);
      BagPreOrder(r);
      var pl, pr := PreOrder(l), PreOrder(r);
      assert PreOrder(t) == [Entry(o, d)] + pl + pr;
  }

  lemma {:induction false} ForestConcat<D>(a: seq<Tree<D>>, b: seq<Tree<D>>)
    ensures Forest(a + b) == Forest(a) + Forest(b)
  {
    if a != [] {
      assert (a + b)[0] == a[0] && (a + b)[1..] == a[1..] + b;
      ForestConcat(a[1..], b);
    } else {
      assert a + b == b;
    }
  }

  /** The queue-driven walk visits every entry of the queued trees exactly as often as it
      occurs in them. */
  lemma {:induction false} BfsVisitsAll<D>(q: seq<Tree<D>>)
    ensures multiset(Bfs(q)) == Forest(q)
    decreases SizeSum(q), |q|
  {
    if q != [] {
      var t, rest := q[0], q[1..];
      var k := Kids(t);
      SizeSumConcat(rest, k);
      KidsSize(t);
      BfsVisitsAll(rest + k);
      BfsStep(q);
      ForestConcat(rest, k);
      KidsForest(t);
      var a, b, c := multiset(Roots([t])), Forest(rest), Forest(k);
      assert multiset(Bfs(q)) == a + (b + c);
      assert Forest(q) == (a + c) + b;
    }
  }

  /** A tree's entries are its root's, if any, and those of its present children. */
  lemma KidsForest<D>(t: Tree<D>)
    ensures multiset(Roots([t])) + Forest(Kids(t)) == Bag(t)
  {
    RootsSingle(t);
    match t
    case Nil =>
      assert Forest(Kids(t)) == multiset{};
    case Node(o, d, l, r) =>
      ForestConcat(Present(l), Present(r));
      ForestPresent(l);
      ForestPresent(r);
  }

  lemma ForestPresent<D>(t: Tree<D>)
    ensures Forest(Present(t)) == Bag(t)
  {
    assert [t][1..] == [];
  }

  /** `bfs_traversal` visits the same entries as the recursive walks, level by level. */
  lemma LevelOrderCorrect<D>(t: Tree<D>)
    ensures LevelOrder(t) == Rows([t])
    ensures multiset(LevelOrder(t)) == multiset(PreOrder(t))
  {
    BfsIsRows([t]);
    BfsVisitsAll([t]);
    assert [t][1..] == [];
    BagPreOrder(t);
  }
}
