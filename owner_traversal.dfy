/** The registry's print orders on the heap tree: the recursive walks as the sequences of
    nodes they visit, `gather_all_owners` appending to the caller's list, and
    `bfs_traversal` with its queue. Each is proved to visit what the corresponding walk of
    the tree's value visits, and every node at most once. */
module OwnerTraversal {
  import opened Text
  import opened Pokedex
  import opened TreeModel
  import Traversal
  import opened OwnerBst

  /** What a visit shows of each node: the owner's name and pokedex. */
  ghost function Entries(s: seq<OwnerNode>): (r: seq<Entry<PokedexList>>)
    reads s
    ensures |r| == |s|
    ensures forall i :: 0 <= i < |s| ==> r[i] == Entry(s[i].owner, s[i].pokedex)
  {
    if s == [] then [] else [Entry(s[0].owner, s[0].pokedex)] + Entries(s[1..])
  }

  /** The trees of a queue of nodes. */
  ghost function Models(q: seq<OwnerNode>): (r: seq<Tree<PokedexList>>)
    reads q
    ensures |r| == |q|
    ensures forall i :: 0 <= i < |q| ==> r[i] == q[i].Model
  {
    if q == [] then [] else [q[0].Model] + Models(q[1..])
  }

  /** No node occurs twice. */
  predicate Distinct(s: seq<OwnerNode>) {
    forall i, j :: 0 <= i < j < |s| ==> s[i] != s[j]
  }

  /** Two duplicate-free sequences of nodes drawn from disjoint footprints, neither
      containing `n`, make duplicate-free visit sequences around `n`. */
  lemma Join(a: seq<OwnerNode>, n: OwnerNode, b: seq<OwnerNode>, ra: set<OwnerNode>, rb: set<OwnerNode>)
    requires Distinct(a) && Distinct(b) && ra !! rb && n !in ra && n !in rb
    requires forall x :: x in a ==> x in ra
    requires forall x :: x in b ==> x in rb
    ensures Distinct([n] + a + b) && Distinct(a + [n] + b) && Distinct(a + b + [n])
  {
    DistinctAppend(a, b);
    DistinctAppend([n], a + b);
    DistinctAppend([n], b);
    DistinctAppend(a, [n] + b);
    DistinctAppend(a + b, [n]);
    assert a + [n] + b == a + ([n] + b);
    assert [n] + a + b == [n] + (a + b);
  }

  lemma DistinctAppend(a: seq<OwnerNode>, b: seq<OwnerNode>)
    requires Distinct(a) && Distinct(b) && forall x :: x in a ==> x !in b
    ensures Distinct(a + b)
  {
    forall i, j | 0 <= i < j < |a + b| ensures (a + b)[i] != (a + b)[j] {
      if i < |a| && j >= |a| {
        assert (a + b)[i] in a && (a + b)[j] == b[j - |a|];
      }
    }
  }

  lemma EntriesConcat(a: seq<OwnerNode>, b: seq<OwnerNode>)
    ensures Entries(a + b) == Entries(a) + Entries(b)
  {
  }

  /** The entries of three visit sequences laid end to end. */
  lemma Entries3(a: seq<OwnerNode>, b: seq<OwnerNode>, c: seq<OwnerNode>)
    ensures Entries(a + b + c) == Entries(a) + Entries(b) + Entries(c)
  {
    EntriesConcat(a + b, c);
    EntriesConcat(a, b);
  }

  /** `pre_order`: visits the node, then its left subtree, then its right subtree. */
  function PreOrder(root: OwnerNode?): seq<OwnerNode>
    reads root, if root == null then {} else root.Repr
    requires root != null ==> root.Valid()
    decreases ReprOf(root)
  {
    if root == null then [] else [root] + PreOrder(root.left) + PreOrder(root.right)
  }

  /** `in_order`: visits the left subtree, the node, then the right subtree. */
  function InOrder(root: OwnerNode?): seq<OwnerNode>
    reads root, if root == null then {} else root.Repr
    requires root != null ==> root.Valid()
    decreases ReprOf(root)
  {
    if root == null then [] else InOrder(root.left) + [root] + InOrder(root.right)
  }

  /** `post_order`: visits the left subtree, the right subtree, then the node. */
  function PostOrder(root: OwnerNode?): seq<OwnerNode>
    reads root, if root == null then {} else root.Repr
    requires root != null ==> root.Valid()
    decreases ReprOf(root)
  {
    if root == null then [] else PostOrder(root.left) + PostOrder(root.right) + [root]
  }

  /** The nodes `pre_order` visits show the pre-order of the tree's value. */
  lemma {:induction false} PreOrderCorrect(root: OwnerNode?)
    requires root != null ==> root.Valid()
    ensures Entries(PreOrder(root)) == Traversal.PreOrder(ModelOf(root))
    decreases ReprOf(root)
  {
    if root != null {
      PreOrderCorrect(root.left);
      PreOrderCorrect(root.right);
      var a, b, n := PreOrder(root.left), PreOrder(root.right), [root];
      Entries3(n, a, b);
      assert Entries(n) == [Entry(root.owner, root.pokedex)];
    }
  }

  /** `pre_order` visits nodes of the tree only, each at most once. */
  lemma {:induction false} PreOrderNodes(root: OwnerNode?)
    requires root != null ==> root.Valid()
    ensures forall x :: x in PreOrder(root) ==> x in ReprOf(root)
    ensures Distinct(PreOrder(root))
    decreases ReprOf(root)
  {
    if root != null {
      PreOrderNodes(root.left);
      PreOrderNodes(root.right);
      Join(PreOrder(root.left), root, PreOrder(root.right), ReprOf(root.left), ReprOf(root.right));
    }
  }

  /** The nodes `in_order` visits show the in-order of the tree's value. */
  lemma {:induction false} InOrderCorrect(root: OwnerNode?)
    requires root != null ==> root.Valid()
    ensures Entries(InOrder(root)) == Traversal.InOrder(ModelOf(root))
    decreases ReprOf(root)
  {
    if root != null {
      InOrderCorrect(root.left);
      InOrderCorrect(root.right);
      var a, b, n := InOrder(root.left), InOrder(root.right), [root];
      Entries3(a, n, b);
      assert Entries(n) == [Entry(root.owner, root.pokedex)];
    }
  }

  /** `in_order` visits nodes of the tree only, each at most once. */
  lemma {:induction false} InOrderNodes(root: OwnerNode?)
    requires root != null ==> root.Valid()
    ensures forall x :: x in InOrder(root) ==> x in ReprOf(root)
    ensures Distinct(InOrder(root))
    decreases ReprOf(root)
  {
    if root != null {
      InOrderNodes(root.left);
      InOrderNodes(root.right);
      Join(InOrder(root.left), root, InOrder(root.right), ReprOf(root.left), ReprOf(root.right));
    }
  }

  /** The nodes `post_order` visits show the post-order of the tree's value. */
  lemma {:induction false} PostOrderCorrect(root: OwnerNode?)
    requires root != null ==> root.Valid()
    ensures Entries(PostOrder(root)) == Traversal.PostOrder(ModelOf(root))
    decreases ReprOf(root)
  {
    if root != null {
      PostOrderCorrect(root.left);
      PostOrderCorrect(root.right);
      var a, b, n := PostOrder(root.left), PostOrder(root.right), [root];
      Entries3(a, b, n);
      assert Entries(n) == [Entry(root.owner, root.pokedex)];
    }
  }

  /** `post_order` visits nodes of the tree only, each at most once. */
  lemma {:induction false} PostOrderNodes(root: OwnerNode?)
    requires root != null ==> root.Valid()
    ensures forall x :: x in PostOrder(root) ==> x in ReprOf(root)
    ensures Distinct(PostOrder(root))
    decreases ReprOf(root)
  {
    if root != null {
      PostOrderNodes(root.left);
      PostOrderNodes(root.right);
      Join(PostOrder(root.left), root, PostOrder(root.right), ReprOf(root.left), ReprOf(root.right));
    }
  }

  /** On a search tree, `in_order` visits each node of the tree at most once, one per
      name, in strictly ascending case-insensitive order. */
  lemma InOrderSorted(root: OwnerNode?)
    requires root != null ==> root.Valid()
    requires IsBst(ModelOf(root))
    ensures forall x :: x in InOrder(root) ==> x in ReprOf(root)
    ensures Distinct(InOrder(root)) && |InOrder(root)| == |LKeys(ModelOf(root))|
    ensures forall i :: 0 <= i < |InOrder(root)| ==> Lower(InOrder(root)[i].owner) in LKeys(ModelOf(root))
    ensures forall i, j :: 0 <= i < j < |InOrder(root)| ==>
              StrLt(Lower(InOrder(root)[i].owner), Lower(InOrder(root)[j].owner))
  {
    var s, t := InOrder(root), ModelOf(root);
    InOrderCorrect(root);
    InOrderNodes(root);
    Traversal.InOrderAscending(t);
    Traversal.BstSize(t);
    assert forall i :: 0 <= i < |s| ==> Traversal.InOrder(t)[i].owner == s[i].owner;
  }

  /** `gather_all_owners`: appends the nodes of the tree, in order, to the caller's list. */
  method GatherAllOwners(root: OwnerNode?, arr: seq<OwnerNode>) returns (out: seq<OwnerNode>)
    requires root != null ==> root.Valid()
    ensures out == arr + InOrder(root)
    decreases ReprOf(root)
  {
    if root == null {
      return arr;
    }
    var n: OwnerNode := root;
    var l, rt := InOrder(n.left), InOrder(n.right);
    assert InOrder(n) == l + [n] + rt;
    var before := GatherAllOwners(n.left, arr);
    var mid := before + [n];
    out := GatherAllOwners(n.right, mid);
    Traversal.Assoc(arr, l + [n], rt);
    Traversal.Assoc(arr, l, [n]);
  }

  /** `bfs_traversal`: a queue that starts with the root; each round dequeues the first
      node, visits it and enqueues its present children, left first. */
  method BfsTraversal(root: OwnerNode?) returns (visits: seq<OwnerNode>)
    requires root != null ==> root.Valid()
    ensures Entries(visits) == Traversal.LevelOrder(ModelOf(root))
    ensures Distinct(visits) && forall x :: x in visits ==> x in ReprOf(root)
  {
    visits := [];
    if root == null {
      assert [ModelOf(root)][1..] == [];
      return;
    }
    var queue: seq<OwnerNode> := [root];
    assert Models(queue) == [ModelOf(root)];
    while queue != []
      invariant forall i :: 0 <= i < |queue| ==> queue[i].Valid()
      invariant Entries(visits) + Traversal.Bfs(Models(queue)) == Traversal.LevelOrder(ModelOf(root))
      invariant Unvisited(visits, queue, root.Repr)
      decreases Traversal.SizeSum(Models(queue))
    {
      var node := queue[0];
      ghost var before, seen := queue, visits;
      queue := queue[1..];
      if node.left != null {
        var l: OwnerNode := node.left;
        queue := queue + [l];
      }
      if node.right != null {
        var r: OwnerNode := node.right;
        queue := queue + [r];
      }
      visits := visits + [node];
      assert queue == before[1..] + ChildNodes(node) by {
        Traversal.Assoc(before[1..], if node.left != null then [node.left] else [],
                        if node.right != null then [node.right] else []);
      }
      Dequeue(seen, before, queue);
      DequeueUnvisited(seen, before, queue, root.Repr);
    }
    assert Models(queue) == [];
  }

  /** The present children of a node, left first. */
  ghost function ChildNodes(n: OwnerNode): seq<OwnerNode>
    reads n
  {
    (if n.left != null then [n.left] else []) + (if n.right != null then [n.right] else [])
  }

  /** The walk so far: the visited nodes are distinct nodes of the tree, and the queued
      subtrees are disjoint parts of the tree that hold no visited node. */
  ghost predicate Unvisited(visits: seq<OwnerNode>, q: seq<OwnerNode>, nodes: set<OwnerNode>)
    reads q
  {
    && Distinct(visits) && (forall x :: x in visits ==> x in nodes)
    && (forall i :: 0 <= i < |q| ==> q[i].Repr <= nodes)
    && (forall i :: 0 <= i < |q| ==> forall x :: x in visits ==> x !in q[i].Repr)
    && (forall i, j :: 0 <= i < j < |q| ==> q[i].Repr !! q[j].Repr)
  }

  /** A round of `bfs_traversal` visits a node not visited before and queues disjoint
      parts of its subtree, so no node is ever visited twice. */
  lemma DequeueUnvisited(visits: seq<OwnerNode>, q: seq<OwnerNode>, next: seq<OwnerNode>, nodes: set<OwnerNode>)
    requires q != [] && q[0].Valid()
    requires Unvisited(visits, q, nodes)
    requires next == q[1..] + ChildNodes(q[0])
    ensures Unvisited(visits + [q[0]], next, nodes)
  {
    var n, rest, kids := q[0], q[1..], ChildNodes(q[0]);
    assert n in n.Repr;
    DistinctAppend(visits, [n]);
    KidsInside(n);
    forall i | 0 <= i < |rest| ensures rest[i].Repr !! n.Repr && rest[i].Repr <= nodes {
      assert rest[i] == q[i + 1];
    }
    var v := visits + [n];
    forall i | 0 <= i < |next| ensures next[i].Repr <= nodes && forall x :: x in v ==> x !in next[i].Repr {
      if i < |rest| {
        assert next[i] == q[i + 1];
      } else {
        assert next[i] in kids;
      }
    }
    forall i, j | 0 <= i < j < |next| ensures next[i].Repr !! next[j].Repr {
      if j < |rest| {
        assert next[i] == q[i + 1] && next[j] == q[j + 1];
      } else if i < |rest| {
        assert next[j] in kids;
      } else {
        assert next[i] == kids[i - |rest|] && next[j] == kids[j - |rest|];
      }
    }
  }

  /** The present children of a valid node lie in its footprint without it, the two
      apart from each other. */
  lemma KidsInside(n: OwnerNode)
    requires n.Valid()
    ensures forall k :: k in ChildNodes(n) ==> k.Repr <= n.Repr && n !in k.Repr
    ensures |ChildNodes(n)| == 2 ==> ChildNodes(n)[0].Repr !! ChildNodes(n)[1].Repr
    ensures |ChildNodes(n)| <= 2
  {
  }

  lemma ModelsConcat(a: seq<OwnerNode>, b: seq<OwnerNode>)
    ensures Models(a + b) == Models(a) + Models(b)
  {
  }

  /** The nodes left in the queue after a round are valid. */
  lemma NextValid(q: seq<OwnerNode>, next: seq<OwnerNode>)
    requires q != [] && forall i :: 0 <= i < |q| ==> q[i].Valid()
    requires next == q[1..] + ChildNodes(q[0])
    ensures forall i :: 0 <= i < |next| ==> next[i].Valid()
  {
    forall i | 0 <= i < |next| ensures next[i].Valid() {
      if i < |q| - 1 {
        assert next[i] == q[i + 1];
      } else {
        assert next[i] in ChildNodes(q[0]);
      }
    }
  }

  /** One round of `bfs_traversal`: visiting the dequeued node and enqueueing its present
      children leaves the visits-then-remaining-order unchanged and shrinks what is left. */
  lemma Dequeue(visits: seq<OwnerNode>, q: seq<OwnerNode>, next: seq<OwnerNode>)
    requires q != [] && q[0].Valid()
    requires forall i :: 0 <= i < |q| ==> q[i].Valid()
    requires next == q[1..] + ChildNodes(q[0])
    ensures forall i :: 0 <= i < |next| ==> next[i].Valid()
    ensures Entries(visits + [q[0]]) + Traversal.Bfs(Models(next)) == Entries(visits) + Traversal.Bfs(Models(q))
    ensures Traversal.SizeSum(Models(next)) < Traversal.SizeSum(Models(q))
  {
    var node := q[0];
    NextValid(q, next);
    var m, rest, kids := Models(q), Models(q[1..]), Models(ChildNodes(node));
    ModelsConcat(q[1..], ChildNodes(node));
    assert kids == Traversal.Kids(node.Model);
    assert rest == m[1..];
    assert Models(next) == m[1..] + Traversal.Kids(m[0]);
    Traversal.BfsStep(m);
    Traversal.SizeSumConcat(m[1..], Traversal.Kids(m[0]));
    Traversal.KidsSize(m[0]);
    assert Traversal.Roots([m[0]]) == [Entry(node.owner, node.pokedex)];
    EntriesConcat(visits, [node]);
    var e, x, y := Entries(visits), [Entry(node.owner, node.pokedex)], Traversal.Bfs(Models(next));
    Traversal.Assoc(e, x, y);
  }
}
