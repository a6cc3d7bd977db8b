/** The free-chunk index of tralloc.c: a binary search tree keyed by chunk
    size whose nodes live inside the free chunks themselves.

    The tree is described twice.  `Tree` is its shape as a value, and
    Insert, FirstFit and Remove are what add_chunk, remove_chunk_by_size and
    remove_chunk do to that shape.  `Realizes` says that the node fields kept
    in memory (a map from a chunk's header address to its parent, left and
    right pointers) spell out a given shape. */
module FreeTree {
  import opened Layout

  /** The node fields a free chunk keeps at the start of its payload. */
  datatype Links = Links(parent: Addr, left: Addr, right: Addr)

  /** A tree of free chunks: each node is a chunk's header address and its
      size, the key. */
  datatype Tree = Nil | Node(left: Tree, addr: Addr, key: nat, right: Tree)

  function Root(t: Tree): Addr
  {
    if t.Nil? then NULL else t.addr
  }

  function Elems(t: Tree): set<Addr>
  {
    match t
    case Nil => {}
    case Node(l, a, _, r) => Elems(l) + {a} + Elems(r)
  }

  function KeySet(t: Tree): set<nat>
  {
    match t
    case Nil => {}
    case Node(l, _, k, r) => KeySet(l) + {k} + KeySet(r)
  }

  /** No chunk occurs twice in the tree. */
  ghost predicate Distinct(t: Tree)
  {
    match t
    case Nil => true
    case Node(l, a, _, r) =>
      && Distinct(l) && Distinct(r)
      && a !in Elems(l) && a !in Elems(r) && Elems(l) !! Elems(r)
  }

  /** Search-tree order: sizes on the left are at most the node's, sizes on
      the right at least the node's (equal sizes may go either way). */
  ghost predicate IsBST(t: Tree)
  {
    match t
    case Nil => true
    case Node(l, _, k, r) =>
      && IsBST(l) && IsBST(r)
      && (forall x :: x in KeySet(l) ==> x <= k)
      && (forall x :: x in KeySet(r) ==> k <= x)
  }

  // ---------------------------------------------------------------------
  // add_chunk

  /** add_chunk on the shape: returns the new tree and the new value of
      equals_alternator.  On a tie the alternator picks the side, and it is
      flipped after the recursive call returns. */
  function Insert(t: Tree, a: Addr, k: nat, alt: bool): (Tree, bool)
  {
    match t
    case Nil => (Node(Nil, a, k, Nil), alt)
    case Node(l, b, kb, r) =>
      if k < kb then
        var (l', alt') := Insert(l, a, k, alt);
        (Node(l', b, kb, r), alt')
      else if k > kb then
        var (r', alt') := Insert(r, a, k, alt);
        (Node(l, b, kb, r'), alt')
      else if alt then
        var (l', alt') := Insert(l, a, k, alt);
        (Node(l', b, kb, r), !alt')
      else
        var (r', alt') := Insert(r, a, k, alt);
        (Node(l, b, kb, r'), !alt')
  }

  /** Plain insertion that sends every tie to the same side. */
  function InsertAt(t: Tree, a: Addr, k: nat, leftOnTie: bool): Tree
  {
    match t
    case Nil => Node(Nil, a, k, Nil)
    case Node(l, b, kb, r) =>
      if k < kb || (k == kb && leftOnTie) then Node(InsertAt(l, a, k, leftOnTie), b, kb, r)
      else Node(l, b, kb, InsertAt(r, a, k, leftOnTie))
  }

  /** The number of equal-size nodes met on that insertion path. */
  function Ties(t: Tree, k: nat, leftOnTie: bool): nat
  {
    match t
    case Nil => 0
    case Node(l, _, kb, r) =>
      var here := if k == kb then 1 else 0;
      if k < kb || (k == kb && leftOnTie) then here + Ties(l, k, leftOnTie)
      else here + Ties(r, k, leftOnTie)
  }

  /** Since the flip happens on the way back, every tie on one insertion
      path goes to the side the alternator named at the start, and the
      alternator ends up flipped once per tie. */
  lemma {:induction false} InsertFlipsOncePerTie(t: Tree, a: Addr, k: nat, alt: bool)
    ensures Insert(t, a, k, alt).0 == InsertAt(t, a, k, alt)
    ensures Insert(t, a, k, alt).1 == (if Ties(t, k, alt) % 2 == 0 then alt else !alt)
  {
    match t
    case Nil =>
    case Node(l, b, kb, r) =>
      if k < kb {
        InsertFlipsOncePerTie(l, a, k, alt);
        assert Ties(t, k, alt) == Ties(l, k, alt);
      } else if k > kb {
        InsertFlipsOncePerTie(r, a, k, alt);
        assert Ties(t, k, alt) == Ties(r, k, alt);
      } else if alt {
        InsertFlipsOncePerTie(l, a, k, alt);
        assert Ties(t, k, alt) == 1 + Ties(l, k, alt);
      } else {
        InsertFlipsOncePerTie(r, a, k, alt);
        assert Ties(t, k, alt) == 1 + Ties(r, k, alt);
      }
  }

  /** Insertion adds exactly the new chunk and keeps the root. */
  lemma {:induction false} InsertElems(t: Tree, a: Addr, k: nat, alt: bool)
    ensures Elems(Insert(t, a, k, alt).0) == Elems(t) + {a}
    ensures KeySet(Insert(t, a, k, alt).0) == KeySet(t) + {k}
    ensures t.Node? ==> Insert(t, a, k, alt).0.Node? && Insert(t, a, k, alt).0.addr == t.addr
                        && Insert(t, a, k, alt).0.key == t.key
  {
    match t
    case Nil =>
    case Node(l, b, kb, r) =>
      if k < kb || (k == kb && alt) {
        InsertElems(l, a, k, alt);
      } else {
        InsertElems(r, a, k, alt);
      }
  }

  lemma {:induction false} InsertDistinct(t: Tree, a: Addr, k: nat, alt: bool)
    requires Distinct(t) && a !in Elems(t)
    ensures Distinct(Insert(t, a, k, alt).0)
  {
    match t
    case Nil =>
    case Node(l, b, kb, r) =>
      if k < kb || (k == kb && alt) {
        InsertDistinct(l, a, k, alt);
        InsertElems(l, a, k, alt);
      } else {
        InsertDistinct(r, a, k, alt);
        InsertElems(r, a, k, alt);
      }
  }

  /** add_chunk keeps search-tree order. */
  lemma {:induction false} InsertOrdered(t: Tree, a: Addr, k: nat, alt: bool)
    requires IsBST(t)
    ensures IsBST(Insert(t, a, k, alt).0)
  {
    match t
    case Nil =>
    case Node(l, b, kb, r) =>
      if k < kb || (k == kb && alt) {
        InsertOrdered(l, a, k, alt);
        InsertElems(l, a, k, alt);
      } else {
        InsertOrdered(r, a, k, alt);
        InsertElems(r, a, k, alt);
      }
  }

  /** The added chunk ends up as a leaf. */
  lemma {:induction false} InsertLeaf(t: Tree, a: Addr, k: nat, alt: bool)
    requires Distinct(t) && a !in Elems(t)
    ensures Sub(Insert(t, a, k, alt).0, a) == Node(Nil, a, k, Nil)
  {
    match t
    case Nil =>
    case Node(l, b, kb, r) =>
      if k < kb || (k == kb && alt) {
        InsertLeaf(l, a, k, alt);
        InsertElems(l, a, k, alt);
      } else {
        InsertLeaf(r, a, k, alt);
        InsertElems(r, a, k, alt);
        InsertElems(l, a, k, alt);
      }
  }

  // ---------------------------------------------------------------------
  // remove_chunk_by_size

  /** The chunk remove_chunk_by_size picks: walking down from the root, go
      right past every chunk smaller than the request and take the first one
      that is large enough.  NULL when the walk falls off the tree. */
  function FirstFit(t: Tree, size: nat): Addr
  {
    match t
    case Nil => NULL
    case Node(_, a, k, r) => if k < size then FirstFit(r, size) else a
  }

  /** What FirstFit returns is a chunk of the tree that is large enough. */
  lemma {:induction false} FirstFitFound(t: Tree, size: nat)
    requires Distinct(t) && NULL !in Elems(t)
    ensures FirstFit(t, size) != NULL ==>
              FirstFit(t, size) in Elems(t) && Sub(t, FirstFit(t, size)).key >= size
  {
    match t
    case Nil =>
    case Node(l, b, k, r) =>
      if k < size {
        FirstFitFound(r, size);
      }
  }

  /** In a search tree FirstFit misses exactly when every chunk is too small. */
  lemma {:induction false} FirstFitMisses(t: Tree, size: nat)
    requires IsBST(t) && NULL !in Elems(t)
    ensures FirstFit(t, size) == NULL <==> forall x :: x in KeySet(t) ==> x < size
  {
    match t
    case Nil =>
    case Node(l, b, k, r) =>
      assert KeySet(t) == KeySet(l) + {k} + KeySet(r);
      if k < size {
        FirstFitMisses(r, size);
        if FirstFit(r, size) == NULL {
          forall x | x in KeySet(t) ensures x < size {
            if x in KeySet(l) {
              assert x <= k;
            }
          }
        }
      } else {
        assert k in KeySet(t);
      }
  }

  /** FirstFit is not best fit: with a 120 chunk above an 80 chunk, a request
      for 50 takes the 120 chunk. */
  lemma {:induction false} FirstFitIsNotBestFit()
    ensures var t := Node(Nil, 1, 0, Node(Node(Nil, 3, 80, Nil), 2, 120, Nil));
            IsBST(t) && FirstFit(t, 50) == 2 && 80 in KeySet(t)
  {
  }

  // ---------------------------------------------------------------------
  // Subtrees

  /** The subtree rooted at chunk a (Nil when a is not in the tree). */
  function Sub(t: Tree, a: Addr): (s: Tree)
    ensures a in Elems(t) ==> s.Node? && s.addr == a
  {
    match t
    case Nil => Nil
    case Node(l, b, _, r) =>
      if a == b then t else if a in Elems(l) then Sub(l, a) else Sub(r, a)
  }

  /** The tree with the subtree rooted at chunk a replaced by s. */
  function Replace(t: Tree, a: Addr, s: Tree): Tree
  {
    match t
    case Nil => Nil
    case Node(l, b, k, r) =>
      if a == b then s
      else if a in Elems(l) then Node(Replace(l, a, s), b, k, r)
      else if a in Elems(r) then Node(l, b, k, Replace(r, a, s))
      else t
  }

  lemma {:induction false} SubProps(t: Tree, a: Addr)
    requires a in Elems(t)
    ensures Elems(Sub(t, a)) <= Elems(t) && KeySet(Sub(t, a)) <= KeySet(t)
    ensures Distinct(t) ==> Distinct(Sub(t, a))
    ensures IsBST(t) ==> IsBST(Sub(t, a))
  {
    match t
    case Node(l, b, _, r) =>
      if a == b {
      } else if a in Elems(l) {
        SubProps(l, a);
      } else {
        SubProps(r, a);
      }
  }

  /** The root of a tree lies outside the subtree of any other chunk. */
  lemma {:induction false} SubExcludesRoot(t: Tree, a: Addr)
    requires Distinct(t) && a in Elems(t) && a != Root(t)
    ensures Root(t) !in Elems(Sub(t, a))
  {
    match t
    case Node(l, b, _, r) =>
      if a in Elems(l) {
        SubProps(l, a);
      } else {
        SubProps(r, a);
      }
  }

  lemma {:induction false} SubSub(t: Tree, a: Addr, x: Addr)
    requires Distinct(t) && a in Elems(t) && x in Elems(Sub(t, a))
    ensures Sub(t, x) == Sub(Sub(t, a), x)
  {
    match t
    case Node(l, b, _, r) =>
      SubProps(t, a);
      if a == b {
      } else if a in Elems(l) {
        SubProps(l, a);
        SubSub(l, a, x);
      } else {
        SubProps(r, a);
        SubSub(r, a, x);
      }
  }

  lemma {:induction false} ReplaceProps(t: Tree, a: Addr, s: Tree)
    requires Distinct(t) && a in Elems(t)
    ensures Elems(Replace(t, a, s)) == (Elems(t) - Elems(Sub(t, a))) + Elems(s)
    ensures KeySet(s) <= KeySet(Sub(t, a)) ==> KeySet(Replace(t, a, s)) <= KeySet(t)
    ensures Distinct(s) && Elems(s) !! (Elems(t) - Elems(Sub(t, a))) ==> Distinct(Replace(t, a, s))
    ensures a != Root(t) ==> Replace(t, a, s).Node? && Replace(t, a, s).addr == t.addr
                             && Replace(t, a, s).key == t.key
  {
    ReplaceElems(t, a, s);
    if KeySet(s) <= KeySet(Sub(t, a)) {
      ReplaceKeys(t, a, s);
    }
    if Distinct(s) && Elems(s) !! (Elems(t) - Elems(Sub(t, a))) {
      ReplaceDistinct(t, a, s);
    }
  }

  /** Replacing the subtree at a trades its chunks for those of s, and
      keeps the root unless a is the root. */
  lemma {:induction false} ReplaceElems(t: Tree, a: Addr, s: Tree)
    requires Distinct(t) && a in Elems(t)
    ensures Elems(Replace(t, a, s)) == (Elems(t) - Elems(Sub(t, a))) + Elems(s)
    ensures a != Root(t) ==> Replace(t, a, s).Node? && Replace(t, a, s).addr == t.addr
                             && Replace(t, a, s).key == t.key
  {
    match t
    case Node(l, b, _, r) =>
      if a == b {
      } else if a in Elems(l) {
        SubProps(l, a);
        ReplaceElems(l, a, s);
      } else {
        SubProps(r, a);
        ReplaceElems(r, a, s);
      }
  }

  lemma {:induction false} ReplaceKeys(t: Tree, a: Addr, s: Tree)
    requires a in Elems(t) && KeySet(s) <= KeySet(Sub(t, a))
    ensures KeySet(Replace(t, a, s)) <= KeySet(t)
  {
    match t
    case Node(l, b, _, r) =>
      if a == b {
      } else if a in Elems(l) {
        ReplaceKeys(l, a, s);
      } else {
        ReplaceKeys(r, a, s);
      }
  }

  lemma {:induction false} ReplaceDistinct(t: Tree, a: Addr, s: Tree)
    requires Distinct(t) && a in Elems(t)
    requires Distinct(s) && Elems(s) !! (Elems(t) - Elems(Sub(t, a)))
    ensures Distinct(Replace(t, a, s))
  {
    match t
    case Node(l, b, _, r) =>
      if a == b {
      } else if a in Elems(l) {
        SubProps(l, a);
        ReplaceElems(l, a, s);
        ReplaceDistinct(l, a, s);
      } else {
        SubProps(r, a);
        ReplaceElems(r, a, s);
        ReplaceDistinct(r, a, s);
      }
  }

  /** Putting a search tree with no new sizes in place of a subtree keeps
      search-tree order. */
  lemma {:induction false} ReplaceOrdered(t: Tree, a: Addr, s: Tree)
    requires a in Elems(t) && IsBST(t) && IsBST(s) && KeySet(s) <= KeySet(Sub(t, a))
    ensures IsBST(Replace(t, a, s)) && KeySet(Replace(t, a, s)) <= KeySet(t)
  {
    match t
    case Node(l, b, _, r) =>
      if a == b {
      } else if a in Elems(l) {
        SubProps(l, a);
        ReplaceOrdered(l, a, s);
      } else {
        SubProps(r, a);
        ReplaceOrdered(r, a, s);
      }
  }

  lemma {:induction false} SubReplace(t: Tree, a: Addr, s: Tree)
    requires a in Elems(t) && s.Node? && s.addr == a
    ensures a in Elems(Replace(t, a, s)) && Sub(Replace(t, a, s), a) == s
  {
    match t
    case Node(l, b, _, r) =>
      if a == b {
      } else if a in Elems(l) {
        SubReplace(l, a, s);
      } else {
        SubReplace(r, a, s);
      }
  }

  lemma {:induction false} ReplaceTwice(t: Tree, a: Addr, s1: Tree, s2: Tree)
    requires a in Elems(t) && s1.Node? && s1.addr == a
    ensures Replace(Replace(t, a, s1), a, s2) == Replace(t, a, s2)
  {
    match t
    case Node(l, b, _, r) =>
      if a == b {
      } else if a in Elems(l) {
        SubReplace(l, a, s1);
        ReplaceTwice(l, a, s1, s2);
      } else {
        SubReplace(r, a, s1);
        ReplaceTwice(r, a, s1, s2);
      }
  }

  lemma {:induction false} ReplaceNested(t: Tree, a: Addr, x: Addr, y: Tree)
    requires Distinct(t) && a in Elems(t) && x in Elems(Sub(t, a))
    ensures Replace(t, x, y) == Replace(t, a, Replace(Sub(t, a), x, y))
  {
    match t
    case Node(l, b, _, r) =>
      SubProps(t, a);
      if a == b {
      } else if a in Elems(l) {
        SubProps(l, a);
        ReplaceNested(l, a, x, y);
      } else {
        SubProps(r, a);
        ReplaceNested(r, a, x, y);
      }
  }

  // ---------------------------------------------------------------------
  // find_largest, find_smallest and remove_chunk

  /** The node find_largest stops at: follow right pointers to the end. */
  function Max(t: Tree): (m: Tree)
    requires t.Node?
    ensures m.Node? && m.right.Nil?
  {
    if t.right.Nil? then t else Max(t.right)
  }

  /** The node find_smallest stops at: follow left pointers to the end. */
  function Min(t: Tree): (m: Tree)
    requires t.Node?
    ensures m.Node? && m.left.Nil?
  {
    if t.left.Nil? then t else Min(t.left)
  }

  /** The tree once its Max node is spliced out (replaced by its left child). */
  function RemoveMax(t: Tree): Tree
    requires t.Node?
  {
    if t.right.Nil? then t.left else Node(t.left, t.addr, t.key, RemoveMax(t.right))
  }

  /** The tree once its Min node is spliced out (replaced by its right child). */
  function RemoveMin(t: Tree): Tree
    requires t.Node?
  {
    if t.left.Nil? then t.right else Node(RemoveMin(t.left), t.addr, t.key, t.right)
  }

  lemma {:induction false} MaxProps(t: Tree)
    requires t.Node?
    ensures Max(t).addr in Elems(t) && Max(t).key in KeySet(t)
    ensures Elems(RemoveMax(t)) <= Elems(t) && KeySet(RemoveMax(t)) <= KeySet(t)
    ensures Distinct(t) ==> Elems(RemoveMax(t)) == Elems(t) - {Max(t).addr} && Distinct(RemoveMax(t))
    ensures Distinct(t) ==> Sub(t, Max(t).addr) == Max(t)
    ensures Distinct(t) ==> Replace(t, Max(t).addr, Max(t).left) == RemoveMax(t)
    ensures IsBST(t) ==> IsBST(RemoveMax(t)) && forall x :: x in KeySet(t) ==> x <= Max(t).key
  {
    if t.right.Node? {
      MaxProps(t.right);
    }
  }

  lemma {:induction false} MinProps(t: Tree)
    requires t.Node?
    ensures Min(t).addr in Elems(t) && Min(t).key in KeySet(t)
    ensures Elems(RemoveMin(t)) <= Elems(t) && KeySet(RemoveMin(t)) <= KeySet(t)
    ensures Distinct(t) ==> Elems(RemoveMin(t)) == Elems(t) - {Min(t).addr} && Distinct(RemoveMin(t))
    ensures Distinct(t) ==> Sub(t, Min(t).addr) == Min(t)
    ensures Distinct(t) ==> Replace(t, Min(t).addr, Min(t).right) == RemoveMin(t)
    ensures IsBST(t) ==> IsBST(RemoveMin(t)) && forall x :: x in KeySet(t) ==> Min(t).key <= x
  {
    if t.left.Node? {
      MinProps(t.left);
    }
  }

  /** What remove_chunk makes of the subtree rooted at the removed chunk,
      and the new succ_pred_alternator.  A chunk with two children is
      replaced by the largest chunk of its left subtree when the flipped
      alternator is true, and by the smallest of its right subtree
      otherwise. */
  function DeleteRoot(t: Tree, alt: bool): (Tree, bool)
    requires t.Node?
  {
    var Node(l, _, _, r) := t;
    if l.Node? then
      if r.Node? then
        if !alt then
          var m := Max(l);
          (Node(RemoveMax(l), m.addr, m.key, r), true)
        else
          var m := Min(r);
          (Node(l, m.addr, m.key, RemoveMin(r)), false)
      else
        (l, alt)
    else
      (r, alt)
  }

  /** remove_chunk on the shape. */
  function Remove(t: Tree, a: Addr, alt: bool): (Tree, bool)
  {
    if a in Elems(t) then
      var (d, alt') := DeleteRoot(Sub(t, a), alt);
      (Replace(t, a, d), alt')
    else
      (t, alt)
  }

  lemma {:induction false} DeleteRootProps(t: Tree, alt: bool)
    requires t.Node?
    ensures Elems(DeleteRoot(t, alt).0) <= Elems(t) && KeySet(DeleteRoot(t, alt).0) <= KeySet(t)
    ensures DeleteRoot(t, alt).1 == (if t.left.Node? && t.right.Node? then !alt else alt)
    ensures Distinct(t) ==> Elems(DeleteRoot(t, alt).0) == Elems(t) - {t.addr}
                            && Distinct(DeleteRoot(t, alt).0)
    ensures IsBST(t) ==> IsBST(DeleteRoot(t, alt).0)
  {
    if t.left.Node? && t.right.Node? {
      if !alt {
        MaxProps(t.left);
      } else {
        MinProps(t.right);
      }
    }
  }

  /** remove_chunk takes out exactly the one chunk, keeps search-tree order
      and keeps the root unless the root itself is removed. */
  lemma {:induction false} RemoveProps(t: Tree, a: Addr, alt: bool)
    requires Distinct(t) && a in Elems(t)
    ensures Elems(Remove(t, a, alt).0) == Elems(t) - {a}
    ensures Distinct(Remove(t, a, alt).0)
    ensures KeySet(Remove(t, a, alt).0) <= KeySet(t)
    ensures IsBST(t) ==> IsBST(Remove(t, a, alt).0)
    ensures a != Root(t) ==> Remove(t, a, alt).0.Node? && Remove(t, a, alt).0.addr == t.addr
                             && Remove(t, a, alt).0.key == t.key
    ensures Remove(t, a, alt).1 == (if Sub(t, a).left.Node? && Sub(t, a).right.Node? then !alt else alt)
  {
    var s := Sub(t, a);
    SubProps(t, a);
    DeleteRootProps(s, alt);
    var d := DeleteRoot(s, alt).0;
    ReplaceProps(t, a, d);
    if IsBST(t) {
      ReplaceOrdered(t, a, d);
    }
  }

  /** The predecessor chunk find_replacement picks is the largest chunk left
      of the removed one, and removing it first splices it out of that left
      subtree without touching the alternator. */
  lemma {:induction false} PredecessorRemoval(t: Tree, a: Addr, alt: bool)
    requires Distinct(t) && a in Elems(t) && Sub(t, a).left.Node? && Sub(t, a).right.Node?
    ensures Max(Sub(t, a).left).addr in Elems(Sub(t, a)) - {a}
    ensures Sub(t, Max(Sub(t, a).left).addr) == Max(Sub(t, a).left)
    ensures Remove(t, Max(Sub(t, a).left).addr, alt)
            == (Replace(t, a, Node(RemoveMax(Sub(t, a).left), a, Sub(t, a).key, Sub(t, a).right)), alt)
  {
    var s := Sub(t, a);
    SubProps(t, a);
    MaxProps(s.left);
    var m := Max(s.left);
    SubSub(t, a, m.addr);
    assert Sub(s, m.addr) == m;
    ReplaceNested(t, a, m.addr, m.left);
  }

  /** The successor case, symmetrically. */
  lemma {:induction false} SuccessorRemoval(t: Tree, a: Addr, alt: bool)
    requires Distinct(t) && a in Elems(t) && Sub(t, a).left.Node? && Sub(t, a).right.Node?
    ensures Min(Sub(t, a).right).addr in Elems(Sub(t, a)) - {a}
    ensures Sub(t, Min(Sub(t, a).right).addr) == Min(Sub(t, a).right)
    ensures Remove(t, Min(Sub(t, a).right).addr, alt)
            == (Replace(t, a, Node(Sub(t, a).left, a, Sub(t, a).key, RemoveMin(Sub(t, a).right))), alt)
  {
    var s := Sub(t, a);
    SubProps(t, a);
    MinProps(s.right);
    var m := Min(s.right);
    SubSub(t, a, m.addr);
    assert Sub(s, m.addr) == m;
    ReplaceNested(t, a, m.addr, m.right);
  }

  // ---------------------------------------------------------------------
  // The tree in memory

  /** The node fields in `links` and the header sizes in `hsize` spell out
      tree t, rooted at pointer `root`, whose root's parent pointer is `up`. */
  ghost predicate Realizes(t: Tree, root: Addr, up: Addr, links: map<Addr, Links>, hsize: map<Addr, nat>)
  {
    match t
    case Nil => root == NULL
    case Node(l, a, k, r) =>
      && root == a && a != NULL && a in links && a in hsize && hsize[a] == k
      && links[a].parent == up
      && Realizes(l, links[a].left, a, links, hsize)
      && Realizes(r, links[a].right, a, links, hsize)
  }

  lemma {:induction false} RealizesBasics(t: Tree, root: Addr, up: Addr, L: map<Addr, Links>, H: map<Addr, nat>)
    requires Realizes(t, root, up, L, H)
    ensures root == Root(t) && NULL !in Elems(t) && Elems(t) <= L.Keys && Elems(t) <= H.Keys
  {
    match t
    case Nil =>
    case Node(l, a, k, r) =>
      RealizesBasics(l, L[a].left, a, L, H);
      RealizesBasics(r, L[a].right, a, L, H);
  }

  /** Writes to chunks outside the tree do not disturb it. */
  lemma {:induction false} RealizesFrame(t: Tree, root: Addr, up: Addr,
                                         L: map<Addr, Links>, H: map<Addr, nat>,
                                         L': map<Addr, Links>, H': map<Addr, nat>)
    requires Realizes(t, root, up, L, H)
    requires forall x :: x in Elems(t) ==> x in L && x in L' && L'[x] == L[x] && x in H && x in H' && H'[x] == H[x]
    ensures Realizes(t, root, up, L', H')
  {
    match t
    case Nil =>
    case Node(l, a, k, r) =>
      RealizesFrame(l, L[a].left, a, L, H, L', H');
      RealizesFrame(r, L[a].right, a, L, H, L', H');
  }

  /** Changing the root's parent pointer re-hangs the whole subtree. */
  lemma {:induction false} RealizesReparent(t: Tree, up: Addr, up': Addr, L: map<Addr, Links>, H: map<Addr, nat>)
    requires t.Node? && Realizes(t, t.addr, up, L, H) && Distinct(t)
    ensures Realizes(t, t.addr, up', L[t.addr := L[t.addr].(parent := up')], H)
  {
    var L' := L[t.addr := L[t.addr].(parent := up')];
    RealizesBasics(t, t.addr, up, L, H);
    RealizesFrame(t.left, L[t.addr].left, t.addr, L, H, L', H);
    RealizesFrame(t.right, L[t.addr].right, t.addr, L, H, L', H);
  }

  /** Every chunk of the tree roots its subtree in memory, and a chunk other
      than the root is a child of the chunk its parent pointer names. */
  lemma {:induction false} RealizesSub(t: Tree, root: Addr, up: Addr, a: Addr, L: map<Addr, Links>, H: map<Addr, nat>)
    requires Realizes(t, root, up, L, H) && Distinct(t) && a in Elems(t)
    ensures a in L && Realizes(Sub(t, a), a, L[a].parent, L, H)
    ensures a == root ==> L[a].parent == up
    ensures a != root ==>
              && L[a].parent in Elems(t) && L[a].parent !in Elems(Sub(t, a)) && L[a].parent in L
              && (L[L[a].parent].left == a || L[L[a].parent].right == a)
              && !(L[L[a].parent].left == a && L[L[a].parent].right == a)
  {
    match t
    case Node(l, b, k, r) =>
      SubProps(t, a);
      if a == b {
      } else if a in Elems(l) {
        RealizesSub(l, L[b].left, b, a, L, H);
        RealizesBasics(l, L[b].left, b, L, H);
        RealizesBasics(r, L[b].right, b, L, H);
      } else {
        RealizesSub(r, L[b].right, b, a, L, H);
        RealizesBasics(l, L[b].left, b, L, H);
        RealizesBasics(r, L[b].right, b, L, H);
      }
  }

  /** Re-pointing the parent's child slot at a new subtree, and leaving the
      rest of the tree alone, puts that subtree in place of the old one. */
  lemma {:induction false} RealizesReplace(t: Tree, root: Addr, up: Addr, a: Addr, p: Addr, s: Tree, newRoot: Addr,
                                           L: map<Addr, Links>, L': map<Addr, Links>, H: map<Addr, nat>)
    requires Realizes(t, root, up, L, H) && Distinct(t)
    requires a in Elems(t) && a != root && a in L && L[a].parent == p && p in L && p in L'
    requires forall x :: x in Elems(t) && x !in Elems(Sub(t, a)) && x != p ==> x in L && x in L' && L'[x] == L[x]
    requires L'[p].parent == L[p].parent
    requires if L[p].left == a then L'[p].left == newRoot && L'[p].right == L[p].right
             else L'[p].right == newRoot && L'[p].left == L[p].left
    requires Realizes(s, newRoot, p, L', H)
    ensures Realizes(Replace(t, a, s), root, up, L', H)
  {
    match t
    case Node(l, b, k, r) =>
      SubProps(t, a);
      RealizesBasics(l, L[b].left, b, L, H);
      RealizesBasics(r, L[b].right, b, L, H);
      if a in Elems(l) {
        SubProps(l, a);
        if a == L[b].left {
          assert p == b;
          RealizesFrame(r, L[b].right, b, L, H, L', H);
        } else {
          RealizesSub(l, L[b].left, b, a, L, H);
          RealizesReplace(l, L[b].left, b, a, p, s, newRoot, L, L', H);
          ReplaceProps(l, a, s);
          RealizesFrame(r, L[b].right, b, L, H, L', H);
        }
      } else {
        SubProps(r, a);
        if a == L[b].right {
          assert p == b;
          RealizesFrame(l, L[b].left, b, L, H, L', H);
        } else {
          RealizesSub(r, L[b].right, b, a, L, H);
          RealizesReplace(r, L[b].right, b, a, p, s, newRoot, L, L', H);
          ReplaceProps(r, a, s);
          RealizesFrame(l, L[b].left, b, L, H, L', H);
        }
      }
  }

  // ---------------------------------------------------------------------
  // The pointer writes of remove_chunk

  /** Writes child pointer c into the left or the right slot of a node. */
  function SetChild(n: Links, isLeft: bool, c: Addr): (n': Links)
    ensures n'.parent == n.parent
    ensures isLeft ==> n'.left == c && n'.right == n.right
    ensures !isLeft ==> n'.right == c && n'.left == n.left
  {
    if isLeft then n.(left := c) else n.(right := c)
  }

  /** Points chunk c's parent field at p; nothing happens for NULL. */
  function Reparent(L: map<Addr, Links>, c: Addr, p: Addr): (L': map<Addr, Links>)
    ensures L'.Keys == L.Keys
  {
    if c != NULL && c in L then L[c := L[c].(parent := p)] else L
  }

  /** remove_chunk for a chunk with at most one child c (NULL for none):
      the parent's slot that held chunk a now holds c, and c points back to
      a's parent. */
  function Splice(L: map<Addr, Links>, a: Addr, c: Addr, isLeft: bool): map<Addr, Links>
    requires a in L && L[a].parent in L
  {
    var p := L[a].parent;
    Reparent(L[p := SetChild(L[p], isLeft, c)], c, p)
  }

  /** remove_chunk for a chunk with two children, once its replacement `rep`
      has been taken out: `rep` takes over a's three fields, the parent's
      slot that held a now holds `rep`, and a's children point back to `rep`. */
  function Transplant(L: map<Addr, Links>, a: Addr, rep: Addr, isLeft: bool): map<Addr, Links>
    requires a in L && L[a].parent in L
  {
    var n := L[a];
    var L2 := L[rep := n];
    var L3 := L2[n.parent := SetChild(L2[n.parent], isLeft, rep)];
    Reparent(Reparent(L3, n.right, rep), n.left, rep)
  }

  /** L' differs from L only on the chunks in S and in the slot of a's parent
      that pointed at a; the parent's other fields are as they were. */
  ghost predicate Detached(L: map<Addr, Links>, L': map<Addr, Links>, S: set<Addr>, a: Addr)
  {
    && a in L && L[a].parent in L && L'.Keys == L.Keys
    && (forall x :: x in L && x !in S && x != L[a].parent ==> L'[x] == L[x])
    && L'[L[a].parent].parent == L[L[a].parent].parent
    && (if L[L[a].parent].left == a then L'[L[a].parent].right == L[L[a].parent].right
        else L'[L[a].parent].left == L[L[a].parent].left)
  }

  /** A subtree whose root alone gets a new parent pointer, and whose other
      chunks keep their fields, hangs from the new parent. */
  lemma {:induction false} RealizesAdopt(c: Tree, root: Addr, up: Addr, up': Addr,
                                         L: map<Addr, Links>, L': map<Addr, Links>, H: map<Addr, nat>)
    requires Realizes(c, root, up, L, H) && Distinct(c)
    requires forall x :: x in Elems(c) ==> x in L && x in L' && L'[x] == (if x == root then L[x].(parent := up') else L[x])
    ensures Realizes(c, root, up', L', H)
  {
    if c.Node? {
      RealizesBasics(c, root, up, L, H);
      var Lr := L[root := L[root].(parent := up')];
      RealizesReparent(c, up, up', L, H);
      RealizesFrame(c, root, up', Lr, H, L', H);
    }
  }

  /** The two children of chunk a hang from a in memory. */
  lemma {:induction false} RealizesChildren(t: Tree, root: Addr, up: Addr, a: Addr, L: map<Addr, Links>, H: map<Addr, nat>)
    requires Realizes(t, root, up, L, H) && Distinct(t) && a in Elems(t)
    ensures a in L && Realizes(Sub(t, a).left, L[a].left, a, L, H) && Realizes(Sub(t, a).right, L[a].right, a, L, H)
    ensures Elems(Sub(t, a).left) <= Elems(t) && Elems(Sub(t, a).right) <= Elems(t)
    ensures a !in Elems(Sub(t, a).left) && a !in Elems(Sub(t, a).right) && Elems(Sub(t, a).left) !! Elems(Sub(t, a).right)
    ensures Distinct(Sub(t, a).left) && Distinct(Sub(t, a).right)
    ensures L[a].left == Root(Sub(t, a).left) && L[a].right == Root(Sub(t, a).right)
  {
    RealizesSub(t, root, up, a, L, H);
    SubProps(t, a);
    var s := Sub(t, a);
    RealizesBasics(s.left, L[a].left, a, L, H);
    RealizesBasics(s.right, L[a].right, a, L, H);
  }

  /** Splice puts a's only subtree (or nothing) where a was. */
  lemma {:induction false} RealizesSplice(t: Tree, root: Addr, up: Addr, a: Addr, isLeft: bool,
                                          L: map<Addr, Links>, H: map<Addr, nat>)
    requires Realizes(t, root, up, L, H) && Distinct(t) && a in Elems(t) && a != root
    requires !(Sub(t, a).left.Node? && Sub(t, a).right.Node?)
    requires a in L && L[a].parent in L && isLeft == (L[L[a].parent].left == a)
    ensures var c := if Sub(t, a).left.Node? then Sub(t, a).left else Sub(t, a).right;
            && Realizes(Replace(t, a, c), root, up, Splice(L, a, Root(c), isLeft), H)
            && Detached(L, Splice(L, a, Root(c), isLeft), Elems(Sub(t, a)), a)
  {
    var s := Sub(t, a);
    var c := if s.left.Node? then s.left else s.right;
    var p := L[a].parent;
    RealizesChildren(t, root, up, a, L, H);
    RealizesSub(t, root, up, a, L, H);
    SubProps(t, a);
    var L' := Splice(L, a, Root(c), isLeft);
    assert Root(c) == (if s.left.Node? then L[a].left else L[a].right);
    RealizesBasics(c, Root(c), a, L, H);
    assert p !in Elems(c);
    forall x | x in Elems(c)
      ensures x in L && x in L' && L'[x] == (if x == Root(c) then L[x].(parent := p) else L[x])
    {
      assert x != p;
    }
    RealizesAdopt(c, Root(c), a, p, L, L', H);
    forall x | x in Elems(t) && x !in Elems(s) && x != p ensures x in L && x in L' && L'[x] == L[x] {
      RealizesBasics(t, root, up, L, H);
      assert x !in Elems(c);
    }
    RealizesReplace(t, root, up, a, p, c, Root(c), L, L', H);
  }

  /** Transplant puts `rep`, with a's two subtrees, where a was. */
  lemma {:induction false} RealizesTransplant(t: Tree, root: Addr, up: Addr, a: Addr, rep: Addr, isLeft: bool,
                                              L: map<Addr, Links>, H: map<Addr, nat>)
    requires Realizes(t, root, up, L, H) && Distinct(t) && a in Elems(t) && a != root
    requires rep != NULL && rep !in Elems(t) && rep in L && rep in H
    requires a in L && L[a].parent in L && isLeft == (L[L[a].parent].left == a)
    ensures var s := Sub(t, a);
            && Realizes(Replace(t, a, Node(s.left, rep, H[rep], s.right)), root, up, Transplant(L, a, rep, isLeft), H)
            && Detached(L, Transplant(L, a, rep, isLeft), Elems(Sub(t, a)) + {rep}, a)
  {
    var s := Sub(t, a);
    var n := L[a];
    var p := n.parent;
    RealizesChildren(t, root, up, a, L, H);
    RealizesSub(t, root, up, a, L, H);
    SubProps(t, a);
    var L' := Transplant(L, a, rep, isLeft);
    RealizesBasics(s.left, n.left, a, L, H);
    RealizesBasics(s.right, n.right, a, L, H);
    RealizesBasics(t, root, up, L, H);
    assert p !in Elems(s.left) && p !in Elems(s.right);
    assert p in Elems(t) && p != rep;
    assert Realizes(s.left, n.left, rep, L', H) by {
      forall x | x in Elems(s.left)
        ensures x in L && x in L' && L'[x] == (if x == n.left then L[x].(parent := rep) else L[x])
      {
        assert x != p && x != rep && x != n.right;
      }
      RealizesAdopt(s.left, n.left, a, rep, L, L', H);
    }
    assert Realizes(s.right, n.right, rep, L', H) by {
      forall x | x in Elems(s.right)
        ensures x in L && x in L' && L'[x] == (if x == n.right then L[x].(parent := rep) else L[x])
      {
        assert x != p && x != rep && x != n.left;
      }
      RealizesAdopt(s.right, n.right, a, rep, L, L', H);
    }
    forall x | x in Elems(t) && x !in Elems(s) && x != p ensures x in L && x in L' && L'[x] == L[x] {
      assert x != rep && x !in Elems(s.left) && x !in Elems(s.right);
    }
    var d := Node(s.left, rep, H[rep], s.right);
    assert Realizes(d, rep, p, L', H);
    RealizesReplace(t, root, up, a, p, d, rep, L, L', H);
  }

  /** Detaching a chunk b inside a's subtree leaves a's parent pointer and
      all of a's parent's fields as they were. */
  lemma {:induction false} DetachedInside(t: Tree, root: Addr, up: Addr, a: Addr, b: Addr,
                                          L0: map<Addr, Links>, L1: map<Addr, Links>, H: map<Addr, nat>)
    requires Realizes(t, root, up, L0, H) && Distinct(t) && a in Elems(t) && a != root
    requires b in Elems(Sub(t, a)) && b != a
    requires Detached(L0, L1, Elems(Sub(t, b)), b)
    ensures a in L0 && a in L1 && L1[a].parent == L0[a].parent
    ensures L0[a].parent in L0 && L0[a].parent in L1 && L1[L0[a].parent] == L0[L0[a].parent]
  {
    RealizesSub(t, root, up, a, L0, H);
    var p := L0[a].parent;
    var s := Sub(t, a);
    SubProps(t, a);
    RealizesSub(s, a, p, b, L0, H);
    SubSub(t, a, b);
    SubProps(s, b);
    SubExcludesRoot(s, b);
    assert L0[b].parent in Elems(s);
    assert a !in Elems(Sub(t, b)) && p !in Elems(Sub(t, b)) && p != L0[b].parent;
  }

  /** Detaching a chunk inside a's subtree and then a itself detaches a. */
  lemma {:induction false} DetachedTwice(t: Tree, root: Addr, up: Addr, a: Addr, b: Addr,
                                         L0: map<Addr, Links>, L1: map<Addr, Links>, L2: map<Addr, Links>,
                                         H: map<Addr, nat>, S2: set<Addr>)
    requires Realizes(t, root, up, L0, H) && Distinct(t) && a in Elems(t) && a != root
    requires b in Elems(Sub(t, a)) && b != a
    requires Detached(L0, L1, Elems(Sub(t, b)), b)
    requires Detached(L1, L2, S2, a) && S2 <= Elems(Sub(t, a))
    ensures Detached(L0, L2, Elems(Sub(t, a)), a)
  {
    var p := L0[a].parent;
    DetachedInside(t, root, up, a, b, L0, L1, H);
    RealizesSub(t, root, up, a, L0, H);
    var s := Sub(t, a);
    SubProps(t, a);
    RealizesSub(s, a, p, b, L0, H);
    SubSub(t, a, b);
    SubProps(s, b);
  }
}
