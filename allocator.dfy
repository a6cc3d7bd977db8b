/** The allocator of tralloc.c: its globals as the fields of one object,
    tralloc and trfree, and the free-tree routines they call.

    Memory is split into four maps keyed by address.  `hsize` and `inUse`
    are the two fields of the header at a chunk's start, `fsize` is the
    footer, keyed by the footer's own address, and `links` holds the node
    fields of a free chunk, keyed by the chunk's header address.  `brk`
    is the program break that sbrk moves.  The ghost fields `tree` and
    `chunks` are the shape of the free tree and the sequence of chunks, which
    the C code never stores. */
module Allocator {
  import opened Layout
  import opened FreeTree
  import opened Heap

  /** The allocator's globals other than the node fields, as one value:
      the header fields `hsize` and `inUse` and the footer field `fsize` of
      memory, the break, the four pointers and flags of tralloc.c, and the
      ghost shape of the free tree and of the chunk sequence. */
  datatype Globals = Globals(hsize: map<Addr, nat>, inUse: map<Addr, bool>, fsize: map<Addr, nat>,
                             brk: Addr, fakeRoot: Addr, firstChunk: Addr, guardAddr: Addr,
                             equalsAlternator: bool, succPredAlternator: bool,
                             tree: Tree, chunks: seq<Addr>)

  /** The allocator's invariant on plain values, with L the node fields:
      - the sentinel fakeRoot is a size-0 chunk at the root of the free tree;
      - the node fields spell out a search tree of distinct chunks;
      - the chunks tile the heap from just after the sentinel up to the
        break, with agreeing boundary tags;
      - firstChunk and guardAddr are the first chunk and the end of the last,
        or NULL before the heap first grows;
      - the free tree holds exactly the free chunks and the sentinel;
      - no two neighbouring chunks are both free. */
  ghost predicate Inv(p: Pads, g: Globals, L: map<Addr, Links>)
  {
    && p.Valid()
    && g.fakeRoot != NULL && g.fakeRoot in g.hsize && g.hsize[g.fakeRoot] == 0
    && Realizes(g.tree, g.fakeRoot, NULL, L, g.hsize) && Distinct(g.tree) && IsBST(g.tree)
    && WellFormed(p, g.chunks, g.hsize, g.fsize, g.inUse, g.fakeRoot + p.header + p.node, g.brk)
    && (if g.chunks == [] then g.firstChunk == NULL && g.guardAddr == NULL
        else g.firstChunk == g.chunks[0] && g.guardAddr == g.brk)
    && Elems(g.tree) == FreeIn(g.chunks, g.inUse) + {g.fakeRoot}
    && NoAdjacentFree(g.chunks, g.inUse)
  }

  // ---------------------------------------------------------------------
  // The three ways tralloc serves a request of s bytes, as the globals
  // they leave behind

  /** sbrk path: a new chunk of size s at the old break, both boundary tags
      written and marked in use; the break and guard_addr move past it, and
      first_chunk is set only when the heap had no chunk yet. */
  ghost function GrowState(p: Pads, g: Globals, s: nat): Globals
  {
    var h := g.brk;
    g.(hsize := g.hsize[h := s], inUse := g.inUse[h := true],
       fsize := g.fsize[HeaderToFooter(p, h, s) := s],
       brk := ChunkEnd(p, h, s), guardAddr := ChunkEnd(p, h, s),
       firstChunk := if g.firstChunk == NULL then h else g.firstChunk,
       chunks := g.chunks + [h])
  }

  /** What remove_chunk_by_size leaves once it has found h: h is out of the
      free tree, and succ_pred_alternator is as remove_chunk leaves it. */
  ghost function Unlinked(g: Globals, h: Addr): Globals
  {
    g.(tree := Remove(g.tree, h, g.succPredAlternator).0,
       succPredAlternator := Remove(g.tree, h, g.succPredAlternator).1)
  }

  /** Path without a split, after the removal: h is marked in use. */
  ghost function ClaimState(g: Globals, h: Addr): Globals
  {
    g.(inUse := g.inUse[h := true])
  }

  /** Split path, after the removal: h keeps the first s bytes and is marked
      in use; the rest becomes the free chunk d right after it, with both
      boundary tags written, which add_chunk puts in the tree; d follows h
      in the chunk sequence. */
  ghost function SplitState(p: Pads, g: Globals, s: nat, h: Addr): Globals
    requires h in g.hsize && h in g.chunks && SplitWorthwhile(p, g.hsize[h], s)
  {
    var d := ChunkEnd(p, h, s);
    var r := Remainder(p, g.hsize[h], s);
    var i := IndexOf(g.chunks, h);
    g.(hsize := g.hsize[d := r][h := s], inUse := g.inUse[d := false][h := true],
       fsize := g.fsize[HeaderToFooter(p, d, r) := r][HeaderToFooter(p, h, s) := s],
       chunks := g.chunks[..i] + [h, d] + g.chunks[i + 1..],
       tree := Insert(g.tree, d, r, g.equalsAlternator).0,
       equalsAlternator := Insert(g.tree, d, r, g.equalsAlternator).1)
  }

  /** The node fields L spell out g's free tree, hung from the sentinel. */
  ghost predicate Linked(g: Globals, L: map<Addr, Links>)
  {
    Realizes(g.tree, g.fakeRoot, NULL, L, g.hsize)
  }

  /** What the split of h needs before it starts, once h is out of the tree:
      the remainder's header d is neither NULL nor a tree node, and writing
      its size leaves the node fields spelling out the tree. */
  ghost predicate SplitReady(p: Pads, g: Globals, L: map<Addr, Links>, s: nat, h: Addr)
  {
    && h in g.hsize && h in g.chunks && SplitWorthwhile(p, g.hsize[h], s)
    && g.fakeRoot != NULL && Distinct(g.tree) && h !in Elems(g.tree)
    && var d := ChunkEnd(p, h, s);
       && d != NULL && d != h && d !in Elems(g.tree)
       && Realizes(g.tree, g.fakeRoot, NULL, L, g.hsize[d := Remainder(p, g.hsize[h], s)])
  }

  // ---------------------------------------------------------------------
  // What trfree does to the globals, step by step

  /** trfree merges chunk i with the chunk before it when that one is free. */
  ghost predicate MergesPrevious(g: Globals, i: nat)
    requires i < |g.chunks|
  {
    i > 0 && Free(g.inUse, g.chunks[i - 1])
  }

  /** trfree merges chunk i with the chunk after it when that one is free. */
  ghost predicate MergesNext(g: Globals, i: nat)
    requires i < |g.chunks|
  {
    i + 1 < |g.chunks| && Free(g.inUse, g.chunks[i + 1])
  }

  /** The first of the chunks trfree merges when it frees chunk i. */
  ghost function MergeStart(g: Globals, i: nat): nat
    requires i < |g.chunks|
  {
    if MergesPrevious(g, i) then i - 1 else i
  }

  /** The last of the chunks trfree merges when it frees chunk i. */
  ghost function MergeEnd(g: Globals, i: nat): nat
    requires i < |g.chunks|
  {
    if MergesNext(g, i) then i + 1 else i
  }

  /** The free tree and succ_pred_alternator once trfree has taken the
      neighbours of chunk i it merges with out of the tree: first the
      chunk before it, then the chunk after it. */
  ghost function Unmerged(g: Globals, i: nat): (Tree, bool)
    requires i < |g.chunks|
  {
    var first := if MergesPrevious(g, i) then Remove(g.tree, g.chunks[i - 1], g.succPredAlternator)
                 else (g.tree, g.succPredAlternator);
    if MergesNext(g, i) then Remove(first.0, g.chunks[i + 1], first.1) else first
  }

  /** g' is what trfree leaves when it frees chunk h of g.  The chunks
      cs[l..k] it merges, h and its free neighbours, become one chunk at
      cs[l] that spans up to where cs[k] ended, with its size in its header
      and in its footer; memory outside that span is as it was; the merged
      chunk is marked free and add_chunk puts it in the tree once the merged
      neighbours have left it; the break, the sentinel and the ends of the
      heap stay where they were. */
  ghost predicate Freed(p: Pads, g: Globals, g': Globals, h: Addr)
    requires h in g.chunks && forall x :: x in g.chunks ==> x in g.hsize
  {
    var i := IndexOf(g.chunks, h);
    && FreedHeap(p, g, g', h)
    && (g'.tree, g'.equalsAlternator) == Insert(Unmerged(g, i).0, g.chunks[MergeStart(g, i)], g'.hsize[g.chunks[MergeStart(g, i)]], g.equalsAlternator)
    && g'.succPredAlternator == Unmerged(g, i).1
  }

  /** The chunk side of Freed: everything but the tree and its alternators. */
  ghost predicate FreedHeap(p: Pads, g: Globals, g': Globals, h: Addr)
    requires h in g.chunks && forall x :: x in g.chunks ==> x in g.hsize
  {
    var cs, i := g.chunks, IndexOf(g.chunks, h);
    var l, k := MergeStart(g, i), MergeEnd(g, i);
    var a, e := cs[l], ChunkEnd(p, cs[k], g.hsize[cs[k]]);
    && g'.chunks == cs[..l] + [a] + cs[k + 1..]
    && a in g'.hsize && ChunkEnd(p, a, g'.hsize[a]) == e && g'.hsize == g.hsize[a := g'.hsize[a]]
    && SameOutside(g.fsize, g'.fsize, a, e)
    && HeaderToFooter(p, a, g'.hsize[a]) in g'.fsize && g'.fsize[HeaderToFooter(p, a, g'.hsize[a])] == g'.hsize[a]
    && g'.inUse == g.inUse[a := false]
    && g'.brk == g.brk && g'.fakeRoot == g.fakeRoot
    && g'.firstChunk == g.firstChunk && g'.guardAddr == g.guardAddr
  }

  /** g1 is g after trfree's first phase on chunk i: when the chunk before
      chunk i is free, it leaves the tree and grows over chunk i.  Either way
      chunk l, the first merged, ends where chunk i ended and its footer
      holds its size; nothing else but the tree changes. */
  ghost predicate FirstPhase(p: Pads, g: Globals, g1: Globals, i: nat)
    requires i < |g.chunks| && g.chunks[i] in g.hsize
  {
    var cs, l := g.chunks, MergeStart(g, i);
    var a := cs[l];
    && g1.chunks == cs[..l] + [a] + cs[i + 1..]
    && a in g1.hsize && ChunkEnd(p, a, g1.hsize[a]) == ChunkEnd(p, cs[i], g.hsize[cs[i]])
    && g1.hsize == g.hsize[a := g1.hsize[a]]
    && g1.fsize == g.fsize[HeaderToFooter(p, a, g1.hsize[a]) := g1.hsize[a]]
    && g1.inUse == g.inUse && g1.brk == g.brk && g1.fakeRoot == g.fakeRoot
    && g1.firstChunk == g.firstChunk && g1.guardAddr == g.guardAddr
    && g1.equalsAlternator == g.equalsAlternator
    && (g1.tree, g1.succPredAlternator)
       == if MergesPrevious(g, i) then Remove(g.tree, cs[i - 1], g.succPredAlternator)
          else (g.tree, g.succPredAlternator)
  }

  /** g2 is g1 after trfree's second phase on chunk l: when the chunk after
      it is free, it leaves the tree and chunk l grows over it.  Either way
      chunk l ends where chunk k, the last merged, ended and its footer holds
      its size; nothing else but the tree changes. */
  ghost predicate SecondPhase(p: Pads, g1: Globals, g2: Globals, l: nat)
    requires l < |g1.chunks| && forall x :: x in g1.chunks ==> x in g1.hsize
  {
    var cs, a := g1.chunks, g1.chunks[l];
    var k := if MergesNext(g1, l) then l + 1 else l;
    && g2.chunks == cs[..l] + [a] + cs[k + 1..]
    && a in g2.hsize && ChunkEnd(p, a, g2.hsize[a]) == ChunkEnd(p, cs[k], g1.hsize[cs[k]])
    && g2.hsize == g1.hsize[a := g2.hsize[a]]
    && g2.fsize == g1.fsize[HeaderToFooter(p, a, g2.hsize[a]) := g2.hsize[a]]
    && g2.inUse == g1.inUse && g2.brk == g1.brk && g2.fakeRoot == g1.fakeRoot
    && g2.firstChunk == g1.firstChunk && g2.guardAddr == g1.guardAddr
    && g2.equalsAlternator == g1.equalsAlternator
    && (g2.tree, g2.succPredAlternator)
       == if MergesNext(g1, l) then Remove(g1.tree, cs[l + 1], g1.succPredAlternator)
          else (g1.tree, g1.succPredAlternator)
  }

  /** trfree's last step on the merged chunk a: it is marked free and
      add_chunk puts it in the free tree. */
  ghost function Released(g: Globals, a: Addr): Globals
    requires a in g.hsize
  {
    g.(inUse := g.inUse[a := false],
       tree := Insert(g.tree, a, g.hsize[a], g.equalsAlternator).0,
       equalsAlternator := Insert(g.tree, a, g.hsize[a], g.equalsAlternator).1)
  }

  class Allocator {
    const pads: Pads
    var hsize: map<Addr, nat>
    var inUse: map<Addr, bool>
    var fsize: map<Addr, nat>
    var links: map<Addr, Links>
    var brk: Addr
    var fakeRoot: Addr
    var firstChunk: Addr
    var guardAddr: Addr
    var equalsAlternator: bool
    var succPredAlternator: bool
    ghost var tree: Tree
    ghost var chunks: seq<Addr>

    /** The fields other than the node fields, as one value. */
    ghost function State(): Globals
      reads this
    {
      Globals(hsize, inUse, fsize, brk, fakeRoot, firstChunk, guardAddr,
              equalsAlternator, succPredAlternator, tree, chunks)
    }

    ghost predicate Valid()
      reads this
    {
      Inv(pads, State(), links)
    }

    /** The part of the invariant the tree routines rely on and keep. */
    ghost predicate TreeInv()
      reads this
    {
      fakeRoot != NULL && Realizes(tree, fakeRoot, NULL, links, hsize) && Distinct(tree)
    }

    /** The first call's set-up: the pads are the struct sizes rounded up to
        a word, and sbrk, with the break at `base`, supplies the size-0
        sentinel with no parent and no children. */
    constructor Init(word: nat, headerBytes: nat, footerBytes: nat, nodeBytes: nat, base: Addr)
      requires word > 0 && headerBytes > 0 && footerBytes > 0 && nodeBytes > 0 && base != NULL
      ensures Valid()
      ensures pads == MakePads(word, headerBytes, footerBytes, nodeBytes)
      ensures fakeRoot == base && hsize[base] == 0 && links[base] == Links(NULL, NULL, NULL)
      ensures base in inUse && !inUse[base]
      ensures tree == Node(Nil, base, 0, Nil) && chunks == []
      ensures brk == base + pads.header + pads.node
      ensures firstChunk == NULL && guardAddr == NULL && !equalsAlternator && !succPredAlternator
    {
      var p := MakePads(word, headerBytes, footerBytes, nodeBytes);
      pads := p;
      fakeRoot := base;
      brk := base + p.header + p.node;
      hsize := map[base := 0];
      inUse := map[base := false];
      fsize := map[];
      links := map[base := Links(NULL, NULL, NULL)];
      firstChunk := NULL;
      guardAddr := NULL;
      equalsAlternator := false;
      succPredAlternator := false;
      tree := Node(Nil, base, 0, Nil);
      chunks := [];
    }

    /** find_largest: follows right pointers to the largest chunk. */
    method FindLargest(x: Addr, ghost t: Tree, ghost up: Addr) returns (r: Addr)
      requires t.Node? && Realizes(t, x, up, links, hsize)
      ensures r == Max(t).addr
      decreases t
    {
      if links[x].right == NULL {
        r := x;
      } else {
        r := FindLargest(links[x].right, t.right, x);
      }
    }

    /** find_smallest: follows left pointers to the smallest chunk. */
    method FindSmallest(x: Addr, ghost t: Tree, ghost up: Addr) returns (r: Addr)
      requires t.Node? && Realizes(t, x, up, links, hsize)
      ensures r == Min(t).addr
      decreases t
    {
      if links[x].left == NULL {
        r := x;
      } else {
        r := FindSmallest(links[x].left, t.left, x);
      }
    }

    /** find_replacement: flips succ_pred_alternator, then takes the
        predecessor when it is now true and the successor otherwise. */
    method FindReplacement(x: Addr, ghost t: Tree, ghost up: Addr) returns (r: Addr)
      requires t.Node? && t.left.Node? && t.right.Node? && Realizes(t, x, up, links, hsize)
      modifies this`succPredAlternator
      ensures succPredAlternator == !old(succPredAlternator)
      ensures r == if succPredAlternator then Max(t.left).addr else Min(t.right).addr
    {
      succPredAlternator := !succPredAlternator;
      if succPredAlternator {
        r := FindLargest(links[x].left, t.left, x);
      } else {
        r := FindSmallest(links[x].right, t.right, x);
      }
    }

    /** add_chunk: inserts chunk toAdd below `node`, whose parent is
        parentChunk, and returns the subtree's root pointer.  The node
        fields now spell out Insert's tree and equals_alternator ends as
        Insert says; toAdd is marked free; only the node fields of the
        chunks on the path and of toAdd change. */
    method AddChunk(node: Addr, toAdd: Addr, parentChunk: Addr, ghost t: Tree) returns (r: Addr)
      requires Realizes(t, node, parentChunk, links, hsize) && Distinct(t)
      requires toAdd != NULL && toAdd !in Elems(t) && toAdd in hsize
      modifies this`links, this`inUse, this`equalsAlternator
      ensures Realizes(Insert(t, toAdd, hsize[toAdd], old(equalsAlternator)).0, r, parentChunk, links, hsize)
      ensures equalsAlternator == Insert(t, toAdd, hsize[toAdd], old(equalsAlternator)).1
      ensures inUse == old(inUse)[toAdd := false]
      ensures node != NULL ==> r == node
      ensures links.Keys == old(links).Keys + {toAdd}
      ensures forall x :: x in old(links) && x !in Elems(t) && x != toAdd ==> links[x] == old(links)[x]
      decreases t, 1
    {
      if node == NULL {
        inUse := inUse[toAdd := false];
        links := links[toAdd := Links(parentChunk, NULL, NULL)];
        r := toAdd;
        return;
      }
      RealizesBasics(t, node, parentChunk, links, hsize);
      if hsize[toAdd] < hsize[node] {
        AddBelow(node, toAdd, parentChunk, true, t);
      } else if hsize[toAdd] > hsize[node] {
        AddBelow(node, toAdd, parentChunk, false, t);
      } else {
        if equalsAlternator {
          AddBelow(node, toAdd, parentChunk, true, t);
        } else {
          AddBelow(node, toAdd, parentChunk, false, t);
        }
        equalsAlternator := !equalsAlternator;
      }
      r := node;
    }

    /** One step of add_chunk's descent: adds toAdd to the left or right
        subtree of chunk `node` and writes the subtree's new root into the
        node's child slot. */
    method AddBelow(node: Addr, toAdd: Addr, up: Addr, isLeft: bool, ghost t: Tree)
      requires t.Node? && node == t.addr && Realizes(t, node, up, links, hsize) && Distinct(t)
      requires toAdd != NULL && toAdd !in Elems(t) && toAdd in hsize
      modifies this`links, this`inUse, this`equalsAlternator
      ensures var c := if isLeft then t.left else t.right;
              var c' := Insert(c, toAdd, hsize[toAdd], old(equalsAlternator));
              && Realizes(if isLeft then Node(c'.0, t.addr, t.key, t.right) else Node(t.left, t.addr, t.key, c'.0),
                          node, up, links, hsize)
              && equalsAlternator == c'.1
      ensures inUse == old(inUse)[toAdd := false]
      ensures links.Keys == old(links).Keys + {toAdd}
      ensures forall x :: x in old(links) && x !in Elems(t) && x != toAdd ==> links[x] == old(links)[x]
      decreases t, 0
    {
      RealizesBasics(t, node, up, links, hsize);
      ghost var L0, alt0 := links, equalsAlternator;
      var n := links[node];
      ghost var c := if isLeft then t.left else t.right;
      var below := AddChunk(if isLeft then n.left else n.right, toAdd, node, c);
      ghost var L1 := links;
      links := links[node := SetChild(links[node], isLeft, below)];
      InsertElems(c, toAdd, hsize[toAdd], alt0);
      AddedBelow(t, up, isLeft, Insert(c, toAdd, hsize[toAdd], alt0).0, below, toAdd, L0, L1, links, hsize);
    }

    /** remove_chunk: unlinks a chunk of the free tree other than the
        sentinel.  The node fields now spell out Remove's tree and
        succ_pred_alternator ends as Remove says; outside the removed chunk's
        subtree only the parent's slot that held it changes. */
    method RemoveChunk(toRemove: Addr)
      requires TreeInv() && toRemove in Elems(tree) && toRemove != fakeRoot
      modifies this`links, this`tree, this`succPredAlternator
      ensures (tree, succPredAlternator) == Remove(old(tree), toRemove, old(succPredAlternator))
      ensures TreeInv()
      ensures Detached(old(links), links, Elems(Sub(old(tree), toRemove)), toRemove)
      decreases if Sub(tree, toRemove).left.Node? && Sub(tree, toRemove).right.Node? then 1 else 0
    {
      ghost var t0, L0, alt0 := tree, links, succPredAlternator;
      RemovalShape(t0, fakeRoot, toRemove, L0, hsize);
      var n := links[toRemove];
      var isLeft := links[n.parent].left == toRemove;
      if n.left != NULL {
        if n.right != NULL {
          var rep := FindReplacement(toRemove, Sub(t0, toRemove), n.parent);
          ghost var s1 := ReplacementChosen(t0, fakeRoot, toRemove, rep, succPredAlternator, L0, hsize);
          RemoveChunk(rep);
          ghost var L1 := links;
          ReplacementPlaced(t0, fakeRoot, toRemove, rep, alt0, s1, isLeft, L0, L1, hsize);
          var m := links[toRemove];
          links := links[rep := m];
          links := links[n.parent := SetChild(links[n.parent], isLeft, rep)];
          ghost var L3 := links;
          if m.right != NULL {
            links := links[m.right := links[m.right].(parent := rep)];
          }
          assert links == Reparent(L3, m.right, rep);
          ghost var L4 := links;
          if m.left != NULL {
            links := links[m.left := links[m.left].(parent := rep)];
          }
          assert links == Reparent(L4, m.left, rep);
          tree := Replace(tree, toRemove, Node(s1.left, rep, hsize[rep], s1.right));
        } else {
          links := links[n.parent := SetChild(links[n.parent], isLeft, n.left)];
          links := links[n.left := links[n.left].(parent := n.parent)];
          assert links == Splice(L0, toRemove, n.left, isLeft);
          SplicePlaced(t0, fakeRoot, toRemove, alt0, isLeft, L0, hsize);
          tree := Replace(tree, toRemove, Sub(t0, toRemove).left);
        }
      } else {
        if n.right != NULL {
          links := links[n.parent := SetChild(links[n.parent], isLeft, n.right)];
          links := links[n.right := links[n.right].(parent := n.parent)];
          assert links == Splice(L0, toRemove, n.right, isLeft);
        } else {
          links := links[n.parent := SetChild(links[n.parent], isLeft, NULL)];
          assert links == Splice(L0, toRemove, NULL, isLeft);
        }
        SplicePlaced(t0, fakeRoot, toRemove, alt0, isLeft, L0, hsize);
        tree := Replace(tree, toRemove, Sub(t0, toRemove).right);
      }
    }

    /** tralloc: serves a request of `size` bytes with a chunk of at least
        RequestSize bytes and returns the address of its payload.  The chunk,
        with header h, is the one remove_chunk_by_size finds in the free tree
        (`hit`), split when the rest can hold a chunk of its own, or else a
        new chunk taken from sbrk at the break.  The postconditions give the
        new globals on each of the three paths. */
    method Tralloc(size: nat) returns (ptr: Addr, ghost h: Addr, ghost hit: bool)
      requires Valid()
      modifies this
      ensures Valid()
      ensures ptr == HeaderToNode(pads, h)
      ensures hit == (old(FirstFit(tree, RequestSize(pads, size))) != NULL)
      ensures h in chunks && h in inUse && inUse[h] && h in hsize && hsize[h] >= RequestSize(pads, size)
      ensures !hit ==> && h == old(brk) && links == old(links)
                       && State() == GrowState(pads, old(State()), RequestSize(pads, size))
      ensures hit ==> && h == old(FirstFit(tree, RequestSize(pads, size)))
                      && h in old(chunks) && h in old(hsize)
                      && State() == var g1 := Unlinked(old(State()), h);
                                    if SplitWorthwhile(pads, old(hsize)[h], RequestSize(pads, size))
                                    then SplitState(pads, g1, RequestSize(pads, size), h)
                                    else ClaimState(g1, h)
    {
      var p := pads;
      ghost var g0, L0 := State(), links;
      var s := CeilSize(size, p.word);
      if s < p.node {
        s := p.node;
      }
      assert s == RequestSize(p, size);
      var found := RemoveChunkBySize(fakeRoot, s, tree, NULL);
      hit := found != NULL;
      if found == NULL {
        found := TakeFromBreak(s);
        GrowStep(p, g0, L0, s);
      } else {
        ghost var L1 := links;
        if hsize[found] >= s + p.footer + p.header + p.node {
          SplitPrepared(p, g0, L0, s, found, L1);
          SplitFound(found, s);
          SplitStep(p, g0, L0, s, found, links);
        } else {
          ClaimFound(found);
          ClaimStep(p, g0, L0, found, L1);
        }
      }
      h := found;
      ptr := HeaderToNode(p, found);
    }

    /** The sbrk path of tralloc, ending with the new chunk marked in use. */
    method TakeFromBreak(s: nat) returns (found: Addr)
      modifies this`brk, this`firstChunk, this`guardAddr, this`hsize, this`fsize, this`chunks, this`inUse
      ensures found == old(brk) && State() == GrowState(pads, old(State()), s)
    {
      var p := pads;
      found := brk;
      brk := brk + p.header + s + p.footer;
      if firstChunk == NULL {
        firstChunk := found;
      }
      guardAddr := found + p.header + s + p.footer;
      hsize := hsize[found := s];
      fsize := fsize[HeaderToFooter(p, found, s) := s];
      chunks := chunks + [found];
      inUse := inUse[found := true];
    }

    /** The split path of tralloc, entered with `found` already out of the
        free tree: found keeps the first s bytes, the rest becomes the free
        chunk `dividend` with both boundary tags written, add_chunk puts it
        in the tree, and found ends marked in use. */
    method SplitFound(found: Addr, s: nat)
      requires SplitReady(pads, State(), links, s, found)
      modifies this`hsize, this`inUse, this`fsize, this`links, this`tree, this`equalsAlternator, this`chunks,
               this`fakeRoot
      ensures State() == SplitState(pads, old(State()), s, found)
      ensures Linked(State(), links)
    {
      ghost var t1, eqa1 := tree, equalsAlternator;
      var dividend := AddRemainder(found, s);
      ghost var Hd := hsize;
      ResizeFound(found, s, dividend);
      SplitStateIs(pads, old(State()), State(), s, found);
      assert Linked(State(), links) by {
        InsertElems(t1, dividend, Hd[dividend], eqa1);
        RealizesBasics(tree, fakeRoot, NULL, links, Hd);
        RealizesFrame(tree, fakeRoot, NULL, links, Hd, links, hsize);
      }
    }

    /** The split's remainder: tagged right after the first s bytes of
        found, then put in the free tree. */
    method AddRemainder(found: Addr, s: nat) returns (dividend: Addr)
      requires SplitReady(pads, State(), links, s, found)
      modifies this`hsize, this`inUse, this`fsize, this`links, this`tree, this`equalsAlternator, this`fakeRoot
      ensures dividend == ChunkEnd(pads, found, s)
      ensures hsize == old(hsize)[dividend := Remainder(pads, old(hsize)[found], s)]
      ensures fsize == old(fsize)[HeaderToFooter(pads, dividend, hsize[dividend]) := hsize[dividend]]
      ensures inUse == old(inUse)[dividend := false]
      ensures tree == Insert(old(tree), dividend, hsize[dividend], old(equalsAlternator)).0
      ensures equalsAlternator == Insert(old(tree), dividend, hsize[dividend], old(equalsAlternator)).1
      ensures fakeRoot == old(fakeRoot) && Realizes(tree, fakeRoot, NULL, links, hsize)
    {
      dividend := TagDividend(found, s);
      AddFromRoot(dividend);
    }

    /** add_chunk called from the root: chunk x goes into the free tree and
        is marked free. */
    method AddFromRoot(x: Addr)
      requires Realizes(tree, fakeRoot, NULL, links, hsize) && Distinct(tree) && fakeRoot != NULL
      requires x != NULL && x !in Elems(tree) && x in hsize
      modifies this`links, this`inUse, this`equalsAlternator, this`tree, this`fakeRoot
      ensures tree == Insert(old(tree), x, hsize[x], old(equalsAlternator)).0
      ensures equalsAlternator == Insert(old(tree), x, hsize[x], old(equalsAlternator)).1
      ensures inUse == old(inUse)[x := false] && fakeRoot == old(fakeRoot)
      ensures Realizes(tree, fakeRoot, NULL, links, hsize)
    {
      ghost var eqa1 := equalsAlternator;
      fakeRoot := AddChunk(fakeRoot, x, NULL, tree);
      tree := Insert(tree, x, hsize[x], eqa1).0;
    }

    /** The split's remainder: its header and footer are written at the
        end of the first `s` bytes of `found`. */
    method TagDividend(found: Addr, s: nat) returns (dividend: Addr)
      requires found in hsize && SplitWorthwhile(pads, hsize[found], s)
      modifies this`hsize, this`inUse, this`fsize
      ensures dividend == ChunkEnd(pads, found, s)
      ensures hsize == old(hsize)[dividend := Remainder(pads, old(hsize)[found], s)]
      ensures inUse == old(inUse)[dividend := false]
      ensures fsize == old(fsize)[HeaderToFooter(pads, dividend, hsize[dividend]) := hsize[dividend]]
    {
      var p := pads;
      dividend := found + p.header + s + p.footer;
      hsize := hsize[dividend := hsize[found] - s - p.footer - p.header];
      inUse := inUse[dividend := false];
      fsize := fsize[HeaderToFooter(p, dividend, hsize[dividend]) := hsize[dividend]];
    }

    /** The split's first part: found shrinks to `s`, gets its footer and
        is marked in use; `dividend` follows it in address order. */
    method ResizeFound(found: Addr, s: nat, ghost dividend: Addr)
      requires found in chunks
      modifies this`hsize, this`inUse, this`fsize, this`chunks
      ensures hsize == old(hsize)[found := s]
      ensures fsize == old(fsize)[HeaderToFooter(pads, found, s) := s]
      ensures chunks == old(chunks)[..IndexOf(old(chunks), found)] + [found, dividend] + old(chunks)[IndexOf(old(chunks), found) + 1..]
      ensures inUse == old(inUse)[found := true]
    {
      hsize := hsize[found := s];
      fsize := fsize[HeaderToFooter(pads, found, s) := s];
      chunks := chunks[..IndexOf(chunks, found)] + [found, dividend] + chunks[IndexOf(chunks, found) + 1..];
      inUse := inUse[found := true];
    }

    /** The path of tralloc without a split, entered with `found` already
        out of the free tree: found is marked in use as it is. */
    method ClaimFound(found: Addr)
      modifies this`inUse
      ensures State() == ClaimState(old(State()), found)
    {
      inUse := inUse[found := true];
    }

    /** remove_chunk_by_size: walks down from `node` as FirstFit does and
        removes the chunk it stops at; NULL, with nothing changed, when the
        walk falls off the tree. */
    method RemoveChunkBySize(node: Addr, size: nat, ghost t: Tree, ghost up: Addr) returns (found: Addr)
      requires TreeInv() && fakeRoot in hsize && hsize[fakeRoot] == 0 && size > 0
      requires Realizes(t, node, up, links, hsize) && Elems(t) <= Elems(tree)
      modifies this`links, this`tree, this`succPredAlternator
      ensures found == FirstFit(t, size)
      ensures TreeInv()
      ensures found != NULL ==> found in Elems(t) && found != fakeRoot && found in hsize && hsize[found] >= size
      ensures found != NULL ==> State() == Unlinked(old(State()), found)
      ensures found == NULL ==> State() == old(State()) && links == old(links)
      decreases t
    {
      if node == NULL {
        return NULL;
      }
      if hsize[node] < size {
        found := RemoveChunkBySize(links[node].right, size, t.right, node);
      } else {
        RemoveChunk(node);
        RemoveProps(old(tree), node, old(succPredAlternator));
        found := node;
      }
    }

    /** trfree: frees the chunk whose node fields start at toFree.  It
        merges the chunk with the chunk before it when that one is free
        (found through the footer just before the header, unless the chunk
        is first_chunk), then with the chunk after it when that one is free
        (unless the chunk ends at guard_addr), marks the result free and puts
        it in the free tree. */
    method Trfree(toFree: Addr)
      requires Valid() && toFree >= pads.header
      requires NodeToHeader(pads, toFree) in chunks && !Free(inUse, NodeToHeader(pads, toFree))
      modifies this
      ensures Valid()
      ensures Freed(pads, old(State()), State(), NodeToHeader(pads, toFree))
    {
      var p := pads;
      ghost var g0, L0 := State(), links;
      var c := NodeToHeader(p, toFree);
      ghost var i := IndexOf(chunks, c);
      InvSurroundings(p, g0, L0, i);
      var a := MergeBefore(c, i);
      ghost var g1, l := State(), MergeStart(g0, i);
      AfterFirstPhase(p, g0, L0, g1, i);
      MergeAfter(a, l);
      ghost var g2 := State();
      Release(a);
      PhasesFreed(p, g0, g1, g2, State(), NodeToHeader(p, toFree));
      FreeStep(p, g0, L0, NodeToHeader(p, toFree), State(), links);
    }

    /** trfree's last step: the merged chunk a is marked free and put in
        the free tree. */
    method Release(a: Addr)
      requires TreeInv() && a != NULL && a !in Elems(tree) && a in hsize
      modifies this`links, this`inUse, this`equalsAlternator, this`tree, this`fakeRoot
      ensures State() == Released(old(State()), a)
      ensures Linked(State(), links)
    {
      inUse := inUse[a := false];
      AddFromRoot(a);
    }

    /** trfree's first phase on chunk c, the i-th: unless c is first_chunk,
        the footer just before it names the chunk before it, and when that
        one is free the two merge.  Returns the header of the merged chunk. */
    method MergeBefore(c: Addr, ghost i: nat) returns (a: Addr)
      requires Valid() && i < |chunks| && chunks[i] == c && !Free(inUse, c)
      modifies this`links, this`tree, this`succPredAlternator, this`hsize, this`fsize, this`chunks
      ensures a == old(chunks)[MergeStart(old(State()), i)]
      ensures FirstPhase(pads, old(State()), State(), i)
      ensures TreeInv()
    {
      var p := pads;
      FreeTests(p, State(), links, i);
      a := c;
      if c != firstChunk {
        var cand := FooterToHeader(p, c - p.footer, fsize[c - p.footer]);
        if !inUse[cand] {
          MergeWithPrevious(cand, c, i);
          a := cand;
        }
      }
      if !MergesPrevious(old(State()), i) {
        FirstPhaseSkipped(p, old(State()), i);
      }
    }

    /** trfree's second phase on the merged chunk a, the l-th: unless a ends
        at guard_addr, the chunk after it starts where it ends, and when that
        one is free the two merge. */
    method MergeAfter(a: Addr, ghost l: nat)
      requires TreeInv() && l < |chunks| && chunks[l] == a
      requires forall x :: x in chunks ==> x in hsize && x in inUse && fakeRoot < x
      requires ChunkEnd(pads, a, hsize[a]) != guardAddr <==> l + 1 < |chunks|
      requires l + 1 < |chunks| ==> ChunkEnd(pads, a, hsize[a]) == chunks[l + 1]
      requires MergesNext(State(), l) ==> chunks[l + 1] in Elems(tree)
      requires a !in Elems(tree)
      requires HeaderToFooter(pads, a, hsize[a]) in fsize && fsize[HeaderToFooter(pads, a, hsize[a])] == hsize[a]
      modifies this`links, this`tree, this`succPredAlternator, this`hsize, this`fsize, this`chunks
      ensures SecondPhase(pads, old(State()), State(), l)
      ensures TreeInv() && a !in Elems(tree) && a in hsize
    {
      var p := pads;
      if HeaderToFooter(p, a, hsize[a]) + p.footer != guardAddr {
        var cand := HeaderToFooter(p, a, hsize[a]) + p.footer;
        if !inUse[cand] {
          MergeWithNext(a, cand, l);
        }
      }
      if !MergesNext(old(State()), l) {
        SecondPhaseSkipped(p, old(State()), l);
      }
    }

    /** trfree's first merge: the free chunk cand just before chunk c, the
        i-th, leaves the free tree and grows over c, and its new footer is
        written. */
    method MergeWithPrevious(cand: Addr, c: Addr, ghost i: nat)
      requires TreeInv() && 0 < i < |chunks| && chunks[i - 1] == cand && chunks[i] == c
      requires Surroundings(pads, State(), i) && Free(inUse, cand)
      requires cand in Elems(tree) && cand != fakeRoot
      modifies this`links, this`tree, this`succPredAlternator, this`hsize, this`fsize, this`chunks
      ensures FirstPhase(pads, old(State()), State(), i)
      ensures TreeInv() && Elems(tree) == old(Elems(tree)) - {cand}
    {
      var p := pads;
      ghost var g0 := State();
      assert cand in hsize && c in hsize && ChunkEnd(p, cand, hsize[cand]) == c;
      RemoveChunk(cand);
      ghost var H0 := hsize;
      var s := hsize[cand] + p.footer + p.header + hsize[c];
      hsize := hsize[cand := s];
      fsize := fsize[HeaderToFooter(p, cand, s) := s];
      chunks := chunks[..i - 1] + [cand] + chunks[i + 1..];
      ghost var g' := State();
      FirstPhaseMerged(p, g0, g', i);
      assert Distinct(tree) && Elems(tree) == Elems(g0.tree) - {cand} by {
        RemoveProps(g0.tree, cand, g0.succPredAlternator);
      }
      RealizesBasics(tree, fakeRoot, NULL, links, H0);
      RealizesFrame(tree, fakeRoot, NULL, links, H0, links, hsize);
    }

    /** trfree's second merge: the free chunk cand just after chunk c, the
        l-th, leaves the free tree, c grows over it, and c's new footer is
        written. */
    method MergeWithNext(c: Addr, cand: Addr, ghost l: nat)
      requires TreeInv() && l + 1 < |chunks| && chunks[l] == c && chunks[l + 1] == cand
      requires forall x :: x in chunks ==> x in hsize
      requires ChunkEnd(pads, c, hsize[c]) == cand && Free(inUse, cand)
      requires cand in Elems(tree) && cand != fakeRoot && c !in Elems(tree)
      modifies this`links, this`tree, this`succPredAlternator, this`hsize, this`fsize, this`chunks
      ensures SecondPhase(pads, old(State()), State(), l)
      ensures TreeInv() && Elems(tree) == old(Elems(tree)) - {cand}
    {
      var p := pads;
      ghost var g1 := State();
      assert cand in hsize && c in hsize;
      RemoveChunk(cand);
      ghost var H0 := hsize;
      var s := hsize[c] + p.footer + p.header + hsize[cand];
      hsize := hsize[c := s];
      fsize := fsize[HeaderToFooter(p, c, s) := s];
      chunks := chunks[..l] + [c] + chunks[l + 2..];
      ghost var g' := State();
      SecondPhaseMerged(p, g1, g', l);
      assert Distinct(tree) && Elems(tree) == Elems(g1.tree) - {cand} by {
        RemoveProps(g1.tree, cand, g1.succPredAlternator);
      }
      RealizesBasics(tree, fakeRoot, NULL, links, H0);
      RealizesFrame(tree, fakeRoot, NULL, links, H0, links, hsize);
    }
  }

  /** One step of add_chunk: once the recursive call has hung the grown
      subtree c from node t.addr, writing c's root into the node's child slot
      hangs the grown tree from `up`. */
  lemma {:induction false} AddedBelow(t: Tree, up: Addr, isLeft: bool, c: Tree, cRoot: Addr, toAdd: Addr,
                   L0: map<Addr, Links>, L1: map<Addr, Links>, L2: map<Addr, Links>, H: map<Addr, nat>)
    requires t.Node? && Realizes(t, t.addr, up, L0, H) && Distinct(t) && toAdd !in Elems(t)
    requires Realizes(c, cRoot, t.addr, L1, H)
    requires Elems(c) == Elems(if isLeft then t.left else t.right) + {toAdd}
    requires forall x :: x in L0 && x !in Elems(if isLeft then t.left else t.right) && x != toAdd ==> x in L1 && L1[x] == L0[x]
    requires t.addr in L1 && L2 == L1[t.addr := SetChild(L1[t.addr], isLeft, cRoot)]
    ensures Realizes(if isLeft then Node(c, t.addr, t.key, t.right) else Node(t.left, t.addr, t.key, c), t.addr, up, L2, H)
  {
    var o := if isLeft then t.right else t.left;
    var oRoot := if isLeft then L0[t.addr].right else L0[t.addr].left;
    RealizesBasics(t, t.addr, up, L0, H);
    RealizesBasics(c, cRoot, t.addr, L1, H);
    RealizesBasics(o, oRoot, t.addr, L0, H);
    RealizesFrame(c, cRoot, t.addr, L1, H, L2, H);
    RealizesFrame(o, oRoot, t.addr, L0, H, L2, H);
  }

  /** What remove_chunk finds at a chunk a of the tree other than its root:
      a's node fields point at its two subtrees (NULL for an empty one) and
      at a parent that is itself a chunk with node fields. */
  lemma {:induction false} RemovalShape(t0: Tree, root: Addr, a: Addr, L0: map<Addr, Links>, H: map<Addr, nat>)
    requires Realizes(t0, root, NULL, L0, H) && Distinct(t0) && a in Elems(t0) && a != root
    ensures a in L0 && L0[a].parent in L0
    ensures Realizes(Sub(t0, a), a, L0[a].parent, L0, H)
    ensures (L0[a].left != NULL) == Sub(t0, a).left.Node? && (L0[a].right != NULL) == Sub(t0, a).right.Node?
    ensures L0[a].left != NULL ==> L0[a].left in L0
    ensures L0[a].right != NULL ==> L0[a].right in L0
  {
    var s := Sub(t0, a);
    RealizesSub(t0, root, NULL, a, L0, H);
    RealizesChildren(t0, root, NULL, a, L0, H);
    RealizesBasics(s.left, L0[a].left, a, L0, H);
    RealizesBasics(s.right, L0[a].right, a, L0, H);
  }

  /** The replacement find_replacement picks is a chunk below a with at most
      one child, and removing it leaves a's subtree as s1. */
  lemma {:induction false} ReplacementChosen(t0: Tree, root: Addr, a: Addr, rep: Addr, alt1: bool,
                          L0: map<Addr, Links>, H: map<Addr, nat>) returns (s1: Tree)
    requires Realizes(t0, root, NULL, L0, H) && Distinct(t0) && a in Elems(t0) && a != root
    requires Sub(t0, a).left.Node? && Sub(t0, a).right.Node?
    requires rep == if alt1 then Max(Sub(t0, a).left).addr else Min(Sub(t0, a).right).addr
    ensures rep in Elems(t0) && rep != root
    ensures !(Sub(t0, rep).left.Node? && Sub(t0, rep).right.Node?)
    ensures Remove(t0, rep, alt1) == (Replace(t0, a, s1), alt1)
    ensures var s := Sub(t0, a);
            if alt1 then s1 == Node(RemoveMax(s.left), a, s.key, s.right)
            else s1 == Node(s.left, a, s.key, RemoveMin(s.right))
  {
    var s := Sub(t0, a);
    SubProps(t0, a);
    SubExcludesRoot(t0, a);
    RealizesBasics(t0, root, NULL, L0, H);
    if alt1 {
      PredecessorRemoval(t0, a, alt1);
      s1 := Node(RemoveMax(s.left), a, s.key, s.right);
    } else {
      SuccessorRemoval(t0, a, alt1);
      s1 := Node(s.left, a, s.key, RemoveMin(s.right));
    }
  }

  /** The at-most-one-child case of remove_chunk: splicing a out yields
      Remove's tree and leaves the alternator alone. */
  lemma {:induction false} SplicePlaced(t0: Tree, root: Addr, a: Addr, alt0: bool, isLeft: bool, L0: map<Addr, Links>, H: map<Addr, nat>)
    requires Realizes(t0, root, NULL, L0, H) && Distinct(t0) && a in Elems(t0) && a != root
    requires !(Sub(t0, a).left.Node? && Sub(t0, a).right.Node?)
    requires a in L0 && L0[a].parent in L0 && isLeft == (L0[L0[a].parent].left == a)
    ensures var c := if Sub(t0, a).left.Node? then Sub(t0, a).left else Sub(t0, a).right;
            && Remove(t0, a, alt0) == (Replace(t0, a, c), alt0)
            && Distinct(Replace(t0, a, c))
            && Realizes(Replace(t0, a, c), root, NULL, Splice(L0, a, Root(c), isLeft), H)
            && Detached(L0, Splice(L0, a, Root(c), isLeft), Elems(Sub(t0, a)), a)
  {
    RealizesSplice(t0, root, NULL, a, isLeft, L0, H);
    RemoveProps(t0, a, alt0);
  }

  /** The two-children case of remove_chunk as a tree value: a node with
      the replacement's address and size over s1's subtrees is what Remove
      puts in a's place, and the replacement has left the tree. */
  lemma {:induction false} ReplacementKey(t0: Tree, root: Addr, a: Addr, rep: Addr, alt0: bool, s1: Tree,
                       L0: map<Addr, Links>, H: map<Addr, nat>)
    requires Realizes(t0, root, NULL, L0, H) && Distinct(t0) && a in Elems(t0) && a != root
    requires Sub(t0, a).left.Node? && Sub(t0, a).right.Node?
    requires var s := Sub(t0, a);
             if !alt0 then rep == Max(s.left).addr && s1 == Node(RemoveMax(s.left), a, s.key, s.right)
             else rep == Min(s.right).addr && s1 == Node(s.left, a, s.key, RemoveMin(s.right))
    ensures rep in H && rep != NULL && rep != a && rep in Elems(Sub(t0, a))
    ensures Elems(s1) <= Elems(Sub(t0, a)) && rep !in Elems(Replace(t0, a, s1))
    ensures Remove(t0, a, alt0).0 == Replace(t0, a, Node(s1.left, rep, H[rep], s1.right))
    ensures Distinct(Remove(t0, a, alt0).0) && Remove(t0, a, alt0).1 == !alt0
  {
    assert Distinct(Remove(t0, a, alt0).0) && Remove(t0, a, alt0).1 == !alt0 by {
      RemoveProps(t0, a, alt0);
    }
    var s := Sub(t0, a);
    RealizesBasics(t0, root, NULL, L0, H);
    SubProps(t0, a);
    if !alt0 {
      PredecessorRemoval(t0, a, true);
      MaxProps(s.left);
      assert Remove(t0, rep, true).0 == Replace(t0, a, s1);
    } else {
      SuccessorRemoval(t0, a, false);
      MinProps(s.right);
      assert Remove(t0, rep, false).0 == Replace(t0, a, s1);
    }
    RealizesSub(t0, root, NULL, rep, L0, H);
    assert H[rep] == Sub(t0, rep).key;
    RemoveProps(t0, rep, !alt0);
  }

  /** The two-children case of remove_chunk in memory.  Once the
      replacement `rep` (the largest chunk left of a or the smallest right of
      it, as the flipped alternator says) has been removed, the tree is t0
      with a's subtree replaced by s1.  Moving rep into a's place then yields
      Remove's tree, and the links differ from the original ones only within
      a's subtree and in the parent's slot. */
  lemma {:induction false} ReplacementPlaced(t0: Tree, root: Addr, a: Addr, rep: Addr, alt0: bool, s1: Tree, isLeft: bool,
                          L0: map<Addr, Links>, L1: map<Addr, Links>, H: map<Addr, nat>)
    requires Realizes(t0, root, NULL, L0, H) && Distinct(t0) && a in Elems(t0) && a != root
    requires Sub(t0, a).left.Node? && Sub(t0, a).right.Node?
    requires var s := Sub(t0, a);
             if !alt0 then rep == Max(s.left).addr && s1 == Node(RemoveMax(s.left), a, s.key, s.right)
             else rep == Min(s.right).addr && s1 == Node(s.left, a, s.key, RemoveMin(s.right))
    requires Realizes(Replace(t0, a, s1), root, NULL, L1, H) && Distinct(Replace(t0, a, s1))
    requires Detached(L0, L1, Elems(Sub(t0, rep)), rep)
    requires a in L0 && L0[a].parent in L0 && isLeft == (L0[L0[a].parent].left == a)
    ensures a in L1 && L1[a].parent == L0[a].parent && L0[a].parent in L1
    ensures L1[a].left != NULL ==> L1[a].left in L1
    ensures L1[a].right != NULL ==> L1[a].right in L1
    ensures rep in H
    ensures Remove(t0, a, alt0).0 == Replace(Replace(t0, a, s1), a, Node(s1.left, rep, H[rep], s1.right))
    ensures Realizes(Remove(t0, a, alt0).0, root, NULL, Transplant(L1, a, rep, isLeft), H)
    ensures Detached(L0, Transplant(L1, a, rep, isLeft), Elems(Sub(t0, a)), a)
    ensures Distinct(Remove(t0, a, alt0).0) && Remove(t0, a, alt0).1 == !alt0
  {
    ReplacementKey(t0, root, a, rep, alt0, s1, L0, H);
    var t1 := Replace(t0, a, s1);
    DetachedInside(t0, root, NULL, a, rep, L0, L1, H);
    SubReplace(t0, a, s1);
    assert (L1[a].left != NULL ==> L1[a].left in L1) && (L1[a].right != NULL ==> L1[a].right in L1) by {
      RealizesChildren(t1, root, NULL, a, L1, H);
      RealizesBasics(s1.left, L1[a].left, a, L1, H);
      RealizesBasics(s1.right, L1[a].right, a, L1, H);
    }
    RealizesTransplant(t1, root, NULL, a, rep, isLeft, L1, H);
    ReplaceTwice(t0, a, s1, Node(s1.left, rep, H[rep], s1.right));
    DetachedTwice(t0, root, NULL, a, rep, L0, L1, Transplant(L1, a, rep, isLeft), H, Elems(s1) + {rep});
  }

  // ---------------------------------------------------------------------
  // The three ways tralloc serves a request keep the invariant

  /** The sbrk path keeps the invariant and leaves the new chunk in use:
      it starts at the old break, so it is neither a chunk nor a tree node
      yet. */
  lemma {:induction false} GrowStep(p: Pads, g: Globals, L: map<Addr, Links>, s: nat)
    requires Inv(p, g, L) && s >= p.node && s % p.word == 0
    ensures Inv(p, GrowState(p, g, s), L)
    ensures var g' := GrowState(p, g, s);
            g.brk in g'.chunks && g.brk in g'.inUse && g'.inUse[g.brk] && g.brk in g'.hsize && g'.hsize[g.brk] == s
  {
    var lo := g.fakeRoot + p.header + p.node;
    var g' := GrowState(p, g, s);
    TiledWithin(p, g.chunks, g.hsize, lo, g.brk);
    assert g.brk !in g.chunks;
    assert g.brk !in Elems(g.tree) by {
      assert Elems(g.tree) <= FreeIn(g.chunks, g.inUse) + {g.fakeRoot};
    }
    Grow(p, g.chunks, g.hsize, g.fsize, g.inUse, lo, g.brk, s, g'.hsize, g'.fsize, g'.inUse);
    RealizesBasics(g.tree, g.fakeRoot, NULL, L, g.hsize);
    RealizesFrame(g.tree, g.fakeRoot, NULL, L, g.hsize, L, g'.hsize);
  }

  /** Before tralloc splits the chunk h that remove_chunk_by_size took out
      of the tree, leaving node fields L1: h is a free chunk of the sequence,
      and the remainder's header lies inside it, so it is neither a chunk nor
      a tree node, and writing its size leaves the tree alone. */
  lemma {:induction false} SplitPrepared(p: Pads, g: Globals, L: map<Addr, Links>, s: nat, h: Addr,
                                         L1: map<Addr, Links>)
    requires Inv(p, g, L) && s >= p.node
    requires h in Elems(g.tree) && h != g.fakeRoot && h in g.hsize && SplitWorthwhile(p, g.hsize[h], s)
    requires Realizes(Unlinked(g, h).tree, g.fakeRoot, NULL, L1, g.hsize)
    ensures h in g.chunks && SplitReady(p, Unlinked(g, h), L1, s, h)
  {
    var t1 := Unlinked(g, h).tree;
    var d := ChunkEnd(p, h, s);
    RemoveProps(g.tree, h, g.succPredAlternator);
    assert h in FreeIn(g.chunks, g.inUse);
    var i := IndexOf(g.chunks, h);
    var lo := g.fakeRoot + p.header + p.node;
    Separated(p, g.chunks, g.hsize, lo, g.brk, i);
    TiledWithin(p, g.chunks, g.hsize, lo, g.brk);
    assert d !in g.chunks;
    assert d !in Elems(t1) by {
      assert Elems(t1) <= FreeIn(g.chunks, g.inUse) + {g.fakeRoot};
    }
    RealizesBasics(t1, g.fakeRoot, NULL, L1, g.hsize);
    RealizesFrame(t1, g.fakeRoot, NULL, L1, g.hsize, L1, g.hsize[d := Remainder(p, g.hsize[h], s)]);
  }

  /** The split path keeps the invariant, given node fields L2 that spell
      out the tree with the remainder inserted, and leaves h in use with
      exactly s bytes. */
  lemma {:induction false} SplitStep(p: Pads, g: Globals, L: map<Addr, Links>, s: nat, h: Addr, L2: map<Addr, Links>)
    requires Inv(p, g, L) && s >= p.node && s % p.word == 0
    requires h in Elems(g.tree) && h != g.fakeRoot && h in g.chunks
    requires h in g.hsize && SplitWorthwhile(p, g.hsize[h], s)
    requires Linked(SplitState(p, Unlinked(g, h), s, h), L2)
    ensures Inv(p, SplitState(p, Unlinked(g, h), s, h), L2)
    ensures var g' := SplitState(p, Unlinked(g, h), s, h);
            h in g'.chunks && h in g'.inUse && g'.inUse[h] && h in g'.hsize && g'.hsize[h] == s
  {
    assert h in FreeIn(g.chunks, g.inUse);
    SplitTreeStep(p, g, s, h);
    SplitHeap(p, g, s, h);
  }

  /** The tree side of the split: removing h and adding the remainder d
      keeps the tree a BST of distinct chunks whose nodes are exactly the
      free chunks of the new chunk sequence, plus the sentinel. */
  lemma {:induction false} SplitTreeStep(p: Pads, g: Globals, s: nat, h: Addr)
    requires p.Valid() && WellFormed(p, g.chunks, g.hsize, g.fsize, g.inUse, g.fakeRoot + p.header + p.node, g.brk)
    requires Distinct(g.tree) && IsBST(g.tree) && Elems(g.tree) == FreeIn(g.chunks, g.inUse) + {g.fakeRoot}
    requires s >= p.node && s % p.word == 0
    requires h in Elems(g.tree) && h != g.fakeRoot && h in g.chunks
    requires h in g.hsize && SplitWorthwhile(p, g.hsize[h], s)
    ensures var g' := SplitState(p, Unlinked(g, h), s, h);
            && Distinct(g'.tree) && IsBST(g'.tree)
            && Elems(g'.tree) == FreeIn(g'.chunks, g'.inUse) + {g'.fakeRoot}
  {
    var gu := Unlinked(g, h);
    var d := ChunkEnd(p, h, s);
    var r := Remainder(p, g.hsize[h], s);
    var i := IndexOf(g.chunks, h);
    var lo := g.fakeRoot + p.header + p.node;
    assert h in FreeIn(g.chunks, g.inUse);
    assert g.fakeRoot < d && forall x :: x in g.chunks ==> x != d by {
      Separated(p, g.chunks, g.hsize, lo, g.brk, i);
      TiledWithin(p, g.chunks, g.hsize, lo, g.brk);
    }
    RemoveProps(g.tree, h, g.succPredAlternator);
    assert d !in Elems(gu.tree);
    SplitTree(gu.tree, d, r, g.equalsAlternator);
    SplitFree(p, g, s, h);
    Exchange(Elems(g.tree), FreeIn(g.chunks, g.inUse), g.fakeRoot, h, d);
  }

  /** The chunk side of the split: the chunk sequence stays well formed, no
      two free chunks become neighbours, the sentinel keeps its zero size
      and first_chunk and guard_addr still name the ends of the heap. */
  lemma {:induction false} SplitHeap(p: Pads, g: Globals, s: nat, h: Addr)
    requires p.Valid() && WellFormed(p, g.chunks, g.hsize, g.fsize, g.inUse, g.fakeRoot + p.header + p.node, g.brk)
    requires g.fakeRoot in g.hsize && g.hsize[g.fakeRoot] == 0 && h != g.fakeRoot
    requires if g.chunks == [] then g.firstChunk == NULL && g.guardAddr == NULL
             else g.firstChunk == g.chunks[0] && g.guardAddr == g.brk
    requires h in FreeIn(g.chunks, g.inUse)
    requires s >= p.node && s % p.word == 0 && h in g.hsize && SplitWorthwhile(p, g.hsize[h], s)
    ensures var g' := SplitState(p, Unlinked(g, h), s, h);
            && WellFormed(p, g'.chunks, g'.hsize, g'.fsize, g'.inUse, g'.fakeRoot + p.header + p.node, g'.brk)
            && (NoAdjacentFree(g.chunks, g.inUse) ==> NoAdjacentFree(g'.chunks, g'.inUse))
            && g'.fakeRoot in g'.hsize && g'.hsize[g'.fakeRoot] == 0
            && g'.chunks != [] && g'.firstChunk == g'.chunks[0] && g'.guardAddr == g'.brk
  {
    var lo := g.fakeRoot + p.header + p.node;
    TiledWithin(p, g.chunks, g.hsize, lo, g.brk);
    SplitChunk(p, g.chunks, g.hsize, g.fsize, g.inUse, lo, g.brk, h, s);
  }

  /** The split trades h for the remainder in the free set. */
  lemma {:induction false} SplitFree(p: Pads, g: Globals, s: nat, h: Addr)
    requires p.Valid() && WellFormed(p, g.chunks, g.hsize, g.fsize, g.inUse, g.fakeRoot + p.header + p.node, g.brk)
    requires h in FreeIn(g.chunks, g.inUse)
    requires s >= p.node && s % p.word == 0 && h in g.hsize && SplitWorthwhile(p, g.hsize[h], s)
    ensures var g' := SplitState(p, Unlinked(g, h), s, h);
            FreeIn(g'.chunks, g'.inUse) == FreeIn(g.chunks, g.inUse) - {h} + {ChunkEnd(p, h, s)}
  {
    SplitChunk(p, g.chunks, g.hsize, g.fsize, g.inUse, g.fakeRoot + p.header + p.node, g.brk, h, s);
  }

  /** Trading member h of a set for d, where the set is F plus a separate
      root: the root stays and the rest trades the same way. */
  lemma {:induction false} Exchange<T>(E: set<T>, F: set<T>, root: T, h: T, d: T)
    requires E == F + {root} && h != root && d != root
    ensures E - {h} + {d} == F - {h} + {d} + {root}
  {
  }

  /** The tree side of the split: inserting the remainder d into t1 keeps
      it a search tree of distinct chunks. */
  lemma {:induction false} SplitTree(t1: Tree, d: Addr, r: nat, alt1: bool)
    requires Distinct(t1) && IsBST(t1) && d !in Elems(t1)
    ensures var t2 := Insert(t1, d, r, alt1).0;
            Elems(t2) == Elems(t1) + {d} && Distinct(t2) && IsBST(t2)
  {
    InsertElems(t1, d, r, alt1);
    InsertDistinct(t1, d, r, alt1);
    InsertOrdered(t1, d, r, alt1);
  }

  /** The path without a split keeps the invariant, given node fields L1
      that spell out the tree without h, and leaves h in use. */
  lemma {:induction false} ClaimStep(p: Pads, g: Globals, L: map<Addr, Links>, h: Addr, L1: map<Addr, Links>)
    requires Inv(p, g, L) && h in Elems(g.tree) && h != g.fakeRoot
    requires Realizes(Unlinked(g, h).tree, g.fakeRoot, NULL, L1, g.hsize)
    ensures Inv(p, ClaimState(Unlinked(g, h), h), L1)
    ensures h in g.chunks
  {
    RemoveProps(g.tree, h, g.succPredAlternator);
    assert h in FreeIn(g.chunks, g.inUse);
    var i := IndexOf(g.chunks, h);
    Claim(p, g.chunks, g.hsize, g.fsize, g.inUse, g.fakeRoot + p.header + p.node, g.brk, i);
  }

  /** SplitState, field by field. */
  lemma {:induction false} SplitStateIs(p: Pads, g: Globals, g': Globals, s: nat, h: Addr)
    requires h in g.hsize && h in g.chunks && SplitWorthwhile(p, g.hsize[h], s)
    requires g'.hsize == g.hsize[ChunkEnd(p, h, s) := Remainder(p, g.hsize[h], s)][h := s]
    requires g'.inUse == g.inUse[ChunkEnd(p, h, s) := false][h := true]
    requires g'.fsize == g.fsize[HeaderToFooter(p, ChunkEnd(p, h, s), Remainder(p, g.hsize[h], s)) := Remainder(p, g.hsize[h], s)][HeaderToFooter(p, h, s) := s]
    requires g'.chunks == g.chunks[..IndexOf(g.chunks, h)] + [h, ChunkEnd(p, h, s)] + g.chunks[IndexOf(g.chunks, h) + 1..]
    requires g'.tree == Insert(g.tree, ChunkEnd(p, h, s), Remainder(p, g.hsize[h], s), g.equalsAlternator).0
    requires g'.equalsAlternator == Insert(g.tree, ChunkEnd(p, h, s), Remainder(p, g.hsize[h], s), g.equalsAlternator).1
    requires g'.brk == g.brk
    requires g'.fakeRoot == g.fakeRoot
    requires g'.firstChunk == g.firstChunk
    requires g'.guardAddr == g.guardAddr
    requires g'.succPredAlternator == g.succPredAlternator
    ensures g' == SplitState(p, g, s, h)
  {
  }

  // ---------------------------------------------------------------------
  // trfree keeps the invariant

  /** The neighbours of chunk i as trfree needs them: its size and footer
      are in memory, the chunk before it ends where it starts, and the
      chunk after it starts where it ends. */
  ghost predicate Surroundings(p: Pads, g: Globals, i: nat)
    requires i < |g.chunks|
  {
    var cs, H := g.chunks, g.hsize;
    && cs[i] in H
    && HeaderToFooter(p, cs[i], H[cs[i]]) in g.fsize && g.fsize[HeaderToFooter(p, cs[i], H[cs[i]])] == H[cs[i]]
    && (i > 0 ==> cs[i - 1] in H && ChunkEnd(p, cs[i - 1], H[cs[i - 1]]) == cs[i])
    && (i + 1 < |cs| ==> cs[i + 1] in H && ChunkEnd(p, cs[i], H[cs[i]]) == cs[i + 1])
  }

  /** Inside the invariant every chunk has its neighbours in place. */
  lemma {:induction false} InvSurroundings(p: Pads, g: Globals, L: map<Addr, Links>, i: nat)
    requires Inv(p, g, L) && i < |g.chunks|
    ensures Surroundings(p, g, i)
    ensures forall x :: x in g.chunks ==> x in g.hsize && x in g.inUse
  {
    var lo := g.fakeRoot + p.header + p.node;
    Neighbours(p, g.chunks, g.hsize, g.fsize, g.inUse, lo, g.brk, i);
    if i > 0 {
      Neighbours(p, g.chunks, g.hsize, g.fsize, g.inUse, lo, g.brk, i - 1);
    }
    assert OKAt(p, g.chunks, g.hsize, g.fsize, g.inUse, i);
  }

  /** The two phases of trfree's merging composed, on the chunk sequence and
      the maps alone: the first phase leaves chunk l spanning up to the end of
      chunk i, the second extends it over k1 - l more chunks. */
  lemma {:induction false} PhasesCompose(p: Pads, cs: seq<Addr>, H: map<Addr, nat>, Fs: map<Addr, nat>, i: nat, l: nat,
                                         cs1: seq<Addr>, H1: map<Addr, nat>, Fs1: map<Addr, nat>, k1: nat,
                                         cs2: seq<Addr>, H2: map<Addr, nat>, Fs2: map<Addr, nat>, k: nat)
    requires p.Valid() && l <= i < |cs| && cs[i] in H && cs[l] <= cs[i]
    requires i + 1 < |cs| ==> cs[i + 1] in H && ChunkEnd(p, cs[i], H[cs[i]]) == cs[i + 1]
    requires cs1 == cs[..l] + [cs[l]] + cs[i + 1..]
    requires cs[l] in H1 && ChunkEnd(p, cs[l], H1[cs[l]]) == ChunkEnd(p, cs[i], H[cs[i]]) && H1 == H[cs[l] := H1[cs[l]]]
    requires Fs1 == Fs[HeaderToFooter(p, cs[l], H1[cs[l]]) := H1[cs[l]]]
    requires k1 == l || (k1 == l + 1 && i + 1 < |cs|)
    requires cs2 == cs1[..l] + [cs[l]] + cs1[k1 + 1..]
    requires cs[l] in H2 && ChunkEnd(p, cs[l], H2[cs[l]]) == ChunkEnd(p, cs1[k1], H1[cs1[k1]]) && H2 == H1[cs[l] := H2[cs[l]]]
    requires Fs2 == Fs1[HeaderToFooter(p, cs[l], H2[cs[l]]) := H2[cs[l]]]
    requires k == i + (k1 - l)
    ensures && k < |cs| && cs2 == cs[..l] + [cs[l]] + cs[k + 1..]
            && ChunkEnd(p, cs[l], H2[cs[l]]) == ChunkEnd(p, cs[k], H[cs[k]])
            && H2 == H[cs[l] := H2[cs[l]]]
            && SameOutside(Fs, Fs2, cs[l], ChunkEnd(p, cs[k], H[cs[k]]))
  {
    SpliceParts(cs[..l], cs[l], cs[i + 1..]);
    if k1 == l + 1 {
      assert cs[i + 1..][1..] == cs[i + 2..];
      assert cs1[k1] == cs[i + 1] && cs[i + 1] != cs[l];
    }
    var e := ChunkEnd(p, cs[i + (k1 - l)], H[cs[i + (k1 - l)]]);
    assert cs[l] <= HeaderToFooter(p, cs[l], H1[cs[l]]) < e;
    assert cs[l] <= HeaderToFooter(p, cs[l], H2[cs[l]]) < e;
  }

  /** What trfree's tests read, inside the invariant, for chunk i: a chunk
      is first_chunk exactly when it is the first; for any other, the footer
      just before its header leads to the chunk before it; a chunk ends at
      guard_addr exactly when it is the last; free neighbours are in the
      tree, and an in-use chunk is not. */
  lemma {:induction false} FreeTests(p: Pads, g: Globals, L: map<Addr, Links>, i: nat)
    requires Inv(p, g, L) && i < |g.chunks|
    ensures Surroundings(p, g, i)
    ensures forall x :: x in g.chunks ==> x in g.hsize && x in g.inUse && g.fakeRoot < x
    ensures var cs, Fs := g.chunks, g.fsize;
            && (cs[i] != g.firstChunk <==> i > 0)
            && (i > 0 ==> && cs[i] >= p.footer && cs[i] - p.footer in Fs
                          && cs[i] - p.footer >= Fs[cs[i] - p.footer] + p.header
                          && FooterToHeader(p, cs[i] - p.footer, Fs[cs[i] - p.footer]) == cs[i - 1])
            && (ChunkEnd(p, cs[i], g.hsize[cs[i]]) != g.guardAddr <==> i + 1 < |cs|)
            && (MergesPrevious(g, i) ==> cs[i - 1] in Elems(g.tree))
            && (MergesNext(g, i) ==> cs[i + 1] in Elems(g.tree))
            && (!Free(g.inUse, cs[i]) ==> cs[i] !in Elems(g.tree))
  {
    var cs, lo := g.chunks, g.fakeRoot + p.header + p.node;
    InvSurroundings(p, g, L, i);
    Neighbours(p, cs, g.hsize, g.fsize, g.inUse, lo, g.brk, i);
    TiledWithin(p, cs, g.hsize, lo, g.brk);
    assert cs[0] == lo;
    if i > 0 {
      assert cs[i - 1] in cs;
    }
    if i + 1 < |cs| {
      assert cs[i + 1] in cs;
    }
    assert cs[i] in cs;
  }

  /** When the chunk before chunk i is in use, the first phase leaves
      everything as it was. */
  lemma {:induction false} FirstPhaseSkipped(p: Pads, g: Globals, i: nat)
    requires i < |g.chunks| && Surroundings(p, g, i) && !MergesPrevious(g, i)
    ensures FirstPhase(p, g, g, i)
  {
    var cs := g.chunks;
    assert cs == cs[..i] + [cs[i]] + cs[i + 1..];
    assert g.fsize == g.fsize[HeaderToFooter(p, cs[i], g.hsize[cs[i]]) := g.hsize[cs[i]]];
  }

  /** When the chunk before chunk i is free, merging it over chunk i, with
      its size grown by chunk i's, its footer rewritten and its tree node
      removed, is the first phase. */
  lemma {:induction false} FirstPhaseMerged(p: Pads, g: Globals, g1: Globals, i: nat)
    requires 0 < i < |g.chunks| && g.chunks[i - 1] in g.hsize && g.chunks[i] in g.hsize
    requires Free(g.inUse, g.chunks[i - 1]) && ChunkEnd(p, g.chunks[i - 1], g.hsize[g.chunks[i - 1]]) == g.chunks[i]
    requires var cs, H, a := g.chunks, g.hsize, g.chunks[i - 1];
             var s := H[a] + p.footer + p.header + H[cs[i]];
             && g1.chunks == cs[..i - 1] + [a] + cs[i + 1..]
             && g1.hsize == H[a := s] && g1.fsize == g.fsize[HeaderToFooter(p, a, s) := s]
    requires g1.inUse == g.inUse && g1.brk == g.brk && g1.fakeRoot == g.fakeRoot
    requires g1.firstChunk == g.firstChunk && g1.guardAddr == g.guardAddr
    requires g1.equalsAlternator == g.equalsAlternator
    requires (g1.tree, g1.succPredAlternator) == Remove(g.tree, g.chunks[i - 1], g.succPredAlternator)
    ensures FirstPhase(p, g, g1, i)
  {
    var a := g.chunks[i - 1];
    MergeConservesExtent(p, a, g.hsize[a], g.hsize[g.chunks[i]]);
  }

  /** When the chunk after chunk l is free, growing chunk l over it, with its
      footer rewritten and the neighbour's tree node removed, is the second
      phase. */
  lemma {:induction false} SecondPhaseMerged(p: Pads, g1: Globals, g2: Globals, l: nat)
    requires l + 1 < |g1.chunks| && forall x :: x in g1.chunks ==> x in g1.hsize
    requires var cs := g1.chunks;
             Free(g1.inUse, cs[l + 1]) && ChunkEnd(p, cs[l], g1.hsize[cs[l]]) == cs[l + 1]
    requires var cs, H, a := g1.chunks, g1.hsize, g1.chunks[l];
             var s := H[a] + p.footer + p.header + H[cs[l + 1]];
             && g2.chunks == cs[..l] + [a] + cs[l + 2..]
             && g2.hsize == H[a := s] && g2.fsize == g1.fsize[HeaderToFooter(p, a, s) := s]
    requires g2.inUse == g1.inUse && g2.brk == g1.brk && g2.fakeRoot == g1.fakeRoot
    requires g2.firstChunk == g1.firstChunk && g2.guardAddr == g1.guardAddr
    requires g2.equalsAlternator == g1.equalsAlternator
    requires (g2.tree, g2.succPredAlternator) == Remove(g1.tree, g1.chunks[l + 1], g1.succPredAlternator)
    ensures SecondPhase(p, g1, g2, l)
  {
    var cs := g1.chunks;
    assert cs[l] in cs && cs[l + 1] in cs;
    MergeConservesExtent(p, cs[l], g1.hsize[cs[l]], g1.hsize[cs[l + 1]]);
  }

  /** When the chunk after chunk l is in use or missing, the second phase
      leaves everything as it was. */
  lemma {:induction false} SecondPhaseSkipped(p: Pads, g1: Globals, l: nat)
    requires l < |g1.chunks| && forall x :: x in g1.chunks ==> x in g1.hsize
    requires var a := g1.chunks[l];
             HeaderToFooter(p, a, g1.hsize[a]) in g1.fsize && g1.fsize[HeaderToFooter(p, a, g1.hsize[a])] == g1.hsize[a]
    requires !MergesNext(g1, l)
    ensures SecondPhase(p, g1, g1, l)
  {
    var cs := g1.chunks;
    assert cs == cs[..l] + [cs[l]] + cs[l + 1..];
    assert g1.fsize == g1.fsize[HeaderToFooter(p, cs[l], g1.hsize[cs[l]]) := g1.hsize[cs[l]]];
  }

  /** After the first phase on chunk i the second phase's tests read the
      same as they would have before it: chunk l, the first merged, ends at
      guard_addr exactly when chunk i did, the chunk after it is the one
      that followed chunk i, and it is free and in the tree exactly when it
      was; chunk l itself is out of the tree and its footer is in place. */
  lemma {:induction false} AfterFirstPhase(p: Pads, g: Globals, L: map<Addr, Links>, g1: Globals, i: nat)
    requires Inv(p, g, L) && i < |g.chunks| && !Free(g.inUse, g.chunks[i])
    requires g.chunks[i] in g.hsize && FirstPhase(p, g, g1, i)
    ensures var cs, cs1, l := g.chunks, g1.chunks, MergeStart(g, i);
            && l < |cs1| && cs1[l] == cs[l]
            && (forall x :: x in cs1 ==> x in g1.hsize && x in g1.inUse && g1.fakeRoot < x)
            && (ChunkEnd(p, cs1[l], g1.hsize[cs1[l]]) != g1.guardAddr <==> l + 1 < |cs1|)
            && (l + 1 < |cs1| ==> ChunkEnd(p, cs1[l], g1.hsize[cs1[l]]) == cs1[l + 1])
            && (MergesNext(g1, l) <==> MergesNext(g, i))
            && (MergesNext(g1, l) ==> cs1[l + 1] in Elems(g1.tree))
            && cs1[l] !in Elems(g1.tree)
            && HeaderToFooter(p, cs1[l], g1.hsize[cs1[l]]) in g1.fsize
            && g1.fsize[HeaderToFooter(p, cs1[l], g1.hsize[cs1[l]])] == g1.hsize[cs1[l]]
  {
    FreeTests(p, g, L, i);
    var cs, l := g.chunks, MergeStart(g, i);
    SpliceParts(cs[..l], cs[l], cs[i + 1..]);
    forall x | x in g1.chunks ensures x in cs {
      if x != cs[l] && x !in cs[..l] {
        assert x in cs[i + 1..];
      }
    }
    if MergesPrevious(g, i) {
      RemoveProps(g.tree, cs[i - 1], g.succPredAlternator);
    }
  }

  /** The two phases and the final add_chunk together do what Freed says. */
  lemma {:induction false} PhasesFreed(p: Pads, g: Globals, g1: Globals, g2: Globals, g': Globals, h: Addr)
    requires p.Valid() && h in g.chunks && forall x :: x in g.chunks ==> x in g.hsize
    requires Surroundings(p, g, IndexOf(g.chunks, h)) && FirstPhase(p, g, g1, IndexOf(g.chunks, h))
    requires MergeStart(g, IndexOf(g.chunks, h)) < |g1.chunks| && forall x :: x in g1.chunks ==> x in g1.hsize
    requires SecondPhase(p, g1, g2, MergeStart(g, IndexOf(g.chunks, h)))
    requires g.chunks[MergeStart(g, IndexOf(g.chunks, h))] in g2.hsize
    requires g' == Released(g2, g.chunks[MergeStart(g, IndexOf(g.chunks, h))])
    ensures Freed(p, g, g', h)
  {
    PhasesCombine(p, g, g1, g2, IndexOf(g.chunks, h));
  }

  /** The two phases together, on chunk i: chunk l, the first merged, now
      spans the whole run of merged chunks and the tree has lost the merged
      neighbours. */
  lemma {:induction false} PhasesCombine(p: Pads, g: Globals, g1: Globals, g2: Globals, i: nat)
    requires p.Valid() && i < |g.chunks| && forall x :: x in g.chunks ==> x in g.hsize
    requires Surroundings(p, g, i) && FirstPhase(p, g, g1, i)
    requires MergeStart(g, i) < |g1.chunks| && forall x :: x in g1.chunks ==> x in g1.hsize
    requires SecondPhase(p, g1, g2, MergeStart(g, i))
    ensures var cs, l, k := g.chunks, MergeStart(g, i), MergeEnd(g, i);
            var a, e := cs[l], ChunkEnd(p, cs[k], g.hsize[cs[k]]);
            && g2.chunks == cs[..l] + [a] + cs[k + 1..]
            && a in g2.hsize && ChunkEnd(p, a, g2.hsize[a]) == e && g2.hsize == g.hsize[a := g2.hsize[a]]
            && SameOutside(g.fsize, g2.fsize, a, e)
            && HeaderToFooter(p, a, g2.hsize[a]) in g2.fsize && g2.fsize[HeaderToFooter(p, a, g2.hsize[a])] == g2.hsize[a]
            && g2.inUse == g.inUse && g2.brk == g.brk && g2.fakeRoot == g.fakeRoot
            && g2.firstChunk == g.firstChunk && g2.guardAddr == g.guardAddr
            && g2.equalsAlternator == g.equalsAlternator
            && (g2.tree, g2.succPredAlternator) == Unmerged(g, i)
  {
    FirstPhaseShape(p, g, g1, i);
    PhasesCombineHeap(p, g, g1, g2, i);
  }

  /** Where the first phase leaves chunk l, the first merged, and the chunk
      after it. */
  lemma {:induction false} FirstPhaseShape(p: Pads, g: Globals, g1: Globals, i: nat)
    requires i < |g.chunks| && g.chunks[i] in g.hsize && FirstPhase(p, g, g1, i)
    ensures var cs, l := g.chunks, MergeStart(g, i);
            && l < |g1.chunks| && g1.chunks[l] == cs[l] && |g1.chunks| - l == |cs| - i
            && (i + 1 < |cs| ==> g1.chunks[l + 1] == cs[i + 1])
            && MergesNext(g1, l) == MergesNext(g, i)
  {
    var cs, l := g.chunks, MergeStart(g, i);
    SpliceParts(cs[..l], cs[l], cs[i + 1..]);
  }

  /** The chunk sequence and the memory maps after both phases. */
  lemma {:induction false} PhasesCombineHeap(p: Pads, g: Globals, g1: Globals, g2: Globals, i: nat)
    requires p.Valid() && i < |g.chunks| && forall x :: x in g.chunks ==> x in g.hsize
    requires Surroundings(p, g, i) && FirstPhase(p, g, g1, i)
    requires MergeStart(g, i) < |g1.chunks| && forall x :: x in g1.chunks ==> x in g1.hsize
    requires SecondPhase(p, g1, g2, MergeStart(g, i))
    requires var cs, l := g.chunks, MergeStart(g, i);
             && g1.chunks[l] == cs[l] && |g1.chunks| - l == |cs| - i
             && (i + 1 < |cs| ==> g1.chunks[l + 1] == cs[i + 1])
             && MergesNext(g1, l) == MergesNext(g, i)
    ensures var cs, l, k := g.chunks, MergeStart(g, i), MergeEnd(g, i);
            var a, e := cs[l], ChunkEnd(p, cs[k], g.hsize[cs[k]]);
            && g2.chunks == cs[..l] + [a] + cs[k + 1..]
            && a in g2.hsize && ChunkEnd(p, a, g2.hsize[a]) == e && g2.hsize == g.hsize[a := g2.hsize[a]]
            && SameOutside(g.fsize, g2.fsize, a, e)
  {
    var cs, H, Fs := g.chunks, g.hsize, g.fsize;
    var l, k := MergeStart(g, i), MergeEnd(g, i);
    var k1 := if MergesNext(g1, l) then l + 1 else l;
    assert k == i + (k1 - l);
    PhasesCompose(p, cs, H, Fs, i, l, g1.chunks, g1.hsize, g1.fsize, k1, g2.chunks, g2.hsize, g2.fsize, k);
  }

  /** trfree keeps the invariant, given node fields L' that spell out the
      new tree.  The merged chunk starts at or before the freed one and ends
      at or after it, and the free set loses the merged neighbours and gains
      the merged chunk. */
  lemma {:induction false} FreeStep(p: Pads, g: Globals, L: map<Addr, Links>, h: Addr, g': Globals, L': map<Addr, Links>)
    requires Inv(p, g, L) && h in g.chunks && !Free(g.inUse, h)
    requires forall x :: x in g.chunks ==> x in g.hsize
    requires Freed(p, g, g', h) && Linked(g', L')
    ensures Inv(p, g', L')
    ensures var cs, i := g.chunks, IndexOf(g.chunks, h);
            var l, k := MergeStart(g, i), MergeEnd(g, i);
            && FreeIn(g'.chunks, g'.inUse) == FreeIn(cs, g.inUse) - {cs[l], cs[k]} + {cs[l]}
            && cs[l] <= h && ChunkEnd(p, h, g.hsize[h]) <= ChunkEnd(p, cs[l], g'.hsize[cs[l]])
  {
    InvSurroundings(p, g, L, IndexOf(g.chunks, h));
    FreeHeapStep(p, g, h, g');
    FreeEnds(p, g, h, g');
    FreeTreeStep(p, g, h, g');
  }

  /** The chunk side of trfree: the chunk sequence stays well formed, the
      merge keeps no two free chunks neighbours, the sentinel keeps its
      zero size and first_chunk and guard_addr still name the ends of the
      heap. */
  lemma {:induction false} FreeHeapStep(p: Pads, g: Globals, h: Addr, g': Globals)
    requires p.Valid() && WellFormed(p, g.chunks, g.hsize, g.fsize, g.inUse, g.fakeRoot + p.header + p.node, g.brk)
    requires g.fakeRoot in g.hsize && g.hsize[g.fakeRoot] == 0
    requires if g.chunks == [] then g.firstChunk == NULL && g.guardAddr == NULL
             else g.firstChunk == g.chunks[0] && g.guardAddr == g.brk
    requires h in g.chunks && !Free(g.inUse, h) && forall x :: x in g.chunks ==> x in g.hsize
    requires Surroundings(p, g, IndexOf(g.chunks, h)) && FreedHeap(p, g, g', h)
    ensures WellFormed(p, g'.chunks, g'.hsize, g'.fsize, g'.inUse, g'.fakeRoot + p.header + p.node, g'.brk)
    ensures NoAdjacentFree(g.chunks, g.inUse) ==> NoAdjacentFree(g'.chunks, g'.inUse)
    ensures var cs, i := g.chunks, IndexOf(g.chunks, h);
            var l, k := MergeStart(g, i), MergeEnd(g, i);
            FreeIn(g'.chunks, g'.inUse) == FreeIn(cs, g.inUse) - {cs[l], cs[k]} + {cs[l]}
  {
    var cs, H, Fs, U := g.chunks, g.hsize, g.fsize, g.inUse;
    var i := IndexOf(cs, h);
    var l, k := MergeStart(g, i), MergeEnd(g, i);
    var a, e := cs[l], ChunkEnd(p, cs[k], H[cs[k]]);
    var lo := g.fakeRoot + p.header + p.node;
    TiledWithin(p, cs, H, lo, g.brk);
    assert a in cs;
    assert SameOutside(H, g'.hsize, a, e) && SameOutside(U, g'.inUse, a, e);
    Coalesce(p, cs, H, Fs, U, lo, g.brk, l, i, k, g'.hsize, g'.fsize, g'.inUse);
  }

  /** After trfree the sentinel keeps its zero size, first_chunk and
      guard_addr still name the two ends of the heap, and the merged chunk
      covers the freed one. */
  lemma {:induction false} FreeEnds(p: Pads, g: Globals, h: Addr, g': Globals)
    requires p.Valid() && WellFormed(p, g.chunks, g.hsize, g.fsize, g.inUse, g.fakeRoot + p.header + p.node, g.brk)
    requires g.fakeRoot in g.hsize && g.hsize[g.fakeRoot] == 0
    requires if g.chunks == [] then g.firstChunk == NULL && g.guardAddr == NULL
             else g.firstChunk == g.chunks[0] && g.guardAddr == g.brk
    requires h in g.chunks && forall x :: x in g.chunks ==> x in g.hsize
    requires Surroundings(p, g, IndexOf(g.chunks, h)) && FreedHeap(p, g, g', h)
    ensures g'.fakeRoot in g'.hsize && g'.hsize[g'.fakeRoot] == 0
    ensures g'.chunks != [] && g'.firstChunk == g'.chunks[0] && g'.guardAddr == g'.brk
    ensures var cs, i := g.chunks, IndexOf(g.chunks, h);
            var l := MergeStart(g, i);
            cs[l] <= h && ChunkEnd(p, h, g.hsize[h]) <= ChunkEnd(p, cs[l], g'.hsize[cs[l]])
  {
    var cs, H, i := g.chunks, g.hsize, IndexOf(g.chunks, h);
    var l, k := MergeStart(g, i), MergeEnd(g, i);
    TiledWithin(p, cs, H, g.fakeRoot + p.header + p.node, g.brk);
    assert cs[l] in cs && cs[k] in cs;
    assert g'.chunks[0] == cs[0];
  }

  /** The tree side of trfree: once the merged neighbours are removed and
      the merged chunk inserted, the tree is still a search tree of distinct
      chunks whose nodes are exactly the free chunks and the sentinel. */
  lemma {:induction false} FreeTreeStep(p: Pads, g: Globals, h: Addr, g': Globals)
    requires p.Valid() && WellFormed(p, g.chunks, g.hsize, g.fsize, g.inUse, g.fakeRoot + p.header + p.node, g.brk)
    requires Distinct(g.tree) && IsBST(g.tree) && Elems(g.tree) == FreeIn(g.chunks, g.inUse) + {g.fakeRoot}
    requires h in g.chunks && !Free(g.inUse, h) && forall x :: x in g.chunks ==> x in g.hsize
    requires Surroundings(p, g, IndexOf(g.chunks, h)) && Freed(p, g, g', h)
    requires var cs, i := g.chunks, IndexOf(g.chunks, h);
             FreeIn(g'.chunks, g'.inUse)
             == FreeIn(cs, g.inUse) - {cs[MergeStart(g, i)], cs[MergeEnd(g, i)]} + {cs[MergeStart(g, i)]}
    ensures Distinct(g'.tree) && IsBST(g'.tree) && Elems(g'.tree) == FreeIn(g'.chunks, g'.inUse) + {g'.fakeRoot}
  {
    var cs, i := g.chunks, IndexOf(g.chunks, h);
    var l, k := MergeStart(g, i), MergeEnd(g, i);
    var a := cs[l];
    var lo := g.fakeRoot + p.header + p.node;
    TiledWithin(p, cs, g.hsize, lo, g.brk);
    assert a in cs && cs[k] in cs;
    var t2 := Unmerged(g, i).0;
    UnmergedProps(p, g, i);
    SplitTree(t2, a, g'.hsize[a], g.equalsAlternator);
    SwapAroundRoot(Elems(g.tree), FreeIn(cs, g.inUse), g.fakeRoot, a, cs[k]);
  }

  /** The tree once trfree's removals are done: it has lost the merged
      neighbours, and it is still a search tree of distinct chunks. */
  lemma {:induction false} UnmergedProps(p: Pads, g: Globals, i: nat)
    requires Distinct(g.tree) && IsBST(g.tree) && Elems(g.tree) == FreeIn(g.chunks, g.inUse) + {g.fakeRoot}
    requires i < |g.chunks| && !Free(g.inUse, g.chunks[i]) && g.fakeRoot !in g.chunks
    requires forall x :: x in g.chunks ==> x in g.hsize
    requires Surroundings(p, g, i)
    ensures var t2, cs := Unmerged(g, i).0, g.chunks;
            && Elems(t2) == Elems(g.tree) - {cs[MergeStart(g, i)], cs[MergeEnd(g, i)]}
            && Distinct(t2) && IsBST(t2)
  {
    var cs, t0 := g.chunks, g.tree;
    var first := if MergesPrevious(g, i) then Remove(t0, cs[i - 1], g.succPredAlternator)
                 else (t0, g.succPredAlternator);
    assert cs[i] in cs && cs[i] !in Elems(t0);
    assert Elems(first.0) == Elems(t0) - {cs[MergeStart(g, i)]} && Distinct(first.0) && IsBST(first.0) by {
      if MergesPrevious(g, i) {
        assert cs[i - 1] in cs;
        RemoveProps(t0, cs[i - 1], g.succPredAlternator);
      }
    }
    if MergesNext(g, i) {
      assert cs[i + 1] in Elems(first.0) by {
        assert cs[i + 1] in cs;
      }
      RemoveProps(first.0, cs[i + 1], first.1);
    }
  }

  /** Trading x and y for a in a set that is F plus a separate root. */
  lemma {:induction false} SwapAroundRoot<T>(E: set<T>, F: set<T>, root: T, x: T, y: T)
    requires E == F + {root} && root != x && root != y
    ensures E - {x, y} + {x} == F - {x, y} + {x} + {root}
  {
  }
}
