/** The chunk sequence of tralloc.c's heap, between the end of the sentinel
    (`first_chunk`) and `guard_addr`.

    The allocator never stores this sequence: it finds a chunk's neighbours
    through the footer just before it and the header just after it.  Here
    the sequence is explicit, and the predicates say that it tiles the heap
    and that every chunk's boundary tags agree.  The lemmas describe what
    growing the heap, splitting a chunk and merging a run of chunks do to
    the tiling, to the set of free chunks and to the rule that no two
    neighbours are both free. */
module Heap {
  import opened Layout

  /** The chunks cs cover [lo, hi) back to back: the first starts at lo and
      each one starts where the one before it ends. */
  ghost predicate Tiled(p: Pads, cs: seq<Addr>, H: map<Addr, nat>, lo: Addr, hi: Addr)
    decreases |cs|
  {
    if cs == [] then lo == hi
    else cs[0] == lo && lo in H && Tiled(p, cs[1..], H, ChunkEnd(p, lo, H[lo]), hi)
  }

  /** One chunk's header and footer agree, its payload is a word multiple
      that can hold the node fields, and its header carries an in-use flag. */
  ghost predicate ChunkOK(p: Pads, x: Addr, H: map<Addr, nat>, Fs: map<Addr, nat>, U: map<Addr, bool>)
  {
    && x in H && x in U && p.word > 0 && H[x] >= p.node && H[x] % p.word == 0
    && HeaderToFooter(p, x, H[x]) in Fs && Fs[HeaderToFooter(p, x, H[x])] == H[x]
  }

  ghost predicate AllOK(p: Pads, cs: seq<Addr>, H: map<Addr, nat>, Fs: map<Addr, nat>, U: map<Addr, bool>)
  {
    && (forall x :: x in cs ==> x in H && x in U)
    && (forall i :: 0 <= i < |cs| ==> OKAt(p, cs, H, Fs, U, i))
  }

  /** Chunk i's boundary tags are in order. */
  ghost predicate OKAt(p: Pads, cs: seq<Addr>, H: map<Addr, nat>, Fs: map<Addr, nat>, U: map<Addr, bool>, i: nat)
    requires i < |cs|
  {
    ChunkOK(p, cs[i], H, Fs, U)
  }

  ghost predicate WellFormed(p: Pads, cs: seq<Addr>, H: map<Addr, nat>, Fs: map<Addr, nat>,
                             U: map<Addr, bool>, lo: Addr, hi: Addr)
  {
    Tiled(p, cs, H, lo, hi) && AllOK(p, cs, H, Fs, U)
  }

  predicate Free(U: map<Addr, bool>, x: Addr)
  {
    x in U && !U[x]
  }

  /** The coalescing rule: no two neighbouring chunks are both free. */
  ghost predicate NoAdjacentFree(cs: seq<Addr>, U: map<Addr, bool>)
  {
    forall i :: 0 <= i < |cs| - 1 ==> Apart(cs, U, i)
  }

  /** Chunks i and i + 1 are not both free. */
  ghost predicate Apart(cs: seq<Addr>, U: map<Addr, bool>, i: nat)
    requires i < |cs| - 1
  {
    !(Free(U, cs[i]) && Free(U, cs[i + 1]))
  }

  ghost function FreeIn(cs: seq<Addr>, U: map<Addr, bool>): set<Addr>
  {
    set x | x in cs && Free(U, x)
  }

  /** The parts of a sequence with one element x spliced in after A. */
  lemma {:induction false} SpliceParts(A: seq<Addr>, x: Addr, B: seq<Addr>)
    ensures var S := A + [x] + B;
            && |S| == |A| + 1 + |B| && S[..|A|] == A && S[|A|] == x && S[|A| + 1..] == B
            && (|B| > 0 ==> S[|A| + 1] == B[0] && S[|A| + 2..] == B[1..])
  {
    var S := A + [x] + B;
    assert S[..|A|] == A;
    assert S[|A| + 1..] == B;
  }

  /** m' agrees with m on every address outside [a, b). */
  ghost predicate SameOutside<V>(m: map<Addr, V>, m': map<Addr, V>, a: Addr, b: Addr)
  {
    forall x :: x in m && (x < a || b <= x) ==> x in m' && m'[x] == m[x]
  }

  /** Where chunk k starts, or the end of the tiling for k = |cs|. */
  function At(cs: seq<Addr>, hi: Addr, k: nat): Addr
    requires k <= |cs|
  {
    if k < |cs| then cs[k] else hi
  }

  /** The position of a chunk in the sequence. */
  function IndexOf(cs: seq<Addr>, x: Addr): (i: nat)
    requires x in cs
    ensures i < |cs| && cs[i] == x && x !in cs[..i]
  {
    if cs[0] == x then 0 else 1 + IndexOf(cs[1..], x)
  }

  // ---------------------------------------------------------------------
  // The tiling

  /** Every chunk of a tiling lies inside it. */
  lemma {:induction false} TiledWithin(p: Pads, cs: seq<Addr>, H: map<Addr, nat>, lo: Addr, hi: Addr)
    requires Tiled(p, cs, H, lo, hi)
    ensures lo <= hi
    ensures forall x :: x in cs ==> x in H && lo <= x && ChunkEnd(p, x, H[x]) <= hi
    decreases |cs|
  {
    if cs != [] {
      TiledWithin(p, cs[1..], H, ChunkEnd(p, lo, H[lo]), hi);
    }
  }

  /** Two tilings that meet make one. */
  lemma {:induction false} TiledConcat(p: Pads, A: seq<Addr>, B: seq<Addr>, H: map<Addr, nat>, lo: Addr, m: Addr, hi: Addr)
    requires Tiled(p, A, H, lo, m) && Tiled(p, B, H, m, hi)
    ensures Tiled(p, A + B, H, lo, hi)
    decreases |A|
  {
    if A != [] {
      TiledConcat(p, A[1..], B, H, ChunkEnd(p, lo, H[lo]), m, hi);
      assert (A + B)[0] == lo && (A + B)[1..] == A[1..] + B;
    } else {
      assert A + B == B;
    }
  }

  /** A tiling cut at position k is two tilings that meet where chunk k
      starts. */
  lemma {:induction false} TiledSplit(p: Pads, cs: seq<Addr>, H: map<Addr, nat>, lo: Addr, hi: Addr, k: nat)
    requires Tiled(p, cs, H, lo, hi) && k <= |cs|
    ensures Tiled(p, cs[..k], H, lo, At(cs, hi, k)) && Tiled(p, cs[k..], H, At(cs, hi, k), hi)
    decreases k
  {
    if k > 0 {
      TiledSplit(p, cs[1..], H, ChunkEnd(p, lo, H[lo]), hi, k - 1);
      assert cs[1..][..k - 1] == cs[..k][1..];
      assert cs[1..][k - 1..] == cs[k..];
    } else {
      assert cs[0..] == cs;
    }
  }

  /** Chunk i ends where chunk i + 1 starts, or at the end of the tiling. */
  lemma {:induction false} TiledIndex(p: Pads, cs: seq<Addr>, H: map<Addr, nat>, lo: Addr, hi: Addr, i: nat)
    requires Tiled(p, cs, H, lo, hi) && i < |cs|
    ensures cs[i] in H && At(cs, hi, i + 1) == ChunkEnd(p, cs[i], H[cs[i]])
    decreases i
  {
    if i > 0 {
      TiledIndex(p, cs[1..], H, ChunkEnd(p, lo, H[lo]), hi, i - 1);
    }
  }

  /** A tiling only reads the header sizes of its own chunks. */
  lemma {:induction false} TiledFrame(p: Pads, cs: seq<Addr>, H: map<Addr, nat>, H': map<Addr, nat>, lo: Addr, hi: Addr)
    requires Tiled(p, cs, H, lo, hi)
    requires forall x :: x in cs && x in H ==> x in H' && H'[x] == H[x]
    ensures Tiled(p, cs, H', lo, hi)
    decreases |cs|
  {
    if cs != [] {
      TiledFrame(p, cs[1..], H, H', ChunkEnd(p, lo, H[lo]), hi);
    }
  }

  /** What trfree relies on to find a chunk's neighbours: a chunk is
      `first_chunk` exactly when it has no predecessor, and otherwise the
      footer just before it leads back to the predecessor's header; it ends
      at `guard_addr` exactly when it has no successor, and otherwise its
      successor starts where it ends. */
  lemma {:induction false} Neighbours(p: Pads, cs: seq<Addr>, H: map<Addr, nat>, Fs: map<Addr, nat>, U: map<Addr, bool>,
                   lo: Addr, hi: Addr, i: nat)
    requires p.header > 0 && WellFormed(p, cs, H, Fs, U, lo, hi) && i < |cs|
    ensures cs[i] == lo <==> i == 0
    ensures ChunkEnd(p, cs[i], H[cs[i]]) == hi <==> i == |cs| - 1
    ensures i > 0 ==> && cs[i] >= p.footer && cs[i] - p.footer in Fs
                      && cs[i] - p.footer >= Fs[cs[i] - p.footer] + p.header
                      && FooterToHeader(p, cs[i] - p.footer, Fs[cs[i] - p.footer]) == cs[i - 1]
    ensures i < |cs| - 1 ==> ChunkEnd(p, cs[i], H[cs[i]]) == cs[i + 1]
  {
    TiledIndex(p, cs, H, lo, hi, i);
    if i > 0 {
      TiledIndex(p, cs, H, lo, hi, i - 1);
      assert OKAt(p, cs, H, Fs, U, i - 1);
      TiledSplit(p, cs, H, lo, hi, 1);
      TiledWithin(p, cs[1..], H, cs[1], hi);
      assert cs[i] in cs[1..];
    }
    if i < |cs| - 1 {
      TiledSplit(p, cs, H, lo, hi, i + 1);
      TiledWithin(p, cs[i + 1..], H, cs[i + 1], hi);
      assert cs[i + 1] in cs[i + 1..];
    }
  }

  lemma {:induction false} AllOKConcat(p: Pads, A: seq<Addr>, B: seq<Addr>, H: map<Addr, nat>, Fs: map<Addr, nat>, U: map<Addr, bool>)
    ensures AllOK(p, A + B, H, Fs, U) <==> AllOK(p, A, H, Fs, U) && AllOK(p, B, H, Fs, U)
  {
    var n := A + B;
    if AllOK(p, n, H, Fs, U) {
      forall k | 0 <= k < |A| ensures OKAt(p, A, H, Fs, U, k) {
        assert OKAt(p, n, H, Fs, U, k) && n[k] == A[k];
      }
      forall k | 0 <= k < |B| ensures OKAt(p, B, H, Fs, U, k) {
        assert OKAt(p, n, H, Fs, U, |A| + k) && n[|A| + k] == B[k];
      }
    }
    if AllOK(p, A, H, Fs, U) && AllOK(p, B, H, Fs, U) {
      forall k | 0 <= k < |n| ensures OKAt(p, n, H, Fs, U, k) {
        if k < |A| {
          assert OKAt(p, A, H, Fs, U, k) && n[k] == A[k];
        } else {
          assert OKAt(p, B, H, Fs, U, k - |A|) && n[k] == B[k - |A|];
        }
      }
    }
  }

  /** Tags written only outside [a, e) leave the chunks that end by a or
      start at e or later as they were. */
  lemma {:induction false} AllOKFrame(p: Pads, cs: seq<Addr>, H: map<Addr, nat>, Fs: map<Addr, nat>, U: map<Addr, bool>,
                                      H': map<Addr, nat>, Fs': map<Addr, nat>, U': map<Addr, bool>, a: Addr, e: Addr)
    requires p.header > 0 && p.footer > 0 && AllOK(p, cs, H, Fs, U)
    requires forall x :: x in cs && x in H ==> ChunkEnd(p, x, H[x]) <= a || e <= x
    requires SameOutside(H, H', a, e) && SameOutside(Fs, Fs', a, e) && SameOutside(U, U', a, e)
    ensures AllOK(p, cs, H', Fs', U')
  {
    forall k | 0 <= k < |cs| ensures OKAt(p, cs, H', Fs', U', k) {
      var x := cs[k];
      assert OKAt(p, cs, H, Fs, U, k) && x in cs;
      var f := HeaderToFooter(p, x, H[x]);
      assert f < a || e <= f;
    }
  }

  /** Chunks of a tiling do not overlap: every other chunk ends before
      chunk i starts or starts after chunk i ends. */
  lemma {:induction false} Separated(p: Pads, cs: seq<Addr>, H: map<Addr, nat>, lo: Addr, hi: Addr, i: nat)
    requires Tiled(p, cs, H, lo, hi) && i < |cs|
    ensures cs[i] in H
    ensures forall x :: x in cs && x != cs[i] ==>
              x in H && (ChunkEnd(p, x, H[x]) <= cs[i] || ChunkEnd(p, cs[i], H[cs[i]]) <= x)
  {
    RunParts(p, cs, H, lo, hi, i, i);
    TiledIndex(p, cs, H, lo, hi, i);
    TiledWithin(p, cs[..i], H, lo, cs[i]);
    TiledWithin(p, cs[i + 1..], H, At(cs, hi, i + 1), hi);
    assert cs[i..i + 1] == [cs[i]];
  }

  // ---------------------------------------------------------------------
  // The free set and the coalescing rule

  lemma {:induction false} FreeInConcat(A: seq<Addr>, B: seq<Addr>, U: map<Addr, bool>)
    ensures FreeIn(A + B, U) == FreeIn(A, U) + FreeIn(B, U)
  {
  }

  /** Joining two runs keeps the coalescing rule exactly when each run keeps
      it and the two chunks where they meet are not both free. */
  lemma {:induction false} AdjacentConcat(A: seq<Addr>, B: seq<Addr>, U: map<Addr, bool>)
    ensures NoAdjacentFree(A + B, U) <==>
              && NoAdjacentFree(A, U) && NoAdjacentFree(B, U)
              && (A != [] && B != [] ==> !(Free(U, A[|A| - 1]) && Free(U, B[0])))
  {
    var n := A + B;
    if NoAdjacentFree(n, U) {
      forall i | 0 <= i < |A| - 1 ensures Apart(A, U, i) {
        assert Apart(n, U, i) && n[i] == A[i] && n[i + 1] == A[i + 1];
      }
      forall i | 0 <= i < |B| - 1 ensures Apart(B, U, i) {
        assert Apart(n, U, |A| + i) && n[|A| + i] == B[i] && n[|A| + i + 1] == B[i + 1];
      }
      if A != [] && B != [] {
        assert Apart(n, U, |A| - 1) && n[|A| - 1] == A[|A| - 1] && n[|A|] == B[0];
      }
    }
    if && NoAdjacentFree(A, U) && NoAdjacentFree(B, U)
       && (A != [] && B != [] ==> !(Free(U, A[|A| - 1]) && Free(U, B[0])))
    {
      forall i | 0 <= i < |n| - 1 ensures Apart(n, U, i) {
        if i + 1 < |A| {
          assert Apart(A, U, i) && n[i] == A[i] && n[i + 1] == A[i + 1];
        } else if i + 1 == |A| {
          assert n[i] == A[|A| - 1] && n[i + 1] == B[0];
        } else {
          assert Apart(B, U, i - |A|) && n[i] == B[i - |A|] && n[i + 1] == B[i - |A| + 1];
        }
      }
    }
  }

  /** Flags written only outside [a, e) leave the chunks outside it as free
      or as used as they were. */
  lemma {:induction false} FreeFrame(cs: seq<Addr>, U: map<Addr, bool>, U': map<Addr, bool>, a: Addr, e: Addr)
    requires forall x :: x in cs ==> x in U && (x < a || e <= x)
    requires SameOutside(U, U', a, e)
    ensures FreeIn(cs, U') == FreeIn(cs, U)
    ensures NoAdjacentFree(cs, U') <==> NoAdjacentFree(cs, U)
  {
    assert forall x :: x in cs ==> (Free(U', x) <==> Free(U, x));
    assert forall i :: 0 <= i < |cs| ==> (Free(U', cs[i]) <==> Free(U, cs[i]));
    assert forall i :: 0 <= i < |cs| - 1 ==> (Apart(cs, U', i) <==> Apart(cs, U, i));
  }

  // ---------------------------------------------------------------------
  // Growing, splitting and merging

  /** Appending a fresh in-use chunk at the top of the heap extends the
      tiling and leaves the free set and the coalescing rule alone. */
  lemma {:induction false} Grow(p: Pads, cs: seq<Addr>, H: map<Addr, nat>, Fs: map<Addr, nat>, U: map<Addr, bool>,
             lo: Addr, hi: Addr, s: nat,
             H': map<Addr, nat>, Fs': map<Addr, nat>, U': map<Addr, bool>)
    requires p.header > 0 && p.footer > 0 && WellFormed(p, cs, H, Fs, U, lo, hi)
    requires p.word > 0 && s >= p.node && s % p.word == 0
    requires SameOutside(H, H', hi, ChunkEnd(p, hi, s)) && hi in H' && H'[hi] == s
    requires SameOutside(Fs, Fs', hi, ChunkEnd(p, hi, s))
    requires HeaderToFooter(p, hi, s) in Fs' && Fs'[HeaderToFooter(p, hi, s)] == s
    requires SameOutside(U, U', hi, ChunkEnd(p, hi, s)) && hi in U' && U'[hi]
    ensures WellFormed(p, cs + [hi], H', Fs', U', lo, ChunkEnd(p, hi, s))
    ensures FreeIn(cs + [hi], U') == FreeIn(cs, U)
    ensures NoAdjacentFree(cs, U) ==> NoAdjacentFree(cs + [hi], U')
  {
    var e := ChunkEnd(p, hi, s);
    TiledWithin(p, cs, H, lo, hi);
    AllOKFrame(p, cs, H, Fs, U, H', Fs', U', hi, e);
    assert AllOK(p, [hi], H', Fs', U');
    AllOKConcat(p, cs, [hi], H', Fs', U');
    TiledFrame(p, cs, H, H', lo, hi);
    assert Tiled(p, [hi], H', hi, e) by {
      assert [hi][1..] == [];
    }
    TiledConcat(p, cs, [hi], H', lo, hi, e);
    FreeFrame(cs, U, U', hi, e);
    FreeInConcat(cs, [hi], U');
    assert FreeIn([hi], U') == {};
    AdjacentConcat(cs, [hi], U');
  }

  /** The run cs[l..h] cuts the sequence into three tilings: the chunks
      before it, the run itself and the chunks after it. */
  lemma {:induction false} RunParts(p: Pads, cs: seq<Addr>, H: map<Addr, nat>, lo: Addr, hi: Addr, l: nat, h: nat)
    requires Tiled(p, cs, H, lo, hi) && l <= h < |cs|
    ensures cs == cs[..l] + cs[l..h + 1] + cs[h + 1..]
    ensures Tiled(p, cs[..l], H, lo, cs[l])
    ensures Tiled(p, cs[l..h + 1], H, cs[l], At(cs, hi, h + 1))
    ensures Tiled(p, cs[h + 1..], H, At(cs, hi, h + 1), hi)
  {
    TiledSplit(p, cs, H, lo, hi, l);
    TiledSplit(p, cs[l..], H, cs[l], hi, h + 1 - l);
    assert cs[l..][..h + 1 - l] == cs[l..h + 1] && cs[l..][h + 1 - l..] == cs[h + 1..];
    assert cs == cs[..l] + cs[l..h + 1] + cs[h + 1..];
  }

  /** Replacing the run cs[l..h] by chunks mid that tile the same extent,
      while writing nothing outside that extent, keeps the heap well
      formed. */
  lemma {:induction false} ReplaceRun(p: Pads, cs: seq<Addr>, H: map<Addr, nat>, Fs: map<Addr, nat>, U: map<Addr, bool>,
                   lo: Addr, hi: Addr, l: nat, h: nat, mid: seq<Addr>,
                   H': map<Addr, nat>, Fs': map<Addr, nat>, U': map<Addr, bool>)
    requires p.header > 0 && p.footer > 0 && WellFormed(p, cs, H, Fs, U, lo, hi) && l <= h < |cs|
    requires WellFormed(p, mid, H', Fs', U', cs[l], At(cs, hi, h + 1))
    requires SameOutside(H, H', cs[l], At(cs, hi, h + 1))
    requires SameOutside(Fs, Fs', cs[l], At(cs, hi, h + 1))
    requires SameOutside(U, U', cs[l], At(cs, hi, h + 1))
    ensures WellFormed(p, cs[..l] + mid + cs[h + 1..], H', Fs', U', lo, hi)
  {
    var a, e := cs[l], At(cs, hi, h + 1);
    var A, R, C := cs[..l], cs[l..h + 1], cs[h + 1..];
    RunParts(p, cs, H, lo, hi, l, h);
    TiledWithin(p, A, H, lo, a);
    TiledWithin(p, C, H, e, hi);
    AllOKConcat(p, A, R, H, Fs, U);
    AllOKConcat(p, A + R, C, H, Fs, U);
    AllOKFrame(p, A, H, Fs, U, H', Fs', U', a, e);
    AllOKFrame(p, C, H, Fs, U, H', Fs', U', a, e);
    AllOKConcat(p, A, mid, H', Fs', U');
    AllOKConcat(p, A + mid, C, H', Fs', U');
    TiledFrame(p, A, H, H', lo, a);
    TiledFrame(p, C, H, H', e, hi);
    TiledConcat(p, A, mid, H', lo, a, e);
    TiledConcat(p, A + mid, C, H', lo, e, hi);
  }

  /** Flags written only inside the run cs[l..h] leave the chunks before
      and after it as they were, and the run shares no chunk with them. */
  lemma {:induction false} RunOutside(p: Pads, cs: seq<Addr>, H: map<Addr, nat>, Fs: map<Addr, nat>, U: map<Addr, bool>,
                   lo: Addr, hi: Addr, l: nat, h: nat, U': map<Addr, bool>)
    requires p.header > 0 && WellFormed(p, cs, H, Fs, U, lo, hi) && l <= h < |cs|
    requires SameOutside(U, U', cs[l], At(cs, hi, h + 1))
    ensures cs == cs[..l] + cs[l..h + 1] + cs[h + 1..]
    ensures FreeIn(cs[..l], U') == FreeIn(cs[..l], U) && FreeIn(cs[h + 1..], U') == FreeIn(cs[h + 1..], U)
    ensures (NoAdjacentFree(cs[..l], U') <==> NoAdjacentFree(cs[..l], U))
    ensures (NoAdjacentFree(cs[h + 1..], U') <==> NoAdjacentFree(cs[h + 1..], U))
    ensures FreeIn(cs[..l], U) !! FreeIn(cs[l..h + 1], U) && FreeIn(cs[h + 1..], U) !! FreeIn(cs[l..h + 1], U)
    ensures l > 0 ==> (Free(U', cs[l - 1]) <==> Free(U, cs[l - 1]))
    ensures h + 1 < |cs| ==> (Free(U', cs[h + 1]) <==> Free(U, cs[h + 1]))
  {
    var a, e := cs[l], At(cs, hi, h + 1);
    var A, R, C := cs[..l], cs[l..h + 1], cs[h + 1..];
    RunParts(p, cs, H, lo, hi, l, h);
    TiledWithin(p, R, H, a, e);
    AllOKConcat(p, A, R, H, Fs, U);
    AllOKConcat(p, A + R, C, H, Fs, U);
    PartFrame(p, A, H, Fs, U, U', lo, a, a, e);
    PartFrame(p, C, H, Fs, U, U', e, hi, a, e);
    if l > 0 {
      assert A[l - 1] == cs[l - 1];
    }
    if h + 1 < |cs| {
      assert C[0] == cs[h + 1];
    }
  }

  /** A tiled part S of the heap that lies before a or from e on: flags
      written only inside [a, e) leave it as it was. */
  lemma {:induction false} PartFrame(p: Pads, S: seq<Addr>, H: map<Addr, nat>, Fs: map<Addr, nat>, U: map<Addr, bool>,
                                     U': map<Addr, bool>, slo: Addr, shi: Addr, a: Addr, e: Addr)
    requires p.header > 0 && Tiled(p, S, H, slo, shi) && AllOK(p, S, H, Fs, U) && (shi <= a || e <= slo)
    requires SameOutside(U, U', a, e)
    ensures forall x :: x in S ==> (x < a || e <= x) && (Free(U', x) <==> Free(U, x))
    ensures FreeIn(S, U') == FreeIn(S, U)
    ensures NoAdjacentFree(S, U') <==> NoAdjacentFree(S, U)
  {
    TiledWithin(p, S, H, slo, shi);
    forall x | x in S ensures x in U {
      var k := IndexOf(S, x);
      assert OKAt(p, S, H, Fs, U, k);
    }
    FreeFrame(S, U, U', a, e);
  }

  /** Under the same replacement the free set changes only inside the run. */
  lemma {:induction false} ReplaceRunFree(p: Pads, cs: seq<Addr>, H: map<Addr, nat>, Fs: map<Addr, nat>, U: map<Addr, bool>,
                   lo: Addr, hi: Addr, l: nat, h: nat, mid: seq<Addr>, U': map<Addr, bool>)
    requires p.header > 0 && WellFormed(p, cs, H, Fs, U, lo, hi) && l <= h < |cs|
    requires SameOutside(U, U', cs[l], At(cs, hi, h + 1))
    ensures FreeIn(cs[..l] + mid + cs[h + 1..], U') == (FreeIn(cs, U) - FreeIn(cs[l..h + 1], U)) + FreeIn(mid, U')
  {
    var A, R, C := cs[..l], cs[l..h + 1], cs[h + 1..];
    RunOutside(p, cs, H, Fs, U, lo, hi, l, h, U');
    FreeInConcat(A, R, U);
    FreeInConcat(A + R, C, U);
    FreeInConcat(A, mid, U');
    FreeInConcat(A + mid, C, U');
  }

  /** Under the same replacement the coalescing rule holds if it held
      before, holds inside mid, and holds where mid meets its neighbours. */
  lemma {:induction false} ReplaceRunAdjacent(p: Pads, cs: seq<Addr>, H: map<Addr, nat>, Fs: map<Addr, nat>, U: map<Addr, bool>,
                   lo: Addr, hi: Addr, l: nat, h: nat, mid: seq<Addr>, U': map<Addr, bool>)
    requires p.header > 0 && WellFormed(p, cs, H, Fs, U, lo, hi) && l <= h < |cs| && |mid| > 0
    requires SameOutside(U, U', cs[l], At(cs, hi, h + 1))
    requires NoAdjacentFree(cs, U) && NoAdjacentFree(mid, U')
    requires l > 0 ==> !(Free(U, cs[l - 1]) && Free(U', mid[0]))
    requires h + 1 < |cs| ==> !(Free(U', mid[|mid| - 1]) && Free(U, cs[h + 1]))
    ensures NoAdjacentFree(cs[..l] + mid + cs[h + 1..], U')
  {
    var A, R, C := cs[..l], cs[l..h + 1], cs[h + 1..];
    RunOutside(p, cs, H, Fs, U, lo, hi, l, h, U');
    AdjacentConcat(A + R, C, U);
    AdjacentConcat(A, R, U);
    AdjacentConcat(A, mid, U');
    AdjacentConcat(A + mid, C, U');
    if l > 0 {
      assert A[|A| - 1] == cs[l - 1];
    }
    if h + 1 < |cs| {
      assert C[0] == cs[h + 1];
    }
  }

  /** tralloc's split: the found chunk cs[i] keeps the first `s` bytes and
      stays in place, in use; a free remainder chunk takes the rest. */
  lemma {:induction false} Split(p: Pads, cs: seq<Addr>, H: map<Addr, nat>, Fs: map<Addr, nat>, U: map<Addr, bool>,
              lo: Addr, hi: Addr, i: nat, s: nat,
              H': map<Addr, nat>, Fs': map<Addr, nat>, U': map<Addr, bool>)
    requires p.Valid() && WellFormed(p, cs, H, Fs, U, lo, hi) && i < |cs|
    requires s >= p.node && s % p.word == 0 && SplitWorthwhile(p, H[cs[i]], s)
    requires Free(U, cs[i])
    requires SameOutside(H, H', cs[i], ChunkEnd(p, cs[i], H[cs[i]]))
    requires SameOutside(Fs, Fs', cs[i], ChunkEnd(p, cs[i], H[cs[i]]))
    requires SameOutside(U, U', cs[i], ChunkEnd(p, cs[i], H[cs[i]]))
    requires cs[i] in H' && H'[cs[i]] == s && HeaderToFooter(p, cs[i], s) in Fs' && Fs'[HeaderToFooter(p, cs[i], s)] == s
    requires var d := ChunkEnd(p, cs[i], s);
             var r := Remainder(p, H[cs[i]], s);
             d in H' && H'[d] == r && HeaderToFooter(p, d, r) in Fs' && Fs'[HeaderToFooter(p, d, r)] == r
    requires cs[i] in U' && U'[cs[i]] && Free(U', ChunkEnd(p, cs[i], s))
    ensures WellFormed(p, cs[..i] + [cs[i], ChunkEnd(p, cs[i], s)] + cs[i + 1..], H', Fs', U', lo, hi)
    ensures FreeIn(cs[..i] + [cs[i], ChunkEnd(p, cs[i], s)] + cs[i + 1..], U')
            == FreeIn(cs, U) - {cs[i]} + {ChunkEnd(p, cs[i], s)}
    ensures NoAdjacentFree(cs, U) ==> NoAdjacentFree(cs[..i] + [cs[i], ChunkEnd(p, cs[i], s)] + cs[i + 1..], U')
  {
    var f := cs[i];
    var d := ChunkEnd(p, f, s);
    var r := Remainder(p, H[f], s);
    TiledIndex(p, cs, H, lo, hi, i);
    SplitConservesExtent(p, f, H[f], s);
    assert OKAt(p, cs, H, Fs, U, i);
    MultipleSub(H[f], s, p.word);
    MultipleSub(H[f] - s, p.footer, p.word);
    MultipleSub(H[f] - s - p.footer, p.header, p.word);
    var mid := [f, d];
    assert Tiled(p, mid, H', f, ChunkEnd(p, f, H[f])) by {
      assert mid[1..] == [d] && mid[1..][1..] == [];
    }
    assert ChunkOK(p, d, H', Fs', U');
    assert AllOK(p, mid, H', Fs', U');
    ReplaceRun(p, cs, H, Fs, U, lo, hi, i, i, mid, H', Fs', U');
    ReplaceRunFree(p, cs, H, Fs, U, lo, hi, i, i, mid, U');
    assert cs[i..i + 1] == [f];
    assert FreeIn([f], U) == {f};
    assert FreeIn(mid, U') == {d};
    if NoAdjacentFree(cs, U) {
      if i + 1 < |cs| {
        assert Apart(cs, U, i);
      }
      assert Apart(mid, U', 0);
      ReplaceRunAdjacent(p, cs, H, Fs, U, lo, hi, i, i, mid, U');
    }
  }

  /** The size of the chunk a merge of the run cs[l..h] leaves, when the run
      has at most three chunks: the run's extent less one header and one
      footer, again a word multiple that can hold the node fields. */
  lemma {:induction false} CoalescedSize(p: Pads, cs: seq<Addr>, H: map<Addr, nat>, Fs: map<Addr, nat>, U: map<Addr, bool>,
                      lo: Addr, hi: Addr, l: nat, i: nat, h: nat)
    requires p.Valid() && WellFormed(p, cs, H, Fs, U, lo, hi)
    requires l <= i <= h < |cs| && i <= l + 1 && h <= i + 1
    ensures At(cs, hi, h + 1) == ChunkEnd(p, cs[h], H[cs[h]])
    ensures ChunkEnd(p, cs[h], H[cs[h]]) >= cs[l] + p.header + p.footer
    ensures var ms := ChunkEnd(p, cs[h], H[cs[h]]) - cs[l] - p.header - p.footer;
            ms >= p.node && ms % p.word == 0
  {
    TiledIndex(p, cs, H, lo, hi, h);
    assert OKAt(p, cs, H, Fs, U, l) && OKAt(p, cs, H, Fs, U, i) && OKAt(p, cs, H, Fs, U, h);
    var ms := ChunkEnd(p, cs[h], H[cs[h]]) - cs[l] - p.header - p.footer;
    MultipleAdd(p.footer, p.header, p.word);
    var upToI := H[cs[i]];
    if l < i {
      TiledIndex(p, cs, H, lo, hi, l);
      MultipleAdd(H[cs[l]], p.footer + p.header, p.word);
      MultipleAdd(H[cs[l]] + p.footer + p.header, H[cs[i]], p.word);
      upToI := H[cs[l]] + p.footer + p.header + H[cs[i]];
    }
    assert ChunkEnd(p, cs[i], H[cs[i]]) == cs[l] + p.header + upToI + p.footer;
    if h > i {
      TiledIndex(p, cs, H, lo, hi, i);
      MultipleAdd(upToI, p.footer + p.header, p.word);
      MultipleAdd(upToI + p.footer + p.header, H[cs[h]], p.word);
      assert ms == upToI + p.footer + p.header + H[cs[h]];
    }
  }

  /** trfree's merge: the run cs[l..h] around the freed chunk cs[i] (its
      free predecessor when l < i, its free successor when h > i) becomes
      one free chunk at cs[l] spanning the whole run. */
  lemma {:induction false} Coalesce(p: Pads, cs: seq<Addr>, H: map<Addr, nat>, Fs: map<Addr, nat>, U: map<Addr, bool>,
                 lo: Addr, hi: Addr, l: nat, i: nat, h: nat,
                 H': map<Addr, nat>, Fs': map<Addr, nat>, U': map<Addr, bool>)
    requires p.Valid() && WellFormed(p, cs, H, Fs, U, lo, hi)
    requires l <= i <= h < |cs| && i <= l + 1 && h <= i + 1
    requires !Free(U, cs[i])
    requires l < i <==> i > 0 && Free(U, cs[i - 1])
    requires h > i <==> i + 1 < |cs| && Free(U, cs[i + 1])
    requires var e := ChunkEnd(p, cs[h], H[cs[h]]);
             && SameOutside(H, H', cs[l], e) && SameOutside(Fs, Fs', cs[l], e) && SameOutside(U, U', cs[l], e)
    requires var ms := ChunkEnd(p, cs[h], H[cs[h]]) - cs[l] - p.header - p.footer;
             && cs[l] in H' && H'[cs[l]] == ms
             && HeaderToFooter(p, cs[l], ms) in Fs' && Fs'[HeaderToFooter(p, cs[l], ms)] == ms
    requires Free(U', cs[l])
    ensures WellFormed(p, cs[..l] + [cs[l]] + cs[h + 1..], H', Fs', U', lo, hi)
    ensures FreeIn(cs[..l] + [cs[l]] + cs[h + 1..], U') == FreeIn(cs, U) - {cs[l], cs[h]} + {cs[l]}
    ensures NoAdjacentFree(cs, U) ==> NoAdjacentFree(cs[..l] + [cs[l]] + cs[h + 1..], U')
  {
    var a := cs[l];
    var e := ChunkEnd(p, cs[h], H[cs[h]]);
    CoalescedSize(p, cs, H, Fs, U, lo, hi, l, i, h);
    var mid := [a];
    assert Tiled(p, mid, H', a, e) by {
      assert mid[1..] == [];
    }
    assert AllOK(p, mid, H', Fs', U');
    assert WellFormed(p, cs[..l] + mid + cs[h + 1..], H', Fs', U', lo, hi) by {
      ReplaceRun(p, cs, H, Fs, U, lo, hi, l, h, mid, H', Fs', U');
    }
    if NoAdjacentFree(cs, U) {
      assert NoAdjacentFree(cs[..l] + mid + cs[h + 1..], U') by {
        if l > 0 {
          assert Apart(cs, U, l - 1);
        }
        if h + 1 < |cs| {
          assert Apart(cs, U, h);
        }
        ReplaceRunAdjacent(p, cs, H, Fs, U, lo, hi, l, h, mid, U');
      }
    }
    var run := cs[l..h + 1];
    RunFree(cs, U, l, i, h);
    assert FreeIn(mid, U') == {a};
    assert FreeIn(cs[..l] + mid + cs[h + 1..], U') == (FreeIn(cs, U) - FreeIn(run, U)) + FreeIn(mid, U') by {
      ReplaceRunFree(p, cs, H, Fs, U, lo, hi, l, h, mid, U');
    }
  }

  /** The free chunks of a run of at most three around the in-use chunk
      cs[i]: its ends, where they are not cs[i] itself, and nothing else. */
  lemma {:induction false} RunFree(cs: seq<Addr>, U: map<Addr, bool>, l: nat, i: nat, h: nat)
    requires l <= i <= h < |cs| && i <= l + 1 && h <= i + 1
    requires !Free(U, cs[i])
    requires l < i ==> Free(U, cs[l])
    requires h > i ==> Free(U, cs[h])
    ensures FreeIn(cs[l..h + 1], U) == {cs[l], cs[h]} - {cs[i]}
  {
    var run := cs[l..h + 1];
    forall x | x in run ensures x == cs[l] || x == cs[i] || x == cs[h] {
      var k :| 0 <= k < |run| && run[k] == x;
      assert x == cs[l + k];
    }
    assert run[0] == cs[l] && run[h - l] == cs[h];
  }

  /** Split, stated for the chunk h itself with the boundary tags tralloc
      writes: h keeps s bytes and is in use, the free remainder d follows. */
  lemma {:induction false} SplitChunk(p: Pads, cs: seq<Addr>, H: map<Addr, nat>, Fs: map<Addr, nat>, U: map<Addr, bool>,
                                      lo: Addr, hi: Addr, h: Addr, s: nat)
    requires p.Valid() && WellFormed(p, cs, H, Fs, U, lo, hi) && h in cs && Free(U, h)
    requires s >= p.node && s % p.word == 0 && h in H && SplitWorthwhile(p, H[h], s)
    ensures var d := ChunkEnd(p, h, s);
            var r := Remainder(p, H[h], s);
            var i := IndexOf(cs, h);
            var cs' := cs[..i] + [h, d] + cs[i + 1..];
            var U' := U[d := false][h := true];
            && WellFormed(p, cs', H[d := r][h := s], Fs[HeaderToFooter(p, d, r) := r][HeaderToFooter(p, h, s) := s], U', lo, hi)
            && FreeIn(cs', U') == FreeIn(cs, U) - {h} + {d}
            && (NoAdjacentFree(cs, U) ==> NoAdjacentFree(cs', U'))
  {
    var d := ChunkEnd(p, h, s);
    var r := Remainder(p, H[h], s);
    var i := IndexOf(cs, h);
    var e := ChunkEnd(p, h, H[h]);
    SplitConservesExtent(p, h, H[h], s);
    assert SameOutside(H, H[d := r][h := s], h, e);
    assert SameOutside(Fs, Fs[HeaderToFooter(p, d, r) := r][HeaderToFooter(p, h, s) := s], h, e);
    assert SameOutside(U, U[d := false][h := true], h, e);
    Split(p, cs, H, Fs, U, lo, hi, i, s, H[d := r][h := s],
          Fs[HeaderToFooter(p, d, r) := r][HeaderToFooter(p, h, s) := s], U[d := false][h := true]);
  }

  /** Marking chunk cs[i] in use takes it out of the free set and cannot
      make two neighbours free. */
  lemma {:induction false} Claim(p: Pads, cs: seq<Addr>, H: map<Addr, nat>, Fs: map<Addr, nat>, U: map<Addr, bool>,
                                 lo: Addr, hi: Addr, i: nat)
    requires WellFormed(p, cs, H, Fs, U, lo, hi) && i < |cs|
    ensures WellFormed(p, cs, H, Fs, U[cs[i] := true], lo, hi)
    ensures FreeIn(cs, U[cs[i] := true]) == FreeIn(cs, U) - {cs[i]}
    ensures NoAdjacentFree(cs, U) ==> NoAdjacentFree(cs, U[cs[i] := true])
  {
    var U' := U[cs[i] := true];
    forall k | 0 <= k < |cs| ensures OKAt(p, cs, H, Fs, U', k) {
      assert OKAt(p, cs, H, Fs, U, k);
    }
    assert forall k :: 0 <= k < |cs| ==> (Free(U', cs[k]) ==> Free(U, cs[k]));
    if NoAdjacentFree(cs, U) {
      forall k | 0 <= k < |cs| - 1 ensures Apart(cs, U', k) {
        assert Apart(cs, U, k);
      }
    }
  }
}
