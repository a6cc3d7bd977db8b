/** Chunk layout of the allocator: a chunk is a header (size, in-use flag),
    then a payload of `size` bytes that holds the free-tree node fields while
    the chunk is free, then a footer that repeats `size`.  Everything here is
    fixed-offset address arithmetic. */
module Layout {

  /** Byte addresses.  Address 0 plays the part of the C null pointer. */
  type Addr = nat

  const NULL: Addr := 0

  /** The word size and the three padded struct sizes (header_pad,
      footer_pad, node_pad). */
  datatype Pads = Pads(word: nat, header: nat, footer: nat, node: nat)
  {
    ghost predicate Valid()
    {
      && word > 0 && header > 0 && footer > 0 && node > 0
      && header % word == 0 && footer % word == 0 && node % word == 0
    }
  }

  /** ceil_size: rounds `input` up to the next multiple of `offset`. */
  function CeilSize(input: nat, offset: nat): (r: nat)
    requires offset > 0
    ensures r % offset == 0
    ensures input <= r < input + offset
    ensures input % offset == 0 ==> r == input
  {
    if input % offset != 0 then
      var q := input / offset;
      assert input == offset * q + input % offset;
      DivModUnique(offset * (q + 1), offset, q + 1, 0);
      input - input % offset + offset
    else
      input
  }

  /** No multiple of `offset` that is at least `input` lies below CeilSize. */
  lemma {:induction false} CeilSizeLeast(input: nat, offset: nat, m: nat)
    requires offset > 0 && m % offset == 0 && input <= m
    ensures CeilSize(input, offset) <= m
  {
    var r := CeilSize(input, offset);
    var a, b := m / offset, r / offset;
    assert m == offset * a && r == offset * b;
    if a < b {
      assert r - m == offset * (b - a - 1) + offset;
      ProductNonnegative(offset, b - a - 1);
    }
  }

  /** The padded struct sizes, computed as tralloc.c does on its first call:
      each C struct size rounded up to a word. */
  function MakePads(word: nat, headerBytes: nat, footerBytes: nat, nodeBytes: nat): (p: Pads)
    requires word > 0 && headerBytes > 0 && footerBytes > 0 && nodeBytes > 0
    ensures p.Valid() && p.word == word
    ensures headerBytes <= p.header < headerBytes + word
    ensures footerBytes <= p.footer < footerBytes + word
    ensures nodeBytes <= p.node < nodeBytes + word
  {
    Pads(word, CeilSize(headerBytes, word), CeilSize(footerBytes, word), CeilSize(nodeBytes, word))
  }

  /** The size a request is served with: rounded up to a word and at least
      large enough to hold the node fields once the chunk is freed. */
  function RequestSize(p: Pads, size: nat): (s: nat)
    requires p.Valid()
    ensures s % p.word == 0
    ensures s >= size && s >= p.node
    ensures s > 0
  {
    var s := CeilSize(size, p.word);
    if s < p.node then p.node else s
  }

  /** RequestSize is the least word multiple covering both the request and
      the node fields. */
  lemma {:induction false} RequestSizeLeast(p: Pads, size: nat, m: nat)
    requires p.Valid() && m % p.word == 0 && m >= size && m >= p.node
    ensures RequestSize(p, size) <= m
  {
    CeilSizeLeast(size, p.word, m);
  }

  // The six converters of the C code.  A chunk whose header is at h has its
  // node at h + header_pad and its footer right after the payload.

  function HeaderToNode(p: Pads, h: Addr): (n: Addr)
    ensures n >= p.header && n - h == p.header
  {
    h + p.header
  }

  function NodeToHeader(p: Pads, n: Addr): (h: Addr)
    requires n >= p.header
    ensures HeaderToNode(p, h) == n
  {
    n - p.header
  }

  /** header_to_node and node_to_header are inverse: going from a header to
      its node fields and back lands on the same header. */
  lemma {:induction false} HeaderNodeRoundTrip(p: Pads, h: Addr)
    ensures NodeToHeader(p, HeaderToNode(p, h)) == h
  {
  }

  function HeaderToFooter(p: Pads, h: Addr, size: nat): (f: Addr)
    ensures f == HeaderToNode(p, h) + size
  {
    h + p.header + size
  }

  function NodeToFooter(p: Pads, n: Addr, size: nat): (f: Addr)
    requires n >= p.header
    ensures f == HeaderToFooter(p, NodeToHeader(p, n), size)
  {
    n + size
  }

  function FooterToHeader(p: Pads, f: Addr, size: nat): (h: Addr)
    requires f >= size + p.header
    ensures HeaderToFooter(p, h, size) == f
  {
    f - size - p.header
  }

  function FooterToNode(p: Pads, f: Addr, size: nat): (n: Addr)
    requires f >= size + p.header
    ensures n >= p.header && NodeToFooter(p, n, size) == f
    ensures n == HeaderToNode(p, FooterToHeader(p, f, size))
  {
    f - size
  }

  /** The address just past a chunk: where the next chunk's header starts. */
  function ChunkEnd(p: Pads, h: Addr, size: nat): (e: Addr)
    ensures e == HeaderToFooter(p, h, size) + p.footer
  {
    h + p.header + size + p.footer
  }

  /** tralloc.c splits a found chunk when the slack can hold a header, a
      footer and the node fields of a second chunk. */
  predicate SplitWorthwhile(p: Pads, found: nat, size: nat)
  {
    found >= size + p.footer + p.header + p.node
  }

  /** The size of the remainder chunk carved off by a split. */
  function Remainder(p: Pads, found: nat, size: nat): (d: nat)
    requires SplitWorthwhile(p, found, size)
    ensures d >= p.node
    ensures size + p.footer + p.header + d == found
  {
    found - size - p.footer - p.header
  }

  /** A split leaves two back-to-back chunks that end where the found chunk
      ended, and the remainder's footer sits where the found chunk's footer
      was. */
  lemma {:induction false} SplitConservesExtent(p: Pads, h: Addr, found: nat, size: nat)
    requires SplitWorthwhile(p, found, size)
    ensures ChunkEnd(p, ChunkEnd(p, h, size), Remainder(p, found, size)) == ChunkEnd(p, h, found)
    ensures HeaderToFooter(p, ChunkEnd(p, h, size), Remainder(p, found, size)) == HeaderToFooter(p, h, found)
  {
  }

  /** Merging two neighbours gives one chunk that spans both. */
  lemma {:induction false} MergeConservesExtent(p: Pads, h: Addr, a: nat, b: nat)
    ensures ChunkEnd(p, h, a + p.footer + p.header + b) == ChunkEnd(p, ChunkEnd(p, h, a), b)
    ensures HeaderToFooter(p, h, a + p.footer + p.header + b) == HeaderToFooter(p, ChunkEnd(p, h, a), b)
  {
  }

  /** Sums and differences of word multiples are word multiples. */
  lemma {:induction false} MultipleAdd(a: nat, b: nat, w: nat)
    requires w > 0 && a % w == 0 && b % w == 0
    ensures (a + b) % w == 0
  {
    var qa, qb := a / w, b / w;
    assert a == w * qa && b == w * qb;
    DivModUnique(a + b, w, qa + qb, 0);
  }

  lemma {:induction false} MultipleSub(a: nat, b: nat, w: nat)
    requires w > 0 && a % w == 0 && b % w == 0 && b <= a
    ensures (a - b) % w == 0
  {
    var qa, qb := a / w, b / w;
    assert a == w * qa && b == w * qb;
    DivModUnique(a - b, w, qa - qb, 0);
  }

  lemma {:induction false} ProductNonnegative(a: nat, b: nat)
    ensures a * b >= 0
  {
  }

  /** Euclidean division has one quotient and one remainder. */
  lemma {:induction false} DivModUnique(x: int, w: int, q: int, r: int)
    requires w > 0 && 0 <= r < w && x == w * q + r
    ensures x % w == r && x / w == q
  {
    var q0, r0 := x / w, x % w;
    assert x == w * q0 + r0;
    var k := q0 - q;
    assert w * k == r - r0;
    if k > 0 {
      assert w * k == w * (k - 1) + w;
      ProductNonnegative(w, k - 1);
      assert false;
    } else if k < 0 {
      assert w * -k == w * (-k - 1) + w;
      ProductNonnegative(w, -k - 1);
      assert false;
    }
  }
}
