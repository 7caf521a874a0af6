/** The storage area of an item ring buffer and the way item blocks tile it.
    Nothing here is executable: this is the specification that `ItemRing` is proved against. */
module RingLayout {

  newtype uint8 = x: int | 0 <= x < 0x100

  type Bytes = seq<uint8>

  // ---------- Geometry ----------

  /** x is a multiple of a, counted down in steps of a. */
  predicate Multiple(x: nat, a: nat)
    requires 1 <= a
  {
    x == 0 || (x >= a && Multiple(x - a, a))
  }

  /** `size`: bytes of storage (xSize); `header`: rbHEADER_SIZE; `align`: portBYTE_ALIGNMENT. */
  datatype Geo = Geo(size: nat, header: nat, align: nat) {
    ghost predicate Ok() {
      1 <= align && 1 <= header <= size && Multiple(header, align) && Multiple(size, align)
    }

    /** rbALIGN_SIZE: the least multiple of the alignment that is not below `x`. */
    function Align(x: nat): (r: nat)
      requires 1 <= align
      ensures x <= r < x + align && Multiple(r, align)
    {
      if x == 0 then 0 else align + Align(if x <= align then 0 else x - align)
    }

    predicate Aligned(p: nat)
      requires 1 <= align
    {
      Multiple(p, align)
    }
  }

  /** The usual formula for rounding up. */
  lemma {:induction false} AlignFormula(g: Geo, x: nat)
    requires 1 <= g.align
    ensures g.Align(x) == ((x + g.align - 1) / g.align) * g.align
  {
    if x > g.align {
      AlignFormula(g, x - g.align);
      NextQuotient(x - 1, g.align);
    } else {
      FirstQuotient(x, g.align);
    }
  }

  function Pow2(k: nat): nat { if k == 0 then 1 else 2 * Pow2(k - 1) }

  /** x & ~mask for the mask of the k lowest bits: those bits become zero. */
  function ClearLow(x: nat, k: nat): nat {
    if k == 0 then x else 2 * ClearLow(x / 2, k - 1)
  }

  /** rbALIGN_SIZE as it is written, for an alignment of 2^k, whose mask is the k lowest bits. */
  lemma {:induction false} AlignMask(g: Geo, x: nat, k: nat)
    requires g.align == Pow2(k) >= 1
    ensures g.Align(x) == ClearLow(x + (g.align - 1), k)
  {
    AlignFormula(g, x);
    ClearLowFormula(x + g.align - 1, k);
  }

  lemma {:induction false} ClearLowFormula(x: nat, k: nat)
    ensures Pow2(k) >= 1 && ClearLow(x, k) == (x / Pow2(k)) * Pow2(k)
  {
    if k > 0 {
      ClearLowFormula(x / 2, k - 1);
      var p := Pow2(k - 1);
      HalfQuotient(x, p);
      DoubleProduct((x / 2) / p, p);
    }
  }

  lemma {:induction false} DoubleProduct(q: int, p: int)
    ensures 2 * (q * p) == q * (2 * p)
  {
  }

  lemma {:induction false} HalfQuotient(x: nat, p: nat)
    requires 1 <= p
    ensures (x / 2) / p == x / (2 * p)
  {
    var q, r := (x / 2) / p, (x / 2) % p;
    var q', r' := x / (2 * p), x % (2 * p);
    assert x / 2 == q * p + r && x == q' * (2 * p) + r';
    assert (q - q') * (2 * p) == r' - 2 * r - x % 2;
    MulSign(q - q', 2 * p);
  }

  lemma {:induction false} FirstQuotient(x: nat, a: nat)
    requires x <= a && 1 <= a
    ensures (x + a - 1) / a == if x == 0 then 0 else 1
  {
    if x > 0 { NextQuotient(x - 1, a); }
  }

  lemma {:induction false} NextQuotient(y: nat, a: nat)
    requires 1 <= a
    ensures (y + a) / a == y / a + 1
    ensures ((y + a) / a) * a == (y / a) * a + a
  {
    var d := (y + a) / a - y / a - 1;
    assert d * a == y % a - (y + a) % a;
    MulSign(d, a);
  }

  lemma {:induction false} MulSign(k: int, a: nat)
    requires 1 <= a
    ensures k >= 1 ==> k * a >= a
    ensures k <= -1 ==> k * a <= -(a as int)
  {
  }

  lemma {:induction false} AddMultiple(x: nat, y: nat, a: nat)
    requires 1 <= a && Multiple(x, a) && Multiple(y, a)
    ensures Multiple(x + y, a)
  {
    if x > 0 { AddMultiple(x - a, y, a); }
  }

  lemma {:induction false} SubMultiple(x: nat, y: nat, a: nat)
    requires 1 <= a && Multiple(x, a) && Multiple(y, a) && y <= x
    ensures Multiple(x - y, a)
  {
    if y > 0 { SubMultiple(x - a, y - a, a); }
  }

  /** Two different aligned addresses are at least one alignment unit apart. */
  lemma {:induction false} AlignedGap(x: nat, y: nat, a: nat)
    requires 1 <= a && Multiple(x, a) && Multiple(y, a) && x < y
    ensures x + a <= y
  {
    SubMultiple(y, x, a);
  }

  // ---------- Memory cells ----------

  /** An in-band item header: xItemLen and the three bits of uxItemFlags. */
  datatype Header = Header(len: nat, free: bool, dummy: bool, split: bool)

  /** One byte of storage. A header occupies `header` bytes; a cell records whether the byte
      belongs to a header or to payload, so reading a header where none was written is visible. */
  datatype Cell = Byte(value: uint8) | Head(h: Header) | HeadRest

  ghost predicate HeaderAt(g: Geo, mem: seq<Cell>, p: nat, h: Header) {
    p + g.header <= |mem| && 1 <= g.header && mem[p] == Head(h)
    && forall k {:trigger mem[k]} :: p < k < p + g.header ==> mem[k] == HeadRest
  }

  ghost predicate PayloadAt(mem: seq<Cell>, p: nat, data: Bytes) {
    p + |data| <= |mem| && forall k {:trigger data[k]} :: 0 <= k < |data| ==> mem[p + k] == Byte(data[k])
  }

  // ---------- Blocks ----------

  /** A place in the ring together with the lap it belongs to. Laps only exist in the proof: they
      turn "circularly before" into a lexicographic order. */
  datatype Place = Place(lap: nat, pos: nat) {
    predicate Le(that: Place) {
      lap < that.lap || (lap == that.lap && pos <= that.pos)
    }
  }

  /** What one header stands for: an item, one part of a split item, or dummy filling.
      `more`: the item goes on in the next block. `freed`: returned by the application. */
  datatype Block = Block(at: Place, data: Bytes, dummy: bool, freed: bool, more: bool)

  ghost predicate BlockOk(g: Geo, b: Block)
    requires g.Ok()
  {
    && g.Aligned(b.at.pos)
    && b.at.pos + g.header + g.Align(|b.data|) <= g.size
    && (b.dummy ==> b.data == [] && !b.more && !b.freed)
    && (b.more ==> b.data != [] && b.at.pos + g.header + g.Align(|b.data|) == g.size)
  }

  /** The first position after the block: blocks extend to the end of the storage when they are
      dummies or when no header fits behind them. */
  ghost function End(g: Geo, b: Block): (e: nat)
    requires g.Ok() && BlockOk(g, b)
    ensures b.at.pos + g.header <= e <= g.size
    ensures b.at.pos + g.header + g.Align(|b.data|) <= e
  {
    var e := b.at.pos + g.header + g.Align(|b.data|);
    if b.dummy || g.size - e < g.header then g.size else e
  }

  ghost function Next(g: Geo, b: Block): (q: Place)
    requires g.Ok() && BlockOk(g, b)
    ensures q.pos + g.header <= g.size
  {
    if End(g, b) == g.size then Place(b.at.lap + 1, 0) else Place(b.at.lap, End(g, b))
  }

  ghost predicate BlockMem(g: Geo, mem: seq<Cell>, b: Block) {
    && HeaderAt(g, mem, b.at.pos, Header(|b.data|, b.freed, b.dummy, b.more && !b.freed))
    && PayloadAt(mem, b.at.pos + g.header, b.data)
  }

  // ---------- Layout ----------

  /** The three chasing pointers with their laps, and the blocks from `free` to `write`.
      The first `taken` blocks lie before the read pointer. */
  datatype Layout = Layout(free: Place, write: Place, blocks: seq<Block>, taken: nat)

  /** Blocks tile the circular region from the free pointer to the write pointer. */
  ghost predicate Tiled(g: Geo, l: Layout)
  {
    && g.Ok()
    && l.taken <= |l.blocks|
    && g.Aligned(l.free.pos) && l.free.pos + g.header <= g.size
    && g.Aligned(l.write.pos) && l.write.pos + g.header <= g.size
    && l.free.Le(l.write) && l.write.Le(Place(l.free.lap + 1, l.free.pos))
    && (forall i :: 0 <= i < |l.blocks| ==> BlockOk(g, l.blocks[i]))
    && (|l.blocks| == 0 ==> l.free == l.write)
    && (|l.blocks| > 0 ==> l.blocks[0].at == l.free && Next(g, l.blocks[|l.blocks| - 1]) == l.write)
    && (forall i :: 0 < i < |l.blocks| ==> l.blocks[i].at == Next(g, l.blocks[i - 1]))
    && (forall i, j :: 0 <= i < j < |l.blocks| ==> Next(g, l.blocks[i]).Le(l.blocks[j].at))
    && (forall i :: 0 <= i < |l.blocks| ==> l.free.Le(l.blocks[i].at) && Next(g, l.blocks[i]).Le(l.write))
  }

  ghost predicate Stored(g: Geo, mem: seq<Cell>, l: Layout) {
    |mem| == g.size && forall i :: 0 <= i < |l.blocks| ==> BlockMem(g, mem, l.blocks[i])
  }

  /** Dummies stand before an item; the second part of a split item follows its first part and
      starts at the head of the storage; only retrieved items are free. */
  ghost predicate Shaped(g: Geo, l: Layout)
    requires Tiled(g, l)
  {
    && (forall i :: 0 <= i < |l.blocks| && (l.blocks[i].dummy || l.blocks[i].more) ==>
          i + 1 < |l.blocks| && !l.blocks[i + 1].dummy && !l.blocks[i + 1].more
          && (l.blocks[i].more ==> l.blocks[i + 1].data != []))
    && (forall i :: 0 <= i < |l.blocks| && l.blocks[i].freed ==> i < l.taken)
    && (0 < l.taken ==> !l.blocks[l.taken - 1].dummy)
  }

  ghost function ReadPlace(l: Layout): Place
    requires l.taken <= |l.blocks|
  {
    if l.taken < |l.blocks| then l.blocks[l.taken].at else l.write
  }

  /** The write pointer has come round to the free pointer (rbBUFFER_FULL_FLAG). */
  ghost predicate Full(l: Layout) { l.write == Place(l.free.lap + 1, l.free.pos) }

  /** Storage that belongs to a block. */
  ghost predicate Used(l: Layout, x: nat) {
    if l.write.lap == l.free.lap then l.free.pos <= x < l.write.pos
    else l.free.pos <= x || x < l.write.pos
  }

  // ---------- What an application sees ----------

  /** Parts that have been sent and not yet retrieved, oldest first. */
  datatype Part = Part(data: Bytes, more: bool)

  ghost function Parts(bs: seq<Block>): (r: seq<Part>) {
    if bs == [] then []
    else if bs[0].dummy then Parts(bs[1..])
    else [Part(bs[0].data, bs[0].more)] + Parts(bs[1..])
  }

  /** Retrieved and not yet returned: data address and contents. */
  ghost predicate Holds(g: Geo, l: Layout, p: nat, data: Bytes) {
    exists i :: 0 <= i < l.taken && i < |l.blocks| && HeldBlock(g, l.blocks[i], p, data)
  }

  ghost predicate HeldBlock(g: Geo, b: Block, p: nat, data: Bytes) {
    !b.dummy && !b.freed && b.at.pos + g.header == p && b.data == data
  }

  /** Reassembles items: a part with `more` is joined with the part that follows it. */
  ghost function Join(ps: seq<Part>): (items: seq<Bytes>)
    ensures ps != [] ==> items != []
  {
    if ps == [] then []
    else
      var rest := Join(ps[1..]);
      if ps[0].more && rest != [] then [ps[0].data + rest[0]] + rest[1..]
      else [ps[0].data] + rest
  }

  ghost predicate Closed(ps: seq<Part>) { ps != [] ==> !ps[|ps| - 1].more }
}
