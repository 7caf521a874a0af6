/** Free space: when an item fits, and how large an item may be. */
module RingRoom {
  import opened RingLayout
  import opened RingLemmas

  /** `k` bytes from position `p` on are storage that belongs to no block. */
  ghost predicate FreeRun(g: Geo, l: Layout, p: nat, k: nat) {
    p + k <= g.size && forall x :: p <= x < p + k ==> !Used(l, x)
  }

  /** There is room for an item of `n` bytes: in one piece at the write pointer, or after filling
      the storage up to its end and going on at its head. A split item needs a second header. */
  ghost predicate Room(g: Geo, l: Layout, split: bool, n: nat)
    requires Tiled(g, l)
  {
    var total := g.Align(n) + g.header;
    var tail := g.size - l.write.pos;
    FreeRun(g, l, l.write.pos, total)
    || (FreeRun(g, l, l.write.pos, tail)
        && total > tail
        && WrappedSize(g, l, split, total) <= l.write.pos
        && FreeRun(g, l, 0, WrappedSize(g, l, split, total)))
  }

  /** Bytes needed at the head of the storage when an item does not fit before its end: a no-split
      item moves there as a whole, a split item leaves a part (behind an extra header) at the end. */
  function WrappedSize(g: Geo, l: Layout, split: bool, total: nat): nat
    requires l.write.pos <= g.size && total > g.size - l.write.pos
  {
    if split then total + g.header - (g.size - l.write.pos) else total
  }

  /** xMaxItemSize as xRingbufferCreate sets it, for buffers large enough that the unsigned
      subtraction does not wrap. */
  ghost predicate MaxOk(g: Geo, split: bool, max: nat)
    requires g.Ok()
  {
    if split then max + 2 * g.header == g.size else max + g.header == g.Align(g.size / 2)
  }

  lemma {:induction false} AlignLe(g: Geo, n: nat, m: int)
    requires g.Ok() && (m < 0 || Multiple(m, g.align))
    ensures g.Align(n) <= m <==> n <= m
  {
    if n <= m < g.Align(n) { AlignedGap(m, g.Align(n), g.align); }
  }

  /** xMaxItemSize keeps its promise: on an empty ring an item of up to that size always has room,
      wherever the pointers stand. */
  lemma {:induction false} MaxItemHasRoom(g: Geo, l: Layout, split: bool, max: nat, n: nat)
    requires Tiled(g, l) && |l.blocks| == 0 && MaxOk(g, split, max) && n <= max
    ensures Room(g, l, split, n)
  {
    hide Tiled;
    PointersInside(g, l);
    EmptyEnds(g, l);
    var p := l.write.pos;
    var total := g.Align(n) + g.header;
    AddMultiple(g.header, g.header, g.align);
    if split {
      SubMultiple(g.size, 2 * g.header, g.align);
      AlignLe(g, n, max);
    } else {
      SubMultiple(g.Align(g.size / 2), g.header, g.align);
      AlignLe(g, n, max);
      SubMultiple(g.size, p, g.align);
      if total > g.size - p {
        AddMultiple(g.Align(n), g.header, g.align);
        AlignedGap(g.size - p, total, g.align);
        AlignLe(g, g.size / 2, p);
      }
    }
    assert FreeRun(g, l, p, g.size - p);
    if total > g.size - p {
      assert FreeRun(g, l, 0, WrappedSize(g, l, split, total));
    } else {
      assert FreeRun(g, l, p, total);
    }
  }

  /** xMaxItemSize is the largest such size, unless the storage of a no-split ring is odd (which takes an
      alignment of 1): no larger item has room on every empty ring. */
  lemma {:induction false} MaxItemIsLargest(g: Geo, split: bool, max: nat, n: nat)
    requires g.Ok() && MaxOk(g, split, max) && n > max && (split || g.size % 2 == 0 || g.align >= 2)
    ensures exists l :: Tiled(g, l) && l.blocks == [] && !Room(g, l, split, n)
  {
    var half := g.Align(g.size / 2);
    var p := if split then g.header else g.size - half;
    var l := Layout(Place(0, p), Place(0, p), [], 0);
    if split {
      AddMultiple(g.header, g.header, g.align);
      SubMultiple(g.size, 2 * g.header, g.align);
    } else {
      AlignLe(g, g.size / 2, g.size);
      SubMultiple(g.size, half, g.align);
      SubMultiple(half, g.header, g.align);
      AddMultiple(half, half, g.align);
      if g.size == 2 * half + 1 { SubMultiple(g.size, 2 * half, g.align); }
    }
    AlignLe(g, n, max);
    assert Tiled(g, l);
    assert !Room(g, l, split, n);
  }

  /** In that one case an item of one byte more has room on every empty ring as well. */
  lemma {:induction false} MaxItemCouldBeLarger(g: Geo, l: Layout, max: nat)
    requires Tiled(g, l) && l.blocks == [] && MaxOk(g, false, max) && g.size % 2 == 1 && g.align == 1
    ensures Room(g, l, false, max + 1)
  {
    AlignFormula(g, max + 1);
    AlignFormula(g, g.size / 2);
    var p := l.write.pos;
    assert g.Align(max + 1) == max + 1 && g.Align(g.size / 2) == g.size / 2;
    hide Multiple;
    assert FreeRun(g, l, p, g.size - p);
    if max + 1 + g.header > g.size - p {
      assert FreeRun(g, l, 0, max + 1 + g.header);
    } else {
      assert FreeRun(g, l, p, max + 1 + g.header);
    }
  }

  /** Room in terms of the three pointers, for a ring that is neither full nor empty. */
  lemma {:induction false} RoomByPointers(g: Geo, l: Layout, split: bool, n: nat)
    requires Tiled(g, l) && l.free.pos != l.write.pos
    ensures Room(g, l, split, n) <==>
            (var total := g.Align(n) + g.header;
             if l.free.pos > l.write.pos then total <= l.free.pos - l.write.pos
             else total <= g.size - l.write.pos
                  || (if split then total + g.header <= g.size - (l.write.pos - l.free.pos) else total <= l.free.pos))
  {
    var total := g.Align(n) + g.header;
    var w, f := l.write.pos, l.free.pos;
    var tail := g.size - w;
    if f > w {
      if total > f - w && w + total <= g.size {
        assert w <= f < w + total && Used(l, f);
      }
      assert Used(l, f) && w <= f < w + tail;
      assert total <= f - w ==> FreeRun(g, l, w, total);
    } else {
      assert FreeRun(g, l, w, tail);
      assert total <= tail ==> FreeRun(g, l, w, total);
      if total > tail {
        var k := WrappedSize(g, l, split, total);
        assert k <= f ==> FreeRun(g, l, 0, k);
        if k > f { assert Used(l, f) && 0 <= f < 0 + k; }
      }
    }
  }

  /** An item that fits before the end of the storage can be laid down at the write pointer. */
  lemma {:induction false} RoomAtWrite(g: Geo, l: Layout, split: bool, b: Block)
    requires Tiled(g, l) && Room(g, l, split, |b.data|)
    requires b.at == l.write && !b.dummy && !b.freed && !b.more
    requires g.Align(|b.data|) + g.header <= g.size - l.write.pos
    ensures BlockOk(g, b) && Next(g, b).Le(Place(l.free.lap + 1, l.free.pos))
  {
    var total := g.Align(|b.data|) + g.header;
    assert FreeRun(g, l, l.write.pos, total);
    if l.write.lap == l.free.lap + 1 {
      assert Used(l, l.free.pos);
    }
  }

  /** Otherwise the free space wraps: `a` fills the storage up to its end and `b` goes to its head. */
  lemma {:induction false} RoomAtHead(g: Geo, l: Layout, split: bool, n: nat, a: Block, b: Block)
    requires Tiled(g, l) && Room(g, l, split, n)
    requires g.Align(n) + g.header > g.size - l.write.pos
    requires BlockOk(g, a) && a.at == l.write && End(g, a) == g.size
    requires b.at == Place(l.write.lap + 1, 0) && !b.dummy && !b.freed && !b.more
    requires g.Align(|b.data|) + g.header == WrappedSize(g, l, split, g.Align(n) + g.header)
    ensures Next(g, a) == b.at && Next(g, a).Le(Place(l.free.lap + 1, l.free.pos))
    ensures BlockOk(g, b) && Next(g, b).Le(Place(l.free.lap + 1, l.free.pos))
  {
    hide Tiled;
    PointersInside(g, l);
    PointerOrder(g, l);
    var tail := g.size - l.write.pos;
    assert FreeRun(g, l, l.write.pos, tail);
    assert l.write.lap == l.free.lap + 1 ==> Used(l, l.free.pos);
    assert l.write.lap == l.free.lap;
    var k := g.Align(|b.data|) + g.header;
    assert k <= l.write.pos && FreeRun(g, l, 0, k);
    assert l.free.pos < l.write.pos ==> Used(l, l.free.pos);
    assert k <= l.free.pos;
  }

  /** The first part of a split item takes all space before the end; what is left over of the
      aligned size is the aligned size of the second part, and both parts are non-empty. */
  lemma {:induction false} SplitSizes(g: Geo, l: Layout, n: nat)
    requires Tiled(g, l) && g.Align(n) + g.header > g.size - l.write.pos
    ensures var first := g.size - l.write.pos - g.header;
            && first < n && g.Align(first) == first
            && g.Align(n - first) == g.Align(n) - first
  {
    var first := g.size - l.write.pos - g.header;
    SubMultiple(g.size, l.write.pos, g.align);
    SubMultiple(g.size - l.write.pos, g.header, g.align);
    AlignLe(g, first, first);
    AlignLe(g, n, first);
    SubMultiple(g.Align(n), first, g.align);
    AlignUnique(g, n - first, g.Align(n) - first);
  }

  lemma {:induction false} AlignUnique(g: Geo, n: nat, m: nat)
    requires g.Ok() && Multiple(m, g.align) && n <= m < n + g.align
    ensures g.Align(n) == m
  {
    AlignLe(g, n, m);
    if g.Align(n) < m { AlignedGap(g.Align(n), m, g.align); }
  }

  lemma {:induction false} FullHasNoRoom(g: Geo, l: Layout, split: bool, n: nat)
    requires Tiled(g, l) && Full(l)
    ensures !Room(g, l, split, n)
  {
    assert Used(l, l.write.pos);
  }

  lemma {:induction false} DummyOk(g: Geo, l: Layout, d: Block)
    requires Tiled(g, l) && d == Block(l.write, [], true, false, false)
    ensures BlockOk(g, d) && End(g, d) == g.size
  {
    AlignLe(g, 0, 0);
  }

  lemma {:induction false} FirstPartOk(g: Geo, l: Layout, a: Block)
    requires Tiled(g, l) && a == Block(l.write, a.data, false, false, true)
    requires a.data != [] && |a.data| == g.size - l.write.pos - g.header && g.Align(|a.data|) == |a.data|
    ensures BlockOk(g, a) && End(g, a) == g.size
  {
  }

  /** The two parts `a`, `b` of an item: both can be laid down, and they are what the send adds. */
  lemma {:induction false} TwoPartsPlan(g: Geo, l: Layout, item: Bytes, room: nat, a: Block, b: Block)
    requires Tiled(g, l) && Room(g, l, true, |item|)
    requires 0 < room < |item| && room == g.size - l.write.pos - g.header && g.Align(room) == room
    requires g.Align(|item|) + g.header > g.size - l.write.pos
    requires g.Align(|item| - room) == g.Align(|item|) - room
    requires a == Block(l.write, item[..room], false, false, true)
    requires b == Block(Place(l.write.lap + 1, 0), item[room..], false, false, false)
    ensures BlockOk(g, a) && Next(g, a) == b.at && Next(g, a).Le(Place(l.free.lap + 1, l.free.pos))
    ensures BlockOk(g, b) && Next(g, b).Le(Place(l.free.lap + 1, l.free.pos))
    ensures OneItem([a, b], item) && SentBlocks(g, true, l, item) == [a, b]
  {
    hide Tiled, Room, BlockOk, Next, End;
    PointersInside(g, l);
    FirstPartOk(g, l, a);
    RoomAtHead(g, l, true, |item|, a, b);
    assert item[..room] + item[room..] == item;
  }

  /** The same for a dummy that fills the storage and the item at the head. */
  lemma {:induction false} DummyPlan(g: Geo, l: Layout, split: bool, item: Bytes, d: Block, b: Block)
    requires Tiled(g, l) && Room(g, l, split, |item|)
    requires g.Align(|item|) + g.header > g.size - l.write.pos && (split ==> g.size - l.write.pos == g.header)
    requires d == Block(l.write, [], true, false, false)
    requires b == Block(Place(l.write.lap + 1, 0), item, false, false, false)
    ensures BlockOk(g, d) && Next(g, d) == b.at && Next(g, d).Le(Place(l.free.lap + 1, l.free.pos))
    ensures BlockOk(g, b) && Next(g, b).Le(Place(l.free.lap + 1, l.free.pos))
    ensures OneItem([d, b], item) && SentBlocks(g, split, l, item) == [d, b]
  {
    hide Tiled, Room, BlockOk, Next, End;
    PointersInside(g, l);
    DummyOk(g, l, d);
    RoomAtHead(g, l, split, |item|, d, b);
    assert [] + item == item;
  }

  /** The same for an item that fits at the write pointer. */
  lemma {:induction false} WholePlan(g: Geo, l: Layout, split: bool, item: Bytes, b: Block)
    requires Tiled(g, l) && Room(g, l, split, |item|)
    requires g.Align(|item|) + g.header <= g.size - l.write.pos
    requires b == Block(l.write, item, false, false, false)
    ensures BlockOk(g, b) && Next(g, b).Le(Place(l.free.lap + 1, l.free.pos))
    ensures OneItem([b], item) && SentBlocks(g, split, l, item) == [b]
  {
    RoomAtWrite(g, l, split, b);
  }

  lemma {:induction false} NotFull(g: Geo, l: Layout, split: bool, n: nat)
    requires Tiled(g, l) && Room(g, l, split, n)
    ensures !Full(l)
  {
    if Full(l) { FullHasNoRoom(g, l, split, n); }
  }
}
