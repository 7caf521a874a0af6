/** What sending, retrieving and returning do to a layout. */
module RingLemmas {
  import opened RingLayout

  // ---------- Where blocks lie ----------

  lemma {:induction false} BlockIsUsed(g: Geo, l: Layout, i: nat, x: nat)
    requires Tiled(g, l) && i < |l.blocks|
    requires l.blocks[i].at.pos <= x < End(g, l.blocks[i])
    ensures Used(l, x)
  {
    var b := l.blocks[i];
    assert l.free.Le(b.at) && Next(g, b).Le(l.write);
  }

  /** No two blocks share a byte. */
  lemma {:induction false} BlocksDisjoint(g: Geo, l: Layout, i: nat, j: nat, x: nat)
    requires Tiled(g, l) && i < |l.blocks| && j < |l.blocks| && i != j
    requires l.blocks[i].at.pos <= x < End(g, l.blocks[i])
    ensures !(l.blocks[j].at.pos <= x < End(g, l.blocks[j]))
  {
    var b, c := l.blocks[if i < j then i else j], l.blocks[if i < j then j else i];
    assert l.free.Le(b.at) && Next(g, b).Le(c.at) && Next(g, c).Le(l.write);
    assert l.write.Le(Place(l.free.lap + 1, l.free.pos));
  }

  lemma {:induction false} StoredFrame(g: Geo, mem: seq<Cell>, mem': seq<Cell>, l: Layout)
    requires Tiled(g, l) && Stored(g, mem, l) && |mem'| == |mem|
    requires forall x :: 0 <= x < |mem| && Used(l, x) ==> mem'[x] == mem[x]
    ensures Stored(g, mem', l)
  {
    forall i | 0 <= i < |l.blocks|
      ensures BlockMem(g, mem', l.blocks[i])
    {
      var b := l.blocks[i];
      assert BlockMem(g, mem, b);
      forall x | b.at.pos <= x < End(g, b) ensures mem'[x] == mem[x] { BlockIsUsed(g, l, i, x); }
    }
  }

  // ---------- Sending ----------

  ghost function Append(g: Geo, l: Layout, b: Block): Layout
    requires g.Ok() && BlockOk(g, b)
  {
    l.(blocks := l.blocks + [b], write := Next(g, b))
  }

  lemma {:induction false} AppendTiled(g: Geo, l: Layout, b: Block)
    requires Tiled(g, l) && BlockOk(g, b) && b.at == l.write
    requires Next(g, b).Le(Place(l.free.lap + 1, l.free.pos))
    ensures Tiled(g, Append(g, l, b))
  {
    var m := Append(g, l, b);
    var n := |l.blocks|;
    EndAligned(g, b);
    assert l.write.Le(m.write);
    forall i | 0 <= i <= n
      ensures BlockOk(g, m.blocks[i]) && l.free.Le(m.blocks[i].at) && Next(g, m.blocks[i]).Le(m.write)
      ensures 0 < i ==> m.blocks[i].at == Next(g, m.blocks[i - 1])
    {
      if i < n { assert m.blocks[i] == l.blocks[i]; }
    }
    forall i, j | 0 <= i < j <= n
      ensures Next(g, m.blocks[i]).Le(m.blocks[j].at)
    {
      assert m.blocks[i] == l.blocks[i];
      if j < n { assert m.blocks[j] == l.blocks[j]; }
    }
  }

  lemma {:induction false} EndAligned(g: Geo, b: Block)
    requires g.Ok() && BlockOk(g, b)
    ensures g.Aligned(End(g, b)) && g.Aligned(Next(g, b).pos)
  {
    var p, q := b.at.pos, g.Align(|b.data|);
    AddMultiple(p, g.header, g.align);
    AddMultiple(p + g.header, q, g.align);
  }

  lemma {:induction false} AppendStored(g: Geo, mem: seq<Cell>, mem': seq<Cell>, l: Layout, b: Block)
    requires Tiled(g, l) && Stored(g, mem, l) && |mem'| == |mem| && BlockOk(g, b)
    requires forall x :: 0 <= x < |mem| && Used(l, x) ==> mem'[x] == mem[x]
    requires BlockMem(g, mem', b)
    ensures Stored(g, mem', Append(g, l, b))
  {
    StoredFrame(g, mem, mem', l);
  }

  /** Writing a block at the write pointer leaves every other block's bytes alone. */
  lemma {:induction false} WritingIsOutside(g: Geo, l: Layout, b: Block, x: nat)
    requires Tiled(g, l) && BlockOk(g, b) && b.at == l.write
    requires Next(g, b).Le(Place(l.free.lap + 1, l.free.pos))
    requires x < g.size && Used(l, x)
    ensures !(b.at.pos <= x < End(g, b))
  {
  }

  lemma {:induction false} PutStored(g: Geo, mem: seq<Cell>, mem': seq<Cell>, l: Layout, b: Block)
    requires Tiled(g, l) && Stored(g, mem, l) && |mem'| == |mem| && BlockOk(g, b) && b.at == l.write
    requires Next(g, b).Le(Place(l.free.lap + 1, l.free.pos))
    requires forall x :: 0 <= x < |mem| && !(b.at.pos <= x < b.at.pos + g.header + |b.data|) ==> mem'[x] == mem[x]
    requires BlockMem(g, mem', b)
    ensures Stored(g, mem', Append(g, l, b)) && Tiled(g, Append(g, l, b))
  {
    forall x | 0 <= x < |mem| && Used(l, x) ensures mem'[x] == mem[x] { WritingIsOutside(g, l, b, x); }
    AppendStored(g, mem, mem', l, b);
    AppendTiled(g, l, b);
  }

  // ---------- Returning ----------

  ghost function MarkFreed(l: Layout, k: nat): Layout
    requires k < |l.blocks|
  {
    l.(blocks := l.blocks[k := l.blocks[k].(freed := true)])
  }

  lemma {:induction false} MarkFreedTiled(g: Geo, l: Layout, k: nat)
    requires Tiled(g, l) && k < |l.blocks| && !l.blocks[k].dummy
    ensures Tiled(g, MarkFreed(l, k))
  {
    var m := MarkFreed(l, k);
    forall i | 0 <= i < |l.blocks|
      ensures m.blocks[i].at == l.blocks[i].at && BlockOk(g, m.blocks[i])
      ensures Next(g, m.blocks[i]) == Next(g, l.blocks[i])
    {
      FreedBlock(g, l.blocks[i]);
    }
    hide BlockOk, Next;
  }

  lemma {:induction false} FreedBlock(g: Geo, b: Block)
    requires g.Ok() && BlockOk(g, b)
    ensures !b.dummy ==> BlockOk(g, b.(freed := true)) && Next(g, b.(freed := true)) == Next(g, b)
  {
  }

  lemma {:induction false} MarkFreedStored(g: Geo, mem: seq<Cell>, l: Layout, k: nat)
    requires Tiled(g, l) && Stored(g, mem, l) && k < |l.blocks| && !l.blocks[k].dummy
    ensures Stored(g, mem[l.blocks[k].at.pos := Head(Header(|l.blocks[k].data|, true, false, false))], MarkFreed(l, k))
  {
    hide Tiled;
    var m := MarkFreed(l, k);
    var p := l.blocks[k].at.pos;
    var mem' := mem[p := Head(Header(|l.blocks[k].data|, true, false, false))];
    forall i | 0 <= i < |m.blocks|
      ensures BlockMem(g, mem', m.blocks[i])
    {
      assert BlockMem(g, mem, l.blocks[i]);
      BlockIsOk(g, l, i);
      BlockIsOk(g, l, k);
      if i != k { BlocksDisjoint(g, l, k, i, p); }
    }
  }

  lemma {:induction false} BlockIsOk(g: Geo, l: Layout, i: nat)
    requires Tiled(g, l) && i < |l.blocks|
    ensures g.Ok() && BlockOk(g, l.blocks[i])
  {
  }

  ghost function DropFirst(g: Geo, l: Layout): Layout
    requires Tiled(g, l) && 0 < |l.blocks| && 0 < l.taken
  {
    l.(blocks := l.blocks[1..], taken := l.taken - 1, free := Next(g, l.blocks[0]))
  }

  lemma {:induction false} DropFirstTiled(g: Geo, l: Layout)
    requires Tiled(g, l) && 0 < |l.blocks| && 0 < l.taken
    ensures Tiled(g, DropFirst(g, l)) && !Full(DropFirst(g, l))
    ensures !Used(DropFirst(g, l), l.free.pos)
    ensures forall x :: Used(DropFirst(g, l), x) ==> Used(l, x)
  {
    var m := DropFirst(g, l);
    var b := l.blocks[0];
    EndAligned(g, b);
    assert b.at == l.free && Next(g, b).Le(l.write);
    forall i | 0 <= i < |m.blocks|
      ensures m.blocks[i] == l.blocks[i + 1] && BlockOk(g, m.blocks[i])
      ensures m.free.Le(m.blocks[i].at) && Next(g, m.blocks[i]).Le(m.write)
      ensures 0 < i ==> m.blocks[i].at == Next(g, m.blocks[i - 1])
    {
      assert Next(g, l.blocks[0]).Le(l.blocks[i + 1].at);
    }
    forall i, j | 0 <= i < j < |m.blocks|
      ensures Next(g, m.blocks[i]).Le(m.blocks[j].at)
    {
      assert Next(g, l.blocks[i + 1]).Le(l.blocks[j + 1].at);
    }
  }

  /** The free pointer meets the read pointer exactly when nothing lies between them, or when
      every block of a full ring has been retrieved. */
  lemma {:induction false} FreeMeetsRead(g: Geo, l: Layout)
    requires Tiled(g, l)
    ensures ReadPlace(l).pos == l.free.pos <==> l.taken == 0 || (Full(l) && l.taken == |l.blocks|)
    ensures ReadPlace(l).pos + g.header <= g.size && g.Aligned(ReadPlace(l).pos)
  {
    if l.taken == 0 {
    } else {
      var b := l.blocks[0];
      assert b.at == l.free;
      assert b.at.Le(Next(g, b)) && b.at != Next(g, b);
      if l.taken < |l.blocks| {
        var c := l.blocks[l.taken];
        assert Next(g, b).Le(c.at) && Next(g, c).Le(l.write);
      } else {
        assert Next(g, b).Le(l.write);
      }
    }
  }

  /** Reading meets writing on a ring that is not full exactly when nothing is waiting. */
  lemma {:induction false} ReadMeetsWrite(g: Geo, l: Layout)
    requires Tiled(g, l)
    ensures l.taken == |l.blocks| ==> ReadPlace(l).pos == l.write.pos
    ensures l.taken < |l.blocks| && ReadPlace(l).pos == l.write.pos ==> Full(l) && l.taken == 0
  {
    if l.taken < |l.blocks| {
      var c := l.blocks[l.taken];
      assert l.free.Le(c.at) && Next(g, c).Le(l.write);
      if 0 < l.taken { assert Next(g, l.blocks[0]).Le(c.at) && l.blocks[0].at == l.free; }
    }
  }

  // ---------- Held items ----------

  lemma {:induction false} HeldIsUnique(g: Geo, l: Layout, i: nat, j: nat)
    requires Tiled(g, l) && i < |l.blocks| && j < |l.blocks| && l.blocks[i].at.pos == l.blocks[j].at.pos
    ensures i == j
  {
    if i != j { BlocksDisjoint(g, l, i, j, l.blocks[i].at.pos); }
  }

  /** Returning block `k` takes exactly its address out of what the application holds. */
  lemma {:induction false} MarkFreedHolds(g: Geo, l: Layout, k: nat, q: nat, d: Bytes)
    requires Tiled(g, l) && k < l.taken
    ensures Holds(g, MarkFreed(l, k), q, d) <==> Holds(g, l, q, d) && q != l.blocks[k].at.pos + g.header
  {
    hide Tiled;
    PointersInside(g, l);
    var m := MarkFreed(l, k);
    if Holds(g, m, q, d) {
      var i :| 0 <= i < m.taken && i < |m.blocks| && HeldBlock(g, m.blocks[i], q, d);
      assert HeldBlock(g, l.blocks[i], q, d);
      if q == l.blocks[k].at.pos + g.header { HeldIsUnique(g, l, i, k); }
    }
    if Holds(g, l, q, d) && q != l.blocks[k].at.pos + g.header {
      var i :| 0 <= i < l.taken && i < |l.blocks| && HeldBlock(g, l.blocks[i], q, d);
      assert HeldBlock(g, m.blocks[i], q, d);
    }
  }

  lemma {:induction false} DropFirstHolds(g: Geo, l: Layout, q: nat, d: Bytes)
    requires Tiled(g, l) && 0 < |l.blocks| && 0 < l.taken
    requires l.blocks[0].dummy || l.blocks[0].freed
    ensures Holds(g, DropFirst(g, l), q, d) <==> Holds(g, l, q, d)
  {
    var m := DropFirst(g, l);
    if Holds(g, m, q, d) {
      var i :| 0 <= i < m.taken && i < |m.blocks| && HeldBlock(g, m.blocks[i], q, d);
      assert HeldBlock(g, l.blocks[i + 1], q, d);
    }
    if Holds(g, l, q, d) {
      var i :| 0 <= i < l.taken && i < |l.blocks| && HeldBlock(g, l.blocks[i], q, d);
      assert HeldBlock(g, m.blocks[i - 1], q, d);
    }
  }

  // ---------- Parts ----------

  lemma {:induction false} PartsConcat(a: seq<Block>, b: seq<Block>)
    ensures Parts(a + b) == Parts(a) + Parts(b)
  {
    if a == [] {
      assert a + b == b;
    } else {
      assert (a + b)[0] == a[0] && (a + b)[1..] == a[1..] + b;
      PartsConcat(a[1..], b);
    }
  }

  lemma {:induction false} JoinAppend(ps: seq<Part>, qs: seq<Part>)
    requires Closed(ps)
    ensures Join(ps + qs) == Join(ps) + Join(qs)
  {
    if ps == [] {
      assert ps + qs == qs;
    } else {
      assert (ps + qs)[0] == ps[0] && (ps + qs)[1..] == ps[1..] + qs;
      JoinAppend(ps[1..], qs);
    }
  }

  /** The blocks one send of `item` adds: the item at the write pointer if it fits before the end of the
      storage; otherwise, in an allow-split ring with room for more than a header there, two parts; and
      otherwise a dummy, and the item at the head. */
  ghost function SentBlocks(g: Geo, split: bool, l: Layout, item: Bytes): seq<Block>
    requires 1 <= g.align
  {
    var tail, head := g.size - l.write.pos, Place(l.write.lap + 1, 0);
    if g.Align(|item|) + g.header <= tail then [Block(l.write, item, false, false, false)]
    else if split && g.header < tail < g.header + |item| then
      [Block(l.write, item[..tail - g.header], false, false, true),
          Block(head, item[tail - g.header..], false, false, false)]
    else [Block(l.write, [], true, false, false), Block(head, item, false, false, false)]
  }

  /** The blocks one send may add: an item; a dummy and an item; the two parts of an item. */
  ghost predicate OneItem(bs: seq<Block>, item: Bytes) {
    && (|bs| == 1 || |bs| == 2)
    && (forall i :: 0 <= i < |bs| ==> !bs[i].freed)
    && !bs[|bs| - 1].dummy && !bs[|bs| - 1].more
    && (|bs| == 1 ==> bs[0].data == item)
    && (|bs| == 2 ==>
          && bs[0].dummy != bs[0].more && (if bs[0].dummy then bs[0].data == [] else bs[1].data != [])
          && bs[0].data + bs[1].data == item)
  }

  lemma {:induction false} SendShaped(g: Geo, l: Layout, m: Layout, bs: seq<Block>, item: Bytes)
    requires Tiled(g, l) && Tiled(g, m) && Shaped(g, l) && OneItem(bs, item)
    requires m.blocks == l.blocks + bs && m.taken == l.taken
    ensures Shaped(g, m)
  {
    hide Tiled;
    PointersInside(g, l);
    forall i | 0 <= i < |m.blocks|
      ensures m.blocks[i] == if i < |l.blocks| then l.blocks[i] else bs[i - |l.blocks|]
    {
    }
  }

  lemma {:induction false} OneItemSize(bs: seq<Block>, item: Bytes)
    requires OneItem(bs, item)
    ensures 1 <= |bs| <= 2
  {
  }

  lemma {:induction false} OneItemJoin(bs: seq<Block>, item: Bytes)
    requires OneItem(bs, item)
    ensures Join(Parts(bs)) == [item] && Closed(Parts(bs)) && Parts(bs) != []
    ensures |Parts(bs)| == if bs[0].more then 2 else 1
  {
    if |bs| == 1 {
      assert bs[1..] == [];
      assert Parts(bs) == [Part(item, false)];
      assert Parts(bs)[1..] == [];
    } else {
      var b := bs[1];
      assert bs[1..] == [b] && [b][1..] == [];
      assert Parts([b]) == [Part(b.data, false)];
      assert Parts([b])[1..] == [];
      assert Join(Parts([b])) == [b.data];
      if bs[0].dummy {
        assert bs[0].data + b.data == b.data;
      } else {
        assert Parts(bs) == [Part(bs[0].data, true)] + Parts([b]);
        assert Parts(bs)[1..] == Parts([b]);
      }
    }
  }

  /** One send adds exactly one item to the sequence of items. */
  lemma {:induction false} SendJoin(got: seq<Part>, bs0: seq<Block>, bs: seq<Block>, item: Bytes)
    requires Closed(got + Parts(bs0)) && OneItem(bs, item)
    ensures Join(got + Parts(bs0 + bs)) == Join(got + Parts(bs0)) + [item]
    ensures Closed(got + Parts(bs0 + bs))
    ensures |Parts(bs0 + bs)| == |Parts(bs0)| + |Parts(bs)| && |Parts(bs)| == if bs[0].more then 2 else 1
  {
    OneItemJoin(bs, item);
    hide Parts, Join, OneItem;
    PartsConcat(bs0, bs);
    assert got + (Parts(bs0) + Parts(bs)) == (got + Parts(bs0)) + Parts(bs);
    JoinAppend(got + Parts(bs0), Parts(bs));
  }

  lemma {:induction false} PointersInside(g: Geo, l: Layout)
    requires Tiled(g, l)
    ensures g.Ok() && g.Aligned(l.write.pos) && l.write.pos + g.header <= g.size
    ensures g.Aligned(l.free.pos) && l.free.pos + g.header <= g.size
    ensures l.taken <= |l.blocks|
  {
  }

  lemma {:induction false} PointerOrder(g: Geo, l: Layout)
    requires Tiled(g, l)
    ensures l.free.Le(l.write) && l.write.Le(Place(l.free.lap + 1, l.free.pos))
  {
  }

  lemma {:induction false} EmptyEnds(g: Geo, l: Layout)
    requires Tiled(g, l)
    ensures l.taken <= |l.blocks| && (l.blocks == [] ==> l.free == l.write && !Full(l))
  {
  }

  lemma {:induction false} FullByPointers(g: Geo, l: Layout)
    requires Tiled(g, l)
    ensures |l.blocks| == 0 ==> !Full(l) && l.write.pos == l.free.pos
    ensures |l.blocks| > 0 ==> (Full(l) <==> l.write.pos == l.free.pos)
  {
    if |l.blocks| > 0 {
      var b := l.blocks[0];
      assert b.at == l.free && Next(g, b).Le(l.write);
      assert b.at.Le(Next(g, b)) && b.at != Next(g, b);
    }
  }

  // ---------- Retrieving ----------

  /** The block the next retrieval hands out: a dummy at the read pointer is skipped. */
  ghost function NextOut(l: Layout): nat
    requires l.taken < |l.blocks|
  {
    if l.blocks[l.taken].dummy then l.taken + 1 else l.taken
  }

  ghost function Take(l: Layout): Layout
    requires l.taken < |l.blocks|
  {
    l.(taken := NextOut(l) + 1)
  }

  /** A retrieval of a whole item: both parts if it is split. */
  ghost function TakeItem(l: Layout): Layout
    requires l.taken < |l.blocks|
  {
    var m := Take(l);
    if m.taken < |l.blocks| && l.blocks[NextOut(l)].more then Take(m) else m
  }

  lemma {:induction false} NextOutOk(g: Geo, l: Layout)
    requires Tiled(g, l) && Shaped(g, l) && l.taken < |l.blocks|
    ensures NextOut(l) < |l.blocks| && !l.blocks[NextOut(l)].dummy && !l.blocks[NextOut(l)].freed
    ensures BlockOk(g, l.blocks[NextOut(l)]) && BlockOk(g, l.blocks[l.taken])
    ensures l.blocks[l.taken].dummy ==> l.blocks[NextOut(l)].at.pos == 0
    ensures (if NextOut(l) + 1 < |l.blocks| then l.blocks[NextOut(l) + 1].at else l.write)
              == Next(g, l.blocks[NextOut(l)])
  {
    var k := NextOut(l);
    if k > l.taken { assert l.blocks[k].at == Next(g, l.blocks[k - 1]); }
    if k + 1 < |l.blocks| { assert l.blocks[k + 1].at == Next(g, l.blocks[k]); }
  }

  lemma {:induction false} TakeTiled(g: Geo, l: Layout)
    requires Tiled(g, l) && Shaped(g, l) && l.taken < |l.blocks|
    ensures NextOut(l) < |l.blocks| && !l.blocks[NextOut(l)].dummy && !l.blocks[NextOut(l)].freed
    ensures BlockOk(g, l.blocks[NextOut(l)]) && BlockOk(g, l.blocks[l.taken])
    ensures l.blocks[l.taken].dummy ==> l.blocks[NextOut(l)].at.pos == 0
    ensures Tiled(g, Take(l)) && Shaped(g, Take(l))
    ensures ReadPlace(Take(l)) == Next(g, l.blocks[NextOut(l)])
  {
    hide Tiled, BlockOk, Next;
    PointersInside(g, l);
    NextOutOk(g, l);
    TakeStaysTiled(g, l);
  }

  /** Tiling does not depend on how much has been retrieved. */
  lemma {:induction false} TakeStaysTiled(g: Geo, l: Layout)
    requires Tiled(g, l) && l.taken < |l.blocks| && NextOut(l) < |l.blocks|
    ensures Tiled(g, Take(l))
  {
    hide BlockOk, Next;
  }

  lemma {:induction false} TakeHolds(g: Geo, l: Layout, q: nat, d: Bytes)
    requires Tiled(g, l) && Shaped(g, l) && l.taken < |l.blocks|
    ensures NextOut(l) < |l.blocks|
    ensures Holds(g, Take(l), q, d) <==> Holds(g, l, q, d) || HeldBlock(g, l.blocks[NextOut(l)], q, d)
  {
    hide Tiled;
    PointersInside(g, l);
    NextOutOk(g, l);
    var m, k := Take(l), NextOut(l);
    if HeldBlock(g, l.blocks[k], q, d) { assert HeldBlock(g, m.blocks[k], q, d); }
    if Holds(g, l, q, d) {
      var i :| 0 <= i < l.taken && i < |l.blocks| && HeldBlock(g, l.blocks[i], q, d);
      assert HeldBlock(g, m.blocks[i], q, d);
    }
  }

  /** Retrieval takes the oldest waiting part. */
  lemma {:induction false} TakeParts(g: Geo, l: Layout, got: seq<Part>)
    requires Tiled(g, l) && Shaped(g, l) && l.taken < |l.blocks|
    ensures NextOut(l) < |l.blocks|
    ensures var b := l.blocks[NextOut(l)];
            Parts(l.blocks[l.taken..]) == [Part(b.data, b.more)] + Parts(l.blocks[NextOut(l) + 1..])
    ensures var b := l.blocks[NextOut(l)];
            got + Parts(l.blocks[l.taken..]) == (got + [Part(b.data, b.more)]) + Parts(l.blocks[NextOut(l) + 1..])
  {
    hide Tiled, Shaped;
    TakeTiled(g, l);
    var k := NextOut(l);
    var rest := l.blocks[l.taken..];
    assert rest[1..] == l.blocks[l.taken + 1..];
    if k > l.taken { assert rest[1..][1..] == l.blocks[k + 1..] && rest[1..][0] == l.blocks[k]; }
  }

  /** Something waits exactly when not every block has been retrieved. */
  lemma {:induction false} PartsLeft(g: Geo, l: Layout)
    requires Tiled(g, l) && Shaped(g, l)
    ensures Parts(l.blocks[l.taken..]) != [] <==> l.taken < |l.blocks|
  {
    if l.taken < |l.blocks| { TakeParts(g, l, []); }
  }

  // ---------- Reclaiming ----------

  ghost predicate Reclaimable(b: Block) { b.dummy || b.freed }

  lemma {:induction false} DropFirstShaped(g: Geo, l: Layout)
    requires Tiled(g, l) && Shaped(g, l) && 0 < |l.blocks| && 0 < l.taken
    ensures Tiled(g, DropFirst(g, l)) && Shaped(g, DropFirst(g, l))
    ensures ReadPlace(DropFirst(g, l)) == ReadPlace(l)
    ensures DropFirst(g, l).blocks[DropFirst(g, l).taken..] == l.blocks[l.taken..]
  {
    hide Tiled, Next;
    PointersInside(g, l);
    var m := DropFirst(g, l);
    DropFirstTiled(g, l);
    DropFirstParts(g, l);
  }

  lemma {:induction false} DropFirstParts(g: Geo, l: Layout)
    requires Tiled(g, l) && 0 < |l.blocks| && 0 < l.taken
    ensures var m := DropFirst(g, l);
            && |m.blocks| == |l.blocks| - 1 && (forall i :: 0 <= i < |m.blocks| ==> m.blocks[i] == l.blocks[i + 1])
            && m.free == Next(g, l.blocks[0]) && m.write == l.write && m.taken == l.taken - 1
  {
  }

  /** Freeing the first block leaves the other blocks' bytes alone, whatever happens to its header. */
  lemma {:induction false} DropFirstStored(g: Geo, mem: seq<Cell>, l: Layout, c: Cell)
    requires Tiled(g, l) && Stored(g, mem, l) && 0 < |l.blocks| && 0 < l.taken
    ensures Stored(g, mem, DropFirst(g, l)) && Stored(g, mem[l.free.pos := c], DropFirst(g, l))
  {
    var m := DropFirst(g, l);
    DropFirstTiled(g, l);
    forall i | 0 <= i < |m.blocks| ensures BlockMem(g, mem, m.blocks[i]) { assert m.blocks[i] == l.blocks[i + 1]; }
    StoredFrame(g, mem, mem[l.free.pos := c], m);
  }

  lemma {:induction false} MarkFreedShaped(g: Geo, l: Layout, k: nat)
    requires Tiled(g, l) && Shaped(g, l) && k < l.taken && !l.blocks[k].dummy
    ensures Tiled(g, MarkFreed(l, k)) && Shaped(g, MarkFreed(l, k))
    ensures MarkFreed(l, k).blocks[l.taken..] == l.blocks[l.taken..]
    ensures ReadPlace(MarkFreed(l, k)) == ReadPlace(l)
  {
    hide Tiled;
    PointersInside(g, l);
    MarkFreedTiled(g, l, k);
  }
}
