/** No-split and allow-split ring buffers: the item modes of ringbuf.c. Each method is one
    critical section (or the static function called inside it). */
module ItemRing {
  import opened RingLayout
  import opened RingLemmas
  import opened RingRoom

  class ItemRing {
    const g: Geo
    const allowSplit: bool        // rbALLOW_SPLIT_FLAG
    const maxItemSize: nat        // xMaxItemSize
    const store: array<Cell>      // pucHead .. pucTail
    var write: nat                // pucWrite - pucHead
    var read: nat                 // pucRead - pucHead
    var free: nat                 // pucFree - pucHead
    var full: bool                // rbBUFFER_FULL_FLAG
    var waiting: int              // xItemsWaiting

    ghost var l: Layout           // how blocks tile the storage
    ghost var sent: seq<Bytes>    // every item ever accepted, in order
    ghost var got: seq<Part>      // every part ever retrieved, in order

    ghost predicate Valid()
      reads this, store
    {
      && Wired() && Accounts(g, l, full, waiting, got, sent)
      && PartsAllowed(allowSplit, got)
    }

    /** The pointers and the memory agree with the layout. */
    ghost predicate Wired()
      reads this, store
    {
      WiredTo(g, allowSplit, maxItemSize, store[..], write, read, free, l)
    }

    ghost predicate Hazard()
      reads this
    {
      Misread(l)
    }

    // ---------- Creation ----------

    /** xRingbufferCreate for the two item types, with sizes of 32 bits. The new ring is valid unless
        xMaxItemSize has wrapped below zero. */
    constructor (size: nat, header: nat, align: nat, allowSplit: bool)
      requires 1 <= align && 1 <= header < 0x8000_0000 && Multiple(header, align)
      requires Geo(size, header, align).Align(size) < 0x1_0000_0000
      ensures g == Geo(Geo(size, header, align).Align(size), header, align)
      ensures maxItemSize == MaxItemSize32(g.size, header, align, allowSplit)
      ensures Valid() <==> MaxFits(g.size, header, align, allowSplit)
      ensures this.allowSplit == allowSplit && sent == [] && got == []
      ensures l == Layout(Place(0, 0), Place(0, 0), [], 0)
      ensures fresh(store)
    {
      var n := Geo(size, header, align).Align(size);
      CreationSound(n, header, align, allowSplit);
      HalfAligned(n, header, align);
      g := Geo(n, header, align);
      this.allowSplit := allowSplit;
      maxItemSize := (MaxBase(n, header, align, allowSplit) - header) % 0x1_0000_0000;
      store := new Cell[n](_ => Byte(0));
      write, read, free := 0, 0, 0;
      full, waiting := false, 0;
      l := Layout(Place(0, 0), Place(0, 0), [], 0);
      sent, got := [], [];
    }

    // ---------- Sending ----------

    method WriteHeader(p: nat, h: Header)
      requires g.Ok() && store.Length == g.size && p + g.header <= g.size
      modifies store
      ensures HeaderAt(g, store[..], p, h)
      ensures forall x :: 0 <= x < g.size && !(p <= x < p + g.header) ==> store[x] == old(store[x])
    {
      store[p] := Head(h);
      forall k | p < k < p + g.header { store[k] := HeadRest; }
    }

    method CopyIn(p: nat, data: Bytes)
      requires g.Ok() && store.Length == g.size && p + |data| <= g.size
      modifies store
      ensures PayloadAt(store[..], p, data)
      ensures forall x :: 0 <= x < g.size && !(p <= x < p + |data|) ==> store[x] == old(store[x])
    {
      forall k | 0 <= k < |data| { store[p + k] := Byte(data[k]); }
    }

    /** The two writes that put a block into memory. */
    method WriteBlock(ghost b: Block, data: Bytes, dummy: bool, more: bool)
      requires g.Ok() && store.Length == g.size && BlockOk(g, b)
      requires b == Block(Place(b.at.lap, write), data, dummy, false, more)
      modifies store
      ensures BlockMem(g, store[..], b)
      ensures forall x :: 0 <= x < g.size && !(write <= x < write + g.header + |data|) ==> store[x] == old(store[x])
    {
      WriteHeader(write, Header(|data|, false, dummy, more));
      label L:
      CopyIn(write + g.header, data);
      assert forall x :: 0 <= x < write + g.header ==> store[x] == old@L(store[x]);
    }

    /** Lays one block down at the write pointer and moves the pointer behind it, round to the
        head when no further header fits. */
    method PutBlock(data: Bytes, dummy: bool, more: bool)
      requires Wired() && |data| <= maxItemSize && (more ==> allowSplit)
      requires BlockOk(g, Block(l.write, data, dummy, false, more))
      requires Next(g, Block(l.write, data, dummy, false, more)).Le(Place(l.free.lap + 1, l.free.pos))
      modifies this`write, this`l, store
      ensures Wired() && Tiled(g, l)
      ensures l.blocks == old(l.blocks) + [Block(old(l.write), data, dummy, false, more)]
      ensures l.write == Next(g, Block(old(l.write), data, dummy, false, more))
      ensures l.free == old(l.free) && l.taken == old(l.taken)
    {
      hide Tiled, Stored, MaxOk, HeaderAt, PayloadAt;
      ghost var b := Block(l.write, data, dummy, false, more);
      ghost var mem := store[..];
      PointersInside(g, l);
      assert |mem| == g.size by { StoredSize(g, mem, l); }
      WriteBlock(b, data, dummy, more);
      PutWired(g, allowSplit, maxItemSize, mem, store[..], write, read, free, l, b);
      var next := write + g.header + g.Align(|data|);
      l := Append(g, l, b);
      if dummy || g.size - next < g.header {
        write := 0;
      } else {
        write := next;
      }
    }

    /** prvCheckItemFitsDefault, called by a send for sizes up to xMaxItemSize. */
    predicate CheckItemFits(n: nat)
      requires Valid() && n <= maxItemSize
      reads this, store
      ensures CheckItemFits(n) <==> Room(g, l, allowSplit, n)
    {
      RoomCases(g, l, allowSplit, maxItemSize, n);
      assert g.Aligned(write) && write < g.size;
      FitsByPointers(g, allowSplit, write, free, full, n)
    }

    /** The common end of both copy functions: lays down the item (or what is left of it), counts
        the parts and notes when the ring is full. `bs` holds the blocks this send has already laid down. */
    method PutItem(ghost l0: Layout, ghost bs: seq<Block>, rest: Bytes, ghost item: Bytes, parts: nat)
      requires Wired() && Tiled(g, l0) && Accounts(g, l0, full, waiting, got, sent) && !full
      requires PartsAllowed(allowSplit, got)
      requires var b := Block(l.write, rest, false, false, false);
               && BlockOk(g, b) && Next(g, b).Le(Place(l.free.lap + 1, l.free.pos)) && |rest| <= maxItemSize
               && OneItem(bs + [b], item) && parts == if (bs + [b])[0].more then 2 else 1
      requires l.blocks == l0.blocks + bs && l.taken == l0.taken && l.free == l0.free
      modifies this, store
      ensures Valid() && sent == old(sent) + [item] && got == old(got) && l.taken == old(l.taken) < |l.blocks|
      ensures l.blocks == l0.blocks + (bs + [Block(old(l.write), rest, false, false, false)]) && l.free == l0.free
      ensures forall p, d :: Holds(g, l, p, d) <==> Holds(g, l0, p, d)
    {
      hide Tiled, Stored, Shaped, Parts, Join, Holds, MaxOk, OneItem, BlockOk, PartsAllowed, Accounts;
      ghost var b := Block(l.write, rest, false, false, false);
      PointersInside(g, l);
      PutBlock(rest, false, false);
      ghost var mem := store[..];
      assert l.blocks == l0.blocks + (bs + [b]);
      SentAccounts(g, l0, l, bs + [b], item, waiting, got, sent);
      waiting := waiting + parts;
      if write == free { full := true; }
      sent := sent + [item];
      assert store[..] == mem;
    }

    /** The rest of the storage becomes dummy data, and the item goes to the head. */
    method PutBehindDummy(item: Bytes)
      requires Valid() && |item| <= maxItemSize && Room(g, l, allowSplit, |item|)
      requires g.Align(|item|) + g.header > g.size - write && (allowSplit ==> g.size - write == g.header)
      modifies this, store
      ensures Valid() && sent == old(sent) + [item] && got == old(got) && l.taken == old(l.taken) < |l.blocks|
      ensures l.blocks == old(l.blocks) + old(SentBlocks(g, allowSplit, l, item)) && l.free == old(l.free)
      ensures forall p, d :: Holds(g, l, p, d) <==> old(Holds(g, l, p, d))
    {
      hide Tiled, Stored, Shaped, Parts, Join, Holds, MaxOk, BlockOk, Room, Accounts, PartsAllowed, OneItem, SentBlocks;
      BeforeSend(g, l, allowSplit, |item|, full, waiting, got, sent);
      ghost var l0 := l;
      ghost var d := Block(l.write, [], true, false, false);
      ghost var b := Block(Place(l.write.lap + 1, 0), item, false, false, false);
      DummyPlan(g, l, allowSplit, item, d, b);
      PutBlock([], true, false);
      assert [d] + [b] == [d, b];
      PutItem(l0, [d], item, item, 1);
    }

    /** prvCopyItemNoSplit. */
    method CopyItemNoSplit(item: Bytes)
      requires Valid() && !allowSplit && |item| <= maxItemSize && Room(g, l, false, |item|)
      modifies this, store
      ensures Valid() && sent == old(sent) + [item] && got == old(got) && l.taken == old(l.taken) < |l.blocks|
      ensures l.blocks == old(l.blocks) + old(SentBlocks(g, false, l, item)) && l.free == old(l.free)
      ensures forall p, d :: Holds(g, l, p, d) <==> old(Holds(g, l, p, d))
    {
      hide Tiled, Stored, Shaped, Parts, Join, Holds, MaxOk, BlockOk, Room, Accounts, PartsAllowed, OneItem, SentBlocks;
      BeforeSend(g, l, false, |item|, full, waiting, got, sent);
      var aligned := g.Align(|item|);
      var rem := g.size - write;
      assert g.Aligned(write) && write < g.size && rem >= g.header;
      ghost var l0 := l;
      if rem < aligned + g.header {
        PutBehindDummy(item);
      } else {
        ghost var b := Block(l.write, item, false, false, false);
        WholePlan(g, l, false, item, b);
        assert l.blocks == l0.blocks + [] && [] + [b] == [b];
        PutItem(l0, [], item, item, 1);
      }
    }

    /** The two parts of an item that does not fit before the end of the storage: the first takes all
        the room there is, the second goes to the head. */
    method PutTwoParts(item: Bytes, room: nat)
      requires Valid() && allowSplit && |item| <= maxItemSize && Room(g, l, true, |item|)
      requires 0 < room < |item| && room == g.size - write - g.header && g.Align(room) == room
      requires g.Align(|item|) + g.header > g.size - write
      requires g.Align(|item| - room) == g.Align(|item|) - room
      modifies this, store
      ensures Valid() && sent == old(sent) + [item] && got == old(got) && l.taken == old(l.taken) < |l.blocks|
      ensures l.blocks == old(l.blocks) + old(SentBlocks(g, true, l, item)) && l.free == old(l.free)
      ensures forall p, d :: Holds(g, l, p, d) <==> old(Holds(g, l, p, d))
    {
      hide Tiled, Stored, Shaped, Parts, Join, Holds, MaxOk, BlockOk, Room, Accounts, PartsAllowed, OneItem, SentBlocks;
      BeforeSend(g, l, true, |item|, full, waiting, got, sent);
      ghost var l0 := l;
      ghost var a := Block(l.write, item[..room], false, false, true);
      ghost var b := Block(Place(l.write.lap + 1, 0), item[room..], false, false, false);
      TwoPartsPlan(g, l, item, room, a, b);
      PutBlock(item[..room], false, true);
      assert [a] + [b] == [a, b];
      PutItem(l0, [a], item[room..], item, 2);
    }

    /** prvCopyItemAllowSplit. */
    method CopyItemAllowSplit(item: Bytes)
      requires Valid() && allowSplit && |item| <= maxItemSize && Room(g, l, true, |item|)
      modifies this, store
      ensures Valid() && sent == old(sent) + [item] && got == old(got) && l.taken == old(l.taken) < |l.blocks|
      ensures l.blocks == old(l.blocks) + old(SentBlocks(g, true, l, item)) && l.free == old(l.free)
      ensures forall p, d :: Holds(g, l, p, d) <==> old(Holds(g, l, p, d))
    {
      hide Tiled, Stored, Shaped, Parts, Join, Holds, MaxOk, BlockOk, Room, Accounts, PartsAllowed, OneItem, SentBlocks;
      BeforeSend(g, l, true, |item|, full, waiting, got, sent);
      var aligned := g.Align(|item|);
      var rem := g.size - write;
      assert g.Aligned(write) && write < g.size && rem >= g.header;
      ghost var l0 := l;
      if rem < aligned + g.header {
        SplitSizes(g, l, |item|);
        var room := rem - g.header;
        if room > 0 {
          PutTwoParts(item, room);
        } else {
          PutBehindDummy(item);
        }
      } else {
        ghost var b := Block(l.write, item, false, false, false);
        WholePlan(g, l, true, item, b);
        assert l.blocks == l0.blocks + [] && [] + [b] == [b];
        PutItem(l0, [], item, item, 1);
      }
    }

    /** The critical section of xRingbufferSend. */
    method Send(item: Bytes) returns (ok: bool)
      requires Valid()
      modifies this, store
      ensures Valid() && got == old(got) && l.taken == old(l.taken)
      ensures ok ==> l.taken < |l.blocks|
      ensures ok <==> |item| <= maxItemSize && old(Room(g, l, allowSplit, |item|))
      ensures sent == if ok then old(sent) + [item] else old(sent)
      ensures ok ==> l.blocks == old(l.blocks) + old(SentBlocks(g, allowSplit, l, item)) && l.free == old(l.free)
      ensures !ok ==> store[..] == old(store[..]) && l == old(l)
      ensures forall p, d :: Holds(g, l, p, d) <==> old(Holds(g, l, p, d))
    {
      if |item| > maxItemSize {
        return false;
      }
      ok := CheckItemFits(|item|);
      hide *;
      if ok {
        if allowSplit {
          CopyItemAllowSplit(item);
        } else {
          CopyItemNoSplit(item);
        }
      }
    }

    // ---------- Retrieving ----------

    /** prvCheckItemAvail for item buffers: some part is waiting. */
    predicate CheckItemAvail()
      requires Valid()
      reads this, store
      ensures CheckItemAvail() <==> Parts(l.blocks[l.taken..]) != []
      ensures CheckItemAvail() <==> l.taken < |l.blocks|
    {
      PartsLeft(g, l);
      ReadMeetsWrite(g, l);
      waiting > 0 && (read != write || full)
    }

    function HeaderOf(p: nat): Header
      requires p < store.Length && store[p].Head?
      reads store
    {
      store[p].h
    }

    /** Finds the item at the read pointer, stepping over a dummy, and where reading goes on. */
    method FindItem() returns (p: nat, h: Header, next: nat)
      requires Valid() && l.taken < |l.blocks|
      ensures NextOut(l) < |l.blocks| && Tiled(g, l) && BlockOk(g, l.blocks[NextOut(l)])
      ensures var b := l.blocks[NextOut(l)];
              && h == Header(|b.data|, false, false, b.more) && next == Next(g, b).pos
              && p == b.at.pos + g.header && p + |b.data| <= g.size && PayloadAt(store[..], p, b.data)
    {
      hide Tiled, Stored, Shaped, Accounts, Join, Holds, MaxOk, BlockOk, WiredTo, PayloadAt;
      HeaderFound(g, allowSplit, maxItemSize, store[..], write, read, free, l, full, waiting, got, sent);
      var at := read;
      assert store[..][at] == store[at];
      h := HeaderOf(at);
      assert g.Aligned(at) && at < g.size && (h.len <= maxItemSize || h.dummy);
      if h.dummy {
        at := 0;
        assert store[..][at] == store[at];
        h := HeaderOf(at);
        assert h.len <= maxItemSize;
      }
      p := at + g.header;
      assert if h.len == 0 then p <= g.size else p < g.size;
      next := p + g.Align(h.len);
      if g.size - next < g.header {
        next := 0;
      }
    }

    /** prvGetItemDefault: hands out the address and size of the oldest waiting part. */
    method GetItem() returns (p: nat, len: nat, isSplit: bool)
      requires Valid() && l.taken < |l.blocks|
      modifies this`read, this`waiting, this`l, this`got
      ensures Valid() && l == Take(old(l)) && NextOut(old(l)) < |l.blocks|
      ensures var b := l.blocks[NextOut(old(l))];
              && got == old(got) + [Part(b.data, b.more)] && isSplit == b.more && len == |b.data|
              && p == b.at.pos + g.header && p + len <= g.size && PayloadAt(store[..], p, b.data)
              && (forall q, d :: Holds(g, l, q, d) <==> old(Holds(g, l, q, d)) || (q == p && d == b.data))
    {
      hide Tiled, Stored, Shaped, Parts, Join, Holds, MaxOk, BlockOk, WiredTo, Accounts, Take, PayloadAt, PartsAllowed;
      TakeStep(g, allowSplit, maxItemSize, store[..], write, read, free, l, full, waiting, got, sent);
      ghost var mem := store[..];
      ghost var b := l.blocks[NextOut(l)];
      var h, next;
      p, h, next := FindItem();
      len, isSplit := h.len, h.split;
      waiting := waiting - 1;
      read := next;
      got := got + [Part(b.data, b.more)];
      l := Take(l);
      assert store[..] == mem;
      assert l.blocks == old(l.blocks);
    }

    /** The critical section of a single receive. */
    method Receive() returns (ok: bool, p: nat, len: nat, ghost data: Bytes)
      requires Valid()
      modifies this`read, this`waiting, this`l, this`got
      ensures Valid() && ok == old(l.taken < |l.blocks|)
      ensures !ok ==> l == old(l) && got == old(got)
      ensures ok ==>
                && l == Take(old(l)) && |got| == |old(got)| + 1 && got[..|old(got)|] == old(got)
                && data == got[|old(got)|].data && len == |data| && PayloadAt(store[..], p, data)
                && NextOut(old(l)) < |l.blocks| && p == l.blocks[NextOut(old(l))].at.pos + g.header
                && (forall q, d :: Holds(g, l, q, d) <==> old(Holds(g, l, q, d)) || (q == p && d == data))
    {
      ok := CheckItemAvail();
      hide *;
      if ok {
        var isSplit;
        p, len, isSplit := GetItem();
        data := got[|got| - 1].data;
      } else {
        p, len, data := 0, 0, [];
      }
    }

    /** The critical section of a two-part receive on an allow-split ring. At an item boundary it
        hands out exactly the next item, in one part or in two non-empty parts of which the second
        lies below the first. */
    method ReceiveSplit()
      returns (ok: bool, p1: nat, len1: nat, two: bool, p2: nat, len2: nat, ghost d1: Bytes, ghost d2: Bytes)
      requires Valid() && allowSplit
      modifies this`read, this`waiting, this`l, this`got
      ensures Valid() && ok == old(l.taken < |l.blocks|)
      ensures !ok ==> l == old(l) && got == old(got)
      ensures ok ==>
                && l == TakeItem(old(l))
                && got == old(got) + (if two then [Part(d1, true), Part(d2, false)] else [Part(d1, false)])
      ensures ok ==> NextOut(old(l)) < |old(l).blocks| && FromBlock(g, old(l).blocks[NextOut(old(l))], p1, d1, two)
      ensures ok && two ==>
                && NextOut(old(l)) + 1 < |old(l).blocks|
                && FromBlock(g, old(l).blocks[NextOut(old(l)) + 1], p2, d2, false)
      ensures ok ==> PayloadAt(store[..], p1, d1) && len1 == |d1|
      ensures ok ==> if two then PayloadAt(store[..], p2, d2) && len2 == |d2| && d1 != [] && d2 != [] && p2 < p1
                else d2 == []
      ensures ok && old(Closed(got)) ==> Closed(got) && Join(got) == old(Join(got)) + [d1 + d2]
      ensures ok ==> forall q, d :: Holds(g, l, q, d) <==>
                       old(Holds(g, l, q, d)) || (q == p1 && d == d1) || (two && q == p2 && d == d2)
    {
      hide Tiled, Stored, Shaped, Parts, Join, Holds, MaxOk, BlockOk, Accounts, PayloadAt, Closed, CheckItemAvail;
      ok := CheckItemAvail();
      p1, len1, two, p2, len2, d1, d2 := 0, 0, false, 0, 0, [], [];
      if !ok {
        return;
      }
      var isSplit;
      SecondPart(g, l, full, waiting, got, sent);
      ghost var l0, got0 := l, got;
      p1, len1, isSplit := GetItem();
      d1 := l.blocks[NextOut(l0)].data;
      if isSplit {
        ghost var got1 := got;
        assert NextOut(l) == l.taken;
        p2, len2, isSplit := GetItem();
        two := true;
        d2 := l.blocks[NextOut(l0) + 1].data;
        assert p2 < p1 && !isSplit;
        JoinTwo(got0, d1, d2);
        assert got == got0 + [Part(d1, true), Part(d2, false)];
      } else {
        JoinOne(got0, d1);
        assert d1 + d2 == d1;
      }
    }

    /** Whether the next item comes in two parts: what its header says. */
    predicate NextIsSplit()
      requires Valid() && l.taken < |l.blocks|
      reads this, store
      ensures NextOut(l) < |l.blocks| && (NextIsSplit() <==> l.blocks[NextOut(l)].more)
    {
      HeaderFound(g, allowSplit, maxItemSize, store[..], write, read, free, l, full, waiting, got, sent);
      assert store[..][read] == store[read];
      assert HeaderOf(read).dummy ==> store[..][0] == store[0];
      if HeaderOf(read).dummy then HeaderOf(0).split else HeaderOf(read).split
    }

    // ---------- Returning ----------

    /** One turn of the loop in prvReturnItemDefault: the free pointer moves past the first block. */
    method AdvanceFree()
      requires Wired() && Tiled(g, l) && Shaped(g, l) && 0 < l.taken && 0 < |l.blocks| && Reclaimable(l.blocks[0])
      modifies this`free, this`l, store
      ensures Wired() && Tiled(g, l) && Shaped(g, l)
      ensures l == DropFirst(g, old(l))
      ensures forall x :: 0 <= x < store.Length && !(x == old(free) && old(l.blocks[0].dummy)) ==>
                store[x] == old(store[x])
      ensures old(l.blocks[0].dummy) ==>
                old(free) < store.Length && store[old(free)] == Head(Header(0, true, true, false))
    {
      hide Tiled, Stored, Shaped, MaxOk, BlockOk, WiredTo, DropFirst;
      ghost var mem := store[..];
      FirstHeader(g, allowSplit, maxItemSize, mem, write, read, free, l);
      DropFirstShaped(g, l);
      assert mem[free] == store[free];
      var h := HeaderOf(free);
      DropWired(g, allowSplit, maxItemSize, mem, write, read, free, l, Head(h.(free := true)));
      if h.dummy {
        store[free] := Head(h.(free := true));
        assert store[..] == mem[l.free.pos := Head(h.(free := true))];
        free := 0;
      } else {
        free := free + g.Align(h.len) + g.header;
        assert free <= g.size;
      }
      if g.size - free < g.header {
        free := 0;
      }
      l := DropFirst(g, l);
    }

    /** What the header at the free pointer says, whenever the loop of prvReturnItemDefault looks at it. */
    ghost predicate FreeHeaderReadable()
      reads this, store
    {
      free != read ==>
        && 0 < l.taken && 0 < |l.blocks| && free < store.Length && store[free].Head?
        && store[free].h.free == l.blocks[0].freed && store[free].h.dummy == l.blocks[0].dummy
    }

    /** The loop of prvReturnItemDefault. It looks at the header only while the free pointer has not
        met the read pointer (the other order of the two tests reads a header nobody uses). */
    method ReclaimFree()
      requires Wired() && Tiled(g, l) && Shaped(g, l)
      modifies this`free, this`l, store
      ensures Wired() && Tiled(g, l) && Shaped(g, l)
      ensures l.write == old(l.write) && l.taken <= |l.blocks| && old(l.taken <= |l.blocks|)
      ensures l.blocks[l.taken..] == old(l.blocks[l.taken..])
      ensures forall q, d :: Holds(g, l, q, d) <==> old(Holds(g, l, q, d))
      ensures l == old(l) || !Full(l)
      ensures free == read || (0 < |l.blocks| && Unreturned(l.blocks[0]))
      ensures old(free == read) ==> l == old(l)
    {
      hide Tiled, Stored, Shaped, MaxOk, BlockOk, WiredTo, DropFirst, Holds, Full;
      PointersInside(g, l);
      ReadableNow();
      while free != read && (HeaderOf(free).free || HeaderOf(free).dummy)
        invariant Wired() && Tiled(g, l) && Shaped(g, l) && FreeHeaderReadable()
        invariant l.write == old(l.write) && l.taken <= |l.blocks|
        invariant l.blocks[l.taken..] == old(l.blocks[l.taken..])
        invariant forall q, d :: Holds(g, l, q, d) <==> old(Holds(g, l, q, d))
        invariant l == old(l) || !Full(l)
        invariant old(free == read) ==> l == old(l) && free == read
        decreases l.taken
      {
        ghost var before := l;
        AdvanceFree();
        DropStep(g, before);
        PointersInside(g, l);
        ReadableNow();
      }
    }

    lemma {:induction false} ReadableNow()
      requires Wired()
      ensures FreeHeaderReadable()
    {
      hide Stored, Shaped, MaxOk, BlockOk;
      FreeMeetsRead(g, l);
      if free != read { FirstHeader(g, allowSplit, maxItemSize, store[..], write, read, free, l); }
    }

    /** The test of the full flag at the end of prvReturnItemDefault; `lm` is the layout before the
        free pointer moved. */
    method SettleFull(ghost lm: Layout)
      requires Wired() && Tiled(g, l) && Shaped(g, l) && Tiled(g, lm)
      requires Accounts(g, lm, full, waiting, got, sent) && 0 < lm.taken
      requires PartsAllowed(allowSplit, got)
      requires l.write == lm.write && (l == lm || !Full(l))
      requires ReadPlace(lm).pos == lm.free.pos ==> l == lm
      requires l.taken <= |l.blocks| && lm.taken <= |lm.blocks| && l.blocks[l.taken..] == lm.blocks[lm.taken..]
      requires free == read || (0 < |l.blocks| && Unreturned(l.blocks[0]))
      requires forall q, d :: Holds(g, l, q, d) <==> Holds(g, lm, q, d)
      modifies this`full, this`l
      ensures Valid() <==> !Stuck(lm)
      ensures !Stuck(lm) ==> !Stuck(l)
      ensures !Stuck(lm) ==> (forall q, d :: Holds(g, l, q, d) <==> Holds(g, lm, q, d))
      ensures !Stuck(lm) ==>
                && l.write == lm.write && l.taken <= |l.blocks|
                && l.blocks[l.taken..] == lm.blocks[lm.taken..]
      ensures !Stuck(lm) ==> l.taken == 0 || (|l.blocks| > 0 && Unreturned(l.blocks[0]))
      ensures Stuck(lm) ==> !full && free == write && l == lm
    {
      hide Tiled, Stored, Shaped, MaxOk, BlockOk, Holds, Full, Accounts, Parts, Join, Stuck, ReadPlace, PartsAllowed;
      ghost var mem := store[..];
      FlagRule(g, lm, l);
      SettledAccounts(g, lm, l, full, waiting, got, sent);
      if full {
        if free != write {
          full := false;
        } else if free == write && free == read {
          full := false;
          ghost var before := l;
          if Full(l) && !Stuck(lm) {
            l := Emptied(l);
            EmptiedOk(g, allowSplit, maxItemSize, mem, write, read, free, before, waiting, got, sent);
          }
        }
      }
      assert store[..] == mem;
    }

    /** prvReturnItemDefault for the address `p` of a retrieved item or part. Everything the layout
        promises survives, except in the one state the code misreads: then the ring takes itself for
        empty although something is still outstanding. */
    method ReturnItem(p: nat, ghost data: Bytes)
      requires Valid() && Holds(g, l, p, data)
      modifies this`free, this`full, this`l, store
      ensures Valid() <==> !old(Hazard())
      ensures !old(Hazard()) ==> !Hazard()
      ensures !old(Hazard()) ==>
                && (forall q, d :: Holds(g, l, q, d) <==> old(Holds(g, l, q, d)) && q != p)
                && (l.taken == 0 || Unreturned(l.blocks[0]))
                && l.write == old(l.write) && l.taken <= |l.blocks| && old(l.taken <= |l.blocks|)
                && l.blocks[l.taken..] == old(l.blocks[l.taken..])
      ensures old(Hazard()) ==> !full && free == write && exists q, d :: q != p && Holds(g, l, q, d)
    {
      hide Tiled, Stored, Shaped, MaxOk, BlockOk, WiredTo, Holds, Full, Accounts, MarkFreed, PartsAllowed, Stuck,
        Misread;
      ghost var k := HeldIndex(g, l, p, data);
      ghost var mem := store[..];
      Marked(g, allowSplit, maxItemSize, mem, write, read, free, l, full, waiting, got, sent, k);
      var at := p - g.header;
      assert g.Aligned(at) && store[at] == mem[at];
      var h := HeaderOf(at);
      assert h.len <= maxItemSize && !h.dummy && !h.free;
      store[at] := Head(h.(split := false, free := true));
      assert store[..] == mem[at := Head(Header(h.len, true, false, false))];
      l := MarkFreed(l, k);
      ghost var marked := l;
      MarkStuck(old(l), k);
      ReclaimFree();
      SettleFull(marked);
      MisreadIsStuck(l);
      if old(Hazard()) { OtherHeld(g, old(l), k, p, data); }
    }
  }

  /** The comparisons of prvCheckItemFitsDefault. */
  predicate FitsByPointers(g: Geo, split: bool, write: nat, free: nat, full: bool, n: nat)
    requires 1 <= g.align
  {
    var total := g.Align(n) + g.header;
    if write == free then !full
    else if free > write then total <= free - write
    else if total <= g.size - write then true
    else if split then total + g.header <= g.size - (write - free)
    else total <= free
  }

  /** The address and the contents handed out are those of the block. */
  ghost predicate FromBlock(g: Geo, b: Block, p: nat, data: Bytes, more: bool) {
    p == b.at.pos + g.header && data == b.data && more == b.more
  }

  /** Only an allow-split ring hands out items in two parts. */
  ghost predicate PartsAllowed(split: bool, ps: seq<Part>) {
    forall i :: 0 <= i < |ps| && ps[i].more ==> split
  }

  /** Everything in a full ring has been retrieved and at least two parts are outstanding: the state
      that prvReturnItemDefault takes for "a full buffer is completely freed in one go". */
  ghost predicate Misread(l: Layout) {
    && l.taken == |l.blocks| && Full(l)
    && exists i, j :: 0 <= i < j < |l.blocks| && Unreturned(l.blocks[i]) && Unreturned(l.blocks[j])
  }

  /** The same state once one of the parts has been marked free. */
  ghost predicate Stuck(l: Layout) {
    && l.taken == |l.blocks| && Full(l)
    && exists i :: 0 <= i < |l.blocks| && Unreturned(l.blocks[i])
  }

  predicate Unreturned(b: Block) { !b.dummy && !b.freed }

  ghost predicate WiredTo(g: Geo, split: bool, max: nat, mem: seq<Cell>, write: nat, read: nat, free: nat, l: Layout) {
    && g.Ok() && MaxOk(g, split, max)
    && Tiled(g, l) && Stored(g, mem, l)
    && write == l.write.pos && free == l.free.pos && read == ReadPlace(l).pos
    && (forall i :: 0 <= i < |l.blocks| ==> |l.blocks[i].data| <= max && (l.blocks[i].more ==> split))
  }

  lemma {:induction false} PutWired(g: Geo, split: bool, max: nat, mem: seq<Cell>, mem': seq<Cell>,
                 write: nat, read: nat, free: nat, l: Layout, b: Block)
    requires WiredTo(g, split, max, mem, write, read, free, l)
    requires |mem'| == |mem| && BlockOk(g, b) && b.at == l.write && |b.data| <= max && (b.more ==> split)
    requires Next(g, b).Le(Place(l.free.lap + 1, l.free.pos))
    requires forall x :: 0 <= x < |mem| && !(write <= x < write + g.header + |b.data|) ==> mem'[x] == mem[x]
    requires BlockMem(g, mem', b)
    ensures WiredTo(g, split, max, mem', Next(g, b).pos, read, free, Append(g, l, b))
  {
    hide Tiled, Stored, MaxOk, BlockOk, BlockMem, Next;
    PointersInside(g, l);
    PutStored(g, mem, mem', l, b);
  }

  /** xMaxItemSize plus one header, as computed at creation (before the subtraction of that header). */
  function MaxBase(size: nat, header: nat, align: nat, split: bool): int
    requires 1 <= align
  {
    if split then size - header else Geo(size, header, align).Align(size / 2)
  }

  predicate MaxFits(size: nat, header: nat, align: nat, split: bool)
    requires 1 <= align
  {
    MaxBase(size, header, align, split) >= header
  }

  /** xMaxItemSize in 32 bits. */
  function MaxItemSize32(size: nat, header: nat, align: nat, split: bool): nat
    requires 1 <= align
  {
    (MaxBase(size, header, align, split) - header) % 0x1_0000_0000
  }

  /** What xRingbufferCreate computes is a maximum, in that every item up to it fits into the storage
      behind a header, if and only if the subtraction does not wrap. */
  lemma {:induction false} CreationSound(size: nat, header: nat, align: nat, split: bool)
    requires 1 <= align && 1 <= header < 0x8000_0000 && Multiple(header, align) && Multiple(size, align)
    requires size < 0x1_0000_0000
    ensures MaxFits(size, header, align, split) <==>
            forall n: nat :: n <= MaxItemSize32(size, header, align, split) ==> FitsBehindHeader(n, header, size)
    ensures MaxFits(size, header, align, split) ==>
              MaxItemSize32(size, header, align, split) == MaxBase(size, header, align, split) - header
  {
    var max := MaxItemSize32(size, header, align, split);
    HalfAligned(size, header, align);
    if !MaxFits(size, header, align, split) {
      assert max == MaxBase(size, header, align, split) - header + 0x1_0000_0000;
      assert !FitsBehindHeader(max, header, size);
    }
  }

  predicate FitsBehindHeader(n: nat, header: nat, size: nat) { header + n <= size }

  lemma {:induction false} HalfAligned(size: nat, header: nat, align: nat)
    requires 1 <= align && Multiple(size, align)
    ensures Geo(size, header, align).Align(size / 2) <= size
  {
    var g := Geo(size, header, align);
    if size < g.Align(size / 2) { AlignedGap(size, g.Align(size / 2), align); }
  }

  lemma {:induction false} RoomCases(g: Geo, l: Layout, split: bool, max: nat, n: nat)
    requires Tiled(g, l) && MaxOk(g, split, max) && n <= max
    ensures Full(l) ==> l.write.pos == l.free.pos && !Room(g, l, split, n)
    ensures l.write.pos == l.free.pos && !Full(l) ==> Room(g, l, split, n)
    ensures l.write.pos != l.free.pos ==>
            (Room(g, l, split, n) <==>
             (var total := g.Align(n) + g.header;
              if l.free.pos > l.write.pos then total <= l.free.pos - l.write.pos
              else total <= g.size - l.write.pos
                   || (if split then total + g.header <= g.size - (l.write.pos - l.free.pos) else total <= l.free.pos)))
  {
    FullByPointers(g, l);
    if Full(l) {
      FullHasNoRoom(g, l, split, n);
    } else if l.write.pos == l.free.pos {
      MaxItemHasRoom(g, l, split, max, n);
    } else {
      RoomByPointers(g, l, split, n);
    }
  }

  /** The counters and the history agree with the layout. */
  ghost predicate Accounts(g: Geo, l: Layout, full: bool, waiting: int, got: seq<Part>, sent: seq<Bytes>)
    requires Tiled(g, l)
  {
    var left := Parts(l.blocks[l.taken..]);
    && Shaped(g, l)
    && full == Full(l)
    && waiting == |left|
    && Closed(got + left)
    && Join(got + left) == sent
  }

  lemma {:induction false} SentAccounts(g: Geo, l0: Layout, l: Layout, bs: seq<Block>, item: Bytes,
                     waiting: int, got: seq<Part>, sent: seq<Bytes>)
    requires Tiled(g, l0) && Accounts(g, l0, false, waiting, got, sent)
    requires Tiled(g, l) && OneItem(bs, item)
    requires l.blocks == l0.blocks + bs && l.taken == l0.taken && l.free == l0.free
    ensures Accounts(g, l, l.write.pos == l.free.pos, waiting + (if bs[0].more then 2 else 1), got, sent + [item])
    ensures forall p, d :: Holds(g, l, p, d) <==> Holds(g, l0, p, d)
  {
    hide Tiled, Shaped, OneItem, Parts, Join;
    PointersInside(g, l0);
    assert |bs| > 0 by { OneItemSize(bs, item); }
    SendShaped(g, l0, l, bs, item);
    SendJoin(got, l0.blocks[l0.taken..], bs, item);
    assert l.blocks[l.taken..] == l0.blocks[l0.taken..] + bs;
    FullByPointers(g, l);
    assert forall i :: 0 <= i < l0.taken ==> l.blocks[i] == l0.blocks[i];
  }

  lemma {:induction false} BeforeSend(g: Geo, l: Layout, split: bool, n: nat, full: bool, waiting: int,
                                      got: seq<Part>, sent: seq<Bytes>)
    requires Tiled(g, l) && Accounts(g, l, full, waiting, got, sent) && Room(g, l, split, n)
    ensures !full && g.Ok() && g.Aligned(l.write.pos) && l.write.pos + g.header <= g.size && l.taken <= |l.blocks|
  {
    NotFull(g, l, split, n);
  }

  lemma {:induction false} TakeWired(g: Geo, split: bool, max: nat, mem: seq<Cell>, write: nat, read: nat, free: nat,
                                     l: Layout)
    requires WiredTo(g, split, max, mem, write, read, free, l) && Shaped(g, l) && l.taken < |l.blocks|
    ensures g.Ok() && Tiled(g, l) && NextOut(l) < |l.blocks| && BlockOk(g, l.blocks[NextOut(l)])
    ensures WiredTo(g, split, max, mem, write, Next(g, l.blocks[NextOut(l)]).pos, free, Take(l))
    ensures g.Aligned(read) && read + g.header <= |mem| == g.size && mem[read].Head?
    ensures mem[read].h.dummy ==> l.blocks[NextOut(l)].at.pos == 0
    ensures !mem[read].h.dummy ==> l.blocks[NextOut(l)].at.pos == read
    ensures var b := l.blocks[NextOut(l)];
            && !b.dummy
            && End(g, b) == (var e := b.at.pos + g.header + g.Align(|b.data|);
                             if g.size - e < g.header then g.size else e)
            && mem[b.at.pos] == Head(Header(|b.data|, false, false, b.more)) && |b.data| <= max
            && PayloadAt(mem, b.at.pos + g.header, b.data)
  {
    hide Tiled, Shaped, MaxOk;
    TakeTiled(g, l);
    assert BlockMem(g, mem, l.blocks[l.taken]) && BlockMem(g, mem, l.blocks[NextOut(l)]);
  }

  lemma {:induction false} TakeAccounts(g: Geo, l: Layout, full: bool, waiting: int, got: seq<Part>, sent: seq<Bytes>)
    requires Tiled(g, l) && Accounts(g, l, full, waiting, got, sent) && l.taken < |l.blocks|
    ensures NextOut(l) < |l.blocks| && Tiled(g, Take(l))
    ensures var b := l.blocks[NextOut(l)];
            && Accounts(g, Take(l), full, waiting - 1, got + [Part(b.data, b.more)], sent)
            && (forall q, d :: Holds(g, Take(l), q, d) <==>
                  Holds(g, l, q, d) || (q == b.at.pos + g.header && d == b.data))
  {
    TakeTiled(g, l);
    TakeParts(g, l, got);
    forall q, d
      ensures Holds(g, Take(l), q, d) <==>
              Holds(g, l, q, d) || (q == l.blocks[NextOut(l)].at.pos + g.header && d == l.blocks[NextOut(l)].data)
    {
      TakeHolds(g, l, q, d);
    }
  }

  lemma {:induction false} TakeStep(g: Geo, split: bool, max: nat, mem: seq<Cell>, write: nat, read: nat, free: nat,
                                    l: Layout, full: bool, waiting: int, got: seq<Part>, sent: seq<Bytes>)
    requires WiredTo(g, split, max, mem, write, read, free, l) && Accounts(g, l, full, waiting, got, sent)
    requires l.taken < |l.blocks| && PartsAllowed(split, got)
    ensures NextOut(l) < |l.blocks| && Tiled(g, Take(l)) && BlockOk(g, l.blocks[NextOut(l)])
    ensures Take(l).blocks == l.blocks
    ensures var b := l.blocks[NextOut(l)];
            && WiredTo(g, split, max, mem, write, Next(g, b).pos, free, Take(l))
            && Accounts(g, Take(l), full, waiting - 1, got + [Part(b.data, b.more)], sent)
            && PartsAllowed(split, got + [Part(b.data, b.more)])
            && (forall q, d :: Holds(g, Take(l), q, d) <==>
                  Holds(g, l, q, d) || (q == b.at.pos + g.header && d == b.data))
  {
    hide Tiled, Stored, Shaped, MaxOk, Parts, Join, Holds;
    TakeWired(g, split, max, mem, write, read, free, l);
    TakeAccounts(g, l, full, waiting, got, sent);
  }

  lemma {:induction false} HeaderFound(g: Geo, split: bool, max: nat, mem: seq<Cell>, write: nat, read: nat,
                                       free: nat, l: Layout, full: bool, waiting: int, got: seq<Part>, sent: seq<Bytes>)
    requires WiredTo(g, split, max, mem, write, read, free, l) && Accounts(g, l, full, waiting, got, sent)
    requires l.taken < |l.blocks|
    ensures g.Ok() && Tiled(g, l) && NextOut(l) < |l.blocks| && BlockOk(g, l.blocks[NextOut(l)])
    ensures g.Aligned(read) && read + g.header <= |mem| == g.size && mem[read].Head?
    ensures var b := l.blocks[NextOut(l)];
            && b.at.pos == (if mem[read].h.dummy then 0 else read)
            && !b.dummy && b.at.pos + g.header + |b.data| <= g.size
            && End(g, b) == (var e := b.at.pos + g.header + g.Align(|b.data|);
                             if g.size - e < g.header then g.size else e)
            && mem[b.at.pos] == Head(Header(|b.data|, false, false, b.more)) && |b.data| <= max
            && PayloadAt(mem, b.at.pos + g.header, b.data)
  {
    TakeWired(g, split, max, mem, write, read, free, l);
  }

  lemma {:induction false} FirstHeader(g: Geo, split: bool, max: nat, mem: seq<Cell>, write: nat, read: nat,
                                       free: nat, l: Layout)
    requires WiredTo(g, split, max, mem, write, read, free, l)
    requires |l.blocks| > 0
    ensures g.Ok() && Tiled(g, l) && free == l.free.pos && free + g.header <= |mem| == g.size && BlockOk(g, l.blocks[0])
    ensures mem[free].Head? && mem[free].h.dummy == l.blocks[0].dummy && mem[free].h.free == l.blocks[0].freed
    ensures mem[free].h.len == |l.blocks[0].data|
    ensures l.blocks[0].dummy ==> mem[free] == Head(Header(0, false, true, false))
    ensures var e := free + g.Align(mem[free].h.len) + g.header;
            e <= g.size && Next(g, l.blocks[0]).pos == if l.blocks[0].dummy || g.size - e < g.header then 0 else e
  {
    assert BlockMem(g, mem, l.blocks[0]) && BlockOk(g, l.blocks[0]);
  }

  lemma {:induction false} DropWired(g: Geo, split: bool, max: nat, mem: seq<Cell>, write: nat, read: nat, free: nat,
                                     l: Layout, c: Cell)
    requires WiredTo(g, split, max, mem, write, read, free, l) && Shaped(g, l) && 0 < l.taken && 0 < |l.blocks|
    ensures BlockOk(g, l.blocks[0]) && l.free.pos < |mem|
    ensures WiredTo(g, split, max, mem, write, read, Next(g, l.blocks[0]).pos, DropFirst(g, l))
    ensures WiredTo(g, split, max, mem[l.free.pos := c], write, read, Next(g, l.blocks[0]).pos, DropFirst(g, l))
  {
    hide Tiled, Stored, Shaped, MaxOk, BlockOk, DropFirst;
    FirstHeader(g, split, max, mem, write, read, free, l);
    DropFirstStored(g, mem, l, c);
    DropFirstShaped(g, l);
    DropFirstParts(g, l);
  }

  lemma {:induction false} DropStep(g: Geo, l: Layout)
    requires Tiled(g, l) && Shaped(g, l) && 0 < l.taken && 0 < |l.blocks| && Reclaimable(l.blocks[0])
    ensures var m := DropFirst(g, l);
            && Tiled(g, m) && m.write == l.write && m.taken == l.taken - 1 && m.taken <= |m.blocks|
              && l.taken <= |l.blocks|
            && !Full(m)
            && m.blocks[m.taken..] == l.blocks[l.taken..]
            && (forall q, d :: Holds(g, m, q, d) <==> Holds(g, l, q, d))
  {
    hide Tiled, Shaped, Holds;
    PointersInside(g, l);
    DropFirstTiled(g, l);
    DropFirstShaped(g, l);
    forall q, d ensures Holds(g, DropFirst(g, l), q, d) <==> Holds(g, l, q, d) { DropFirstHolds(g, l, q, d); }
    PointersInside(g, DropFirst(g, l));
  }

  lemma {:induction false} Marked(g: Geo, split: bool, max: nat, mem: seq<Cell>, write: nat, read: nat, free: nat,
                                  l: Layout, full: bool, waiting: int, got: seq<Part>, sent: seq<Bytes>, k: nat)
    requires WiredTo(g, split, max, mem, write, read, free, l) && Accounts(g, l, full, waiting, got, sent)
    requires k < l.taken && k < |l.blocks| && Unreturned(l.blocks[k])
    ensures var p := l.blocks[k].at.pos;
            && g.Ok() && g.Aligned(p) && p + g.header <= |mem| && |l.blocks[k].data| <= max
            && mem[p] == Head(Header(|l.blocks[k].data|, false, false, l.blocks[k].more))
            && Tiled(g, l) && Tiled(g, MarkFreed(l, k)) && Shaped(g, MarkFreed(l, k))
            && MarkFreed(l, k).taken == l.taken && MarkFreed(l, k).write == l.write
            && l.taken <= |l.blocks| == |MarkFreed(l, k).blocks|
              && MarkFreed(l, k).blocks[l.taken..] == l.blocks[l.taken..]
            && WiredTo(g, split, max, mem[p := Head(Header(|l.blocks[k].data|, true, false, false))],
                       write, read, free, MarkFreed(l, k))
            && Accounts(g, MarkFreed(l, k), full, waiting, got, sent)
            && (forall q, d :: Holds(g, MarkFreed(l, k), q, d) <==> Holds(g, l, q, d) && q != p + g.header)
  {
    assert BlockMem(g, mem, l.blocks[k]) && BlockOk(g, l.blocks[k]);
    MarkedWired(g, split, max, mem, write, read, free, l, k);
    MarkFreedShaped(g, l, k);
    forall q, d
      ensures Holds(g, MarkFreed(l, k), q, d) <==> Holds(g, l, q, d) && q != l.blocks[k].at.pos + g.header
    {
      MarkFreedHolds(g, l, k, q, d);
    }
  }

  lemma {:induction false} MarkedWired(g: Geo, split: bool, max: nat, mem: seq<Cell>, write: nat, read: nat, free: nat,
                                       l: Layout, k: nat)
    requires WiredTo(g, split, max, mem, write, read, free, l) && Shaped(g, l)
    requires k < l.taken && k < |l.blocks| && Unreturned(l.blocks[k])
    ensures l.blocks[k].at.pos < |mem|
    ensures WiredTo(g, split, max, mem[l.blocks[k].at.pos := Head(Header(|l.blocks[k].data|, true, false, false))],
                    write, read, free, MarkFreed(l, k))
  {
    hide Tiled, Shaped, MaxOk;
    assert BlockMem(g, mem, l.blocks[k]);
    MarkFreedStored(g, mem, l, k);
    MarkFreedShaped(g, l, k);
  }

  lemma {:induction false} HeldIndex(g: Geo, l: Layout, p: nat, data: Bytes) returns (k: nat)
    requires Holds(g, l, p, data)
    ensures k < l.taken && k < |l.blocks| && HeldBlock(g, l.blocks[k], p, data)
    ensures Unreturned(l.blocks[k]) && l.blocks[k].at.pos + g.header == p && l.blocks[k].data == data
  {
    k :| 0 <= k < l.taken && k < |l.blocks| && HeldBlock(g, l.blocks[k], p, data);
  }

  lemma {:induction false} MisreadIsStuck(l: Layout)
    ensures Misread(l) ==> Stuck(l)
  {
  }

  lemma {:induction false} MarkStuck(l: Layout, k: nat)
    requires k < |l.blocks| && Unreturned(l.blocks[k])
    ensures Stuck(MarkFreed(l, k)) <==> Misread(l)
  {
    var m := MarkFreed(l, k);
    if Misread(l) {
      var i, j :| 0 <= i < j < |l.blocks| && Unreturned(l.blocks[i]) && Unreturned(l.blocks[j]);
      var o := if i == k then j else i;
      assert Unreturned(m.blocks[o]);
    }
    if Stuck(m) {
      var i :| 0 <= i < |m.blocks| && Unreturned(m.blocks[i]);
      assert i != k && Unreturned(l.blocks[i]);
      if i < k { assert 0 <= i < k < |l.blocks|; } else { assert 0 <= k < i < |l.blocks|; }
    }
  }

  /** What the three pointers say about the full flag after the free pointer has moved. */
  lemma {:induction false} FlagRule(g: Geo, lm: Layout, l: Layout)
    requires Tiled(g, lm) && Tiled(g, l) && 0 < lm.taken
    requires l.write == lm.write && (l == lm || !Full(l))
    requires ReadPlace(lm).pos == lm.free.pos ==> l == lm
    ensures l.taken <= |l.blocks|
    ensures !Full(lm) ==> !Full(l)
    ensures Full(l) ==> l == lm && l.write.pos == l.free.pos
    ensures l.write.pos == l.free.pos && ReadPlace(l).pos != l.free.pos ==> Full(l)
    ensures Full(l) && ReadPlace(l).pos == l.free.pos ==> l.taken == |l.blocks|
    ensures !Full(l) && ReadPlace(l).pos == l.free.pos ==> l.taken == 0
    ensures Stuck(lm) ==> l == lm && Full(l) && ReadPlace(l).pos == l.free.pos
    ensures Stuck(l) ==> Stuck(lm)
  {
    FullByPointers(g, l);
    FreeMeetsRead(g, l);
    FreeMeetsRead(g, lm);
  }

  lemma {:induction false} SettledAccounts(g: Geo, lm: Layout, l: Layout, full: bool, waiting: int, got: seq<Part>,
                                           sent: seq<Bytes>)
    requires Tiled(g, lm) && Accounts(g, lm, full, waiting, got, sent) && Tiled(g, l) && Shaped(g, l)
    requires l.taken <= |l.blocks| && lm.taken <= |lm.blocks| && l.blocks[l.taken..] == lm.blocks[lm.taken..]
    ensures full == Full(lm) && Accounts(g, l, Full(l), waiting, got, sent)
    ensures forall b: bool :: b != Full(l) ==> !Accounts(g, l, b, waiting, got, sent)
  {
  }

  ghost function Emptied(l: Layout): Layout { Layout(l.write, l.write, [], 0) }

  lemma {:induction false} EmptiedTiled(g: Geo, l: Layout)
    requires Tiled(g, l)
    ensures Tiled(g, Emptied(l))
  {
  }

  lemma {:induction false} EmptiedOk(g: Geo, split: bool, max: nat, mem: seq<Cell>, write: nat, read: nat, free: nat,
                                     l: Layout,
                                     waiting: int, got: seq<Part>, sent: seq<Bytes>)
    requires WiredTo(g, split, max, mem, write, read, free, l) && Accounts(g, l, Full(l), waiting, got, sent)
    requires Full(l) && l.taken == |l.blocks| && !Stuck(l)
    ensures WiredTo(g, split, max, mem, write, read, free, Emptied(l)) && Tiled(g, Emptied(l))
    ensures Accounts(g, Emptied(l), false, waiting, got, sent)
    ensures forall q, d :: !Holds(g, l, q, d) && !Holds(g, Emptied(l), q, d)
    ensures !Stuck(Emptied(l))
  {
    hide Tiled, MaxOk;
    EmptiedTiled(g, l);
    assert l.blocks[l.taken..] == [] == Emptied(l).blocks[Emptied(l).taken..];
    assert forall i, q, d :: 0 <= i < |l.blocks| && HeldBlock(g, l.blocks[i], q, d) ==> Unreturned(l.blocks[i]);
  }

  lemma {:induction false} OtherHeld(g: Geo, l: Layout, k: nat, p: nat, data: Bytes)
    requires Tiled(g, l) && Misread(l) && k < |l.blocks| && HeldBlock(g, l.blocks[k], p, data)
    ensures exists q, d :: q != p && Holds(g, MarkFreed(l, k), q, d)
  {
    hide Tiled;
    var m := MarkFreed(l, k);
    MarkStuck(l, k);
    var i :| 0 <= i < |m.blocks| && Unreturned(m.blocks[i]);
    assert i != k;
    var b := l.blocks[i];
    assert HeldBlock(g, m.blocks[i], b.at.pos + g.header, b.data);
    if b.at.pos == l.blocks[k].at.pos { HeldIsUnique(g, l, i, k); }
    assert Holds(g, m, b.at.pos + g.header, b.data);
  }

  /** What follows the first part of a split item: its second part, at the head of the storage. */
  lemma {:induction false} SecondPart(g: Geo, l: Layout, full: bool, waiting: int, got: seq<Part>, sent: seq<Bytes>)
    requires Tiled(g, l) && Accounts(g, l, full, waiting, got, sent) && l.taken < |l.blocks|
    ensures NextOut(l) < |l.blocks| && l.taken <= |l.blocks|
    ensures var k := NextOut(l);
            l.blocks[k].more ==>
              && k + 1 < |l.blocks| && !l.blocks[k + 1].dummy && !l.blocks[k + 1].more
              && l.blocks[k].data != [] && l.blocks[k + 1].data != []
              && l.blocks[k + 1].at.pos < l.blocks[k].at.pos
  {
    TakeTiled(g, l);
    var k := NextOut(l);
    if l.blocks[k].more {
      var a, b := l.blocks[k], l.blocks[k + 1];
      assert b.at == Next(g, a) && l.free.Le(a.at) && Next(g, b).Le(l.write);
    }
  }

  lemma {:induction false} JoinOne(got: seq<Part>, d: Bytes)
    ensures Closed(got) ==> Join(got + [Part(d, false)]) == Join(got) + [d] && Closed(got + [Part(d, false)])
  {
    if Closed(got) {
      JoinAppend(got, [Part(d, false)]);
      assert [Part(d, false)][1..] == [];
    }
  }

  lemma {:induction false} JoinTwo(got: seq<Part>, d1: Bytes, d2: Bytes)
    ensures Closed(got) ==>
              && Join(got + [Part(d1, true), Part(d2, false)]) == Join(got) + [d1 + d2]
              && Closed(got + [Part(d1, true), Part(d2, false)])
  {
    if Closed(got) {
      var two := [Part(d1, true), Part(d2, false)];
      JoinAppend(got, two);
      assert two[1..] == [Part(d2, false)] && [Part(d2, false)][1..] == [];
      assert Join([Part(d2, false)]) == [d2];
    }
  }

  lemma {:induction false} StoredSize(g: Geo, mem: seq<Cell>, l: Layout)
    requires Stored(g, mem, l)
    ensures |mem| == g.size
  {
  }
}
