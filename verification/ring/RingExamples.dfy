/** States in which the item ring does not keep its promises, each reached by a few calls on a new ring. */
module RingExamples {
  import opened RingLayout
  import opened RingLemmas
  import opened RingRoom
  import R = ItemRing
  import opened RingFacts

  // ---------- Small steps ----------

  lemma {:induction false} UnitAlign(x: nat)
    ensures Multiple(x, 1)
    ensures forall size: nat, header: nat :: Geo(size, header, 1).Align(x) == x
  {
    forall size: nat, header: nat ensures Geo(size, header, 1).Align(x) == x {
      AlignFormula(Geo(size, header, 1), x);
    }
    if x > 0 { UnitAlign(x - 1); }
  }

  lemma {:induction false} RingIsTiled(ring: R.ItemRing)
    requires ring.Valid()
    ensures Tiled(ring.g, ring.l) && MaxOk(ring.g, ring.allowSplit, ring.maxItemSize) && Shaped(ring.g, ring.l)
    ensures ring.full == Full(ring.l) && ring.write == ring.l.write.pos && ring.free == ring.l.free.pos
  {
  }

  /** The write pointer stands behind the last block, the free pointer at the first. */
  lemma {:induction false} Ends(g: Geo, l: Layout)
    requires Tiled(g, l) && l.blocks != []
    ensures BlockOk(g, l.blocks[|l.blocks| - 1]) && l.write == Next(g, l.blocks[|l.blocks| - 1])
    ensures l.free == l.blocks[0].at
  {
  }

  /** When nothing is held, nothing waits and whatever could be reclaimed has been, there are no blocks. */
  lemma {:induction false} NothingLeft(g: Geo, l: Layout)
    requires Tiled(g, l) && l.taken <= |l.blocks| && l.blocks[l.taken..] == []
    requires l.taken == 0 || (|l.blocks| > 0 && R.Unreturned(l.blocks[0]))
    requires forall q, d :: !Holds(g, l, q, d)
    ensures l.blocks == [] && l.taken == 0 && l.free == l.write
  {
    hide Tiled, Holds;
    EmptyEnds(g, l);
    if l.taken > 0 { FirstIsHeld(g, l); }
  }

  function Item(at: Place, data: Bytes): Block { Block(at, data, false, false, false) }

  function Start(): Layout { Layout(Place(0, 0), Place(0, 0), [], 0) }

  // ---------- The misread state, by two items ----------

  lemma {:induction false} SmallFirst(g: Geo, l: Layout)
    requires g == Geo(4, 1, 1) && l == Start() && Tiled(g, l)
    ensures Room(g, l, false, 1) && SentBlocks(g, false, l, [1]) == [Item(Place(0, 0), [1])]
  {
    UnitAlign(1);
    UnitAlign(2);
    MaxItemHasRoom(g, l, false, 1, 1);
  }

  lemma {:induction false} SmallSecond(g: Geo, l: Layout)
    requires g == Geo(4, 1, 1) && Tiled(g, l) && l.blocks == [Item(Place(0, 0), [1])]
    ensures Room(g, l, false, 1) && SentBlocks(g, false, l, [2]) == [Item(Place(0, 2), [2])]
  {
    UnitAlign(1);
    Ends(g, l);
    hide Tiled;
    RoomByPointers(g, l, false, 1);
  }

  lemma {:induction false} SmallFull(g: Geo, l: Layout)
    requires g == Geo(4, 1, 1) && Tiled(g, l) && l.blocks == [Item(Place(0, 0), [1]), Item(Place(0, 2), [2])]
              && l.taken == 0
    ensures R.Misread(Take(Take(l)))
  {
    UnitAlign(1);
    Ends(g, l);
    hide Tiled;
    assert 0 <= 0 < 1 < |l.blocks| && R.Unreturned(l.blocks[0]) && R.Unreturned(l.blocks[1]);
  }

  method SmallSent() returns (ring: R.ItemRing)
    ensures fresh(ring) && fresh(ring.store) && ring.Valid() && ring.g == Geo(4, 1, 1)
    ensures ring.l.blocks == [Item(Place(0, 0), [1]), Item(Place(0, 2), [2])] && ring.l.taken == 0
  {
    hide Tiled, Shaped, Stored, Parts, Join, Closed, Holds, MaxOk, BlockOk, Room, SentBlocks, PayloadAt, R.WiredTo,
      R.Accounts, R.PartsAllowed, R.Misread;
    UnitAlign(1); UnitAlign(2); UnitAlign(4);
    ring := new R.ItemRing(4, 1, 1, false);
    RingIsTiled(ring);
    SmallFirst(ring.g, ring.l);
    var ok := ring.Send([1]);
    RingIsTiled(ring);
    SmallSecond(ring.g, ring.l);
    ok := ring.Send([2]);
  }

  /** Two items fill the ring, and both are retrieved before either is returned. */
  method MisreadByTwoItems() returns (ring: R.ItemRing)
    ensures ring.Valid() && ring.Hazard()
  {
    hide Tiled, Shaped, Stored, Parts, Join, Closed, Holds, MaxOk, BlockOk, Room, SentBlocks, PayloadAt, R.WiredTo,
      R.Accounts, R.PartsAllowed, R.Misread;
    ring := SmallSent();
    RingIsTiled(ring);
    SmallFull(ring.g, ring.l);
    var ok, p, len;
    ghost var data;
    ok, p, len, data := ring.Receive();
    ok, p, len, data := ring.Receive();
  }

  // ---------- The misread state, by one split item ----------

  /** An item of the largest size, sent into an empty ring whose pointers stand in the middle, is split
      and fills the ring to the last byte. */
  lemma {:induction false} LargestItemIsSplit(g: Geo, l: Layout, item: Bytes)
    requires Tiled(g, l) && l.blocks == [] && MaxOk(g, true, |item|)
    requires g.header < l.write.pos < g.size - g.header
    ensures Room(g, l, true, |item|)
    ensures var room := g.size - l.write.pos - g.header;
            && 0 < room < |item| && g.Align(|item| - room) == |item| - room && g.Align(room) == room
            && SentBlocks(g, true, l, item) == [Block(l.write, item[..room], false, false, true),
                                                Item(Place(l.write.lap + 1, 0), item[room..])]
  {
    hide Tiled, Room, Multiple;
    MaxItemHasRoom(g, l, true, |item|, |item|);
    PointersInside(g, l);
    AddMultiple(g.header, g.header, g.align);
    SubMultiple(g.size, 2 * g.header, g.align);
    AlignUnique(g, |item|, |item|);
    SplitSizes(g, l, |item|);
  }

  lemma {:induction false} SplitItemFills(g: Geo, l: Layout, m: Layout, item: Bytes)
    requires Tiled(g, l) && l.blocks == [] && MaxOk(g, true, |item|)
    requires g.header < l.write.pos < g.size - g.header
    requires Tiled(g, m) && Shaped(g, m) && m.taken == 0 && m.blocks == SentBlocks(g, true, l, item)
    ensures m.blocks != [] && R.Misread(TakeItem(m))
  {
    LargestItemIsSplit(g, l, item);
    hide Room, MaxOk, SentBlocks, Shaped;
    Ends(g, m);
    SplitItemEnd(g, l, m.blocks[1], item);
    hide Tiled, Next;
    WhenItemRetrievalBreaksDiscipline(g, m);
  }

  lemma {:induction false} SplitItemEnd(g: Geo, l: Layout, b: Block, item: Bytes)
    requires g.Ok() && BlockOk(g, b) && l.write.pos + g.header <= g.size && |item| + 2 * g.header == g.size
    requires var room := g.size - l.write.pos - g.header;
             0 < room < |item| && g.Align(|item| - room) == |item| - room
                 && b == Item(Place(l.write.lap + 1, 0), item[room..])
    ensures Next(g, b) == Place(l.write.lap + 1, l.write.pos)
  {
  }

  /** Any such item on any such ring, with nothing else in it or held: the application takes it whole and
      returns its first part. The ring takes itself for empty, accepts whatever is sent next, and lets it be
      written over the second part. */
  method SplitItemLost(ring: R.ItemRing, item: Bytes) returns (ghost p: nat, ghost data: Bytes)
    requires ring.Valid() && ring.allowSplit && ring.l.blocks == [] && |item| == ring.maxItemSize
    requires ring.g.header < ring.write < ring.g.size - ring.g.header
    modifies ring, ring.store
    ensures Holds(ring.g, ring.l, p, data)
    ensures !ring.full && ring.free == ring.write
    ensures forall n: nat :: n <= ring.maxItemSize ==>
              R.FitsByPointers(ring.g, true, ring.write, ring.free, ring.full, n)
  {
    hide Tiled, Shaped, Stored, Parts, Join, Closed, Holds, MaxOk, BlockOk, Room, SentBlocks, PayloadAt, R.WiredTo,
      R.Accounts, R.PartsAllowed, R.Misread, TakeItem;
    RingIsTiled(ring);
    ghost var l := ring.l;
    LargestItemIsSplit(ring.g, l, item);
    EmptyEnds(ring.g, l);
    var ok := ring.Send(item);
    RingIsTiled(ring);
    SplitItemFills(ring.g, l, ring.l, item);
    var p1, len1, two, p2, len2;
    ghost var d1, d2;
    ok, p1, len1, two, p2, len2, d1, d2 := ring.ReceiveSplit();
    ring.ReturnItem(p1, d1);
    p, data :| p != p1 && Holds(ring.g, ring.l, p, data);
  }

  lemma {:induction false} SixFirst(g: Geo, l: Layout)
    requires g == Geo(6, 1, 1) && l == Start() && Tiled(g, l)
    ensures Room(g, l, true, 2) && SentBlocks(g, true, l, [1, 2]) == [Item(Place(0, 0), [1, 2])]
  {
    UnitAlign(2);
    MaxItemHasRoom(g, l, true, 4, 2);
  }

  lemma {:induction false} SixWrite(g: Geo, l: Layout)
    requires g == Geo(6, 1, 1) && Tiled(g, l) && l.blocks == [Item(Place(0, 0), [1, 2])]
    ensures l.write == Place(0, 3) && l.free == Place(0, 0) && !Full(l)
  {
    UnitAlign(2);
    Ends(g, l);
  }

  lemma {:induction false} NoMisread(l: Layout)
    requires !Full(l) && l.taken < |l.blocks|
    ensures !R.Misread(Take(l))
  {
  }

  method SixSent() returns (ring: R.ItemRing)
    ensures fresh(ring) && fresh(ring.store) && ring.Valid() && ring.allowSplit && ring.g == Geo(6, 1, 1)
              && ring.maxItemSize == 4
    ensures ring.l.blocks == [Item(Place(0, 0), [1, 2])] && ring.l.taken == 0
    ensures forall q, d :: !Holds(ring.g, ring.l, q, d)
  {
    hide Tiled, Shaped, Stored, Parts, Join, Closed, Holds, MaxOk, BlockOk, Room, SentBlocks, PayloadAt, R.WiredTo,
      R.Accounts, R.PartsAllowed, R.Misread, Full;
    UnitAlign(6);
    ring := new R.ItemRing(6, 1, 1, true);
    RingIsTiled(ring);
    SixFirst(ring.g, ring.l);
    SixMax(ring.g, ring.maxItemSize);
    NothingHeld(ring.g, ring.l);
    var ok := ring.Send([1, 2]);
  }

  /** A new ring gets there: one item in, out and returned, and the pointers stand in the middle. */
  method SplitItemLostOnNewRing() returns (ring: R.ItemRing, ghost p: nat, ghost data: Bytes)
    ensures !ring.full && ring.free == ring.write && Holds(ring.g, ring.l, p, data)
  {
    hide Tiled, Shaped, Stored, Parts, Join, Closed, Holds, MaxOk, BlockOk, Room, SentBlocks, PayloadAt, R.WiredTo,
      R.Accounts, R.PartsAllowed, R.Misread, Full;
    ring := SixSent();
    RingIsTiled(ring);
    SixWrite(ring.g, ring.l);
    NoMisread(ring.l);
    var ok, q, len;
    ghost var d;
    ok, q, len, d := ring.Receive();
    ring.ReturnItem(q, d);
    RingIsTiled(ring);
    NothingLeft(ring.g, ring.l);
    p, data := SplitItemLost(ring, [1, 2, 3, 4]);
  }

  lemma {:induction false} SixMax(g: Geo, max: nat)
    requires g == Geo(6, 1, 1) && g.Ok() && MaxOk(g, true, max)
    ensures max == 4
  {
  }

  lemma {:induction false} NothingHeld(g: Geo, l: Layout)
    requires l.blocks == []
    ensures forall q, d :: !Holds(g, l, q, d)
  {
  }

  // ---------- Wrong answers of the size queries ----------

  lemma {:induction false} SixAfterOne(g: Geo, l: Layout)
    requires g == Geo(6, 1, 1) && Tiled(g, l) && l.blocks == [Item(Place(0, 0), [1])]
    ensures l.write == Place(0, 2) && l.free == Place(0, 0) && !Full(l) && Room(g, l, true, 3)
  {
    UnitAlign(1);
    UnitAlign(3);
    Ends(g, l);
    hide Tiled;
    RoomByPointers(g, l, true, 3);
  }

  /** After one send the allow-split query says 2, but an item of 3 bytes has room. */
  method AllowSplitQueryTooSmall() returns (ring: R.ItemRing)
    ensures ring.Valid() && ring.allowSplit && 3 <= ring.maxItemSize
    ensures CurMaxAllowSplit(ring.g, ring.write, ring.free, ring.full, ring.maxItemSize) == 2
    ensures Tiled(ring.g, ring.l) && Room(ring.g, ring.l, true, 3)
  {
    hide Tiled, Shaped, Stored, Parts, Join, Closed, Holds, MaxOk, BlockOk, Room, SentBlocks, PayloadAt, R.WiredTo,
      R.Accounts, R.PartsAllowed;
    UnitAlign(6);
    ring := new R.ItemRing(6, 1, 1, true);
    RingIsTiled(ring);
    SixMax(ring.g, ring.maxItemSize);
    SixOne(ring.g, ring.l);
    var ok := ring.Send([1]);
    RingIsTiled(ring);
    SixAfterOne(ring.g, ring.l);
  }

  lemma {:induction false} SixOne(g: Geo, l: Layout)
    requires g == Geo(6, 1, 1) && l == Start() && Tiled(g, l)
    ensures Room(g, l, true, 1) && SentBlocks(g, true, l, [1]) == [Item(Place(0, 0), [1])]
  {
    UnitAlign(1);
    MaxItemHasRoom(g, l, true, 4, 1);
  }

  lemma {:induction false} WideMax(g: Geo, max: nat)
    requires g == Geo(6, 2, 1) && g.Ok() && MaxOk(g, false, max)
    ensures max == 1
  {
    UnitAlign(3);
  }

  lemma {:induction false} WideFirst(g: Geo, l: Layout)
    requires g == Geo(6, 2, 1) && l == Start() && Tiled(g, l)
    ensures Room(g, l, false, 1) && SentBlocks(g, false, l, [1]) == [Item(Place(0, 0), [1])]
  {
    UnitAlign(1);
    UnitAlign(3);
    MaxItemHasRoom(g, l, false, 1, 1);
  }

  lemma {:induction false} WideSecond(g: Geo, l: Layout)
    requires g == Geo(6, 2, 1) && Tiled(g, l) && l.blocks == [Item(Place(0, 0), [1])]
    ensures Room(g, l, false, 1) && SentBlocks(g, false, l, [2]) == [Item(Place(0, 3), [2])]
  {
    UnitAlign(1);
    Ends(g, l);
    hide Tiled;
    RoomByPointers(g, l, false, 1);
  }

  lemma {:induction false} WideTaken(l: Layout)
    requires l.taken == 0 && |l.blocks| == 2 && !l.blocks[0].dummy
    ensures NextOut(l) == 0 && Take(l).taken == 1 && !R.Misread(Take(l))
  {
  }

  /** With nothing held, what is left are the blocks that wait. */
  lemma {:induction false} OnlyWaiting(g: Geo, l: Layout, left: seq<Block>)
    requires Tiled(g, l) && l.taken <= |l.blocks| && l.blocks[l.taken..] == left && left != []
    requires l.taken == 0 || R.Unreturned(l.blocks[0])
    requires forall q, d :: !Holds(g, l, q, d)
    ensures l.taken == 0 && l.blocks == left
  {
    hide Tiled, Holds;
    if l.taken > 0 { FirstIsHeld(g, l); }
  }

  lemma {:induction false} WideThird(g: Geo, l: Layout)
    requires g == Geo(6, 2, 1) && Tiled(g, l) && l.blocks == [Item(Place(0, 3), [2])]
    ensures Room(g, l, false, 0) && SentBlocks(g, false, l, []) == [Item(Place(1, 0), [])]
  {
    UnitAlign(1);
    UnitAlign(0);
    Ends(g, l);
    hide Tiled;
    RoomByPointers(g, l, false, 0);
  }

  lemma {:induction false} WideGap(g: Geo, l: Layout)
    requires g == Geo(6, 2, 1) && Tiled(g, l) && l.blocks == [Item(Place(0, 3), [2]), Item(Place(1, 0), [])]
    ensures l.write == Place(1, 2) && l.free == Place(0, 3) && !Full(l) && !Room(g, l, false, 1)
  {
    UnitAlign(0);
    UnitAlign(1);
    Ends(g, l);
    hide Tiled;
    RoomByPointers(g, l, false, 1);
  }

  method WideFull() returns (ring: R.ItemRing)
    ensures fresh(ring) && fresh(ring.store) && ring.Valid() && !ring.allowSplit && ring.g == Geo(6, 2, 1)
              && ring.maxItemSize == 1
    ensures ring.l.blocks == [Item(Place(0, 0), [1]), Item(Place(0, 3), [2])] && ring.l.taken == 0
    ensures forall q, d :: !Holds(ring.g, ring.l, q, d)
  {
    hide Tiled, Shaped, Stored, Parts, Join, Closed, Holds, MaxOk, BlockOk, Room, SentBlocks, PayloadAt, R.WiredTo,
      R.Accounts, R.PartsAllowed, R.Misread;
    UnitAlign(6);
    ring := new R.ItemRing(6, 2, 1, false);
    RingIsTiled(ring);
    WideMax(ring.g, ring.maxItemSize);
    WideFirst(ring.g, ring.l);
    NothingHeld(ring.g, ring.l);
    var ok := ring.Send([1]);
    RingIsTiled(ring);
    WideSecond(ring.g, ring.l);
    ok := ring.Send([2]);
  }

  /** Takes the first of two items and returns it. */
  method TakeAndReturn(ring: R.ItemRing, ghost second: Block)
    requires ring.Valid() && ring.l.taken == 0 && |ring.l.blocks| == 2
    requires !ring.l.blocks[0].dummy && ring.l.blocks[1] == second
    requires forall q, d :: !Holds(ring.g, ring.l, q, d)
    modifies ring, ring.store
    ensures ring.Valid() && ring.l.blocks == [second] && ring.l.taken == 0
  {
    hide Tiled, Shaped, Stored, Parts, Join, Closed, Holds, MaxOk, BlockOk, Room, SentBlocks, PayloadAt, R.WiredTo,
      R.Accounts, R.PartsAllowed, R.Misread;
    WideTaken(ring.l);
    var p, len;
    ghost var d;
    var ok;
    ok, p, len, d := ring.Receive();
    assert ring.l.blocks[ring.l.taken..] == [second];
    ring.ReturnItem(p, d);
    RingIsTiled(ring);
    OnlyWaiting(ring.g, ring.l, [second]);
  }

  /** A gap of one byte is smaller than a header: no item of positive size has room, but the no-split
      query answers with the largest size there is. */
  method NoSplitQueryTooLarge() returns (ring: R.ItemRing)
    ensures ring.Valid() && !ring.allowSplit && ring.maxItemSize == 1
    ensures CurMaxNoSplit(ring.g, ring.write, ring.free, ring.full, ring.maxItemSize) == 1
    ensures Tiled(ring.g, ring.l) && !Room(ring.g, ring.l, false, 1)
  {
    hide Tiled, Shaped, Stored, Parts, Join, Closed, Holds, MaxOk, BlockOk, Room, SentBlocks, PayloadAt, R.WiredTo,
      R.Accounts, R.PartsAllowed, R.Misread;
    ring := WideFull();
    TakeAndReturn(ring, Item(Place(0, 3), [2]));
    RingIsTiled(ring);
    WideThird(ring.g, ring.l);
    var ok := ring.Send([]);
    RingIsTiled(ring);
    WideGap(ring.g, ring.l);
  }
}
