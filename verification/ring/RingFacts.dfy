/** What an application may rely on: when the return discipline is kept, when the size queries
    tell the truth, and that reassembled parts are the items that were sent. */
module RingFacts {
  import opened RingLayout
  import opened RingLemmas
  import opened RingRoom
  import opened ItemRing

  // ---------- The return discipline ----------

  /** A retrieval creates the state that returning misreads exactly when it takes the last waiting
      part of a full ring while another part is unreturned. */
  lemma {:induction false} WhenRetrievalBreaksDiscipline(g: Geo, l: Layout)
    requires Tiled(g, l) && Shaped(g, l) && l.taken < |l.blocks|
    ensures Misread(Take(l)) <==>
            && Full(l) && NextOut(l) + 1 == |l.blocks|
            && exists i :: 0 <= i < l.taken && Unreturned(l.blocks[i])
  {
    hide Tiled, Shaped, Full;
    TakeTiled(g, l);
    TakeKeepsDummies(g, l);
    var m, k := Take(l), NextOut(l);
    if Misread(m) {
      var i, j :| 0 <= i < j < |l.blocks| && Unreturned(l.blocks[i]) && Unreturned(l.blocks[j]);
      assert i < l.taken;
    }
    if Full(l) && k + 1 == |l.blocks| && exists i :: 0 <= i < l.taken && Unreturned(l.blocks[i]) {
      var i :| 0 <= i < l.taken && Unreturned(l.blocks[i]);
      assert 0 <= i < k < |l.blocks| && Unreturned(l.blocks[i]) && Unreturned(l.blocks[k]);
    }
  }

  lemma {:induction false} TakeKeepsDummies(g: Geo, l: Layout)
    requires Tiled(g, l) && Shaped(g, l) && l.taken < |l.blocks|
    ensures forall j :: l.taken <= j < NextOut(l) ==> !Unreturned(l.blocks[j])
    ensures l.taken <= |l.blocks| && NextOut(l) < |l.blocks| && Unreturned(l.blocks[NextOut(l)])
    ensures Full(Take(l)) <==> Full(l)
  {
    TakeTiled(g, l);
  }

  /** The part of that condition an application can see: the ring is full, one part waits, and the
      application holds something. */
  lemma {:induction false} DisciplineSeenFromOutside(g: Geo, l: Layout)
    requires Tiled(g, l) && Shaped(g, l) && l.taken < |l.blocks|
    ensures NextOut(l) + 1 == |l.blocks| <==> |Parts(l.blocks[l.taken..])| == 1
    ensures (exists i :: 0 <= i < l.taken && Unreturned(l.blocks[i])) <==> (exists q, d :: Holds(g, l, q, d))
  {
    hide Tiled, Shaped, Parts;
    TakeTiled(g, l);
    TakeKeepsDummies(g, l);
    TakeParts(g, l, []);
    var m := Take(l);
    PartsLeft(g, m);
    if exists i :: 0 <= i < l.taken && Unreturned(l.blocks[i]) {
      var i :| 0 <= i < l.taken && Unreturned(l.blocks[i]);
      var b := l.blocks[i];
      assert HeldBlock(g, b, b.at.pos + g.header, b.data);
      assert Holds(g, l, b.at.pos + g.header, b.data);
    }
  }

  /** A two-part retrieval takes the last waiting item when its last block is the last of all. It creates
      the misread state exactly when that happens on a full ring and either something else is unreturned
      or the item is split: the two parts of one item are enough. */
  lemma {:induction false} WhenItemRetrievalBreaksDiscipline(g: Geo, l: Layout)
    requires Tiled(g, l) && Shaped(g, l) && l.taken < |l.blocks|
    ensures NextOut(l) < |l.blocks|
    ensures Misread(TakeItem(l)) <==>
            && Full(l) && TakeItem(l).taken == |l.blocks|
            && (l.blocks[NextOut(l)].more || exists i :: 0 <= i < l.taken && Unreturned(l.blocks[i]))
  {
    TakeTiled(g, l);
    TakeKeepsDummies(g, l);
    WhenRetrievalBreaksDiscipline(g, l);
    var m := Take(l);
    if l.blocks[NextOut(l)].more {
      TakeTiled(g, m);
      TakeKeepsDummies(g, m);
      hide Tiled, Shaped;
      WhenRetrievalBreaksDiscipline(g, m);
    }
  }

  /** How many parts a two-part retrieval hands out, and when it takes the last item, as seen from
      outside: by the number of parts waiting and the split flag of the next one. */
  lemma {:induction false} ItemRetrievalSeenFromOutside(g: Geo, l: Layout)
    requires Tiled(g, l) && Shaped(g, l) && l.taken < |l.blocks|
    ensures NextOut(l) < |l.blocks| && l.taken <= |l.blocks|
    ensures TakeItem(l).taken == |l.blocks| <==>
            |Parts(l.blocks[l.taken..])| == if l.blocks[NextOut(l)].more then 2 else 1
  {
    hide Tiled, Shaped, Parts, BlockOk;
    PointersInside(g, l);
    TakeTiled(g, l);
    TakeParts(g, l, []);
    SecondFollows(g, l);
    var m := Take(l);
    PartsLeft(g, m);
    if l.blocks[NextOut(l)].more {
      TakeTiled(g, m);
      TakeParts(g, m, []);
      PartsLeft(g, Take(m));
    }
  }

  lemma {:induction false} SecondFollows(g: Geo, l: Layout)
    requires Tiled(g, l) && Shaped(g, l) && l.taken < |l.blocks|
    ensures NextOut(l) < |l.blocks|
    ensures l.blocks[NextOut(l)].more ==>
              NextOut(l) + 1 < |l.blocks| && !l.blocks[NextOut(l) + 1].dummy && !l.blocks[NextOut(l) + 1].more
  {
  }

  // ---------- Space ----------

  lemma {:induction false} FirstIsHeld(g: Geo, l: Layout)
    requires 0 < l.taken && 0 < |l.blocks| && Unreturned(l.blocks[0])
    ensures exists q, d :: Holds(g, l, q, d)
  {
    var b := l.blocks[0];
    assert HeldBlock(g, b, b.at.pos + g.header, b.data);
    assert Holds(g, l, b.at.pos + g.header, b.data);
  }

  /** A ring in which nothing waits and nothing is retrieved and unreclaimed has room for everything up to
      xMaxItemSize: no space is ever lost. */
  lemma {:induction false} NothingLeaks(g: Geo, l: Layout, split: bool, max: nat, n: nat)
    requires Tiled(g, l) && MaxOk(g, split, max) && n <= max
    requires l.taken == 0 && l.taken == |l.blocks|
    ensures Room(g, l, split, n)
  {
    hide Tiled, Room;
    MaxItemHasRoom(g, l, split, max, n);
  }

  // ---------- First in, first out ----------

  /** In a no-split ring every part is an item. */
  lemma {:induction false} NoSplitJoin(ps: seq<Part>)
    requires forall i :: 0 <= i < |ps| ==> !ps[i].more
    ensures Join(ps) == seq(|ps|, i requires 0 <= i < |ps| => ps[i].data)
  {
    if ps != [] {
      NoSplitJoin(ps[1..]);
      assert forall i :: 0 <= i < |ps[1..]| ==> ps[1..][i] == ps[i + 1];
    }
  }

  /** At an item boundary, what has been retrieved reassembles to a prefix of what was sent. */
  lemma {:induction false} RetrievedIsPrefix(got: seq<Part>, left: seq<Part>, sent: seq<Bytes>)
    requires Closed(got) && Join(got + left) == sent
    ensures Join(got) <= sent && sent[|Join(got)|..] == Join(left)
  {
    JoinAppend(got, left);
  }

  // ---------- Size queries ----------

  /** The result of a size computation: xFreeSize is signed and is compared with the unsigned
      xMaxItemSize, so a negative value takes part in the comparison as a huge one. */
  function Limited(freeSize: int, max: nat): nat {
    if freeSize < 0 || freeSize > max then max else freeSize
  }

  /** prvGetCurMaxSizeNoSplit. */
  function CurMaxNoSplit(g: Geo, write: nat, free: nat, full: bool, max: nat): nat {
    if full then 0
    else if write < free then Limited(free - write - g.header, max)
    else
      var size1, size2 := g.size - write, free;
      Limited((if size1 > size2 then size1 else size2) - g.header, max)
  }

  /** prvGetCurMaxSizeAllowSplit. */
  function CurMaxAllowSplit(g: Geo, write: nat, free: nat, full: bool, max: nat): nat {
    if full then 0
    else if write == 0 && free == 0 then Limited(g.size - g.header, max)
    else if write < free then Limited(free - write - g.header, max)
    else Limited(free + (g.size - write) - 2 * g.header, max)
  }

  /** The longest contiguous piece of free storage. */
  function LongestRun(g: Geo, write: nat, free: nat): int {
    if write < free then free - write else if g.size - write > free then g.size - write else free
  }

  /** The answer says for every size whether an item of that size would be accepted now. */
  ghost predicate Exact(g: Geo, l: Layout, split: bool, max: nat, answer: nat)
    requires Tiled(g, l)
  {
    forall n :: 1 <= n ==> (n <= max && Room(g, l, split, n) <==> n <= answer)
  }

  /** Whatever the state, neither query answers with more than xMaxItemSize; and the no-split one, where it is
      not exact, answers with just that. */
  lemma {:induction false} AnswersAreLimited(g: Geo, w: nat, f: nat, full: bool, max: nat)
    ensures CurMaxNoSplit(g, w, f, full, max) <= max && CurMaxAllowSplit(g, w, f, full, max) <= max
    ensures !full && LongestRun(g, w, f) < g.header ==> CurMaxNoSplit(g, w, f, full, max) == max
  {
  }

  /** The no-split size query is exact if and only if the ring is full, or it has at least one
      header of contiguous free space, or no item has a positive size anyway. */
  lemma {:induction false} NoSplitQueryExact(g: Geo, l: Layout, max: nat)
    requires Tiled(g, l) && MaxOk(g, false, max)
    ensures Exact(g, l, false, max, CurMaxNoSplit(g, l.write.pos, l.free.pos, Full(l), max))
            <==> Full(l) || LongestRun(g, l.write.pos, l.free.pos) >= g.header || max == 0
  {
    var w, f := l.write.pos, l.free.pos;
    var answer := CurMaxNoSplit(g, w, f, Full(l), max);
    var run := LongestRun(g, w, f);
    forall n | 1 <= n <= max
      ensures Room(g, l, false, n) <==> !Full(l) && (w == f || n <= run - g.header)
    {
      NoSplitRoomByRun(g, l, max, n);
    }
    if w == f && !Full(l) {
      EmptyRunIsMax(g, l, max);
    }
    if !Full(l) && run < g.header && 1 <= max {
      assert !Room(g, l, false, 1) && 1 <= answer;
    }
  }

  lemma {:induction false} NoSplitRoomByRun(g: Geo, l: Layout, max: nat, n: nat)
    requires Tiled(g, l) && MaxOk(g, false, max) && n <= max
    ensures Room(g, l, false, n) <==>
            !Full(l) && (l.write.pos == l.free.pos || n <= LongestRun(g, l.write.pos, l.free.pos) - g.header)
  {
    hide Tiled, Room, Full, MaxOk;
    var w, f := l.write.pos, l.free.pos;
    PointersInside(g, l);
    RoomCases(g, l, false, max, n);
    if w != f {
      FitsInGaps(g, w, f, n);
      FullByPointers(g, l);
    }
  }

  /** On an empty ring the longest run holds an item of xMaxItemSize. */
  lemma {:induction false} EmptyRunIsMax(g: Geo, l: Layout, max: nat)
    requires Tiled(g, l) && MaxOk(g, false, max) && l.write.pos == l.free.pos && !Full(l)
    ensures max + g.header <= LongestRun(g, l.write.pos, l.free.pos)
  {
    FullByPointers(g, l);
    MaxItemHasRoom(g, l, false, max, max);
    var p := l.write.pos;
    assert g.Align(max) >= max;
    if FreeRun(g, l, p, g.Align(max) + g.header) {
    } else {
      assert WrappedSize(g, l, false, g.Align(max) + g.header) <= p;
    }
  }

  /** The allow-split size query is exact in these states and no others. Where the free space wraps it
      asks for two headers even if the item would fit before the end of the storage; and a negative
      intermediate result is taken for a huge one. */
  ghost predicate AllowSplitQueryHonest(g: Geo, w: nat, f: nat, full: bool, max: nat) {
    var here, both := g.size - w - g.header, f + (g.size - w) - 2 * g.header;
    full || w == f || max == 0
    || (if w < f then f - w >= g.header
        else if both < 0 then here == max
        else f >= g.header || here == 0)
  }

  lemma {:induction false} AllowSplitQueryExact(g: Geo, l: Layout, max: nat)
    requires Tiled(g, l) && MaxOk(g, true, max)
    ensures Exact(g, l, true, max, CurMaxAllowSplit(g, l.write.pos, l.free.pos, Full(l), max))
            <==> AllowSplitQueryHonest(g, l.write.pos, l.free.pos, Full(l), max)
  {
    var w, f := l.write.pos, l.free.pos;
    var full := Full(l);
    var answer := CurMaxAllowSplit(g, w, f, full, max);
    PointersInside(g, l);
    OccupiedHeader(g, l);
    hide Tiled, Room, Full;
    forall n | 1 <= n <= max
      ensures Room(g, l, true, n) <==>
              !full && (w == f || (if w < f then n <= f - w - g.header
                                   else n <= g.size - w - g.header || n <= f + (g.size - w) - 2 * g.header))
    {
      AllowSplitRoomBySpace(g, l, max, n);
    }
    if !full && w != f && 1 <= max {
      if w < f {
        if f - w < g.header { assert !Room(g, l, true, 1) && 1 <= answer; }
      } else {
        var here, both := g.size - w - g.header, f + (g.size - w) - 2 * g.header;
        if both < 0 {
          if here < max { assert !Room(g, l, true, max) && max <= answer; }
        } else if f < g.header && here >= 1 {
          assert Room(g, l, true, both + 1) && !(both + 1 <= answer);
        }
      }
    }
  }

  /** Between the free and the write pointer there is at least one header. */
  lemma {:induction false} OccupiedHeader(g: Geo, l: Layout)
    requires Tiled(g, l)
    ensures l.free.pos < l.write.pos ==> l.free.pos + g.header <= l.write.pos
  {
    if l.free.pos < l.write.pos {
      var b := l.blocks[0];
      assert b.at == l.free && Next(g, b).Le(l.write);
    }
  }

  lemma {:induction false} AllowSplitRoomBySpace(g: Geo, l: Layout, max: nat, n: nat)
    requires Tiled(g, l) && MaxOk(g, true, max) && n <= max
    ensures var w, f := l.write.pos, l.free.pos;
            Room(g, l, true, n) <==>
            !Full(l) && (w == f || (if w < f then n <= f - w - g.header
                                    else n <= g.size - w - g.header || n <= f + (g.size - w) - 2 * g.header))
  {
    hide Tiled, Room, Full, MaxOk;
    var w, f := l.write.pos, l.free.pos;
    PointersInside(g, l);
    RoomCases(g, l, true, max, n);
    if w != f {
      FitsInGaps(g, w, f, n);
      FullByPointers(g, l);
    }
  }

  /** Sizes of gaps between aligned pointers are aligned, so rounding an item up changes no answer. */
  lemma {:induction false} FitsInGaps(g: Geo, w: nat, f: nat, n: nat)
    requires g.Ok() && g.Aligned(w) && g.Aligned(f) && w <= g.size
    ensures g.Align(n) <= f - w - g.header <==> n <= f - w - g.header
    ensures g.Align(n) <= g.size - w - g.header <==> n <= g.size - w - g.header
    ensures g.Align(n) <= f - g.header <==> n <= f - g.header
    ensures g.Align(n) <= f + (g.size - w) - 2 * g.header <==> n <= f + (g.size - w) - 2 * g.header
  {
    GapAligned(g, f, w);
    GapAligned(g, g.size, w);
    SubAligned(g, f);
    AlignLe(g, n, f - w - g.header);
    AlignLe(g, n, g.size - w - g.header);
    AlignLe(g, n, f - g.header);
    SubMultiple(g.size, w, g.align);
    AddMultiple(f, g.size - w, g.align);
    AddMultiple(g.header, g.header, g.align);
    var both := f + (g.size - w) - 2 * g.header;
    if both >= 0 { SubMultiple(f + (g.size - w), 2 * g.header, g.align); }
    AlignLe(g, n, both);
  }

  /** What is left of an aligned gap behind a header, if anything, is aligned. */
  lemma {:induction false} GapAligned(g: Geo, x: nat, y: nat)
    requires g.Ok() && g.Aligned(x) && g.Aligned(y)
    ensures x - y - g.header < 0 || Multiple(x - y - g.header, g.align)
  {
    if y + g.header <= x {
      AddMultiple(y, g.header, g.align);
      SubMultiple(x, y + g.header, g.align);
    }
  }

  lemma {:induction false} SubAligned(g: Geo, x: nat)
    requires g.Ok() && g.Aligned(x)
    ensures x - g.header < 0 || Multiple(x - g.header, g.align)
  {
    if g.header <= x { SubMultiple(x, g.header, g.align); }
  }
}
