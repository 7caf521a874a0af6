/** The byte mode of ringbuf.c: a circular byte stream with at most one outstanding retrieval. */
module ByteRing {
  import opened RingLayout
  import opened Circular

  class ByteRing {
    const size: nat               // xSize, also xMaxItemSize
    const store: array<uint8>
    var write: nat
    var read: nat
    var free: nat
    var full: bool
    var waiting: int              // xItemsWaiting: bytes

    ghost var returned: Bytes     // bytes whose storage has been given back
    ghost var inside: Bytes       // bytes from the free pointer to the write pointer
    ghost var out: nat            // how many of them have been retrieved
    ghost var sent: Bytes         // every byte ever accepted

    ghost predicate Valid()
      reads this, store
    {
      && 1 <= size == store.Length && free < size
      && out <= |inside| <= size
      && write == Wrap(size, free + |inside|)
      && read == Wrap(size, free + out)
      && (full <==> |inside| == size)
      && waiting == |inside| - out
      && Around(store[..], free, inside)
      && sent == returned + inside
    }

    /** Every byte handed out so far, in order. */
    ghost function Received(): Bytes
      requires Valid()
      reads this, store
    {
      returned + inside[..out]
    }

    constructor (size: nat)
      requires 1 <= size
      ensures Valid() && this.size == size && sent == [] && inside == [] && returned == [] && out == 0
      ensures fresh(store)
    {
      this.size := size;
      store := new uint8[size];
      write, read, free := 0, 0, 0;
      full, waiting := false, 0;
      returned, inside, out, sent := [], [], 0, [];
    }

    /** prvCheckItemFitsByteBuffer: a chunk fits exactly when it does not exceed the unoccupied space. */
    predicate CheckItemFits(n: nat)
      requires Valid() && 1 <= n <= size
      reads this, store
      ensures CheckItemFits(n) <==> |inside| + n <= size
    {
      assert write < size;
      if write == free then !full
      else if free > write then n <= free - write
      else n <= size - (write - free)
    }

    /** prvGetCurMaxSizeByteBuf answers exactly the unoccupied space. */
    function CurMaxSize(): (r: nat)
      requires Valid()
      reads this, store
      ensures r == size - |inside|
    {
      if full then 0
      else if free - write <= 0 then free - write + size
      else free - write
    }

    /** memcpy into the storage. */
    method CopyIn(p: nat, data: Bytes)
      requires p + |data| <= store.Length
      modifies store
      ensures store[..] == old(store[..])[..p] + data + old(store[..])[p + |data|..]
    {
      forall k | 0 <= k < |data| { store[p + k] := data[k]; }
    }

    /** Two memcpy calls: up to the end of the storage, and from its head on. */
    method CopyInTwo(item: Bytes, rem: nat)
      requires write + rem == store.Length && rem <= |item| && |item| - rem <= write
      modifies store
      ensures store[..] == item[rem..] + old(store[..])[|item| - rem..write] + item[..rem]
    {
      ghost var was := store[..];
      CopyIn(write, item[..rem]);
      ghost var mid := store[..];
      assert mid == was[..write] + item[..rem];
      CopyIn(0, item[rem..]);
      assert mid[|item| - rem..] == was[|item| - rem..write] + item[..rem];
    }

    /** prvCopyItemByteBuf. */
    method CopyItem(item: Bytes)
      requires Valid() && 1 <= |item| && |inside| + |item| <= size
      modifies this, store
      ensures Valid() && sent == old(sent) + item && inside == old(inside) + item
      ensures out == old(out) && returned == old(returned)
    {
      Write(item);
      waiting := waiting + |item|;
      inside, sent := inside + item, sent + item;
      if write == free {
        full := true;
      }
    }

    /** The one or two memcpy calls of prvCopyItemByteBuf, and the movement of the write pointer. */
    method Write(item: Bytes)
      requires Valid() && 1 <= |item| && |inside| + |item| <= size
      modifies this`write, store
      ensures Around(store[..], free, inside + item) && write == Wrap(size, free + |inside| + |item|)
    {
      hide Around;
      ghost var was := store[..];
      var rem := size - write;
      if rem < |item| {
        CopyInTwo(item, rem);
        write := |item| - rem;
      } else {
        CopyIn(write, item);
        write := write + |item|;
      }
      AroundAppend(was, store[..], free, inside, item);
      if write == size {
        write := 0;
      }
    }

    /** The critical section of xRingbufferSend for a byte buffer. */
    method Send(item: Bytes) returns (ok: bool)
      requires Valid()
      modifies this, store
      ensures Valid() && returned == old(returned) && out == old(out)
      ensures ok <==> old(|inside|) + |item| <= size
      ensures inside == if ok then old(inside) + item else old(inside)
      ensures sent == if ok then old(sent) + item else old(sent)
    {
      if |item| > size {
        return false;
      }
      if |item| == 0 {
        return true;
      }
      ok := CheckItemFits(|item|);
      if ok {
        CopyItem(item);
      }
    }

    /** prvCheckItemAvail for a byte buffer: no retrieval while one is outstanding. */
    predicate CheckItemAvail()
      requires Valid()
      reads this, store
      ensures CheckItemAvail() <==> out == 0 && inside != []
    {
      if read != free then false
      else waiting > 0 && (read != write || full)
    }

    /** prvGetItemByteBuf: hands out contiguous bytes from the read pointer on, at most `max` of them
        (all of them when `max` is 0). */
    method GetItem(max: nat) returns (p: nat, len: nat)
      requires Valid() && CheckItemAvail()
      modifies this`read, this`waiting, this`out
      ensures Valid() && 1 <= len == out && p + len <= size
      ensures store[p..p + len] == inside[..len]
      ensures var contiguous := if free + |inside| <= size then |inside| else size - free;
              len == if max == 0 || contiguous <= max then contiguous else max
    {
      hide Around;
      ghost var mem := store[..];
      p := read;
      if read > write || full {
        if max == 0 || size - read <= max {
          len := size - read;
          read := 0;
        } else {
          len := max;
          read := read + max;
        }
      } else {
        if max == 0 || write - read <= max {
          len := write - read;
          read := write;
        } else {
          len := max;
          read := read + max;
        }
      }
      waiting := waiting - len;
      out := len;
      assert store[..] == mem;
      AroundSlice(mem, free, inside, len);
    }

    /** prvReturnItemByteBuf: gives back the outstanding retrieval. With nothing outstanding it does
        nothing, except on a full ring, where it clears the flag and the ring takes itself for empty. */
    method ReturnItem()
      requires Valid()
      modifies this`free, this`full, this`inside, this`out, this`returned
      ensures Valid() <==> !old(full && out == 0)
      ensures !old(full && out == 0) ==>
                out == 0 && returned == old(Received()) && inside == old(inside[out..]) && Received() == old(Received())
      ensures old(full && out == 0) ==> !full && free == write == read && |inside| == size
    {
      hide Around;
      ghost var n, mem := out, store[..];
      AroundDrop(mem, free, inside, n);
      free := read;
      if full {
        full := false;
      }
      returned, inside, out := returned + inside[..n], inside[n..], 0;
      assert store[..] == mem;
      assert returned + inside == old(returned) + old(inside);
    }

    /** What has been received is always a prefix of what has been sent, and waiting bytes plus
        retrieved, unreturned bytes are exactly the occupied space. */
    lemma {:induction false} StreamOrder()
      requires Valid()
      ensures Received() <= sent
      ensures waiting + out == |inside|
      ensures |inside| == (if full then size else if write >= free then write - free else size - (free - write))
      ensures |sent| == |Received()| + waiting
    {
      assert sent == Received() + inside[out..];
    }
  }

  /** A return with nothing outstanding, on a full ring: the flag is gone, but the byte is still there. */
  method ReturnWithoutRetrieval() returns (ring: ByteRing)
    ensures !ring.Valid() && !ring.full && ring.read == ring.write == ring.free && |ring.inside| == ring.size == 1
  {
    ring := new ByteRing(1);
    var ok := ring.Send([7]);
    ring.ReturnItem();
  }

  datatype Op = Send(item: Bytes) | ReceiveUpTo(max: nat) | Return

  /** The bytes of the sends that were accepted, in order. */
  function AcceptedBytes(ops: seq<Op>, accepted: seq<bool>): Bytes
    requires |accepted| <= |ops|
  {
    if accepted == [] then []
    else
      var n := |accepted| - 1;
      AcceptedBytes(ops, accepted[..n]) + (if ops[n].Send? && accepted[n] then ops[n].item else [])
  }

  /** Any run on a fresh byte ring: the bytes read from the addresses handed out, concatenated over
      the whole run, are a prefix of the bytes that were accepted. */
  method Run(ring: ByteRing, ops: seq<Op>) returns (received: Bytes, accepted: seq<bool>)
    requires ring.Valid() && ring.inside == [] && ring.returned == [] && ring.out == 0 && ring.sent == []
    modifies ring, ring.store
    ensures |accepted| == |ops| && ring.sent == AcceptedBytes(ops, accepted)
    ensures ring.Valid() && received == ring.Received() && received <= AcceptedBytes(ops, accepted)
    ensures |ring.sent| - |received| <= ring.size
  {
    received, accepted := [], [];
    for n := 0 to |ops|
      invariant ring.Valid() && received == ring.Received()
      invariant |accepted| == n && ring.sent == AcceptedBytes(ops, accepted)
    {
      ghost var before := accepted;
      var done;
      received, done := Step(ring, ops[n], received);
      accepted := accepted + [done];
      assert accepted[..n] == before;
    }
    ring.StreamOrder();
  }

  /** One operation, and exactly what comes of it. `done`: a send was accepted, something was received,
      or an outstanding retrieval was given back. */
  method Step(ring: ByteRing, op: Op, before: Bytes) returns (received: Bytes, done: bool)
    requires ring.Valid() && before == ring.Received()
    modifies ring, ring.store
    ensures ring.Valid() && received == ring.Received()
    ensures ring.sent == old(ring.sent) + if op.Send? && done then op.item else []
    ensures match op
            case Send(item) =>
              && (done <==> old(|ring.inside|) + |item| <= ring.size)
              && received == before && ring.out == old(ring.out)
            case ReceiveUpTo(max) =>
              && (done <==> old(ring.out == 0 && ring.inside != []))
              && ring.inside == old(ring.inside)
              && (if done then
                    && ring.out >= 1 && received == before + ring.inside[..ring.out]
                    && (max != 0 ==> ring.out <= max)
                  else received == before && ring.out == old(ring.out))
            case Return =>
              && (done <==> old(ring.out) > 0) && received == before && ring.out == 0
              && ring.inside == old(ring.inside[ring.out..])
  {
    received, done := before, false;
    match op
    case Send(item) =>
      done := ring.Send(item);
      assert ring.inside[..ring.out] == old(ring.inside[..ring.out]);
    case ReceiveUpTo(max) =>
      if ring.CheckItemAvail() {
        var p, len := ring.GetItem(max);
        received, done := received + ring.store[p..p + len], true;
      }
    case Return =>
      if ring.read != ring.free || (ring.full && ring.waiting == 0) {
        ring.ReturnItem();
        done := true;
      }
  }
}
