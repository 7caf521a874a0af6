/** Whole runs of an item ring: any sequence of sends, receives of one part or of a whole item, and
    (possibly out-of-order) returns. */
module RingRun {
  import opened RingLayout
  import opened RingLemmas
  import opened RingRoom
  import R = ItemRing
  import opened RingFacts

  datatype Op =
    | Send(item: Bytes)
    | Receive
    | ReceiveItem
    | Return(which: nat)

  /** A retrieved part the application still holds: its number in the order of retrieval, where it
      is, and its size. */
  datatype Loan = Loan(number: nat, p: nat, len: nat)

  /** Bytes of a part read by the application just before it returned the part. */
  datatype Reading = Reading(number: nat, data: Bytes)

  /** Every loan points at an unreturned part, and every unreturned part is on loan. */
  ghost predicate LoansMatch(g: Geo, l: Layout, got: seq<Part>, loans: seq<Loan>)
  {
    && (forall i :: 0 <= i < |loans| ==> LoanOk(g, l, got, loans[i]))
    && (forall i, j :: 0 <= i < j < |loans| ==> loans[i].p != loans[j].p)
    && (forall q, d :: Holds(g, l, q, d) ==> exists i :: 0 <= i < |loans| && loans[i].p == q)
  }

  ghost predicate LoanOk(g: Geo, l: Layout, got: seq<Part>, x: Loan) {
    x.number < |got| && x.len == |got[x.number].data| && Holds(g, l, x.p, got[x.number].data)
  }

  /** The bytes read are the bytes of the part that was retrieved under that number. */
  ghost predicate Faithful(got: seq<Part>, readings: seq<Reading>) {
    forall i :: 0 <= i < |readings| ==> readings[i].number < |got| && readings[i].data == got[readings[i].number].data
  }

  /** What came of one operation. */
  datatype Event =
    | Accepted
    | Refused
    | Taken(number: nat)
    | TakenItem(number: nat, two: bool)
    | Nothing
    | Read(r: Reading)

  /** The items of the sends that were accepted, in order. */
  function AcceptedItems(ops: seq<Op>, log: seq<Event>): seq<Bytes>
    requires |log| <= |ops|
  {
    if log == [] then []
    else
      var n := |log| - 1;
      AcceptedItems(ops, log[..n]) + (if ops[n].Send? && log[n].Accepted? then [ops[n].item] else [])
  }

  function Readings(log: seq<Event>): seq<Reading> {
    if log == [] then []
    else
      var n := |log| - 1;
      Readings(log[..n]) + (if log[n].Read? then [log[n].r] else [])
  }

  /** The application's side of the bargain: it does not take the last waiting part of a full ring
      while it holds another part. */
  predicate Disciplined(ring: R.ItemRing, loans: seq<Loan>)
    reads ring
  {
    !(ring.full && ring.waiting == 1 && loans != [])
  }

  /** The same for a retrieval of whole items, which may hand out two parts: the last waiting item of a
      full ring must not be split, nor be taken while another part is held. */
  predicate DisciplinedItem(ring: R.ItemRing, loans: seq<Loan>)
    requires ring.Valid() && ring.l.taken < |ring.l.blocks|
    reads ring, ring.store
  {
    !(ring.full && if ring.NextIsSplit() then ring.waiting == 2 else ring.waiting == 1 && loans != [])
  }

  lemma {:induction false} LoansSeen(g: Geo, l: Layout, got: seq<Part>, loans: seq<Loan>)
    requires LoansMatch(g, l, got, loans)
    ensures loans != [] <==> exists q, d :: Holds(g, l, q, d)
  {
    hide Holds;
    if loans != [] { assert LoanOk(g, l, got, loans[0]); }
  }

  /** The discipline is exact: what it leaves out are the retrievals that create the state which
      returning misreads, and no others. */
  lemma {:induction false} DisciplineExact(ring: R.ItemRing, loans: seq<Loan>)
    requires ring.Valid() && LoansMatch(ring.g, ring.l, ring.got, loans) && ring.l.taken < |ring.l.blocks|
    ensures Disciplined(ring, loans) <==> !R.Misread(Take(ring.l))
    ensures DisciplinedItem(ring, loans) <==> !R.Misread(TakeItem(ring.l))
  {
    hide Tiled, Shaped, Stored, Parts, Join, Holds, MaxOk, BlockOk, R.Misread, LoansMatch, Full, R.PartsAllowed;
    LoansSeen(ring.g, ring.l, ring.got, loans);
    WhenRetrievalBreaksDiscipline(ring.g, ring.l);
    WhenItemRetrievalBreaksDiscipline(ring.g, ring.l);
    DisciplineSeenFromOutside(ring.g, ring.l);
    ItemRetrievalSeenFromOutside(ring.g, ring.l);
  }

  lemma {:induction false} FreshAddress(g: Geo, l: Layout, p: nat)
    requires Tiled(g, l) && l.taken < |l.blocks|
    requires NextOut(l) < |l.blocks| && p == l.blocks[NextOut(l)].at.pos + g.header
    ensures forall d :: !Holds(g, l, p, d)
  {
    forall d ensures !Holds(g, l, p, d) {
      if i: nat :| i < l.taken && i < |l.blocks| && HeldBlock(g, l.blocks[i], p, d) {
        HeldIsUnique(g, l, i, NextOut(l));
      }
    }
  }

  /** Runs `ops` on a fresh ring. Receives that would break the discipline, receives of whole items on a
      ring that does not split them, and returns of loans that do not exist, are left out. The ring stays
      valid throughout and gives all its space back in the end. What has been retrieved is a prefix of the
      items accepted (at an item boundary, where a ring always stands that does not split items or hands
      them out whole), and whatever is read back before a return is what was retrieved. */
  method Run(ring: R.ItemRing, ops: seq<Op>) returns (loans: seq<Loan>, log: seq<Event>)
    requires ring.Valid() && ring.l.blocks == [] && ring.got == [] && ring.sent == []
    modifies ring, ring.store
    ensures ring.Valid() && !ring.Hazard()
    ensures |log| == |ops| && ring.sent == AcceptedItems(ops, log)
    ensures Faithful(ring.got, Readings(log))
    ensures LoansMatch(ring.g, ring.l, ring.got, loans)
    ensures Closed(ring.got) ==> Join(ring.got) <= ring.sent
    ensures ring.allowSplit && Receive !in ops ==> Closed(ring.got)
    ensures loans == [] && !ring.CheckItemAvail() ==> forall n: nat :: n <= ring.maxItemSize ==> ring.CheckItemFits(n)
    ensures !ring.allowSplit ==> |ring.got| <= |ring.sent| && forall i :: 0 <= i < |ring.got| ==>
              ring.got[i].data == ring.sent[i]
  {
    loans, log := [], [];
    var count := 0;
    StartLoans(ring.g, ring.l);
    hide Tiled, Holds, R.WiredTo, R.Accounts, R.Misread, Parts, Join, LoansMatch, Faithful, AcceptedItems, Readings,
      Closed;
    for n := 0 to |ops|
      invariant ring.Valid() && !ring.Hazard() && LoansMatch(ring.g, ring.l, ring.got, loans)
      invariant |log| == n && ring.sent == AcceptedItems(ops, log)
      invariant Faithful(ring.got, Readings(log))
      invariant count == |ring.got|
      invariant Receive !in ops ==> Closed(ring.got)
      invariant loans == [] ==> ring.l.taken == 0
    {
      ghost var before, got := log, ring.got;
      var event;
      loans, count, event := Step(ring, ops[n], loans, count);
      log := log + [event];
      LogGrows(ops, before, event);
      StillFaithful(got, ring.got, Readings(before), event);
    }
    AtBoundary(ring);
    SpaceRegained(ring, loans);
  }

  /** Once everything has been retrieved and returned, the whole ring can be used again. */
  lemma {:induction false} SpaceRegained(ring: R.ItemRing, loans: seq<Loan>)
    requires ring.Valid() && (loans == [] ==> ring.l.taken == 0)
    ensures loans == [] && !ring.CheckItemAvail() ==> forall n: nat :: n <= ring.maxItemSize ==> ring.CheckItemFits(n)
  {
    hide Tiled, Stored, Shaped, Parts, Join, Room;
    if loans == [] && !ring.CheckItemAvail() {
      PointersInside(ring.g, ring.l);
      forall n: nat | n <= ring.maxItemSize ensures ring.CheckItemFits(n) {
        NothingLeaks(ring.g, ring.l, ring.allowSplit, ring.maxItemSize, n);
      }
    }
  }

  lemma {:induction false} LogGrows(ops: seq<Op>, log: seq<Event>, event: Event)
    requires |log| < |ops|
    ensures AcceptedItems(ops, log + [event])
            == AcceptedItems(ops, log) + if ops[|log|].Send? && event.Accepted? then [ops[|log|].item] else []
    ensures Readings(log + [event]) == Readings(log) + if event.Read? then [event.r] else []
  {
    assert (log + [event])[..|log|] == log;
  }

  lemma {:induction false} StartLoans(g: Geo, l: Layout)
    requires Tiled(g, l) && l.blocks == []
    ensures LoansMatch(g, l, [], []) && !R.Misread(l) && Closed([]) && Faithful([], Readings([]))
              && AcceptedItems([], []) == []
  {
  }

  lemma {:induction false} StillFaithful(got: seq<Part>, got': seq<Part>, readings: seq<Reading>, event: Event)
    requires Faithful(got, readings) && |got| <= |got'| && got'[..|got|] == got
    requires event.Read? ==> event.r.number < |got| && event.r.data == got[event.r.number].data
    ensures Faithful(got', readings + if event.Read? then [event.r] else [])
  {
    forall i | 0 <= i < |readings| ensures got'[readings[i].number] == got[readings[i].number] {
    }
  }

  /** At an item boundary, what has been retrieved is a prefix of what was sent; a no-split ring is
      always at one. */
  lemma {:induction false} AtBoundary(ring: R.ItemRing)
    requires ring.Valid()
    ensures Closed(ring.got) ==> Join(ring.got) <= ring.sent
    ensures !ring.allowSplit ==> |ring.got| <= |ring.sent| && forall i :: 0 <= i < |ring.got| ==>
              ring.got[i].data == ring.sent[i]
  {
    hide Tiled, Stored, Shaped, Parts, Join;
    PointersInside(ring.g, ring.l);
    if Closed(ring.got) {
      RetrievedIsPrefix(ring.got, Parts(ring.l.blocks[ring.l.taken..]), ring.sent);
    }
    if !ring.allowSplit {
      NoSplitJoin(ring.got);
      assert forall i :: 0 <= i < |ring.got| ==> ring.got[i].data == Join(ring.got)[i];
    }
  }

  /** What a retrieval of a whole item adds: one part or two, each on loan, which at an item boundary are
      the next item sent. */
  ghost predicate TookItem(got: seq<Part>, got': seq<Part>, sent: seq<Bytes>, loans: seq<Loan>, loans': seq<Loan>,
                           two: bool) {
    var k := if two then 2 else 1;
    && |got'| == |got| + k && got'[..|got|] == got
    && |loans'| == |loans| + k && loans'[..|loans|] == loans
    && loans'[|loans|].number == |got| && (two ==> loans'[|loans| + 1].number == |got| + 1)
    && (Closed(got) ==>
          && Closed(got') && |Join(got)| < |sent|
          && sent[|Join(got)|] == got'[|got|].data + (if two then got'[|got| + 1].data else [])
          && Join(got') == Join(got) + [sent[|Join(got)|]])
  }

  /** One operation, and exactly what comes of it. */
  method Step(ring: R.ItemRing, op: Op, loans: seq<Loan>, count: nat)
    returns (loans': seq<Loan>, count': nat, event: Event)
    requires ring.Valid() && !ring.Hazard() && LoansMatch(ring.g, ring.l, ring.got, loans) && count == |ring.got|
    requires loans == [] ==> ring.l.taken == 0
    modifies ring, ring.store
    ensures ring.Valid() && !ring.Hazard() && LoansMatch(ring.g, ring.l, ring.got, loans') && count' == |ring.got|
    ensures |old(ring.got)| <= |ring.got| && ring.got[..|old(ring.got)|] == old(ring.got)
    ensures ring.sent == old(ring.sent) + if op.Send? && event.Accepted? then [op.item] else []
    ensures op != Receive && old(Closed(ring.got)) ==> Closed(ring.got)
    ensures loans' == [] ==> ring.l.taken == 0
    ensures event.Read? ==> event.r.number < |old(ring.got)| && event.r.data == old(ring.got)[event.r.number].data
    ensures match op
            case Send(item) =>
              && event == (if |item| <= ring.maxItemSize && old(Room(ring.g, ring.l, ring.allowSplit, |item|))
                           then Accepted else Refused)
              && loans' == loans && count' == count
            case Receive =>
              && event == (if old(Disciplined(ring, loans) && ring.CheckItemAvail()) then Taken(count) else Nothing)
              && (if event.Taken? then
                    && |loans'| == |loans| + 1 && loans'[..|loans|] == loans
                    && loans'[|loans|].number == count && count' == count + 1
                  else loans' == loans && count' == count)
            case ReceiveItem =>
              && (if old(ring.allowSplit && ring.CheckItemAvail() && DisciplinedItem(ring, loans))
                  then
                    && event == TakenItem(count, old(ring.NextIsSplit()))
                    && TookItem(old(ring.got), ring.got, ring.sent, loans, loans', event.two)
                  else event == Nothing && loans' == loans && count' == count && ring.got == old(ring.got))
            case Return(which) =>
              && (event == Nothing || event.Read?) && (event.Read? <==> which < |loans|) && count' == count
              && (if which < |loans| then
                    && event.r.number == loans[which].number
                    && loans' == loans[..which] + loans[which + 1..]
                  else loans' == loans)
  {
    hide Tiled, Holds, R.WiredTo, R.Accounts, R.Misread, Parts, Join, LoansMatch, Room;
    loans', count', event := loans, count, Nothing;
    match op
    case Send(item) =>
      var ok := SendOne(ring, item, loans);
      event := if ok then Accepted else Refused;
    case Receive =>
      if Disciplined(ring, loans) && ring.CheckItemAvail() {
        loans', count' := TakeLoan(ring, loans, count);
        event := Taken(count);
      }
    case ReceiveItem =>
      if ring.allowSplit && ring.CheckItemAvail() && DisciplinedItem(ring, loans) {
        var two;
        loans', count', two := TakeItemLoans(ring, loans, count);
        event := TakenItem(count, two);
      }
    case Return(which) =>
      if which < |loans| {
        var r;
        loans', r := GiveBack(ring, loans, which);
        event := Read(r);
      }
  }

  method SendOne(ring: R.ItemRing, item: Bytes, ghost loans: seq<Loan>) returns (ok: bool)
    requires ring.Valid() && !ring.Hazard() && LoansMatch(ring.g, ring.l, ring.got, loans)
    modifies ring, ring.store
    ensures ring.Valid() && !ring.Hazard() && LoansMatch(ring.g, ring.l, ring.got, loans)
    ensures ring.got == old(ring.got) && ring.l.taken == old(ring.l.taken)
    ensures ok <==> |item| <= ring.maxItemSize && old(Room(ring.g, ring.l, ring.allowSplit, |item|))
    ensures ring.sent == old(ring.sent) + if ok then [item] else []
  {
    hide Tiled, Shaped, Stored, Holds, MaxOk, R.WiredTo, R.Accounts, Parts, Join, Room;
    ok := ring.Send(item);
    assert forall i :: 0 <= i < |loans| ==>
                         LoanOk(ring.g, old(ring.l), ring.got, loans[i]) ==> LoanOk(ring.g, ring.l, ring.got, loans[i]);
  }

  method TakeLoan(ring: R.ItemRing, loans: seq<Loan>, count: nat) returns (after: seq<Loan>, next: nat)
    requires count == |ring.got|
    requires ring.Valid() && !ring.Hazard() && LoansMatch(ring.g, ring.l, ring.got, loans) && Disciplined(ring, loans)
    requires ring.CheckItemAvail()
    modifies ring`read, ring`waiting, ring`l, ring`got
    ensures ring.Valid() && !ring.Hazard() && LoansMatch(ring.g, ring.l, ring.got, after)
    ensures next == |ring.got| == count + 1
    ensures |after| == |loans| + 1 && after[..|loans|] == loans && after[|loans|].number == count
    ensures |old(ring.got)| <= |ring.got| && ring.got[..|old(ring.got)|] == old(ring.got)
  {
    hide Tiled, Shaped, Stored, Parts, Join, Holds, MaxOk, BlockOk, R.Accounts, R.Misread, PayloadAt, LoansMatch;
    ghost var l, got := ring.l, ring.got;
    DisciplineExact(ring, loans);
    var ok, p, len, data := ring.Receive();
    next := count + 1;
    after := loans + [Loan(count, p, len)];
    LoanAdded(ring.g, l, ring.l, got, ring.got, loans, Loan(count, p, len));
  }

  /** A retrieval of a whole item. */
  method TakeItemLoans(ring: R.ItemRing, loans: seq<Loan>, count: nat) returns (after: seq<Loan>, next: nat, two: bool)
    requires count == |ring.got| && ring.allowSplit
    requires ring.Valid() && !ring.Hazard() && LoansMatch(ring.g, ring.l, ring.got, loans)
    requires ring.CheckItemAvail() && DisciplinedItem(ring, loans)
    modifies ring`read, ring`waiting, ring`l, ring`got
    ensures ring.Valid() && !ring.Hazard() && LoansMatch(ring.g, ring.l, ring.got, after)
    ensures next == |ring.got| && two == old(ring.NextIsSplit())
    ensures TookItem(old(ring.got), ring.got, ring.sent, loans, after, two)
  {
    hide Tiled, Shaped, Stored, Parts, Join, Holds, MaxOk, BlockOk, R.Misread, PayloadAt, LoansMatch, Closed, TakeItem;
    ghost var l, got := ring.l, ring.got;
    DisciplineExact(ring, loans);
    var ok, p1, len1, isTwo, p2, len2, d1, d2 := ring.ReceiveSplit();
    two := isTwo;
    after := loans + [Loan(count, p1, len1)] + if two then [Loan(count + 1, p2, len2)] else [];
    next := count + if two then 2 else 1;
    ItemLoansAdded(ring.g, l, got, ring.got, loans, Loan(count, p1, len1), Loan(count + 1, p2, len2), two, d1, d2);
    AtBoundary(ring);
    ItemIsNext(got, ring.got, ring.sent, d1 + d2);
  }

  lemma {:induction false} ItemIsNext(got: seq<Part>, got': seq<Part>, sent: seq<Bytes>, item: Bytes)
    requires Closed(got) ==> Closed(got') && Join(got') == Join(got) + [item]
    requires Closed(got') ==> Join(got') <= sent
    ensures Closed(got) ==> |Join(got)| < |sent| && sent[|Join(got)|] == item
  {
  }

  lemma {:induction false} ItemLoansAdded(g: Geo, l: Layout, got: seq<Part>, got': seq<Part>, loans: seq<Loan>,
                                          x: Loan, y: Loan,
                                          two: bool, d1: Bytes, d2: Bytes)
    requires LoansMatch(g, l, got, loans) && Tiled(g, l) && Shaped(g, l) && l.taken < |l.blocks|
    requires NextOut(l) < |l.blocks| && R.FromBlock(g, l.blocks[NextOut(l)], x.p, d1, two)
    requires two ==> NextOut(l) + 1 < |l.blocks| && R.FromBlock(g, l.blocks[NextOut(l) + 1], y.p, d2, false)
    requires got' == got + if two then [Part(d1, true), Part(d2, false)] else [Part(d1, false)]
    requires x.number == |got| && x.len == |d1| && (two ==> y.number == |got| + 1 && y.len == |d2|)
    ensures LoansMatch(g, TakeItem(l), got', loans + [x] + if two then [y] else [])
  {
    hide Tiled, Shaped, Holds, LoansMatch, BlockOk;
    TakeTiled(g, l);
    SecondFollows(g, l);
    var m := Take(l);
    var got1 := got + [Part(d1, two)];
    forall q, d
      ensures Holds(g, m, q, d) <==> Holds(g, l, q, d) || (q == x.p && d == got1[|got|].data)
    {
      TakeHolds(g, l, q, d);
    }
    LoanAdded(g, l, m, got, got1, loans, x);
    if two {
      TakeTiled(g, m);
      var m2 := Take(m);
      forall q, d
        ensures Holds(g, m2, q, d) <==> Holds(g, m, q, d) || (q == y.p && d == got'[|got1|].data)
      {
        TakeHolds(g, m, q, d);
      }
      assert got' == got1 + [Part(d2, false)];
      LoanAdded(g, m, m2, got1, got', loans + [x], y);
    } else {
      assert loans + [x] + [] == loans + [x];
    }
  }

  lemma {:induction false} LoanAdded(g: Geo, l: Layout, m: Layout, got: seq<Part>, got': seq<Part>, loans: seq<Loan>,
                                     x: Loan)
    requires LoansMatch(g, l, got, loans)
    requires Tiled(g, l) && l.taken < |l.blocks| && NextOut(l) < |l.blocks| && NextOut(l) >= l.taken
    requires x.p == l.blocks[NextOut(l)].at.pos + g.header && x.number == |got|
    requires |got'| == |got| + 1 && got'[..|got|] == got && x.len == |got'[|got|].data|
    requires forall q, d :: Holds(g, m, q, d) <==> Holds(g, l, q, d) || (q == x.p && d == got'[|got|].data)
    ensures LoansMatch(g, m, got', loans + [x])
  {
    hide Tiled, Holds;
    var after := loans + [x];
    FreshAddress(g, l, x.p);
    forall i | 0 <= i < |after| ensures LoanOk(g, m, got', after[i]) {
      if i < |loans| { assert LoanOk(g, l, got, loans[i]) && got'[loans[i].number] == got[loans[i].number]; }
    }
    forall i, j | 0 <= i < j < |after| ensures after[i].p != after[j].p {
      assert LoanOk(g, l, got, loans[i]);
    }
    forall q, d | Holds(g, m, q, d) ensures exists i :: 0 <= i < |after| && after[i].p == q {
      if Holds(g, l, q, d) {
        var i :| 0 <= i < |loans| && loans[i].p == q;
        assert after[i].p == q;
      } else {
        assert after[|loans|].p == q;
      }
    }
  }

  /** The application reads `len` bytes at an address it was handed. */
  method ReadBytes(ring: R.ItemRing, p: nat, len: nat, ghost data: Bytes) returns (r: Bytes)
    requires PayloadAt(ring.store[..], p, data) && len == |data|
    ensures r == data
  {
    r := [];
    for k := 0 to len
      invariant r == data[..k]
    {
      assert ring.store[..][p + k] == Byte(data[k]);
      r := r + [ring.store[p + k].value];
    }
  }

  method GiveBack(ring: R.ItemRing, loans: seq<Loan>, which: nat) returns (after: seq<Loan>, r: Reading)
    requires ring.Valid() && !ring.Hazard() && LoansMatch(ring.g, ring.l, ring.got, loans) && which < |loans|
    modifies ring`free, ring`full, ring`l, ring.store
    ensures ring.Valid() && !ring.Hazard() && LoansMatch(ring.g, ring.l, ring.got, after)
    ensures after == [] ==> ring.l.taken == 0
    ensures r.number == loans[which].number && after == loans[..which] + loans[which + 1..]
    ensures r.number < |ring.got| && r.data == ring.got[r.number].data
  {
    hide Tiled, Shaped, Stored, Parts, Join, Holds, MaxOk, BlockOk, R.WiredTo, R.Accounts, R.Misread, PayloadAt;
    var x := loans[which];
    assert LoanOk(ring.g, ring.l, ring.got, x);
    ghost var data := ring.got[x.number].data;
    HeldBytes(ring.g, ring.allowSplit, ring.maxItemSize, ring.store[..], ring.write, ring.read, ring.free, ring.l,
        x.p, data);
    var bytes := ReadBytes(ring, x.p, x.len, data);
    r := Reading(x.number, bytes);
    ghost var l := ring.l;
    ring.ReturnItem(x.p, data);
    after := loans[..which] + loans[which + 1..];
    LoanRemoved(ring.g, l, ring.l, ring.got, loans, which);
    LoansSeen(ring.g, ring.l, ring.got, after);
    if ring.l.taken > 0 { FirstIsHeld(ring.g, ring.l); }
  }

  lemma {:induction false} LoanRemoved(g: Geo, l: Layout, m: Layout, got: seq<Part>, loans: seq<Loan>, which: nat)
    requires LoansMatch(g, l, got, loans) && which < |loans|
    requires forall q, d :: Holds(g, m, q, d) <==> Holds(g, l, q, d) && q != loans[which].p
    ensures LoansMatch(g, m, got, loans[..which] + loans[which + 1..])
  {
    hide Holds;
    var after := loans[..which] + loans[which + 1..];
    forall i | 0 <= i < |after|
      ensures LoanOk(g, m, got, after[i]) && after[i] == loans[if i < which then i else i + 1]
    {
      var k := if i < which then i else i + 1;
      assert after[i] == loans[k] && LoanOk(g, l, got, loans[k]);
      assert loans[k].p != loans[which].p;
    }
    forall i, j | 0 <= i < j < |after| ensures after[i].p != after[j].p {
    }
    forall q, d | Holds(g, m, q, d) ensures exists i :: 0 <= i < |after| && after[i].p == q {
      var i :| 0 <= i < |loans| && loans[i].p == q;
      assert after[if i < which then i else i - 1].p == q;
    }
  }

  /** Nothing overwrites a part before it is returned. */
  lemma {:induction false} HeldBytes(g: Geo, split: bool, max: nat, mem: seq<Cell>, write: nat, read: nat, free: nat,
                                     l: Layout, p: nat, data: Bytes)
    requires R.WiredTo(g, split, max, mem, write, read, free, l) && Holds(g, l, p, data)
    ensures PayloadAt(mem, p, data)
  {
    hide Tiled, MaxOk;
    var i :| 0 <= i < l.taken && i < |l.blocks| && HeldBlock(g, l.blocks[i], p, data);
    assert BlockMem(g, mem, l.blocks[i]);
  }
}
