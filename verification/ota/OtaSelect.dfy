/** OTA boot selection: two sequence-numbered records in flash, of which the larger valid one names the
    application to boot. */
module OtaSelect {

  const U32_MAX: int := 0xFFFF_FFFF

  type U32 = x: int | 0 <= x <= U32_MAX

  /** An ota_select record, as far as selection reads it; an erased record is all ones. */
  datatype Slot = Slot(seqNo: U32, crc: U32)

  const ERASED := Slot(U32_MAX, U32_MAX)

  /** The two sectors of the OTA data partition. */
  datatype Flash = Flash(s0: Slot, s1: Slot)

  /** The checksum of a sequence number; which one does not matter here. */
  type Crc = U32 -> U32

  /** ota_select_valid. */
  predicate Valid(crc: Crc, s: Slot) {
    s.seqNo != U32_MAX && s.crc == crc(s.seqNo)
  }

  datatype Choice = Fallback | App(slot: nat)

  /** seq - 1 in 32 bits, modulo the number of applications. */
  function AppOf(seqNo: U32, n: nat): nat
    requires 1 <= n
  {
    (if seqNo == 0 then U32_MAX else seqNo - 1) % n
  }

  /** esp_ota_get_boot_partition; `Fallback` is find_default_boot_partition. */
  function Boot(crc: Crc, f: Flash, n: nat): Choice
    requires 1 <= n
  {
    if f.s0.seqNo == U32_MAX && f.s1.seqNo == U32_MAX then Fallback
    else if Valid(crc, f.s0) && Valid(crc, f.s1) then App(AppOf(Later(f.s0.seqNo, f.s1.seqNo), n))
    else if Valid(crc, f.s0) then App(AppOf(f.s0.seqNo, n))
    else if Valid(crc, f.s1) then App(AppOf(f.s1.seqNo, n))
    else Fallback
  }

  function Later(a: U32, b: U32): U32 { if a >= b then a else b }

  // ---------- What is booted ----------

  /** The record can be trusted: it is not erased, and its checksum is that of its number. */
  predicate Intact(crc: Crc, s: Slot) { s.seqNo < U32_MAX && s.crc == crc(s.seqNo) }

  /** The record that decides: intact, and no intact record has a larger number. */
  ghost predicate Deciding(crc: Crc, f: Flash, s: Slot) {
    s in {f.s0, f.s1} && Intact(crc, s) && forall t :: t in {f.s0, f.s1} && Intact(crc, t) ==> t.seqNo <= s.seqNo
  }

  /** Boot selection in one sentence: the application that is one less than the number of the deciding record,
      modulo the number of applications, with 0 standing for 2^32; and the default if no record is intact. */
  lemma {:induction false} BootExact(crc: Crc, f: Flash, n: nat, k: nat)
    requires 1 <= n
    ensures Boot(crc, f, n) == Fallback <==> !Intact(crc, f.s0) && !Intact(crc, f.s1)
    ensures Boot(crc, f, n) == App(k) <==>
            exists s :: Deciding(crc, f, s) && k == ((s.seqNo as int + 0x1_0000_0000 - 1) % 0x1_0000_0000) % n
  {
    Mod32(f.s0.seqNo);
    Mod32(f.s1.seqNo);
    var s := if !Intact(crc, f.s1) || (Intact(crc, f.s0) && f.s0.seqNo >= f.s1.seqNo) then f.s0 else f.s1;
    if Intact(crc, s) { assert Deciding(crc, f, s); }
  }

  lemma {:induction false} Mod32(x: U32)
    ensures (x as int + 0x1_0000_0000 - 1) % 0x1_0000_0000 == if x == 0 then U32_MAX else x - 1
  {
  }

  // ---------- The next sequence number ----------

  /** The least number from `seqNo` on that names application y: congruent to y + 1. */
  function Target(seqNo: nat, y: nat, n: nat): (t: nat)
    requires 1 <= n
  {
    var r := (y + 1) % n;
    seqNo + (r - seqNo) % n
  }

  lemma {:induction false} TargetIsLeast(seqNo: nat, y: nat, n: nat)
    requires 1 <= n
    ensures seqNo <= Target(seqNo, y, n) < seqNo + n
    ensures Target(seqNo, y, n) % n == (y + 1) % n
    ensures forall t :: seqNo <= t && t % n == (y + 1) % n ==> Target(seqNo, y, n) <= t
  {
    var r, t := (y + 1) % n, Target(seqNo, y, n);
    ModBack(seqNo, r, n);
    ModTwice(y + 1, n);
    forall u | seqNo <= u && u % n == r ensures t <= u {
      if u < t { SameResidueFarApart(u, t, n); }
    }
  }

  lemma {:induction false} ModTwice(x: int, n: nat)
    requires 1 <= n
    ensures (x % n) % n == x % n
  {
    ModShift(x % n, 0, n);
  }

  lemma {:induction false} ModBack(s: int, r: int, n: nat)
    requires 1 <= n
    ensures (s + (r - s) % n) % n == r % n
  {
    var q := (r - s) / n;
    assert s + (r - s) % n == r + (-q) * n;
    ModShift(r, -q, n);
  }

  lemma {:induction false} ModShift(x: int, k: int, n: nat)
    requires 1 <= n
    ensures (x + k * n) % n == x % n
  {
    var d := (x + k * n) / n - x / n - k;
    assert d * n == x % n - (x + k * n) % n;
    SmallMultiple(d, n);
  }

  lemma {:induction false} SmallMultiple(d: int, n: nat)
    requires 1 <= n
    ensures d >= 1 ==> d * n >= n
    ensures d <= -1 ==> d * n <= -(n as int)
  {
  }

  lemma {:induction false} SameResidueFarApart(u: int, t: int, n: nat)
    requires 1 <= n && u < t && u % n == t % n
    ensures u + n <= t
  {
    var d := t / n - u / n;
    assert t - u == d * n;
    SmallMultiple(d, n);
  }

  /** A positive number congruent to y + 1 names application y, and no other number does. */
  lemma {:induction false} AppOfIff(t: U32, y: nat, n: nat)
    requires 1 <= n && y < n && 1 <= t
    ensures AppOf(t, n) == y <==> t % n == (y + 1) % n
  {
    var a := (t - 1) % n;
    var q := (t - 1) / n;
    assert t == (a + 1) + q * n;
    ModShift(a + 1, q, n);
    assert t % n == (a + 1) % n;
    if a != y && (a + 1) % n == (y + 1) % n {
      if a < y { SameResidueFarApart(a + 1, y + 1, n); } else { SameResidueFarApart(y + 1, a + 1, n); }
    }
  }

  const WORDS: int := 0x1_0000_0000

  /** What the counting loop of esp_rewrite_ota_data compares with in its i-th turn, in 32 bits. */
  function Probe(y: nat, n: nat, i: nat): U32
    requires 1 <= n
  {
    ((y + 1) % n + i * n) % WORDS
  }

  /** The loop ends: some turn finds a number that is not below the current one. */
  ghost predicate SearchEnds(seqNo: U32, y: nat, n: nat)
    requires 1 <= n
  {
    exists i: U32 :: Probe(y, n, i) >= seqNo
  }

  /** The counting loop. As long as the least suitable number fits into 32 bits, that is what it finds;
      otherwise the products wrap and it stops at the first value that happens to be large enough. */
  method Search(seqNo: U32, y: nat, n: nat) returns (t: U32)
    requires 1 <= n && y < n && SearchEnds(seqNo, y, n)
    ensures t >= seqNo
    ensures exists i: U32 :: t == Probe(y, n, i) && forall j :: 0 <= j < i ==> Probe(y, n, j) < seqNo
    ensures Target(seqNo, y, n) <= U32_MAX ==> t == Target(seqNo, y, n)
  {
    hide Target, Probe;
    var i: U32 := 0;
    ghost var hit: U32 :| Probe(y, n, hit) >= seqNo;
    while seqNo > Probe(y, n, i)
      invariant i <= hit && forall j :: 0 <= j < i ==> Probe(y, n, j) < seqNo
      decreases hit - i
    {
      assert i != hit;
      i := i + 1;
    }
    t := Probe(y, n, i);
    if Target(seqNo, y, n) <= U32_MAX {
      var k := TargetIsFirst(seqNo, y, n);
      assert i == k;
    }
  }

  /** Without wrapping, the first turn that finds a number large enough finds the least one. */
  lemma {:induction false} TargetIsFirst(seqNo: U32, y: nat, n: nat) returns (k: U32)
    requires 1 <= n && y < n && Target(seqNo, y, n) <= U32_MAX
    ensures Probe(y, n, k) == Target(seqNo, y, n) >= seqNo
    ensures forall j :: 0 <= j < k ==> Probe(y, n, j) < seqNo
    ensures SearchEnds(seqNo, y, n)
  {
    hide Target;
    TargetIsLeast(seqNo, y, n);
    var r, t := (y + 1) % n, Target(seqNo, y, n);
    ModTwice(y + 1, n);
    if t < r { SameResidueFarApart(t, r, n); }
    ResidueDistance(r, t, n);
    k := (t - r) / n;
    QuotientSmall(t - r, n);
    Small(t);
    forall j | 0 <= j < k ensures Probe(y, n, j) < seqNo {
      Earlier(j, k, n);
      ModShift(r, j, n);
      assert (r + j * n) % n == (y + 1) % n;
      Small(r + j * n);
    }
  }

  lemma {:induction false} Small(x: int)
    requires 0 <= x < WORDS
    ensures x % WORDS == x
  {
  }

  lemma {:induction false} QuotientSmall(x: nat, n: nat)
    requires 1 <= n
    ensures 0 <= x / n <= x
  {
    MulAtLeast(x / n, n);
  }

  lemma {:induction false} MulAtLeast(d: int, n: nat)
    requires 1 <= n
    ensures d >= 0 ==> d * n >= d
    ensures d < 0 ==> d * n < 0
  {
    if n > 1 {
      MulAtLeast(d, n - 1);
      assert d * n == d * (n - 1) + d;
    }
  }

  lemma {:induction false} Earlier(j: nat, k: nat, n: nat)
    requires j < k
    ensures j * n + n <= k * n
  {
    assert k * n == j * n + (k - j) * n;
    assert (k - j - 1) * n >= 0;
  }

  lemma {:induction false} ResidueDistance(r: nat, t: nat, n: nat)
    requires 1 <= n && r <= t && r % n == t % n
    ensures r + ((t - r) / n) * n == t
  {
    var d := t / n - r / n;
    assert t - r == d * n;
    ModShift(0, d, n);
    assert (t - r) % n == 0;
  }

  // ---------- When the counting loop ends ----------

  /** The largest power of two that divides n. */
  function TwoPart(n: nat): (g: nat)
    requires 1 <= n <= 16
    ensures g in {1, 2, 4, 8, 16} && n % g == 0 && (n / g) % 2 == 1
  {
    if n == 16 then 16 else if n == 8 then 8 else if n % 4 == 0 then 4 else if n % 2 == 0 then 2 else 1
  }

  /** The largest 32-bit number that has the residue of y + 1 modulo that power. */
  function LastProbe(y: nat, n: nat): U32
    requires 1 <= n <= 16
  {
    WORDS - TwoPart(n) + (y + 1) % n % TwoPart(n)
  }

  /** The inverse of an odd number modulo 2^32, and the carry of the product. */
  function Inverse(m: nat): nat {
    if m == 1 then 0x1
    else if m == 3 then 0xAAAAAAAB
    else if m == 5 then 0xCCCCCCCD
    else if m == 7 then 0xB6DB6DB7
    else if m == 9 then 0x38E38E39
    else if m == 11 then 0xBA2E8BA3
    else if m == 13 then 0xC4EC4EC5
    else 0xEEEEEEEF
  }

  function Carry(m: nat): nat {
    if m == 1 then 0
    else if m == 3 then 2
    else if m == 5 then 4
    else if m == 7 then 5
    else if m == 9 then 2
    else if m == 11 then 8
    else if m == 13 then 10
    else 14
  }

  lemma {:induction false} InverseIsInverse(m: nat)
    requires m % 2 == 1 && m <= 15
    ensures m * Inverse(m) == 1 + Carry(m) * WORDS
  {
  }

  /** The counting loop ends if and only if the current number is not above that largest number. */
  lemma {:induction false} SearchEndsExact(seqNo: U32, y: nat, n: nat)
    requires 1 <= n <= 16 && y < n
    ensures SearchEnds(seqNo, y, n) <==> seqNo <= LastProbe(y, n)
  {
    hide TwoPart, Probe;
    var i := LastIsReached(y, n);
    forall j: U32 ensures Probe(y, n, j) <= LastProbe(y, n) { NoneAboveLast(y, n, j); }
  }

  lemma {:induction false} NoneAboveLast(y: nat, n: nat, j: U32)
    requires 1 <= n <= 16
    ensures Probe(y, n, j) <= LastProbe(y, n)
  {
    var g, r, p := TwoPart(n), (y + 1) % n, Probe(y, n, j);
    var m, c := n / g, WORDS / g;
    var q := (r + j * n) / WORDS;
    assert n == m * g && WORDS == c * g;
    hide TwoPart, Probe;
    Regroup(r, j, m, g, q, c);
    assert p == r + (j * m - q * c) * g;
    ModShift(r, j * m - q * c, g);
    var last := LastProbe(y, n);
    ModTwice(r, g);
    ModShift(r % g, c - 1, g);
    assert last == r % g + (c - 1) * g;
    if p > last { SameResidueFarApart(last, p, g); }
  }

  lemma {:induction false} Regroup(r: int, j: int, m: int, g: int, q: int, c: int)
    ensures r + j * (m * g) - q * (c * g) == r + (j * m - q * c) * g
  {
  }

  lemma {:induction false} LastIsReached(y: nat, n: nat) returns (i: U32)
    requires 1 <= n <= 16
    ensures Probe(y, n, i) == LastProbe(y, n)
  {
    var g, r := TwoPart(n), (y + 1) % n;
    var m, c := n / g, WORDS / g;
    var k := c - 1 - r / g;
    var last := LastProbe(y, n);
    assert n == m * g && WORDS == c * g && m % 2 == 1 && m <= 15;
    assert r / g * g + r % g == r;
    hide TwoPart;
    assert last - r == k * g by { Distribute(c, r / g, g); }
    InverseIsInverse(m);
    var i0 := k * Inverse(m);
    i := i0 % WORDS;
    Unfold(k, m, g, Inverse(m), Carry(m));
    assert i0 * n == k * g + (k * g * Carry(m)) * WORDS;
    ModShift(last, k * g * Carry(m), WORDS);
    var q := i0 / WORDS;
    assert i == i0 - q * WORDS;
    Wrapped(r, i0, q, n);
    ModShift(r + i0 * n, -(q * n), WORDS);
    Small(last);
  }

  lemma {:induction false} Distribute(c: int, x: int, g: int)
    ensures (c - 1 - x) * g == c * g - g - x * g
  {
  }

  lemma {:induction false} Unfold(k: int, m: int, g: int, inv: int, carry: int)
    requires m * inv == 1 + carry * WORDS
    ensures (k * inv) * (m * g) == k * g + (k * g * carry) * WORDS
  {
    calc {
      (k * inv) * (m * g);
      (k * g) * (m * inv);
      (k * g) * (1 + carry * WORDS);
      k * g + (k * g) * (carry * WORDS);
      k * g + (k * g * carry) * WORDS;
    }
  }

  lemma {:induction false} Wrapped(r: int, i0: int, q: int, n: int)
    ensures r + (i0 - q * WORDS) * n == (r + i0 * n) + (-(q * n)) * WORDS
  {
  }

  /** With four applications there are numbers from which the loop never ends. */
  lemma {:induction false} SearchCanHang()
    ensures exists seqNo: U32, y: nat, n: nat :: 1 <= n <= 16 && y < n && seqNo < U32_MAX && !SearchEnds(seqNo, y, n)
  {
    SearchEndsExact(0xFFFF_FFFE, 3, 4);
    assert !SearchEnds(0xFFFF_FFFE, 3, 4);
  }

  // ---------- Setting the boot application ----------

  /** The sequence number selection goes by; 0 when no record is valid. */
  function Current(crc: Crc, f: Flash): nat {
    if Valid(crc, f.s0) && Valid(crc, f.s1) then Later(f.s0.seqNo, f.s1.seqNo)
    else if Valid(crc, f.s0) then f.s0.seqNo
    else if Valid(crc, f.s1) then f.s1.seqNo
    else 0
  }

  /** The sector that is rewritten: never the one selection goes by. */
  function Sector(crc: Crc, f: Flash): nat {
    if Valid(crc, f.s0) && Valid(crc, f.s1) then if f.s0.seqNo >= f.s1.seqNo then 1 else 0
    else if Valid(crc, f.s0) then 1
    else 0
  }

  /** The sequence number that goes there. */
  function NextSeq(crc: Crc, f: Flash, y: nat, n: nat): nat
    requires 1 <= n
  {
    if Valid(crc, f.s0) || Valid(crc, f.s1) then Target(Current(crc, f), y, n) else y + 1
  }

  function Put(f: Flash, sector: nat, s: Slot): Flash {
    if sector == 0 then f.(s0 := s) else f.(s1 := s)
  }

  datatype Error = Ok | InvalidArg

  /** The OTA data partition and the code that rewrites it. */
  class OtaData {
    var flash: Flash
    const crc: Crc

    constructor (crc: Crc)
      ensures flash == Flash(ERASED, ERASED) && this.crc == crc
    {
      this.crc := crc;
      flash := Flash(ERASED, ERASED);
    }

    /** Flash can only be written where it has been erased. */
    method Erase(sector: nat)
      requires sector <= 1
      modifies this
      ensures flash == Put(old(flash), sector, ERASED)
    {
      flash := Put(flash, sector, ERASED);
    }

    method Program(sector: nat, record: Slot)
      requires sector <= 1 && (if sector == 0 then flash.s0 else flash.s1) == ERASED
      modifies this
      ensures flash == Put(old(flash), sector, record)
    {
      flash := Put(flash, sector, record);
    }

    /** The factory branch of esp_ota_set_boot_partition. */
    method EraseAll()
      modifies this
      ensures flash == Flash(ERASED, ERASED)
    {
      Erase(0);
      Erase(1);
    }

    /** rewrite_ota_seq: erase the sector, then write the record. */
    method RewriteOtaSeq(seqNo: U32, sector: nat)
      requires sector <= 1
      modifies this
      ensures flash == Put(old(flash), sector, Slot(seqNo, crc(seqNo)))
    {
      var record := Slot(seqNo, crc(seqNo));
      Erase(sector);
      Program(sector, record);
    }

    /** esp_rewrite_ota_data for the low four bits of the subtype, with `n` applications present, whenever
        its counting loop ends (`SearchEndsExact`). If the next number does not fit into 32 bits, what is
        written instead does not select the application. */
    method RewriteOtaData(subtype: nat, n: nat) returns (e: Error)
      requires n <= 16
      requires subtype % 16 < n && (Valid(crc, flash.s0) || Valid(crc, flash.s1)) ==>
                 SearchEnds(Current(crc, flash), subtype % 16, n)
      modifies this
      ensures e == if subtype % 16 >= n then InvalidArg else Ok
      ensures e != Ok ==> flash == old(flash)
      ensures e == Ok && old(NextSeq(crc, flash, subtype % 16, n)) <= U32_MAX ==>
                flash == old(After(crc, flash, subtype % 16, n, Complete))
      ensures e == Ok && old(NextSeq(crc, flash, subtype % 16, n)) > U32_MAX && old(Sane(crc, flash)) ==>
                && Boot(crc, flash, n) != App(subtype % 16)
                && exists t: U32 ::
                     && old(Current(crc, flash)) <= t
                     && flash == Put(old(flash), old(Sector(crc, flash)), Slot(t, crc(t)))
    {
      hide Target, Probe, SearchEnds, AppOf;
      var y := subtype % 16;
      if y >= n {
        return InvalidArg;
      }
      ghost var was := flash;
      var seqNo;
      if Valid(crc, flash.s0) && Valid(crc, flash.s1) {
        seqNo := Search(Later(flash.s0.seqNo, flash.s1.seqNo), y, n);
        if flash.s0.seqNo >= flash.s1.seqNo {
          RewriteOtaSeq(seqNo, 1);
        } else {
          RewriteOtaSeq(seqNo, 0);
        }
      } else if Valid(crc, flash.s0) {
        seqNo := Search(flash.s0.seqNo, y, n);
        RewriteOtaSeq(seqNo, 1);
      } else if Valid(crc, flash.s1) {
        seqNo := Search(flash.s1.seqNo, y, n);
        RewriteOtaSeq(seqNo, 0);
      } else {
        seqNo := y + 1;
        RewriteOtaSeq(seqNo, 0);
      }
      assert flash == Put(was, Sector(crc, was), Slot(seqNo, crc(seqNo))) && Current(crc, was) <= seqNo;
      if NextSeq(crc, was, y, n) > U32_MAX && Sane(crc, was) {
        WrappedSelectsOther(crc, was, y, n, seqNo);
      }
      return Ok;
    }
  }

  // ---------- Power loss ----------

  /** How far a call gets: not to the erase, to the erase, into an erase or write that leaves a record
      `t` behind, or to the end. */
  datatype Cut = BeforeErase | AfterErase | Torn(t: Slot) | Complete

  /** What is in flash when a call for application y stops there. */
  function After(crc: Crc, f: Flash, y: nat, n: nat, cut: Cut): Flash
    requires 1 <= n && NextSeq(crc, f, y, n) <= U32_MAX
  {
    match cut
    case BeforeErase => f
    case AfterErase => Put(f, Sector(crc, f), ERASED)
    case Torn(t) => Put(f, Sector(crc, f), t)
    case Complete =>
      var seqNo := NextSeq(crc, f, y, n);
      Put(f, Sector(crc, f), Slot(seqNo, crc(seqNo)))
  }

  /** A torn record fails its checksum. */
  predicate CutOk(crc: Crc, cut: Cut) { cut.Torn? ==> cut.t.crc != crc(cut.t.seqNo) }

  /** Sequence numbers start at 1. */
  predicate Sane(crc: Crc, f: Flash) {
    (f.s0.seqNo == 0 ==> f.s0.crc != crc(0)) && (f.s1.seqNo == 0 ==> f.s1.crc != crc(0))
  }

  lemma {:induction false} BootByCurrent(crc: Crc, f: Flash, n: nat)
    requires 1 <= n && Sane(crc, f)
    ensures Boot(crc, f, n) == if Current(crc, f) == 0 then Fallback else App(AppOf(Current(crc, f), n))
    ensures Current(crc, f) != 0 <==> Valid(crc, f.s0) || Valid(crc, f.s1)
    ensures Current(crc, f) < U32_MAX
  {
  }

  lemma {:induction false} NextSeqBounds(crc: Crc, f: Flash, y: nat, n: nat)
    requires 1 <= n && y < n && Sane(crc, f)
    ensures 1 <= NextSeq(crc, f, y, n) && Current(crc, f) <= NextSeq(crc, f, y, n) <= Current(crc, f) + n
    ensures NextSeq(crc, f, y, n) % n == (y + 1) % n
  {
    hide Target;
    TargetIsLeast(Current(crc, f), y, n);
  }

  /** Whatever is left in the rewritten sector, as long as it is not a later valid record, selection is
      unmoved; a valid record at least as late takes over. */
  lemma {:induction false} OverwriteCurrent(crc: Crc, f: Flash, s: Slot)
    requires Sane(crc, f)
    ensures !Valid(crc, s) ==> Current(crc, Put(f, Sector(crc, f), s)) == Current(crc, f)
    ensures Valid(crc, s) && s.seqNo >= Current(crc, f) ==> Current(crc, Put(f, Sector(crc, f), s)) == s.seqNo
  {
  }

  /** A call can do what it is asked to: the next number fits into 32 bits and, if the call is to complete,
      is not the one that marks an erased record. */
  predicate Usable(crc: Crc, f: Flash, y: nat, n: nat, cut: Cut)
    requires 1 <= n
  {
    NextSeq(crc, f, y, n) <= if cut.Complete? then U32_MAX - 1 else U32_MAX
  }

  /** A record with a wrong checksum, in the sector that is rewritten, changes nothing. */
  lemma {:induction false} WrongChecksumIgnored(crc: Crc, f: Flash, s: Slot, n: nat)
    requires 1 <= n && s.crc != crc(s.seqNo)
    ensures Boot(crc, Put(f, Sector(crc, f), s), n) == Boot(crc, f, n)
  {
  }

  /** Crash safety of one call: afterwards the selection is the one before the call or the one it asked
      for, and a completed call takes effect, provided a usable sequence number is left. */
  lemma {:induction false} CrashSafe(crc: Crc, f: Flash, y: nat, n: nat, cut: Cut)
    requires 1 <= n && y < n && Sane(crc, f) && CutOk(crc, cut) && Usable(crc, f, y, n, cut)
    ensures var g := After(crc, f, y, n, cut);
            && Sane(crc, g)
            && (Boot(crc, g, n) == if cut.Complete? then App(y) else Boot(crc, f, n))
            && Current(crc, f) <= Current(crc, g) <= Current(crc, f) + n
  {
    hide Boot, NextSeq, Current, Sector;
    var g := After(crc, f, y, n, cut);
    NextSeqBounds(crc, f, y, n);
    var t := NextSeq(crc, f, y, n);
    var s := if cut.Complete? then Slot(t, crc(t)) else if cut.Torn? then cut.t else ERASED;
    OverwriteCurrent(crc, f, s);
    BootByCurrent(crc, f, n);
    BootByCurrent(crc, g, n);
    AppOfIff(t, y, n);
  }

  /** Setting application y works exactly when the next number for y can still be written as a valid
      sequence number; the all-ones number that marks an erased record cannot. */
  lemma {:induction false} SetThenGet(crc: Crc, f: Flash, y: nat, n: nat)
    requires 1 <= n && y < n && Sane(crc, f) && NextSeq(crc, f, y, n) <= U32_MAX
    ensures Boot(crc, After(crc, f, y, n, Complete), n) == App(y) <==> NextSeq(crc, f, y, n) < U32_MAX
  {
    if NextSeq(crc, f, y, n) < U32_MAX {
      CrashSafe(crc, f, y, n, Complete);
    } else {
      hide Boot, NextSeq, Current, Sector, Target;
      var t := NextSeq(crc, f, y, n);
      var g := After(crc, f, y, n, Complete);
      NextSeqBounds(crc, f, y, n);
      OverwriteCurrent(crc, f, Slot(t, crc(t)));
      BootByCurrent(crc, f, n);
      BootByCurrent(crc, g, n);
      var c := Current(crc, f);
      if c != 0 {
        NextIsTarget(crc, f, y, n);
        TargetIsLeast(c, y, n);
        AppOfIff(c, y, n);
      }
    }
  }

  lemma {:induction false} NextIsTarget(crc: Crc, f: Flash, y: nat, n: nat)
    requires 1 <= n && Sane(crc, f) && Current(crc, f) != 0
    ensures NextSeq(crc, f, y, n) == Target(Current(crc, f), y, n)
  {
  }

  /** When even the next number for y no longer fits into 32 bits, no record of at least the current
      number selects y. */
  lemma {:induction false} NoNumberLeft(crc: Crc, f: Flash, y: nat, n: nat)
    requires 1 <= n && y < n && Sane(crc, f) && Current(crc, f) != 0 && NextSeq(crc, f, y, n) > U32_MAX
    ensures forall t: U32 :: Current(crc, f) <= t ==> AppOf(t, n) != y
  {
    hide Target, Current, AppOf;
    NextIsTarget(crc, f, y, n);
    TargetIsLeast(Current(crc, f), y, n);
    forall t: U32 | Current(crc, f) <= t ensures AppOf(t, n) != y { AppOfIff(t, y, n); }
  }

  /** Whatever number is written after wrapping, the application asked for is not selected. */
  lemma {:induction false} WrappedSelectsOther(crc: Crc, f: Flash, y: nat, n: nat, t: U32)
    requires 1 <= n && y < n && Sane(crc, f) && Current(crc, f) != 0 && NextSeq(crc, f, y, n) > U32_MAX
    requires Current(crc, f) <= t
    ensures Boot(crc, Put(f, Sector(crc, f), Slot(t, crc(t))), n) != App(y)
  {
    hide NextSeq, Boot, Current, Sector, AppOf;
    NoNumberLeft(crc, f, y, n);
    var g := Put(f, Sector(crc, f), Slot(t, crc(t)));
    BootByCurrent(crc, f, n);
    OverwriteCurrent(crc, f, Slot(t, crc(t)));
    assert Sane(crc, g);
    BootByCurrent(crc, g, n);
  }

  /** Past the last number: with three applications, asking for the first finds a wrapped number. */
  lemma {:induction false} WrapCanEnd(crc: Crc)
    ensures exists f: Flash ::
              && Sane(crc, f) && Valid(crc, f.s0) && Current(crc, f) < U32_MAX
              && NextSeq(crc, f, 0, 3) > U32_MAX && SearchEnds(Current(crc, f), 0, 3)
  {
    var f := Flash(Slot(0xFFFF_FFFE, crc(0xFFFF_FFFE)), ERASED);
    assert Sane(crc, f) && Valid(crc, f.s0) && Current(crc, f) == 0xFFFF_FFFE;
    assert NextSeq(crc, f, 0, 3) > U32_MAX;
    SearchEndsExact(0xFFFF_FFFE, 0, 3);
  }

  /** The last usable number is taken: asking for the first of two applications boots the second. */
  lemma {:induction false} SetThenGetCanFail(crc: Crc)
    ensures exists f: Flash ::
              && Sane(crc, f) && NextSeq(crc, f, 0, 2) == U32_MAX
              && Boot(crc, After(crc, f, 0, 2, Complete), 2) == App(1)
  {
    var f := Flash(Slot(0xFFFF_FFFE, crc(0xFFFF_FFFE)), ERASED);
    assert Sane(crc, f) && NextSeq(crc, f, 0, 2) == U32_MAX;
    assert Boot(crc, After(crc, f, 0, 2, Complete), 2) == App(1);
  }

  // ---------- Runs ----------

  datatype Call = Call(y: nat, cut: Cut)

  predicate CallOk(crc: Crc, c: Call, n: nat) { c.y < n && CutOk(crc, c.cut) }

  /** At every call of the run a usable number is left. */
  predicate AllUsable(crc: Crc, f: Flash, calls: seq<Call>, n: nat)
    requires 1 <= n
    decreases |calls|
  {
    calls != [] ==>
      && Usable(crc, f, calls[0].y, n, calls[0].cut)
      && AllUsable(crc, After(crc, f, calls[0].y, n, calls[0].cut), calls[1..], n)
  }

  /** A run of calls, each possibly ended by power loss. */
  function Run(crc: Crc, f: Flash, calls: seq<Call>, n: nat): (g: Flash)
    requires 1 <= n && AllUsable(crc, f, calls, n)
    decreases |calls|
  {
    if calls == [] then f
    else Run(crc, After(crc, f, calls[0].y, n, calls[0].cut), calls[1..], n)
  }

  predicate AllOk(crc: Crc, calls: seq<Call>, n: nat) {
    forall i :: 0 <= i < |calls| ==> CallOk(crc, calls[i], n)
  }

  /** The same calls on a register that is set in one indivisible step: the selection after the last
      completed call. */
  function Selected(c: Choice, calls: seq<Call>): Choice
    decreases |calls|
  {
    if calls == [] then c
    else Selected(if calls[0].cut.Complete? then App(calls[0].y) else c, calls[1..])
  }

  lemma {:induction false} FirstCall(crc: Crc, calls: seq<Call>, n: nat)
    requires AllOk(crc, calls, n) && calls != []
    ensures CallOk(crc, calls[0], n) && AllOk(crc, calls[1..], n)
  {
    assert forall i :: 0 <= i < |calls[1..]| ==> calls[1..][i] == calls[i + 1];
  }

  /** Over every run the two records behave as that register. */
  lemma {:induction false} RunRefinesRegister(crc: Crc, f: Flash, calls: seq<Call>, n: nat)
    requires 1 <= n && Sane(crc, f) && AllUsable(crc, f, calls, n) && AllOk(crc, calls, n)
    ensures Boot(crc, Run(crc, f, calls, n), n) == Selected(Boot(crc, f, n), calls)
    decreases |calls|
  {
    if calls != [] {
      hide AllOk, Boot, After, NextSeq, Current;
      FirstCall(crc, calls, n);
      CrashSafe(crc, f, calls[0].y, n, calls[0].cut);
      RunRefinesRegister(crc, After(crc, f, calls[0].y, n, calls[0].cut), calls[1..], n);
    }
  }

  /** Calls that are to complete. */
  function Completed(calls: seq<Call>): nat
    decreases |calls|
  {
    if calls == [] then 0 else Completed(calls[1..]) + if calls[0].cut.Complete? then 1 else 0
  }

  /** A bound on the numbers at the start is enough: every completed call uses up at most n of them, and a
      call that is cut uses up none. */
  lemma {:induction false} EnoughAtStart(crc: Crc, f: Flash, calls: seq<Call>, n: nat)
    requires 1 <= n && Sane(crc, f) && AllOk(crc, calls, n)
    requires Current(crc, f) + (Completed(calls) + 1) * n <= U32_MAX
    ensures AllUsable(crc, f, calls, n)
    decreases |calls|
  {
    if calls != [] {
      hide AllOk, Boot, NextSeq, Current, Sector;
      FirstCall(crc, calls, n);
      var c := calls[0];
      var k := Completed(calls[1..]);
      NextSeqBounds(crc, f, c.y, n);
      OneMore(k, n);
      OneMore(k + 1, n);
      SmallMultiple(k + 1, n);
      assert Usable(crc, f, c.y, n, c.cut);
      CrashSafe(crc, f, c.y, n, c.cut);
      CutUsesNone(crc, f, c.y, n, c.cut);
      EnoughAtStart(crc, After(crc, f, c.y, n, c.cut), calls[1..], n);
    }
  }

  lemma {:induction false} OneMore(k: nat, n: nat)
    ensures (k + 1) * n == k * n + n && k * n >= 0
  {
  }

  lemma {:induction false} CutUsesNone(crc: Crc, f: Flash, y: nat, n: nat, cut: Cut)
    requires 1 <= n && Sane(crc, f) && CutOk(crc, cut) && Usable(crc, f, y, n, cut)
    ensures !cut.Complete? ==> Current(crc, After(crc, f, y, n, cut)) == Current(crc, f)
  {
    hide NextSeq;
    OverwriteCurrent(crc, f, ERASED);
    if cut.Torn? { OverwriteCurrent(crc, f, cut.t); }
  }

  // ---------- Back to the factory application ----------

  /** Selecting the factory application erases both sectors, the first one first. Power loss in between
      is harmless exactly when the second record alone selects nothing or the same application; otherwise
      the device boots an application that was neither selected before nor asked for. */
  lemma {:induction false} FactoryResetInterrupted(crc: Crc, f: Flash, n: nat)
    requires 1 <= n
    ensures var halfway := Flash(ERASED, f.s1);
            (Boot(crc, halfway, n) == Boot(crc, f, n) || Boot(crc, halfway, n) == Fallback)
            <==> (f.s1.seqNo == U32_MAX || f.s1.crc != crc(f.s1.seqNo) || Boot(crc, f, n) == App(AppOf(f.s1.seqNo, n)))
    ensures Boot(crc, Flash(ERASED, ERASED), n) == Fallback
  {
  }

  /** Two applications, the first record later than the second: half a reset boots the older one. */
  lemma {:induction false} FactoryResetCanMisboot(crc: Crc)
    ensures exists f: Flash :: Sane(crc, f) && Boot(crc, f, 2) == App(0) && Boot(crc, Flash(ERASED, f.s1), 2) == App(1)
  {
    var f := Flash(Slot(3, crc(3)), Slot(2, crc(2)));
    assert Boot(crc, f, 2) == App(0) && Boot(crc, Flash(ERASED, f.s1), 2) == App(1);
  }
}
