/** The binary partition table: 32-byte rows, an optional checksum row, and 0xFF padding. */
module PartitionTable {

  type Byte = x: int | 0 <= x < 0x100

  type Bytes = seq<Byte>

  datatype Result<T> = Ok(value: T) | Err(error: Error)

  datatype Error =
    | OutOfRange        // struct.pack refuses a field
    | TooLong           // the table does not fit into a sector with room for a signature
    | BadLength         // a row is not 32 bytes long
    | BadMagic          // a row does not begin with the magic bytes
    | BadChecksum       // the checksum row does not match the rows before it
    | NoEnd             // the end marker is missing

  /** One partition. The name is its encoded form. */
  datatype Partition = Partition(kind: int, subkind: int, offset: int, size: int, name: Bytes, encrypted: bool)

  const MAX_LENGTH: nat := 0xC00
  const MAGIC: Bytes := [0xAA, 0x50]
  const CHECKSUM_MAGIC: Bytes := [0xEB, 0xEB]

  function Repeat(b: Byte, n: nat): (r: Bytes)
    ensures |r| == n && forall i :: 0 <= i < n ==> r[i] == b
  {
    seq(n, _ => b)
  }

  const END_ROW: Bytes := Repeat(0xFF, 32)

  // ---------- Fields ----------

  predicate IsByte(x: int) { 0 <= x < 0x100 }

  predicate IsWord(x: int) { 0 <= x < 0x1_0000_0000 }

  /** A 32-bit field, least significant byte first. */
  function PutWord(x: int): (r: Bytes)
    requires IsWord(x)
    ensures |r| == 4
  {
    [x % 0x100, x / 0x100 % 0x100, x / 0x1_0000 % 0x100, x / 0x100_0000]
  }

  function FromBytes(b0: int, b1: int, b2: int, b3: int): int {
    b0 + 0x100 * b1 + 0x1_0000 * b2 + 0x100_0000 * b3
  }

  function GetWord(b: Bytes): int
    requires |b| == 4
  {
    FromBytes(b[0], b[1], b[2], b[3])
  }

  lemma {:induction false} WordRoundTrip(x: int)
    requires IsWord(x)
    ensures GetWord(PutWord(x)) == x
  {
    var q := x / 0x100;
    var r := x / 0x1_0000;
    assert x == 0x100 * q + x % 0x100;
    assert q / 0x100 == r && q == 0x100 * r + q % 0x100;
    assert r / 0x100 == x / 0x100_0000 && r == 0x100 * (x / 0x100_0000) + r % 0x100;
  }

  lemma {:induction false} WordRoundTripBack(b: Bytes)
    requires |b| == 4
    ensures IsWord(GetWord(b)) && PutWord(GetWord(b)) == b
  {
    BytesOf(b[0], b[1], b[2], b[3]);
  }

  lemma {:induction false} BytesOf(b0: int, b1: int, b2: int, b3: int)
    requires IsByte(b0) && IsByte(b1) && IsByte(b2) && IsByte(b3)
    ensures var x := FromBytes(b0, b1, b2, b3);
            && IsWord(x) && x % 0x100 == b0 && x / 0x100 % 0x100 == b1 && x / 0x1_0000 % 0x100 == b2
            && x / 0x100_0000 == b3
  {
    var x := FromBytes(b0, b1, b2, b3);
    assert x / 0x100 == b1 + 0x100 * b2 + 0x1_0000 * b3;
    assert x / 0x1_0000 == b2 + 0x100 * b3;
    assert x / 0x100_0000 == b3;
  }

  /** A 16-byte string field: longer strings are cut, shorter ones padded with NUL. */
  function PutName(s: Bytes): (r: Bytes)
    ensures |r| == 16
  {
    if |s| >= 16 then s[..16] else s + Repeat(0, 16 - |s|)
  }

  /** Everything before the first NUL. */
  function GetName(b: Bytes): Bytes {
    if b == [] || b[0] == 0 then [] else [b[0]] + GetName(b[1..])
  }

  /** Names survive exactly when they fit into the field and contain no NUL. */
  predicate NameFits(s: Bytes) { |s| <= 16 && 0 !in s }

  lemma {:induction false} GetNameOfPadded(s: Bytes, n: nat)
    requires 0 !in s
    ensures GetName(s + Repeat(0, n)) == s
  {
    if s == [] {
      assert s + Repeat(0, n) == Repeat(0, n);
    } else {
      assert (s + Repeat(0, n))[0] == s[0] && (s + Repeat(0, n))[1..] == s[1..] + Repeat(0, n);
      GetNameOfPadded(s[1..], n);
    }
  }

  lemma {:induction false} GetNameIsClean(b: Bytes)
    ensures 0 !in GetName(b) && |GetName(b)| <= |b| && GetName(b) <= b
    ensures |GetName(b)| < |b| ==> b[|GetName(b)|] == 0
  {
    if b != [] && b[0] != 0 { GetNameIsClean(b[1..]); }
  }

  lemma {:induction false} NameRoundTrip(s: Bytes)
    ensures GetName(PutName(s)) == s <==> NameFits(s)
  {
    if NameFits(s) {
      GetNameOfPadded(s, 16 - |s|);
      assert |s| == 16 ==> s[..16] == s == s + Repeat(0, 0);
    } else {
      GetNameIsClean(PutName(s));
    }
  }

  // ---------- Rows ----------

  /** PartitionDefinition.to_binary. */
  function RowOf(p: Partition): (r: Result<Bytes>)
    ensures r.Ok? ==> |r.value| == 32
  {
    if IsByte(p.kind) && IsByte(p.subkind) && IsWord(p.offset) && IsWord(p.size) then
      Ok(MAGIC + [p.kind, p.subkind] + PutWord(p.offset) + PutWord(p.size) + PutName(p.name)
         + PutWord(if p.encrypted then 1 else 0))
    else Err(OutOfRange)
  }

  /** PartitionDefinition.from_binary; unknown flags only cause a warning. */
  function PartitionOf(b: Bytes): Result<Partition> {
    if |b| != 32 then Err(BadLength)
    else if b[..2] != MAGIC then Err(BadMagic)
    else Ok(Partition(b[2], b[3], GetWord(b[4..8]), GetWord(b[8..12]), GetName(b[12..28]), b[28] % 2 == 1))
  }

  predicate InRange(p: Partition) {
    IsByte(p.kind) && IsByte(p.subkind) && IsWord(p.offset) && IsWord(p.size)
  }

  lemma {:induction false} RowFields(p: Partition)
    requires InRange(p)
    ensures var b := RowOf(p).value;
            && b[..2] == MAGIC && b[2] == p.kind && b[3] == p.subkind
            && b[4..8] == PutWord(p.offset) && b[8..12] == PutWord(p.size)
            && b[12..28] == PutName(p.name) && b[28..] == PutWord(if p.encrypted then 1 else 0)
  {
    hide PutWord, PutName;
    var b := RowOf(p).value;
    assert b[..2] == MAGIC;
  }

  /** What is left of a partition when it is written and read: its name as the field holds it. */
  function AsRead(p: Partition): Partition { p.(name := GetName(PutName(p.name))) }

  function AllAsRead(t: seq<Partition>): (r: seq<Partition>)
    ensures |r| == |t|
  {
    if t == [] then [] else [AsRead(t[0])] + AllAsRead(t[1..])
  }

  /** A partition can be written if and only if its fields are in range; it is then read back unchanged if
      and only if its name fits. */
  lemma {:induction false} RowRoundTrip(p: Partition)
    ensures RowOf(p).Ok? <==> InRange(p)
    ensures RowOf(p).Ok? ==> PartitionOf(RowOf(p).value) == Ok(AsRead(p))
    ensures AsRead(p) == p <==> NameFits(p.name)
  {
    NameRoundTrip(p.name);
    if InRange(p) {
      RowFields(p);
      WordRoundTrip(p.offset);
      WordRoundTrip(p.size);
      var b := RowOf(p).value;
      assert b[28] == b[28..][0];
    }
  }

  lemma {:induction false} AllAsReadSame(t: seq<Partition>)
    ensures AllAsRead(t) == t <==> forall i :: 0 <= i < |t| ==> NameFits(t[i].name)
  {
    if t != [] {
      RowRoundTrip(t[0]);
      AllAsReadSame(t[1..]);
      assert AllAsRead(t)[1..] == AllAsRead(t[1..]);
      assert AllAsRead(t) == t <==> AsRead(t[0]) == t[0] && AllAsRead(t[1..]) == t[1..];
      assert forall i :: 0 < i < |t| ==> t[i] == t[1..][i - 1];
    }
  }

  /** A row without anything the reader drops: NULs from the first NUL of the name on, and no flag but
      the known one. */
  predicate Canonical(b: Bytes)
    requires |b| == 32
  {
    (forall i :: 12 + |GetName(b[12..28])| <= i < 28 ==> b[i] == 0)
    && b[28] <= 1 && b[29] == 0 && b[30] == 0 && b[31] == 0
  }

  /** Writing a row that has been read gives the same bytes exactly when the row is canonical. */
  lemma {:induction false} ReadRowRoundTrip(b: Bytes)
    requires PartitionOf(b).Ok?
    ensures RowOf(PartitionOf(b).value) == Ok(b) <==> Canonical(b)
  {
    hide PutWord, PutName, GetName, GetWord, RowOf;
    var p := PartitionOf(b).value;
    WordRoundTripBack(b[4..8]);
    WordRoundTripBack(b[8..12]);
    RowOk(p);
    RowFields(p);
    FlagWord(b[28..], p.encrypted);
    var c := RowOf(p).value;
    var name := b[12..28];
    GetNameIsClean(name);
    SameBySegments(b, c);
    NameCanonical(name);
    assert forall i :: 0 <= i < 16 ==> name[i] == b[12 + i];
    assert forall i :: 12 <= i < 28 ==> b[i] == name[i - 12];
  }

  lemma {:induction false} RowOk(p: Partition)
    ensures RowOf(p).Ok? <==> InRange(p)
    ensures RowOf(p).Ok? ==> |RowOf(p).value| == 32
  {
  }

  lemma {:induction false} FlagWord(b: Bytes, flag: bool)
    requires |b| == 4 && flag == (b[0] % 2 == 1)
    ensures b == PutWord(if flag then 1 else 0) <==> b[0] <= 1 && b[1] == 0 && b[2] == 0 && b[3] == 0
  {
    assert b == [b[0], b[1], b[2], b[3]];
  }

  lemma {:induction false} NameCanonical(name: Bytes)
    requires |name| == 16
    ensures PutName(GetName(name)) == name <==> forall i :: |GetName(name)| <= i < 16 ==> name[i] == 0
  {
    GetNameIsClean(name);
    var s := GetName(name);
    var back := PutName(s);
    assert forall i :: 0 <= i < |s| ==> back[i] == s[i] == name[i];
    assert forall i :: |s| <= i < 16 ==> back[i] == 0;
  }

  lemma {:induction false} SameBySegments(b: Bytes, c: Bytes)
    requires |b| == |c| == 32
    ensures b == c <==> && b[..2] == c[..2] && b[2] == c[2] && b[3] == c[3] && b[4..8] == c[4..8]
                        && b[8..12] == c[8..12] && b[12..28] == c[12..28] && b[28..] == c[28..]
  {
    assert b == b[..2] + [b[2], b[3]] + b[4..8] + b[8..12] + b[12..28] + b[28..];
    assert c == c[..2] + [c[2], c[3]] + c[4..8] + c[8..12] + c[12..28] + c[28..];
  }

  // ---------- Tables ----------

  /** The digest in the checksum row; None when checksum rows are switched off. */
  type Digest = d: Bytes -> Bytes | forall b :: |d(b)| == 16 witness (_ => Repeat(0, 16))

  /** The rows of a table, one after the other. */
  function Rows(t: seq<Partition>): (r: Result<Bytes>)
    ensures r.Ok? ==> |r.value| == 32 * |t|
  {
    if t == [] then Ok([])
    else
      var row := RowOf(t[0]);
      if row.Err? then Err(row.error)
      else
        var rest := Rows(t[1..]);
        if rest.Err? then rest else Ok(row.value + rest.value)
  }

  datatype Option<T> = None | Some(value: T)

  function ChecksumRow(d: Digest, rows: Bytes): (r: Bytes)
    ensures |r| == 32
  {
    CHECKSUM_MAGIC + Repeat(0xFF, 14) + d(rows)
  }

  /** PartitionTable.to_binary. */
  function ToBinary(t: seq<Partition>, digest: Option<Digest>): (r: Result<Bytes>)
    ensures r.Ok? ==> |r.value| == MAX_LENGTH
  {
    var rows := Rows(t);
    if rows.Err? then rows
    else
      var all := rows.value + (if digest.Some? then ChecksumRow(digest.value, rows.value) else []);
      if |all| >= MAX_LENGTH then Err(TooLong) else Ok(all + Repeat(0xFF, MAX_LENGTH - |all|))
  }

  /** What PartitionTable.from_binary computes on the bytes `b` still to be read, with the rows read so
      far (`seen`, over which the digest runs) and the partitions found in them. */
  function Parse(b: Bytes, digest: Option<Digest>, seen: Bytes, found: seq<Partition>): Result<seq<Partition>>
    decreases |b|
  {
    if b == [] then Err(NoEnd)
    else if |b| < 32 then Err(BadLength)
    else
      var row, rest := b[..32], b[32..];
      if row == END_ROW then Ok(found)
      else if digest.Some? && row[..2] == CHECKSUM_MAGIC then
        if row[16..] == digest.value(seen) then Parse(rest, digest, seen, found) else Err(BadChecksum)
      else
        var p := PartitionOf(row);
        if p.Err? then Err(p.error) else Parse(rest, digest, seen + row, found + [p.value])
  }

  /** PartitionTable.from_binary: reads good rows as long as there are any, and answers by what follows them. */
  method FromBinary(b: Bytes, digest: Option<Digest>) returns (r: Result<seq<Partition>>)
    ensures r == Parse(b, digest, [], [])
    ensures exists k: nat ::
              && AllGood(b, k, digest) && !Good(b, k, digest)
              && r == Answer(b, k, digest)
  {
    ghost var k := ReaderExact(b, digest);
    var found: seq<Partition> := [];
    var seen: Bytes := [];
    var o := 0;
    while o < |b|
      invariant 0 <= o
      invariant o <= |b| ==> Parse(b[o..], digest, seen, found) == Parse(b, digest, [], [])
      invariant o > |b| ==> false
    {
      var data := b[o..if o + 32 <= |b| then o + 32 else |b|];
      ghost var left := b[o..];
      if |data| != 32 {
        return Err(BadLength);
      }
      assert left[..32] == data && left[32..] == b[o + 32..];
      if data == END_ROW {
        return Ok(found);
      }
      if digest.Some? && data[..2] == CHECKSUM_MAGIC {
        if data[16..] != digest.value(seen) {
          return Err(BadChecksum);
        }
      } else {
        seen := seen + data;
        var p := PartitionOf(data);
        if p.Err? {
          return Err(p.error);
        }
        found := found + [p.value];
      }
      o := o + 32;
    }
    return Err(NoEnd);
  }

  /** Reading the rows of a table finds its partitions, each with the name its field holds. */
  lemma {:induction false} ParseRows(t: seq<Partition>, tail: Bytes, digest: Option<Digest>, seen: Bytes,
                                     found: seq<Partition>)
    requires Rows(t).Ok?
    ensures Parse(Rows(t).value + tail, digest, seen, found)
              == Parse(tail, digest, seen + Rows(t).value, found + AllAsRead(t))
  {
    hide RowOf, Parse, Rows, AsRead;
    RowsFirst(t);
    if t == [] {
      assert [] + tail == tail && seen + [] == seen && found + AllAsRead(t) == found;
    } else {
      var row, rest := RowOf(t[0]).value, Rows(t[1..]).value;
      ParseOneRow(t[0], rest + tail, digest, seen, found);
      ParseRows(t[1..], tail, digest, seen + row, found + [AsRead(t[0])]);
      Associative(row, rest, tail);
      Associative(seen, row, rest);
      Associative(found, [AsRead(t[0])], AllAsRead(t[1..]));
    }
  }

  lemma {:induction false} Associative<T>(a: seq<T>, b: seq<T>, c: seq<T>)
    ensures (a + b) + c == a + (b + c)
  {
  }

  lemma {:induction false} RowsFirst(t: seq<Partition>)
    ensures t == [] ==> Rows(t) == Ok([])
    ensures t != [] && Rows(t).Ok? ==>
              RowOf(t[0]).Ok? && Rows(t[1..]).Ok? && Rows(t).value == RowOf(t[0]).value + Rows(t[1..]).value
  {
  }

  lemma {:induction false} ParseOneRow(p: Partition, rest: Bytes, digest: Option<Digest>, seen: Bytes,
                                       found: seq<Partition>)
    requires RowOf(p).Ok?
    ensures Parse(RowOf(p).value + rest, digest, seen, found)
              == Parse(rest, digest, seen + RowOf(p).value, found + [AsRead(p)])
  {
    RowRoundTrip(p);
    RowFields(p);
    hide PartitionOf, RowOf, AsRead;
    var row := RowOf(p).value;
    RowOk(p);
    var b := row + rest;
    assert b[..32] == row && b[32..] == rest;
    assert row[0] == row[..2][0] == 0xAA && END_ROW[0] == 0xFF;
  }

  /** The checksum row is accepted and contributes nothing; the padding ends the table. */
  lemma {:induction false} ParseChecksum(d: Digest, tail: Bytes, seen: Bytes, found: seq<Partition>)
    ensures Parse(ChecksumRow(d, seen) + tail, Some(d), seen, found) == Parse(tail, Some(d), seen, found)
  {
    var row := ChecksumRow(d, seen);
    var b := row + tail;
    assert b[..32] == row && b[32..] == tail;
    assert row[..2] == CHECKSUM_MAGIC && row[16..] == d(seen);
    assert row[0] == 0xEB && END_ROW[0] == 0xFF;
  }

  lemma {:induction false} ParsePadding(n: nat, digest: Option<Digest>, seen: Bytes, found: seq<Partition>)
    requires n >= 32
    ensures Parse(Repeat(0xFF, n), digest, seen, found) == Ok(found)
  {
    assert Repeat(0xFF, n)[..32] == END_ROW;
  }

  /** The round trip: every table that can be written at all is read back, with any digest or none, with
      its names as the fields hold them; that is the table itself if and only if all its names fit. */
  lemma {:induction false} TableRoundTrip(t: seq<Partition>, digest: Option<Digest>)
    requires ToBinary(t, digest).Ok?
    ensures Parse(ToBinary(t, digest).value, digest, [], []) == Ok(AllAsRead(t))
    ensures Parse(ToBinary(t, digest).value, digest, [], []) == Ok(t) <==>
              forall i :: 0 <= i < |t| ==> NameFits(t[i].name)
  {
    hide Parse, Rows, ChecksumRow, AllAsRead, NameFits;
    AllAsReadSame(t);
    var rows := Rows(t).value;
    var check := if digest.Some? then ChecksumRow(digest.value, rows) else [];
    var n := MAX_LENGTH - |rows + check|;
    assert MAX_LENGTH == 32 * 96;
    assert n >= 32;
    var padding := Repeat(0xFF, n);
    assert ToBinary(t, digest).value == rows + (check + padding);
    ParseRows(t, check + padding, digest, [], []);
    assert [] + rows == rows && [] + AllAsRead(t) == AllAsRead(t);
    if digest.Some? {
      ParseChecksum(digest.value, padding, rows, AllAsRead(t));
    } else {
      assert check + padding == padding;
    }
    ParsePadding(n, digest, rows, AllAsRead(t));
  }

  /** Which tables can be written: all fields in range, and room for the end marker. */
  lemma {:induction false} ToBinaryOk(t: seq<Partition>, digest: Option<Digest>)
    ensures ToBinary(t, digest).Ok? <==>
            (forall i :: 0 <= i < |t| ==> InRange(t[i])) && 32 * |t| + (if digest.Some? then 32 else 0) < 3072
    ensures ToBinary(t, digest).Err? ==>
              ToBinary(t, digest).error == if forall i :: 0 <= i < |t| ==> InRange(t[i]) then TooLong else OutOfRange
  {
    RowsOk(t);
  }

  lemma {:induction false} RowsOk(t: seq<Partition>)
    ensures Rows(t).Ok? <==> forall i :: 0 <= i < |t| ==> InRange(t[i])
    ensures Rows(t).Err? ==> Rows(t).error == OutOfRange
  {
    if t != [] {
      RowsOk(t[1..]);
      assert forall i :: 0 < i < |t| ==> t[i] == t[1..][i - 1];
    }
  }

  // ---------- Byte by byte ----------

  /** A 32-bit number at position i, least significant byte first. */
  function WordAt(b: Bytes, i: nat): int
    requires i + 4 <= |b|
  {
    (b[i] as int) + 0x100 * (b[i + 1] as int) + 0x1_0000 * (b[i + 2] as int) + 0x100_0000 * (b[i + 3] as int)
  }

  /** What stands where in a row that is written. */
  lemma {:induction false} RowLayout(p: Partition)
    requires InRange(p)
    ensures RowOf(p).Ok? && |RowOf(p).value| == 32
    ensures var b := RowOf(p).value;
            && b[0] == 0xAA && b[1] == 0x50 && b[2] == p.kind && b[3] == p.subkind
            && WordAt(b, 4) == p.offset && WordAt(b, 8) == p.size
            && (forall i :: 0 <= i < 16 ==> b[12 + i] == if i < |p.name| then p.name[i] else 0)
            && b[28] == (if p.encrypted then 1 else 0) && b[29] == b[30] == b[31] == 0
  {
    RowFields(p);
    WordRoundTrip(p.offset);
    WordRoundTrip(p.size);
    hide RowOf, PutWord, GetName;
    RowOk(p);
    var b := RowOf(p).value;
    assert b[0] == b[..2][0] && b[1] == b[..2][1];
    SliceWord(b, 4);
    SliceWord(b, 8);
    assert forall i :: 0 <= i < 16 ==> b[12 + i] == b[12..28][i];
    FlagBytes(p.encrypted);
    assert forall i :: 28 <= i < 32 ==> b[i] == b[28..][i - 28];
  }

  lemma {:induction false} FlagBytes(flag: bool)
    ensures PutWord(if flag then 1 else 0) == [if flag then 1 else 0, 0, 0, 0]
  {
  }

  lemma {:induction false} SliceWord(b: Bytes, i: nat)
    requires i + 4 <= |b|
    ensures WordAt(b, i) == GetWord(b[i..i + 4])
  {
  }

  /** Which rows are read as a partition, and what is taken from where. */
  lemma {:induction false} RowMeaning(b: Bytes)
    ensures PartitionOf(b).Ok? <==> |b| == 32 && b[0] == 0xAA && b[1] == 0x50
    ensures |b| != 32 ==> PartitionOf(b) == Err(BadLength)
    ensures |b| == 32 && !(b[0] == 0xAA && b[1] == 0x50) ==> PartitionOf(b) == Err(BadMagic)
    ensures PartitionOf(b).Ok? ==>
              var p := PartitionOf(b).value;
              && p.kind == b[2] && p.subkind == b[3] && p.offset == WordAt(b, 4) && p.size == WordAt(b, 8)
              && p.name <= b[12..28] && 0 !in p.name && (|p.name| < 16 ==> b[12 + |p.name|] == 0)
              && (p.encrypted <==> b[28] % 2 == 1)
  {
    hide GetWord, GetName;
    if |b| == 32 {
      assert b[..2] == [b[0], b[1]];
      GetNameIsClean(b[12..28]);
      SliceWord(b, 4);
      SliceWord(b, 8);
    }
  }

  // ---------- What the reader accepts ----------

  function RowAt(b: Bytes, i: nat): Bytes
    requires 32 * i + 32 <= |b|
  {
    b[32 * i..32 * i + 32]
  }

  predicate AllOnes(row: Bytes) { forall i :: 0 <= i < |row| ==> row[i] == 0xFF }

  predicate IsChecksum(row: Bytes, digest: Option<Digest>) {
    digest.Some? && |row| == 32 && row[0] == 0xEB && row[1] == 0xEB
  }

  /** The first k rows without checksum rows, one after the other. */
  function PartitionRows(b: Bytes, k: nat, digest: Option<Digest>): Bytes
    requires 32 * k <= |b|
  {
    if k == 0 then []
    else
      var row := RowAt(b, k - 1);
      PartitionRows(b, k - 1, digest) + if IsChecksum(row, digest) then [] else row
  }

  /** A checksum row with the digest of the partition rows before it, or a row with the magic bytes of a
      partition. */
  predicate Good(b: Bytes, i: nat, digest: Option<Digest>) {
    && 32 * i + 32 <= |b|
    && var row := RowAt(b, i);
    && !AllOnes(row)
    && if IsChecksum(row, digest) then row[16..] == digest.value(PartitionRows(b, i, digest))
       else row[0] == 0xAA && row[1] == 0x50
  }

  /** The first k rows are good. */
  predicate AllGood(b: Bytes, k: nat, digest: Option<Digest>) {
    forall i :: 0 <= i < k ==> Good(b, i, digest)
  }

  /** The partitions in the first k rows. */
  function Partitions(b: Bytes, k: nat, digest: Option<Digest>): seq<Partition>
    requires AllGood(b, k, digest)
  {
    if k == 0 then []
    else
      assert Good(b, k - 1, digest);
      var row := RowAt(b, k - 1);
      RowMeaning(row);
      Partitions(b, k - 1, digest) + if IsChecksum(row, digest) then [] else [PartitionOf(row).value]
  }

  /** What the reader answers when its first k rows are good and the next one is not. */
  function Answer(b: Bytes, k: nat, digest: Option<Digest>): Result<seq<Partition>>
    requires AllGood(b, k, digest) && !Good(b, k, digest)
  {
    if |b| <= 32 * k then Err(NoEnd)
    else if |b| < 32 * k + 32 then Err(BadLength)
    else if AllOnes(RowAt(b, k)) then Ok(Partitions(b, k, digest))
    else if IsChecksum(RowAt(b, k), digest) then Err(BadChecksum)
    else Err(BadMagic)
  }

  lemma {:induction false} FirstBadRow(b: Bytes, digest: Option<Digest>, from: nat) returns (k: nat)
    requires AllGood(b, from, digest)
    ensures AllGood(b, k, digest) && !Good(b, k, digest)
    decreases |b| - 32 * from
  {
    hide Good, AllGood;
    k := from;
    if Good(b, from, digest) {
      OneMoreGood(b, from, digest);
      k := FirstBadRow(b, digest, from + 1);
    }
  }

  lemma {:induction false} OneMoreGood(b: Bytes, i: nat, digest: Option<Digest>)
    requires AllGood(b, i, digest) && Good(b, i, digest)
    ensures AllGood(b, i + 1, digest) && 32 * (i + 1) <= |b|
  {
  }

  lemma {:induction false} GoodRowsFit(b: Bytes, digest: Option<Digest>, k: nat)
    requires AllGood(b, k, digest)
    ensures 32 * k <= |b|
  {
    if k > 0 { assert Good(b, k - 1, digest); }
  }

  lemma {:induction false} EndRowOnes(row: Bytes)
    requires |row| == 32
    ensures row == END_ROW <==> AllOnes(row)
  {
  }

  /** Any bytes at all: the reader reads good rows as long as there are any; it succeeds if and only if an end
      row follows, and otherwise says what is wrong with what follows. */
  lemma {:induction false} ReaderExact(b: Bytes, digest: Option<Digest>) returns (k: nat)
    ensures AllGood(b, k, digest) && !Good(b, k, digest)
    ensures Parse(b, digest, [], []) == Answer(b, k, digest)
  {
    k := FirstBadRow(b, digest, 0);
    GoodRowsFit(b, digest, k);
    ReadFrom(b, digest, 0, k);
    assert b[0..] == b;
  }

  lemma {:induction false} ReadFrom(b: Bytes, digest: Option<Digest>, i: nat, k: nat)
    requires AllGood(b, k, digest) && !Good(b, k, digest) && i <= k && 32 * k <= |b| && AllGood(b, i, digest)
    ensures Parse(b[32 * i..], digest, PartitionRows(b, i, digest), Partitions(b, i, digest)) == Answer(b, k, digest)
    decreases k - i
  {
    hide Parse, Good, PartitionRows, Partitions, Answer, AllGood;
    FewerGood(b, i, k, digest);
    if i < k {
      FewerGood(b, i + 1, k, digest);
      ReadGoodRow(b, digest, i);
      assert 32 * (i + 1) == 32 * i + 32;
      ReadFrom(b, digest, i + 1, k);
    } else {
      ReadBadRow(b, digest, k);
    }
  }

  lemma {:induction false} FewerGood(b: Bytes, i: nat, k: nat, digest: Option<Digest>)
    requires AllGood(b, k, digest) && i <= k
    ensures AllGood(b, i, digest) && 32 * i <= |b|
  {
    GoodRowsFit(b, digest, i);
  }

  lemma {:induction false} ReadGoodRow(b: Bytes, digest: Option<Digest>, i: nat)
    requires AllGood(b, i + 1, digest)
    ensures 32 * i + 32 <= |b|
    ensures Parse(b[32 * i..], digest, PartitionRows(b, i, digest), Partitions(b, i, digest))
            == Parse(b[32 * i + 32..], digest, PartitionRows(b, i + 1, digest), Partitions(b, i + 1, digest))
  {
    assert Good(b, i, digest);
    var left, row := b[32 * i..], RowAt(b, i);
    assert left[..32] == row && left[32..] == b[32 * i + 32..];
    EndRowOnes(row);
    RowMeaning(row);
    assert row[..2] == [row[0], row[1]];
    var seen, found := PartitionRows(b, i, digest), Partitions(b, i, digest);
    assert seen + [] == seen && found + [] == found;
    hide PartitionOf, Good;
  }

  lemma {:induction false} ReadBadRow(b: Bytes, digest: Option<Digest>, k: nat)
    requires AllGood(b, k, digest) && !Good(b, k, digest) && 32 * k <= |b|
    ensures Parse(b[32 * k..], digest, PartitionRows(b, k, digest), Partitions(b, k, digest)) == Answer(b, k, digest)
  {
    hide PartitionOf, Partitions, PartitionRows;
    var left := b[32 * k..];
    if |left| >= 32 {
      var row := RowAt(b, k);
      assert left[..32] == row;
      EndRowOnes(row);
      RowMeaning(row);
      assert row[..2] == [row[0], row[1]];
    }
  }

  /** A table whose checksum row ends in any 16 bytes is accepted if and only if they are the digest. */
  lemma {:induction false} ChecksumDecides(t: seq<Partition>, d: Digest, x: Bytes, n: nat)
    requires Rows(t).Ok? && |x| == 16 && n >= 32
    ensures var check := [0xEB, 0xEB] + Repeat(0xFF, 14) + x;
            Parse(Rows(t).value + (check + Repeat(0xFF, n)), Some(d), [], [])
            == if x == d(Rows(t).value) then Ok(AllAsRead(t)) else Err(BadChecksum)
  {
    hide Parse, Rows, AllAsRead;
    var rows := Rows(t).value;
    var check := [0xEB, 0xEB] + Repeat(0xFF, 14) + x;
    ParseRows(t, check + Repeat(0xFF, n), Some(d), [], []);
    assert [] + rows == rows && [] + AllAsRead(t) == AllAsRead(t);
    AnyChecksum(d, x, Repeat(0xFF, n), rows, AllAsRead(t));
    ParsePadding(n, Some(d), rows, AllAsRead(t));
  }

  lemma {:induction false} AnyChecksum(d: Digest, x: Bytes, tail: Bytes, seen: Bytes, found: seq<Partition>)
    requires |x| == 16
    ensures Parse(([0xEB, 0xEB] + Repeat(0xFF, 14) + x) + tail, Some(d), seen, found)
            == if x == d(seen) then Parse(tail, Some(d), seen, found) else Err(BadChecksum)
  {
    var row := [0xEB, 0xEB] + Repeat(0xFF, 14) + x;
    var b := row + tail;
    assert b[..32] == row && b[32..] == tail;
    assert row[..2] == CHECKSUM_MAGIC && row[16..] == x;
    assert row[0] == 0xEB && END_ROW[0] == 0xFF;
  }

  /** The written table: its rows in order, the checksum row if there is one, and 0xFF up to 3072 bytes. */
  lemma {:induction false} TableLayout(t: seq<Partition>, digest: Option<Digest>)
    requires ToBinary(t, digest).Ok?
    ensures var b, n := ToBinary(t, digest).value, 32 * |t|;
            && |b| == 3072 && n <= 3072 && Rows(t).Ok? && b[..n] == Rows(t).value
            && (digest.None? ==> AllOnes(b[n..]))
            && (digest.Some? ==>
                  && n + 32 <= 3072
                  && b[n..n + 32] == [0xEB, 0xEB] + Repeat(0xFF, 14) + digest.value(b[..n])
                  && AllOnes(b[n + 32..]))
  {
    hide Rows;
    var rows := Rows(t).value;
    var b, n := ToBinary(t, digest).value, 32 * |t|;
    assert b[..n] == rows;
    if digest.Some? {
      var check := ChecksumRow(digest.value, rows);
      assert b == rows + check + Repeat(0xFF, MAX_LENGTH - |rows + check|);
      assert b[n..n + 32] == check;
    }
  }

  lemma {:induction false} RowsLayout(t: seq<Partition>, i: nat)
    requires Rows(t).Ok? && i < |t|
    ensures RowOf(t[i]).Ok? && Rows(t).value[32 * i..32 * i + 32] == RowOf(t[i]).value
  {
    hide RowOf;
    RowsFirst(t);
    RowOk(t[0]);
    var row, rest := RowOf(t[0]).value, Rows(t[1..]).value;
    if i > 0 {
      RowsLayout(t[1..], i - 1);
      assert (row + rest)[32 * i..32 * i + 32] == rest[32 * (i - 1)..32 * (i - 1) + 32];
    } else {
      assert (row + rest)[0..32] == row;
    }
  }
}
