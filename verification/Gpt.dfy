/** Reading the GUID partition table from an untrusted buffer. */
module Gpt {
  import opened Basics
  import opened Bytes

  datatype GptError = Short | BadSignature | BadEntrySize | TooManyEntries

  const SIGNATURE: seq<byte> := [0x45, 0x46, 0x49, 0x20, 0x50, 0x41, 0x52, 0x54]

  const GUID_EFI_SYSTEM: seq<byte> :=
    [0x28, 0x73, 0x2A, 0xC1, 0x1F, 0xF8, 0xD2, 0x11, 0xBA, 0x4B, 0x00, 0xA0, 0xC9, 0x3E, 0xC9, 0x3B]

  const GUID_LINUX_FS: seq<byte> :=
    [0xAF, 0x3D, 0xC6, 0x0F, 0x83, 0x84, 0x72, 0x47, 0x8E, 0x79, 0x3D, 0x69, 0xD8, 0x47, 0x7D, 0xE4]

  datatype GptHeader = GptHeader(
    currentLba: u64, backupLba: u64, firstUsableLba: u64, lastUsableLba: u64,
    entryLba: u64, numEntries: u32, entrySize: u32)

  datatype PartKind = EfiSystem | LinuxFs | UnknownPart

  datatype GptEntry = GptEntry(typeGuid: seq<byte>, firstLba: u64, lastLba: u64)

  datatype Partition = Partition(startLba: u64, endLba: u64, kind: PartKind)

  function U32At(buf: seq<byte>, at: nat): Result<u32, GptError> {
    var b := SliceAt(buf, at, 4);
    if b.None? then Err(Short) else Ok(U32(b.value))
  }

  function U64At(buf: seq<byte>, at: nat): Result<u64, GptError> {
    var b := SliceAt(buf, at, 8);
    if b.None? then Err(Short) else Ok(U64(b.value))
  }

  function ParseHeader(buf: seq<byte>): (r: Result<GptHeader, GptError>) {
    var signature := SliceAt(buf, 0, 8);
    if signature.None? then Err(Short)
    else if signature.value != SIGNATURE then Err(BadSignature)
    else
      var currentLba :- U64At(buf, 24);
      var backupLba :- U64At(buf, 32);
      var firstUsableLba :- U64At(buf, 40);
      var lastUsableLba :- U64At(buf, 48);
      var entryLba :- U64At(buf, 72);
      var numEntries :- U32At(buf, 80);
      var entrySize :- U32At(buf, 84);
      if entrySize < 128 then Err(BadEntrySize)
      else if numEntries > 512 then Err(TooManyEntries)
      else Ok(GptHeader(currentLba, backupLba, firstUsableLba, lastUsableLba, entryLba, numEntries, entrySize))
  }

  predicate AllZero(b: seq<byte>) {
    forall i :: 0 <= i < |b| ==> b[i] == 0
  }

  /** One record: an error, an unused slot, or an entry whose range is in order. */
  function ParseEntry(rec: seq<byte>): (r: Result<Option<GptEntry>, GptError>)
    ensures r.Ok? && r.value.Some? ==> r.value.value.firstLba <= r.value.value.lastLba
  {
    var guid := SliceAt(rec, 0, 16);
    if guid.None? then Err(Short)
    else if AllZero(guid.value) then Ok(None)
    else
      var firstLba :- U64At(rec, 32);
      var lastLba :- U64At(rec, 40);
      if lastLba < firstLba then Err(BadEntrySize) else Ok(Some(GptEntry(guid.value, firstLba, lastLba)))
  }

  function KindOf(e: GptEntry): PartKind {
    if e.typeGuid == GUID_EFI_SYSTEM then EfiSystem
    else if e.typeGuid == GUID_LINUX_FS then LinuxFs
    else UnknownPart
  }

  function PartitionOf(e: GptEntry): Partition { Partition(e.firstLba, e.lastLba, KindOf(e)) }

  /** How many records the buffer and the header both have. */
  function Examined(h: GptHeader, buf: seq<byte>): nat {
    if h.entrySize == 0 then h.numEntries else Min(h.numEntries, |buf| / h.entrySize)
  }

  lemma RecordFits(h: GptHeader, buf: seq<byte>, i: nat)
    ensures i < Examined(h, buf) <==> i < h.numEntries && i * h.entrySize + h.entrySize <= |buf|
  {
    if h.entrySize != 0 { QuotientBound(|buf|, h.entrySize, i); }
  }

  /** `i` is below the quotient exactly when one more multiple still fits. */
  lemma QuotientBound(n: nat, d: nat, i: nat)
    requires d > 0
    ensures i < n / d <==> i * d + d <= n
  {
    var q := n / d;
    assert n == d * q + n % d;
    if i < q { ProductMonotone(i + 1, q, d); } else { ProductMonotone(q, i, d); }
    Distribute(i, d);
    Commute(q, d);
  }

  lemma Distribute(i: nat, d: nat)
    ensures (i + 1) * d == i * d + d
  {
  }

  lemma Commute(a: nat, b: nat)
    ensures a * b == b * a
  {
  }

  lemma ProductMonotone(a: nat, b: nat, c: nat)
    requires a <= b
    ensures a * c <= b * c
  {
  }

  function Record(h: GptHeader, buf: seq<byte>, i: nat): seq<byte>
    requires i < Examined(h, buf)
  {
    RecordFits(h, buf, i);
    buf[i * h.entrySize..i * h.entrySize + h.entrySize]
  }

  /** The partitions of the first `n` records, unused slots skipped. */
  function Collected(h: GptHeader, buf: seq<byte>, n: nat): seq<Partition>
    requires n <= Examined(h, buf)
  {
    if n == 0 then []
    else
      var e := ParseEntry(Record(h, buf, n - 1));
      Collected(h, buf, n - 1) + if e.Ok? && e.value.Some? then [PartitionOf(e.value.value)] else []
  }

  method ParsePartitions(h: GptHeader, buf: seq<byte>) returns (r: Result<seq<Partition>, GptError>)
    ensures match r
            case Ok(parts) =>
              && parts == Collected(h, buf, Examined(h, buf))
              && forall i :: 0 <= i < Examined(h, buf) ==> ParseEntry(Record(h, buf, i)).Ok?
            case Err(e) =>
              exists i :: 0 <= i < Examined(h, buf) && ParseEntry(Record(h, buf, i)) == Err(e)
                && forall j :: 0 <= j < i ==> ParseEntry(Record(h, buf, j)).Ok?
  {
    hide ParseEntry;
    var out: seq<Partition> := [];
    var step := h.entrySize;
    for i := 0 to h.numEntries
      invariant i <= Examined(h, buf)
      invariant out == Collected(h, buf, i)
      invariant forall j :: 0 <= j < i ==> ParseEntry(Record(h, buf, j)).Ok?
    {
      RecordFits(h, buf, i);
      var rec := SliceAt(buf, i * step, step);
      if rec.None? {
        RecordFits(h, buf, i);
        break;
      }
      assert rec.value == Record(h, buf, i);
      var e := ParseEntry(rec.value);
      if e.Err? { return Err(e.error); }
      if e.value.Some? { out := out + [PartitionOf(e.value.value)]; }
    }
    r := Ok(out);
  }

  lemma OffsetBound(i: nat, step: nat)
    requires i < 512 && step < 0x1_0000_0000
    ensures i * step + step < U64_SIZE
  {
    ProductMonotone(i, 511, step);
  }

  /** No offset computed for an accepted header leaves the machine word. */
  lemma OffsetsInRange(hdr: seq<byte>, i: nat)
    requires ParseHeader(hdr).Ok? && i < ParseHeader(hdr).value.numEntries
    ensures var h := ParseHeader(hdr).value; i * h.entrySize + h.entrySize < U64_SIZE
  {
    OffsetBound(i, ParseHeader(hdr).value.entrySize);
  }

  /** For an accepted header the walk fails exactly on an examined record whose range runs backwards. */
  lemma FailsOnlyBackwards(hdr: seq<byte>, buf: seq<byte>, i: nat)
    requires ParseHeader(hdr).Ok? && i < Examined(ParseHeader(hdr).value, buf)
    ensures var rec := Record(ParseHeader(hdr).value, buf, i);
            && |rec| >= 128
            && (ParseEntry(rec).Err? <==>
                  (exists k :: 0 <= k < 16 && rec[k] != 0) && U64(rec[40..48]) < U64(rec[32..40]))
            && (ParseEntry(rec).Err? ==> ParseEntry(rec).error == BadEntrySize)
  {
    RecordFits(ParseHeader(hdr).value, buf, i);
  }

  // ---- fields where the partition table puts them ----

  lemma U64Placed(pre: seq<byte>, v: u64, post: seq<byte>)
    ensures U64At(pre + (Le(v, 8) + post), |pre|) == Ok(v)
  {
    var b := pre + (Le(v, 8) + post);
    assert b[|pre|..|pre| + 8] == Le(v, 8);
    Capacities();
    LeRoundTrip(v, 8);
  }

  lemma U32Placed(pre: seq<byte>, v: u32, post: seq<byte>)
    ensures U32At(pre + (Le(v, 4) + post), |pre|) == Ok(v)
  {
    var b := pre + (Le(v, 4) + post);
    assert b[|pre|..|pre| + 4] == Le(v, 4);
    Capacities();
    LeRoundTrip(v, 4);
  }

  /** A header as the disk holds it; `revision` and `diskGuid` are the fields the boot manager skips. */
  function HeaderImage(h: GptHeader, revision: seq<byte>, diskGuid: seq<byte>, rest: seq<byte>): seq<byte> {
    SIGNATURE + revision +
    (Le(h.currentLba, 8) + (Le(h.backupLba, 8) + (Le(h.firstUsableLba, 8) + (Le(h.lastUsableLba, 8) +
    (diskGuid + (Le(h.entryLba, 8) + (Le(h.numEntries, 4) + (Le(h.entrySize, 4) + rest))))))))
  }

  lemma BoundsRead(h: GptHeader, pre: seq<byte>, post: seq<byte>) returns (next: seq<byte>)
    requires |pre| == 24
    ensures var b := pre +
            (Le(h.currentLba, 8) + (Le(h.backupLba, 8) + (Le(h.firstUsableLba, 8) + (Le(h.lastUsableLba, 8) + post))));
            && b == next + post && |next| == 56
            && U64At(b, 24) == Ok(h.currentLba) && U64At(b, 32) == Ok(h.backupLba)
            && U64At(b, 40) == Ok(h.firstUsableLba) && U64At(b, 48) == Ok(h.lastUsableLba)
  {
    var c, k, f, l := Le(h.currentLba, 8), Le(h.backupLba, 8), Le(h.firstUsableLba, 8), Le(h.lastUsableLba, 8);
    hide U64At, Le;
    U64Placed(pre, h.currentLba, k + (f + (l + post)));
    AppendAssociative(pre, c, k + (f + (l + post)));
    U64Placed(pre + c, h.backupLba, f + (l + post));
    AppendAssociative(pre + c, k, f + (l + post));
    U64Placed(pre + c + k, h.firstUsableLba, l + post);
    AppendAssociative(pre + c + k, f, l + post);
    U64Placed(pre + c + k + f, h.lastUsableLba, post);
    AppendAssociative(pre + c + k + f, l, post);
    next := pre + c + k + f + l;
  }

  lemma TableFieldsRead(h: GptHeader, pre: seq<byte>, rest: seq<byte>)
    requires |pre| == 72
    ensures var b := pre + (Le(h.entryLba, 8) + (Le(h.numEntries, 4) + (Le(h.entrySize, 4) + rest)));
            U64At(b, 72) == Ok(h.entryLba) && U32At(b, 80) == Ok(h.numEntries) && U32At(b, 84) == Ok(h.entrySize)
  {
    var e, n, z := Le(h.entryLba, 8), Le(h.numEntries, 4), Le(h.entrySize, 4);
    hide U64At, U32At, Le;
    U64Placed(pre, h.entryLba, n + (z + rest));
    AppendAssociative(pre, e, n + (z + rest));
    U32Placed(pre + e, h.numEntries, z + rest);
    AppendAssociative(pre + e, n, z + rest);
    U32Placed(pre + e + n, h.entrySize, rest);
  }

  /** Every field is read from its place on disk, and the two limits are the only reasons to refuse. */
  lemma HeaderRead(h: GptHeader, revision: seq<byte>, diskGuid: seq<byte>, rest: seq<byte>)
    requires |revision| == 16 && |diskGuid| == 16
    ensures ParseHeader(HeaderImage(h, revision, diskGuid, rest)) ==
            if h.entrySize < 128 then Err(BadEntrySize) else if h.numEntries > 512 then Err(TooManyEntries) else Ok(h)
  {
    var buf := HeaderImage(h, revision, diskGuid, rest);
    var pre := SIGNATURE + revision;
    var tail := Le(h.entryLba, 8) + (Le(h.numEntries, 4) + (Le(h.entrySize, 4) + rest));
    var next := BoundsRead(h, pre, diskGuid + tail);
    TableFieldsRead(h, next + diskGuid, rest);
    AppendAssociative(next, diskGuid, tail);
    hide U64At, U32At;
    assert buf[0..8] == SIGNATURE;
  }

  /** A partition record as the disk holds it. */
  function RecordImage(e: GptEntry, partitionGuid: seq<byte>, rest: seq<byte>): seq<byte> {
    e.typeGuid + partitionGuid + (Le(e.firstLba, 8) + (Le(e.lastLba, 8) + rest))
  }

  /** A record reads as what was written, unless it is unused or its range runs backwards. */
  lemma RecordRead(e: GptEntry, partitionGuid: seq<byte>, rest: seq<byte>)
    requires |e.typeGuid| == 16 && |partitionGuid| == 16
    ensures ParseEntry(RecordImage(e, partitionGuid, rest)) ==
            if forall i :: 0 <= i < 16 ==> e.typeGuid[i] == 0 then Ok(None)
            else if e.lastLba < e.firstLba then Err(BadEntrySize) else Ok(Some(e))
  {
    var rec := RecordImage(e, partitionGuid, rest);
    var pre := e.typeGuid + partitionGuid;
    U64Placed(pre, e.firstLba, Le(e.lastLba, 8) + rest);
    AppendAssociative(pre, Le(e.firstLba, 8), Le(e.lastLba, 8) + rest);
    U64Placed(pre + Le(e.firstLba, 8), e.lastLba, rest);
    hide U64At;
    assert rec[0..16] == e.typeGuid;
  }

  /** A GUID on disk (UEFI Specification 2.10 appendix A): three little-endian numbers, then eight bytes. */
  function GuidBytes(first: u32, second: u16, third: u16, rest: seq<byte>): seq<byte> {
    Le(first, 4) + (Le(second, 2) + (Le(third, 2) + rest))
  }

  lemma SmallLe(v: u16)
    ensures Le(v, 2) == [v % 256, v / 256]
  {
    assert Le(v / 256, 1) == [v / 256 % 256] + Le(v / 256 / 256, 0);
  }

  lemma WordLe(v: u32)
    ensures Le(v, 4) == [v % 256, v / 256 % 256, v / 65536 % 256, v / 16777216]
  {
    assert Le(v, 4) == [v % 256] + Le(v / 256, 3) && Le(v / 256, 3) == [v / 256 % 256] + Le(v / 256 / 256, 2);
    SmallLe(v / 256 / 256);
    assert v / 256 / 256 == v / 65536 && v / 65536 / 256 == v / 16777216;
  }

  lemma SystemGuid()
    ensures GUID_EFI_SYSTEM ==
            GuidBytes(0xC12A_7328, 0xF81F, 0x11D2, [0xBA, 0x4B, 0x00, 0xA0, 0xC9, 0x3E, 0xC9, 0x3B])
  {
    WordLe(0xC12A_7328);
    SmallLe(0xF81F);
    SmallLe(0x11D2);
    hide Le;
  }

  lemma LinuxGuid()
    ensures GUID_LINUX_FS ==
            GuidBytes(0x0FC6_3DAF, 0x8483, 0x4772, [0x8E, 0x79, 0x3D, 0x69, 0xD8, 0x47, 0x7D, 0xE4])
  {
    WordLe(0x0FC6_3DAF);
    SmallLe(0x8483);
    SmallLe(0x4772);
    hide Le;
  }

  /** Which partitions are told apart, by the identifiers their types are registered under. */
  lemma KindsExactly(e: GptEntry)
    ensures PartitionOf(e).startLba == e.firstLba && PartitionOf(e).endLba == e.lastLba
    ensures PartitionOf(e).kind == EfiSystem <==>
            e.typeGuid == GuidBytes(0xC12A_7328, 0xF81F, 0x11D2, [0xBA, 0x4B, 0x00, 0xA0, 0xC9, 0x3E, 0xC9, 0x3B])
    ensures PartitionOf(e).kind == LinuxFs <==>
            e.typeGuid == GuidBytes(0x0FC6_3DAF, 0x8483, 0x4772, [0x8E, 0x79, 0x3D, 0x69, 0xD8, 0x47, 0x7D, 0xE4])
  {
    SystemGuid();
    LinuxGuid();
    hide GuidBytes;
    assert GUID_EFI_SYSTEM[0] != GUID_LINUX_FS[0];
  }

  /** The signature spells its name. */
  lemma SignatureText()
    ensures SIGNATURE[..4] == ['E' as int, 'F' as int, 'I' as int, ' ' as int]
    ensures SIGNATURE[4..] == ['P' as int, 'A' as int, 'R' as int, 'T' as int]
  {
  }

  // ---- the walk, record by record ----

  function UsedBefore(h: GptHeader, buf: seq<byte>, n: nat): nat
    requires n <= Examined(h, buf)
  {
    |Collected(h, buf, n)|
  }

  /** Every used record shows up once, at the place its predecessors leave for it, and in order. */
  lemma {:induction false} CollectedAt(h: GptHeader, buf: seq<byte>, n: nat, i: nat)
    requires i < n <= Examined(h, buf)
    requires ParseEntry(Record(h, buf, i)).Ok? && ParseEntry(Record(h, buf, i)).value.Some?
    ensures UsedBefore(h, buf, i) < UsedBefore(h, buf, n)
    ensures Collected(h, buf, n)[UsedBefore(h, buf, i)] == PartitionOf(ParseEntry(Record(h, buf, i)).value.value)
    decreases n
  {
    hide ParseEntry;
    if i < n - 1 { CollectedAt(h, buf, n - 1, i); }
  }

  /** Every partition reported comes from an examined, used record. */
  lemma {:induction false} CollectedFrom(h: GptHeader, buf: seq<byte>, n: nat, k: nat) returns (i: nat)
    requires n <= Examined(h, buf) && k < |Collected(h, buf, n)|
    ensures i < n && ParseEntry(Record(h, buf, i)).Ok? && ParseEntry(Record(h, buf, i)).value.Some?
    ensures UsedBefore(h, buf, i) == k
    ensures Collected(h, buf, n)[k] == PartitionOf(ParseEntry(Record(h, buf, i)).value.value)
    ensures Collected(h, buf, n)[k].startLba <= Collected(h, buf, n)[k].endLba
  {
    hide ParseEntry;
    if k < |Collected(h, buf, n - 1)| {
      i := CollectedFrom(h, buf, n - 1, k);
    } else {
      i := n - 1;
    }
  }
}
