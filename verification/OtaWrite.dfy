/** Streaming an update into flash (components/app_update/esp_ota_ops.c:122-307, 403-449). */
module OtaWrite {
  import opened Machine
  import opened DivMod

  const BLOCK: nat := 16
  const IMAGE_MAGIC: byte := 0xE9
  const OTA_SIZE_UNKNOWN: nat := 0xFFFF_FFFF
  const OTA_WITH_SEQUENTIAL_WRITES: nat := 0xFFFF_FFFE

  datatype Status = Ok | InvalidArg | InvalidState | ValidateFailed | FlashError

  /** What a partition holds, which of its bytes have been erased and not programmed since, and whether a byte
      that was not among those has been programmed. */
  datatype Flash = Flash(bytes: seq<byte>, clean: seq<bool>, overprogrammed: bool) {
    ghost predicate Wide(n: nat) {
      |bytes| == n == |clean|
    }
  }

  /** From `f` to `f'` exactly the bytes `from` to `to` of `img` have been programmed at their places. */
  ghost predicate Programmed(f: Flash, f': Flash, from: nat, to: nat, img: seq<byte>) {
    var n := |f.bytes|;
    && f.Wide(n) && f'.Wide(n) && from <= to <= n && to <= |img|
    && (f'.overprogrammed <==> f.overprogrammed || exists i | from <= i < to :: !f.clean[i])
    && (forall i | 0 <= i < n :: f'.clean[i] == (f.clean[i] && !(from <= i < to)))
    && (forall i | from <= i < to :: f'.bytes[i] == if f.clean[i] then img[i] else And(f.bytes[i], img[i]))
    && (forall i | 0 <= i < n && !(from <= i < to) :: f'.bytes[i] == f.bytes[i])
  }

  lemma ProgrammedOn(f: Flash, f1: Flash, f2: Flash, a: nat, b: nat, c: nat, img: seq<byte>)
    requires Programmed(f, f1, a, b, img) && Programmed(f1, f2, b, c, img)
    ensures Programmed(f, f2, a, c, img)
  {
    if exists i | a <= i < c :: !f.clean[i] {
      var i :| a <= i < c && !f.clean[i];
      assert i >= b ==> !f1.clean[i];
    }
  }

  lemma ProgrammedNone(f: Flash, a: nat, img: seq<byte>)
    requires f.Wide(|f.bytes|) && a <= |f.bytes| && a <= |img|
    ensures Programmed(f, f, a, a, img)
  {
  }

  /** The first `wrote` bytes are those of `img` as far as the erased area goes, and the rest of that area is
      waiting for more. */
  ghost predicate HoldsIn(f: Flash, wrote: nat, erasedTo: nat, img: seq<byte>) {
    && f.Wide(|f.bytes|) && wrote <= |img| && wrote <= |f.bytes| && erasedTo <= |f.bytes|
    && (forall i | 0 <= i < wrote && i < erasedTo :: f.bytes[i] == img[i])
    && (forall i | wrote <= i < erasedTo :: f.clean[i])
  }

  lemma HoldsLonger(f: Flash, wrote: nat, erasedTo: nat, img: seq<byte>, data: seq<byte>)
    requires HoldsIn(f, wrote, erasedTo, img)
    ensures HoldsIn(f, wrote, erasedTo, img + data) && wrote <= |f.bytes|
  {
  }

  /** The bytes of the image behind `from` have been programmed, and those before it are as they were. */
  ghost predicate Flushed(f: Flash, f': Flash, from: nat, img: seq<byte>) {
    var n := |f.bytes|;
    && f.Wide(n) && f'.Wide(n) && |img| <= n
    && forall i | 0 <= i < |img| ::
         f'.bytes[i] == if i < from then f.bytes[i] else if f.clean[i] then img[i] else And(f.bytes[i], img[i])
  }

  /** The flash from offset `end` on is as it was. */
  ghost predicate Beyond(f: Flash, f': Flash, end: nat) {
    var n := |f.bytes|;
    f.Wide(n) && f'.Wide(n) && forall i | end <= i < n :: f'.clean[i] == f.clean[i] && f'.bytes[i] == f.bytes[i]
  }

  lemma BeyondProgrammed(f: Flash, f': Flash, from: nat, to: nat, img: seq<byte>, end: nat)
    requires Programmed(f, f', from, to, img)
    ensures to <= end ==> Beyond(f, f', end)
  {
  }

  lemma BeyondOn(f: Flash, f1: Flash, f2: Flash, a: nat, b: nat)
    requires Beyond(f, f1, a) && Beyond(f1, f2, b)
    ensures a <= b ==> Beyond(f, f2, b)
  {
  }

  /** The bytes programmed so far do not depend on more data. */
  lemma ProgrammedLonger(f: Flash, f': Flash, from: nat, to: nat, img: seq<byte>, data: seq<byte>)
    requires Programmed(f, f', from, to, img)
    ensures Programmed(f, f', from, to, img + data)
  {
  }

  lemma ProgrammedTo(f: Flash, f': Flash, from: nat, to: nat, img: seq<byte>)
    requires Programmed(f, f', from, to, img)
    ensures from <= to <= |img| && to <= |f.bytes| == |f'.bytes|
  {
  }

  lemma HoldsMore(f: Flash, f': Flash, from: nat, to: nat, erasedTo: nat, img: seq<byte>)
    requires HoldsIn(f, from, erasedTo, img) && Programmed(f, f', from, to, img)
    ensures HoldsIn(f', to, erasedTo, img)
    ensures to <= erasedTo ==> f'.overprogrammed == f.overprogrammed
  {
  }

  /** A flash partition. Programming can only clear bits, so bytes keep what is written to them only
      if they have been erased since they were last programmed. */
  class Partition {
    const bytes: array<byte>
    const eraseSize: nat
    /** The bytes erased and not programmed since. */
    const clean: array<bool>
    /** Whether a byte that was not clean has been programmed. */
    ghost var overprogrammed: bool
    /** Operations that are going to fail in the driver. */
    var faults: seq<bool>

    ghost predicate Valid()
      reads this
    {
      0 < eraseSize && Blocks(eraseSize) && Edge(bytes.Length, eraseSize) && clean.Length == bytes.Length
      && clean as object != bytes as object
    }

    ghost function Now(): Flash
      reads this, bytes, clean
    {
      Flash(bytes[..], clean[..], overprogrammed)
    }

    method Fails() returns (f: bool)
      modifies this`faults
      ensures f == old(faults != [] && faults[0]) && faults == if old(faults) == [] then [] else old(faults)[1..]
    {
      if faults == [] {
        return false;
      }
      f, faults := faults[0], faults[1..];
    }

    /** esp_partition_erase_range. */
    method EraseRange(at: nat, n: nat) returns (ok: bool)
      requires Valid()
      modifies this`faults, bytes, clean
      ensures Valid()
      ensures ok ==> at + n <= bytes.Length
      ensures ok ==> forall i | 0 <= i < bytes.Length ::
                bytes[i] == (if at <= i < at + n then 0xFF else old(bytes[i]))
                && clean[i] == (old(clean[i]) || at <= i < at + n)
      ensures !ok ==> unchanged(bytes, clean)
      ensures ok <==> !old(faults != [] && faults[0]) && Edge(at, eraseSize) && Edge(n, eraseSize) && at + n <= bytes.Length
      ensures old(faults) == [] ==> faults == []
    {
      var f := Fails();
      if f || at % eraseSize != 0 || n % eraseSize != 0 || at + n > bytes.Length {
        return false;
      }
      forall i | at <= i < at + n {
        bytes[i] := 0xFF;
      }
      forall i | at <= i < at + n {
        clean[i] := true;
      }
      return true;
    }

    /** esp_partition_write. */
    method Write(at: nat, data: seq<byte>) returns (ok: bool)
      requires Valid()
      modifies this`faults, this`overprogrammed, bytes, clean
      ensures Valid()
      ensures ok ==> at + |data| <= bytes.Length
      ensures ok ==> forall i | 0 <= i < bytes.Length ::
                && bytes[i] == (if at <= i < at + |data|
                                then (if old(clean[i]) then data[i - at] else And(old(bytes[i]), data[i - at]))
                                else old(bytes[i]))
                && clean[i] == (old(clean[i]) && !(at <= i < at + |data|))
      ensures ok ==> (overprogrammed <==> old(overprogrammed) || exists i | at <= i < at + |data| :: !old(clean[i]))
      ensures !ok ==> unchanged(bytes, clean) && overprogrammed == old(overprogrammed)
      ensures ok <==> !old(faults != [] && faults[0]) && at + |data| <= bytes.Length
      ensures old(faults) == [] ==> faults == []
    {
      var f := Fails();
      if f || at + |data| > bytes.Length {
        return false;
      }
      ghost var miss := exists i | at <= i < at + |data| :: !clean[i];
      forall i | at <= i < at + |data| {
        bytes[i] := if clean[i] then data[i - at] else And(bytes[i], data[i - at]);
      }
      overprogrammed := overprogrammed || miss;
      forall i | at <= i < at + |data| {
        clean[i] := false;
      }
      return true;
    }
  }

  /** Bitwise and. */
  function And(a: byte, b: byte): byte {
    AndOf(a as nat, b as nat) as byte
  }

  function AndOf(a: nat, b: nat): (r: nat)
    ensures r <= a && r <= b
  {
    if a == 0 || b == 0 then 0
    else 2 * AndOf(a / 2, b / 2) + (if a % 2 == 1 && b % 2 == 1 then 1 else 0)
  }

  ghost predicate Bit(x: nat, k: nat) {
    if k == 0 then x % 2 == 1 else Bit(x / 2, k - 1)
  }

  lemma {:induction false} NoBits(k: nat)
    ensures !Bit(0, k)
  {
    if k > 0 {
      NoBits(k - 1);
    }
  }

  /** Programming clears bits and sets none: a bit is left exactly where both bytes have it. */
  lemma {:induction false} AndBits(a: nat, b: nat, k: nat)
    ensures Bit(AndOf(a, b), k) <==> Bit(a, k) && Bit(b, k)
  {
    if a == 0 || b == 0 {
      NoBits(k);
    } else if k > 0 {
      var r := AndOf(a, b);
      assert r / 2 == AndOf(a / 2, b / 2);
      AndBits(a / 2, b / 2, k - 1);
    }
  }

  // ---- The sizes of an update, apart from its bytes ----

  /** Bytes written to flash, bytes cached, and the end of what this update has erased. */
  datatype Sizes = Sizes(wrote: nat, partial: nat, erasedTo: nat)

  /** The end of the erased area after the erase step of a write of `n` bytes. */
  function ErasedTo(s: Sizes, n: nat, unit: nat): nat
    requires n > 0 && unit > 0
  {
    var first := s.wrote / unit;
    var last := (s.wrote + n - 1) / unit;
    if s.wrote % unit == 0 || first != last then (last + 1) * unit else s.erasedTo
  }

  /** The sizes after a successful write of `n` bytes with flash encryption. */
  function FeedEncrypted(s: Sizes, n: nat, unit: nat): (r: Sizes)
    requires n > 0 && unit > 0
    ensures r.wrote + r.partial == s.wrote + s.partial + n
  {
    var e := ErasedTo(s, n, unit);
    if s.partial != 0 && s.partial + n < BLOCK then Sizes(s.wrote, s.partial + n, e)
    else Sizes(s.wrote + (s.partial + n) / BLOCK * BLOCK, (s.partial + n) % BLOCK, e)
  }

  // ---- Sector edges ----

  ghost predicate Blocks(a: nat) {
    a % BLOCK == 0
  }

  ghost predicate Edge(a: nat, unit: nat) {
    unit > 0 && a % unit == 0
  }

  lemma BlocksGap(a: nat, b: nat)
    requires Blocks(a) && Blocks(b) && a < b
    ensures a + BLOCK <= b
  {
  }

  lemma Multiple(q: nat, unit: nat)
    requires unit > 0
    ensures Edge(q * unit, unit)
  {
    Quotient(q, 0, unit);
  }

  lemma EdgeIs(a: nat, unit: nat) returns (q: nat)
    requires Edge(a, unit)
    ensures a == q * unit
  {
    q := a / unit;
    Divided(a, unit);
  }

  lemma EdgeFloor(x: nat, unit: nat) returns (a: nat)
    requires unit > 0
    ensures Edge(a, unit) && a <= x < a + unit && (x / unit + 1) * unit == a + unit && x % unit == x - a
  {
    a := x / unit * unit;
    Divided(x, unit);
    Multiple(x / unit, unit);
    OneMore(x / unit, unit);
  }

  lemma EdgeGap(a: nat, b: nat, unit: nat)
    requires Edge(a, unit) && Edge(b, unit) && a < b
    ensures a + unit <= b
  {
    var i := EdgeIs(a, unit);
    var j := EdgeIs(b, unit);
    OneMore(i, unit);
    if i < j {
      Grows(i + 1, j, unit);
    } else {
      Grows(j, i, unit);
    }
  }

  lemma EdgeNext(a: nat, unit: nat)
    requires Edge(a, unit)
    ensures Edge(a + unit, unit)
  {
    var i := EdgeIs(a, unit);
    OneMore(i, unit);
    Multiple(i + 1, unit);
  }

  lemma EdgeBlock(a: nat, unit: nat)
    requires Edge(a, unit) && Blocks(unit)
    ensures Blocks(a)
  {
    var i := EdgeIs(a, unit);
    Divided(unit, BLOCK);
    Assoc(i, unit / BLOCK);
    Multiple(i * (unit / BLOCK), BLOCK);
  }

  lemma Assoc(i: nat, j: nat)
    ensures i * (j * BLOCK) == (i * j) * BLOCK
  {
  }

  lemma EdgePlus(a: nat, x: nat, unit: nat)
    requires Edge(a, unit) && x < unit
    ensures (a + x) % unit == x
  {
    var i := EdgeIs(a, unit);
    Quotient(i, x, unit);
  }

  // ---- Erasing and writing ----

  /** What sequential erasing keeps: the erased area ends at a sector edge, not before the bytes
      written and at most one sector ahead of them. */
  ghost predicate EraseInv(s: Sizes, unit: nat) {
    Edge(s.erasedTo, unit) && s.wrote <= s.erasedTo <= s.wrote + unit
  }

  ghost predicate SizesInv(s: Sizes, unit: nat) {
    Blocks(s.wrote) && s.partial < BLOCK && EraseInv(s, unit)
  }

  lemma ErasedToIs(s: Sizes, n: nat, unit: nat) returns (last: nat)
    requires EraseInv(s, unit) && n > 0 && unit > 0
    ensures Edge(last, unit) && last <= s.wrote + n - 1 < last + unit && ErasedTo(s, n, unit) == last + unit
  {
    hide ErasedTo, Edge;
    var first := EdgeFloor(s.wrote, unit);
    last := EdgeFloor(s.wrote + n - 1, unit);
    SameErasedTo(s, n, unit, first, last);
  }

  lemma ErasedGrows(s: Sizes, n: nat, unit: nat)
    requires EraseInv(s, unit) && n > 0 && unit > 0
    ensures s.erasedTo <= ErasedTo(s, n, unit)
  {
    RangeIs(s, n, unit);
    if ErasedTo(s, n, unit) < s.erasedTo {
      EdgeGap(ErasedTo(s, n, unit), s.erasedTo, unit);
    }
  }

  lemma Distribute(i: nat, j: nat, unit: nat)
    ensures (i + j) * unit == i * unit + j * unit
  {
  }

  lemma Ordered(x: nat, y: nat, unit: nat)
    requires unit > 0 && x <= y
    ensures x / unit <= y / unit
  {
    var a := EdgeFloor(x, unit);
    var b := EdgeFloor(y, unit);
    Divided(x, unit);
    Divided(y, unit);
    if y / unit < x / unit {
      Grows(y / unit + 1, x / unit, unit);
    }
  }

  /** The offset and length that are erased ahead of a write of `n` bytes, if any. */
  function EraseRangeOf(wrote: nat, n: nat, unit: nat): (r: Option<(nat, nat)>)
    requires n > 0 && unit > 0
  {
    Ordered(wrote, wrote + n - 1, unit);
    var first := wrote / unit;
    var last := (wrote + n - 1) / unit;
    if wrote % unit == 0 then Some((wrote, (last - first + 1) * unit))
    else if first != last then Some(((first + 1) * unit, (last - first) * unit))
    else None
  }

  /** The sectors erased ahead of a write: none that holds programmed data, and with those erased
      before, all that the write needs. */
  lemma RangeIs(s: Sizes, n: nat, unit: nat)
    requires EraseInv(s, unit) && n > 0 && unit > 0
    ensures s.wrote + n <= ErasedTo(s, n, unit) && Edge(ErasedTo(s, n, unit), unit)
    ensures match EraseRangeOf(s.wrote, n, unit)
            case Some((at, len)) =>
              Edge(at, unit) && Edge(len, unit) && s.wrote <= at <= s.erasedTo && at + len == ErasedTo(s, n, unit)
            case None => ErasedTo(s, n, unit) == s.erasedTo
  {
    hide Edge;
    var first, last := s.wrote / unit, (s.wrote + n - 1) / unit;
    var start := EdgeFloor(s.wrote, unit);
    var reached := ErasedToIs(s, n, unit);
    EdgeNext(reached, unit);
    Ordered(s.wrote, s.wrote + n - 1, unit);
    Divided(s.wrote, unit);
    Multiple(first, unit);
    Multiple(first + 1, unit);
    Multiple(last - first, unit);
    Multiple(last - first + 1, unit);
    Distribute(first, last - first + 1, unit);
    Distribute(first + 1, last - first, unit);
    if start < s.erasedTo {
      EdgeGap(start, s.erasedTo, unit);
    }
  }

  lemma WithinPartition(s: Sizes, n: nat, unit: nat, size: nat)
    requires EraseInv(s, unit) && n > 0 && unit > 0 && Edge(size, unit) && s.wrote + n <= size
    ensures ErasedTo(s, n, unit) <= size
  {
    hide Edge;
    var last := ErasedToIs(s, n, unit);
    EdgeGap(last, size, unit);
  }

  lemma SameErasedTo(s: Sizes, n: nat, unit: nat, first: nat, last: nat)
    requires EraseInv(s, unit) && n > 0 && unit > 0
    requires Edge(first, unit) && first <= s.wrote < first + unit && s.wrote % unit == s.wrote - first
    requires (s.wrote / unit + 1) * unit == first + unit && ((s.wrote + n - 1) / unit + 1) * unit == last + unit
    ensures ErasedTo(s, n, unit) == last + unit
  {
    if s.wrote % unit != 0 && s.wrote / unit == (s.wrote + n - 1) / unit {
      EdgeGap(first, s.erasedTo, unit);
      EdgeNext(first, unit);
      if s.erasedTo > first + unit {
        EdgeGap(first + unit, s.erasedTo, unit);
      }
    }
  }

  lemma FeedLengths(s: Sizes, n: nat, unit: nat) returns (k: nat)
    requires unit > 0 && n > 0 && s.partial < BLOCK && Blocks(s.wrote)
    ensures Blocks(k) && s.partial + n < k + BLOCK && k <= s.partial + n
    ensures var e := FeedEncrypted(s, n, unit);
            && e.wrote == s.wrote + k && e.partial == s.partial + n - k
            && e.partial < BLOCK && Blocks(e.wrote) && e.erasedTo == ErasedTo(s, n, unit)
  {
    hide ErasedTo;
    var total := s.partial + n;
    k := total / BLOCK * BLOCK;
    assert total == k + total % BLOCK;
    BlocksSum(s.wrote, k);
  }

  lemma BlocksSum(a: nat, b: nat)
    requires Blocks(a) && Blocks(b)
    ensures Blocks(a + b)
  {
  }

  /** Erasing keeps up with writing, in every call, and is ahead of it afterwards unless the blocks
      written end at a sector edge with no more bytes cached than before. */
  lemma FeedKeeps(s: Sizes, n: nat, unit: nat)
    requires unit > 0 && Blocks(unit) && n > 0 && SizesInv(s, unit)
    ensures var e := FeedEncrypted(s, n, unit);
            SizesInv(e, unit) && (e.erasedTo > e.wrote <==> !(Edge(e.wrote, unit) && e.partial <= s.partial))
  {
    hide ErasedTo, FeedEncrypted, Edge, Blocks;
    var e := FeedEncrypted(s, n, unit);
    var last := ErasedToIs(s, n, unit);
    var k := FeedLengths(s, n, unit);
    EdgeNext(last, unit);
    EdgeBlock(last, unit);
    EdgeBlock(last + unit, unit);
    if e.wrote < last {
      BlocksGap(e.wrote, last);
    }
    if last + unit < e.wrote {
      BlocksGap(last + unit, e.wrote);
    }
    if Edge(e.wrote, unit) && last < e.wrote {
      EdgeGap(last, e.wrote, unit);
    }
  }

  /** Without encryption there is no cache. */
  lemma PlainKeeps(s: Sizes, n: nat, unit: nat)
    requires unit > 0 && n > 0 && EraseInv(s, unit)
    ensures EraseInv(Sizes(s.wrote + n, 0, ErasedTo(s, n, unit)), unit)
  {
    hide Edge, ErasedTo;
    var last := ErasedToIs(s, n, unit);
    EdgeNext(last, unit);
  }

  /** The bytes passed determine how many are written and how many cached. */
  lemma SplitIs(s: Sizes, n: nat, unit: nat, wrote: nat, partial: nat)
    requires unit > 0 && n > 0 && s.partial < BLOCK && Blocks(s.wrote)
    requires Blocks(wrote) && partial < BLOCK && wrote + partial == s.wrote + s.partial + n
    ensures FeedEncrypted(s, n, unit) == Sizes(wrote, partial, ErasedTo(s, n, unit))
  {
    hide Blocks, ErasedTo, FeedEncrypted;
    var _ := FeedLengths(s, n, unit);
    var e := FeedEncrypted(s, n, unit);
    if e.wrote < wrote {
      BlocksGap(e.wrote, wrote);
    } else if wrote < e.wrote {
      BlocksGap(wrote, e.wrote);
    }
  }

  // ---- The padding flush of esp_ota_end ----

  ghost predicate Positive(calls: seq<nat>) {
    forall i | 0 <= i < |calls| :: calls[i] > 0
  }

  /** All the data is passed in calls of these sizes. */
  ghost function FeedAll(calls: seq<nat>, unit: nat): Sizes
    requires unit > 0 && Positive(calls)
  {
    if calls == [] then Sizes(0, 0, 0) else FeedEncrypted(FeedAll(calls[..|calls| - 1], unit), calls[|calls| - 1], unit)
  }

  function Total(calls: seq<nat>): nat {
    if calls == [] then 0 else Total(calls[..|calls| - 1]) + calls[|calls| - 1]
  }

  lemma {:induction false} FeedAllKeeps(calls: seq<nat>, unit: nat)
    requires unit > 0 && Blocks(unit) && Positive(calls)
    ensures var s := FeedAll(calls, unit);
            SizesInv(s, unit) && s.wrote + s.partial == Total(calls)
  {
    if calls == [] {
      Multiple(0, unit);
    } else {
      var init, n := calls[..|calls| - 1], calls[|calls| - 1];
      FeedAllKeeps(init, unit);
      FeedKeeps(FeedAll(init, unit), n, unit);
    }
  }

  /** The last cached bytes are flushed to erased flash by `esp_ota_end`, unless the image ends fewer
      than 16 bytes into a sector and no further than the data before the last call reached into a
      block. Then the sector has never been erased. */
  lemma FlushIsErasedIff(calls: seq<nat>, unit: nat)
    requires unit > 0 && Blocks(unit) && Positive(calls) && calls != []
    ensures var s := FeedAll(calls, unit);
            var before := Total(calls[..|calls| - 1]);
            (s.partial == 0 || s.wrote < s.erasedTo) <==> !(0 < Total(calls) % unit <= before % BLOCK)
  {
    hide FeedEncrypted, SizesInv, Edge;
    var init, n := calls[..|calls| - 1], calls[|calls| - 1];
    FeedAllKeeps(init, unit);
    FeedAllKeeps(calls, unit);
    FeedKeeps(FeedAll(init, unit), n, unit);
    FlushFacts(FeedAll(calls, unit), FeedAll(init, unit), unit, Total(calls), Total(init));
  }

  lemma FlushFacts(s: Sizes, was: Sizes, unit: nat, len: nat, before: nat)
    requires unit > 0 && Blocks(unit) && SizesInv(s, unit) && SizesInv(was, unit)
    requires s.wrote + s.partial == len && was.wrote + was.partial == before
    requires s.erasedTo > s.wrote <==> !(Edge(s.wrote, unit) && s.partial <= was.partial)
    ensures (s.partial == 0 || s.wrote < s.erasedTo) <==> !(0 < len % unit <= before % BLOCK)
  {
    hide Edge, Blocks;
    var start := EdgeFloor(s.wrote, unit);
    EdgeBlock(start, unit);
    EdgeNext(start, unit);
    EdgeBlock(start + unit, unit);
    BlocksGap(s.wrote, start + unit);
    if start < s.wrote {
      BlocksGap(start, s.wrote);
    }
    var r := s.wrote - start;
    CachedIs(was);
    EdgePlus(start, r + s.partial, unit);
    if Edge(s.wrote, unit) && start < s.wrote {
      EdgeGap(start, s.wrote, unit);
    }
  }

  lemma CachedIs(s: Sizes)
    requires Blocks(s.wrote) && s.partial < BLOCK
    ensures (s.wrote + s.partial) % BLOCK == s.partial
  {
  }

  // ---- One update in progress ----

  class OtaEntry {
    const staging: Partition
    const encrypted: bool
    const isApp: bool
    const needErase: bool
    var wroteSize: nat
    var partialBytes: nat
    const partialData: array<byte>

    /** All data passed in successful calls. */
    ghost var image: seq<byte>
    /** The end of the area this update has erased. It is taken as nothing after a rejected first
        call, behind which everything is erased anew. */
    ghost var erasedTo: nat
    /** What the unused end of the cache is filled with: zero, and all ones once the cache has been written out. */
    ghost var fill: byte

    constructor (staging: Partition, encrypted: bool, isApp: bool, needErase: bool)
      ensures this.staging == staging && this.encrypted == encrypted && this.isApp == isApp
      ensures this.needErase == needErase && fresh(partialData) && partialData.Length == BLOCK
      ensures wroteSize == partialBytes == erasedTo == 0 && image == [] && fill == 0 && Pads()
    {
      this.staging, this.encrypted, this.isApp, this.needErase := staging, encrypted, isApp, needErase;
      wroteSize, partialBytes := 0, 0;
      partialData := new byte[BLOCK](_ => 0);
      image, erasedTo, fill := [], 0, 0;
    }

    ghost function Now(): Sizes
      reads `wroteSize, `partialBytes, `erasedTo
    {
      Sizes(wroteSize, partialBytes, erasedTo)
    }

    ghost predicate Separate()
      reads staging
    {
      && staging.Valid() && partialData.Length == BLOCK
      && partialData != staging.bytes && partialData as object != staging.clean as object
    }

    /** What is in flash so far is the first part of `img`, and what is erased is waiting for more. */
    ghost predicate Holds(img: seq<byte>)
      reads this, staging, staging.bytes, staging.clean
    {
      HoldsIn(staging.Now(), wroteSize, erasedTo, img) && Edge(erasedTo, staging.eraseSize)
    }

    /** The cache holds the rest of `img`. */
    ghost predicate Caches(img: seq<byte>)
      reads `wroteSize, `partialBytes, partialData
    {
      && partialBytes <= partialData.Length && wroteSize + partialBytes == |img|
      && forall i | 0 <= i < partialBytes :: partialData[i] == img[wroteSize + i]
    }

    ghost predicate Pads()
      reads `partialBytes, `fill, partialData
    {
      partialData.Length == BLOCK && forall i | partialBytes <= i < BLOCK :: partialData[i] == fill
    }

    ghost predicate Valid()
      reads this, partialData, staging, staging.bytes, staging.clean
    {
      && Separate() && Pads() && staging.eraseSize > 0 && Holds(image) && Caches(image)
      && (if encrypted then Blocks(wroteSize) && partialBytes < BLOCK else partialBytes == 0)
      && (needErase ==> EraseInv(Now(), staging.eraseSize))
    }

    /** Erases the sectors that a write of `n` bytes reaches and that are not erased yet. */
    method EraseAhead(n: nat) returns (ok: bool)
      requires Separate() && Holds(image) && n > 0 && needErase && EraseInv(Now(), staging.eraseSize)
      modifies `erasedTo, staging`faults, staging.bytes, staging.clean
      ensures Separate() && (ok ==> Holds(image))
      ensures erasedTo == if ok then ErasedTo(old(Now()), n, staging.eraseSize) else old(erasedTo)
      ensures ok ==> wroteSize + n <= erasedTo
      ensures old(staging.faults) == [] ==> staging.faults == [] && (ok <== wroteSize + n <= staging.bytes.Length)
      ensures !ok ==> unchanged(staging.bytes, staging.clean)
      ensures Beyond(old(staging.Now()), staging.Now(), erasedTo)
    {
      hide ErasedTo, Edge, EraseRangeOf;
      var unit := staging.eraseSize;
      RangeIs(Now(), n, unit);
      if wroteSize + n <= staging.bytes.Length {
        WithinPartition(Now(), n, unit, staging.bytes.Length);
      }
      ok := true;
      match EraseRangeOf(wroteSize, n, unit) {
        case Some((at, len)) =>
          ok := staging.EraseRange(at, len);
        case None =>
      }
      if ok {
        erasedTo := ErasedTo(Now(), n, unit);
      }
    }

    /** Programs the next bytes of `img` behind those written. */
    method Program(data: seq<byte>, ghost img: seq<byte>) returns (ok: bool)
      requires Separate() && wroteSize <= staging.bytes.Length && wroteSize + |data| <= |img|
      requires img[wroteSize..wroteSize + |data|] == data
      modifies `wroteSize, staging`faults, staging`overprogrammed, staging.bytes, staging.clean
      ensures Separate() && wroteSize == if ok then old(wroteSize) + |data| else old(wroteSize)
      ensures Programmed(old(staging.Now()), staging.Now(), old(wroteSize), wroteSize, img)
      ensures old(staging.faults) == [] ==> staging.faults == [] && (ok <== old(wroteSize) + |data| <= staging.bytes.Length)
    {
      ok := staging.Write(wroteSize, data);
      if ok {
        forall i | wroteSize <= i < wroteSize + |data|
          ensures data[i - wroteSize] == img[i]
        {
          assert img[wroteSize..wroteSize + |data|][i - wroteSize] == img[i];
        }
        wroteSize := wroteSize + |data|;
      }
    }

    /** Adds to the cache. */
    method Cache(data: seq<byte>)
      requires partialBytes + |data| <= BLOCK == partialData.Length
      modifies `partialBytes, partialData
      ensures partialBytes == old(partialBytes) + |data|
      ensures forall i | 0 <= i < old(partialBytes) :: partialData[i] == old(partialData[i])
      ensures forall i | 0 <= i < |data| :: partialData[old(partialBytes) + i] == data[i]
      ensures old(Pads()) ==> Pads()
    {
      forall i | 0 <= i < |data| {
        partialData[partialBytes + i] := data[i];
      }
      partialBytes := partialBytes + |data|;
    }

    /** With encryption: fills the cache up first, and writes it when it is full. `rest` is what is
        left to write; the call is over when it is None. */
    method TopUp(data: seq<byte>) returns (ok: bool, rest: Option<seq<byte>>)
      requires Separate() && Caches(image) && Blocks(wroteSize) && partialBytes < BLOCK
      requires data != [] && wroteSize <= staging.bytes.Length && Pads()
      modifies `wroteSize, `partialBytes, `fill, partialData
      modifies staging`faults, staging`overprogrammed, staging.bytes, staging.clean
      ensures Separate() && Blocks(wroteSize)
      ensures Programmed(old(staging.Now()), staging.Now(), old(wroteSize), wroteSize, image + data)
      ensures old(staging.faults) == [] ==>
                staging.faults == [] && (ok <== |image + data| <= staging.bytes.Length)
      ensures ok && rest == None ==>
                && Caches(image + data) && partialBytes < BLOCK
                && wroteSize == old(wroteSize) && old(partialBytes) != 0
      ensures ok && rest.Some? ==>
                partialBytes == 0 && wroteSize + |rest.value| == |image + data| && rest.value == (image + data)[wroteSize..]
      ensures ok ==> Pads() && fill == FillAfter(old(partialBytes), |data|, old(fill))
    {
      hide Programmed, Pads, HoldsIn, Flushed, EraseInv, Beyond, Blocks, Edge;
      ghost var img := image + data;
      ProgrammedNone(staging.Now(), wroteSize, img);
      assert forall i | 0 <= i < partialBytes :: partialData[i] == img[wroteSize + i];
      if partialBytes == 0 {
        assert img[wroteSize..] == data;
        return true, Some(data);
      }
      var copyLen := Min(BLOCK - partialBytes, |data|);
      Cache(data[..copyLen]);
      assert forall i | 0 <= i < partialBytes :: partialData[i] == img[wroteSize + i];
      if partialBytes != BLOCK {
        return true, None;
      }
      ok := WriteFullBlock(img);
      if !ok {
        return false, None;
      }
      rest := Some(data[copyLen..]);
      assert rest.value == img[wroteSize..];
    }

    /** Writes the full cache and empties it. */
    method WriteFullBlock(ghost img: seq<byte>) returns (ok: bool)
      requires Separate() && partialBytes == BLOCK && wroteSize <= staging.bytes.Length
      requires wroteSize + BLOCK <= |img| && Blocks(wroteSize)
      requires forall i | 0 <= i < BLOCK :: partialData[i] == img[wroteSize + i]
      modifies `wroteSize, `partialBytes, `fill, partialData
      modifies staging`faults, staging`overprogrammed, staging.bytes, staging.clean
      ensures Separate() && Blocks(wroteSize) && wroteSize == old(wroteSize) + (if ok then BLOCK else 0)
      ensures Programmed(old(staging.Now()), staging.Now(), old(wroteSize), wroteSize, img)
      ensures old(staging.faults) == [] ==> staging.faults == [] && (ok <== |img| <= staging.bytes.Length)
      ensures ok ==> partialBytes == 0 && fill == 0xFF && Pads()
    {
      hide Programmed;
      assert partialData[..] == img[wroteSize..wroteSize + BLOCK];
      ok := Program(partialData[..], img);
      if !ok {
        return false;
      }
      partialBytes := 0;
      forall i | 0 <= i < BLOCK {
        partialData[i] := 0xFF;
      }
      fill := 0xFF;
    }

    /** Caches what does not fill a block and programs the rest of the data. */
    method WriteBlocks(rest: seq<byte>, ghost img: seq<byte>) returns (ok: bool)
      requires Separate() && partialBytes == 0 && Blocks(wroteSize) && wroteSize <= staging.bytes.Length
      requires wroteSize + |rest| == |img| && rest == img[wroteSize..] && Pads()
      modifies `wroteSize, `partialBytes, partialData
      modifies staging`faults, staging`overprogrammed, staging.bytes, staging.clean
      ensures Separate() && Blocks(wroteSize)
      ensures Programmed(old(staging.Now()), staging.Now(), old(wroteSize), wroteSize, img)
      ensures old(staging.faults) == [] ==> staging.faults == [] && (ok <== |img| <= staging.bytes.Length)
      ensures ok ==> Caches(img) && partialBytes < BLOCK && Pads()
    {
      hide Programmed, Pads;
      var size := |rest| / BLOCK * BLOCK;
      assert |rest| == size + |rest| % BLOCK && Blocks(wroteSize + size);
      if |rest| % BLOCK != 0 {
        Cache(rest[size..]);
      }
      ok := Program(rest[..size], img);
    }

    /** The fill after `n` bytes more: a cache that is in use and fills up is written out. */
    ghost function FillAfter(partial: nat, n: nat, fill: byte): byte {
      if partial > 0 && partial + n >= 16 then 0xFF else fill
    }

    lemma SameFill(partial: nat, fill: byte)
      requires partial < 16
      ensures FillAfter(partial, 0, fill) == fill
    {
    }

    /** The sizes after a successful write of `n` bytes. */
    ghost function Fed(s: Sizes, n: nat): Sizes
      requires n > 0 && staging.eraseSize > 0
    {
      var e := if needErase then ErasedTo(s, n, staging.eraseSize) else s.erasedTo;
      if encrypted then FeedEncrypted(s, n, staging.eraseSize).(erasedTo := e) else Sizes(s.wrote + n, 0, e)
    }

    /** The first data of an app image does not start with the magic byte. */
    ghost predicate BadStart(data: seq<byte>)
      reads `wroteSize, `partialBytes
    {
      wroteSize == 0 && partialBytes == 0 && isApp && data != [] && data[0] != IMAGE_MAGIC
    }

    /** esp_ota_write. Without sequential erasing nothing keeps the data within the area that was erased at the
        beginning: then bytes are programmed over exactly where they were not clean. */
    method EspOtaWrite(data: seq<byte>) returns (r: Status)
      requires Valid()
      modifies this, partialData, staging`faults, staging`overprogrammed, staging.bytes, staging.clean
      ensures wroteSize <= |old(image) + data|
      ensures needErase ==> staging.overprogrammed == old(staging.overprogrammed)
      ensures needErase && r == Ok ==> old(erasedTo) <= erasedTo && Beyond(old(staging.Now()), staging.Now(), erasedTo)
      ensures !needErase ==> Programmed(old(staging.Now()), staging.Now(), old(wroteSize), wroteSize, old(image) + data)
      ensures !needErase ==> erasedTo == old(erasedTo)
      ensures r == Ok ==> Valid() && image == old(image) + data && !old(BadStart(data))
      ensures r == Ok ==> Now() == if data == [] then old(Now()) else Fed(old(Now()), |data|)
      ensures r == Ok ==> fill == if encrypted then FillAfter(old(partialBytes), |data|, old(fill)) else old(fill)
      ensures r == ValidateFailed ==> Valid() && image == old(image) && old(BadStart(data))
      ensures r == Ok || r == ValidateFailed || r == FlashError
      ensures old(staging.faults) == [] && old(|image|) + |data| <= staging.bytes.Length ==>
                r != FlashError && staging.faults == []
    {
      hide Blocks, ErasedTo, FeedEncrypted, Edge, Programmed, Pads, FillAfter, HoldsIn, EraseInv, Caches, Fed;
      if data == [] {
        SameFill(partialBytes, fill);
        HoldsBounds(staging.Now(), wroteSize, erasedTo, image);
        ProgrammedNone(staging.Now(), wroteSize, image);
        assert image + data == image;
        return Ok;
      }
      r := WriteData(data);
    }

    /** The part of `EspOtaWrite` for a call that passes any data. */
    method WriteData(data: seq<byte>) returns (r: Status)
      requires Valid() && data != []
      modifies this, partialData, staging`faults, staging`overprogrammed, staging.bytes, staging.clean
      ensures wroteSize <= |old(image) + data|
      ensures needErase ==> staging.overprogrammed == old(staging.overprogrammed)
      ensures needErase && r == Ok ==> old(erasedTo) <= erasedTo && Beyond(old(staging.Now()), staging.Now(), erasedTo)
      ensures !needErase ==> Programmed(old(staging.Now()), staging.Now(), old(wroteSize), wroteSize, old(image) + data)
      ensures !needErase ==> erasedTo == old(erasedTo)
      ensures r == Ok ==> Valid() && image == old(image) + data && !old(BadStart(data))
      ensures r == Ok ==> Now() == Fed(old(Now()), |data|)
      ensures r == Ok ==> fill == if encrypted then FillAfter(old(partialBytes), |data|, old(fill)) else old(fill)
      ensures r == ValidateFailed ==> Valid() && image == old(image) && old(BadStart(data))
      ensures r == Ok || r == ValidateFailed || r == FlashError
      ensures old(staging.faults) == [] && old(|image|) + |data| <= staging.bytes.Length ==>
                r != FlashError && staging.faults == []
    {
      hide Blocks, ErasedTo, FeedEncrypted, Edge, Programmed, Pads, FillAfter, HoldsIn, Caches;
      HoldsBounds(staging.Now(), wroteSize, erasedTo, image);
      ProgrammedNone(staging.Now(), wroteSize, image + data);
      ghost var before := Now();
      if needErase {
        ErasedGrows(before, |data|, staging.eraseSize);
        var ok := EraseAhead(|data|);
        if !ok {
          return FlashError;
        }
      }
      if wroteSize == 0 && partialBytes == 0 && isApp && data[0] != IMAGE_MAGIC {
        Refuse();
        return ValidateFailed;
      }
      var ok := Store(data, before);
      return if ok then Ok else FlashError;
    }

    /** Behind a rejected first call everything is going to be erased anew. */
    ghost method Refuse()
      requires Separate() && Pads() && staging.eraseSize > 0 && Holds(image) && Caches(image)
      requires wroteSize == 0 && partialBytes == 0
      modifies `erasedTo
      ensures Valid() && erasedTo == if needErase then 0 else old(erasedTo)
    {
      if needErase {
        HoldsNoErase(staging.Now(), erasedTo, image);
        erasedTo := 0;
        EdgeZero(staging.eraseSize);
      }
    }

    /** The part of `EspOtaWrite` behind the checks. */
    method Store(data: seq<byte>, ghost before: Sizes) returns (ok: bool)
      requires Separate() && Pads() && staging.eraseSize > 0 && Holds(image) && Caches(image) && data != []
      requires if encrypted then Blocks(wroteSize) && partialBytes < BLOCK else partialBytes == 0
      requires before.wrote == wroteSize && before.partial == partialBytes && erasedTo == Fed(before, |data|).erasedTo
      requires needErase ==> EraseInv(before, staging.eraseSize) && wroteSize + |data| <= erasedTo
      modifies `wroteSize, `partialBytes, `image, `fill, partialData
      modifies staging`faults, staging`overprogrammed, staging.bytes, staging.clean
      ensures Programmed(old(staging.Now()), staging.Now(), old(wroteSize), wroteSize, old(image) + data)
      ensures wroteSize <= |old(image) + data| && (needErase ==> wroteSize <= erasedTo)
      ensures needErase ==> staging.overprogrammed == old(staging.overprogrammed)
      ensures needErase ==> Beyond(old(staging.Now()), staging.Now(), erasedTo)
      ensures ok ==> Valid() && image == old(image) + data && Now() == Fed(before, |data|)
      ensures ok ==> fill == if encrypted then FillAfter(old(partialBytes), |data|, old(fill)) else old(fill)
      ensures old(staging.faults) == [] && |old(image) + data| <= staging.bytes.Length ==> ok && staging.faults == []
    {
      hide Blocks, ErasedTo, FeedEncrypted, Edge, Programmed, HoldsIn, Pads, FillAfter;
      ghost var f, w, img := staging.Now(), wroteSize, image + data;
      HoldsLonger(f, w, erasedTo, image, data);
      ok := StoreBytes(data);
      ProgrammedTo(f, staging.Now(), w, wroteSize, img);
      HoldsMore(f, staging.Now(), w, wroteSize, erasedTo, img);
      if needErase && encrypted {
        EdgeBlock(erasedTo, staging.eraseSize);
        if erasedTo < wroteSize {
          BlocksGap(erasedTo, wroteSize);
        }
      }
      BeyondProgrammed(f, staging.Now(), w, wroteSize, img, erasedTo);
      if ok {
        image := img;
        if encrypted {
          SplitIs(before, |data|, staging.eraseSize, wroteSize, partialBytes);
        }
        if needErase {
          if encrypted {
            FeedKeeps(before, |data|, staging.eraseSize);
          } else {
            PlainKeeps(before, |data|, staging.eraseSize);
          }
        }
      }
    }

    /** Writes the data to flash, or to flash and cache. */
    method StoreBytes(data: seq<byte>) returns (ok: bool)
      requires Separate() && Pads() && Caches(image) && data != [] && wroteSize <= staging.bytes.Length
      requires if encrypted then Blocks(wroteSize) && partialBytes < BLOCK else partialBytes == 0
      modifies `wroteSize, `partialBytes, `fill, partialData
      modifies staging`faults, staging`overprogrammed, staging.bytes, staging.clean
      ensures Separate() && (encrypted ==> Blocks(wroteSize))
      ensures Programmed(old(staging.Now()), staging.Now(), old(wroteSize), wroteSize, image + data)
      ensures ok ==> Caches(image + data) && (if encrypted then partialBytes < BLOCK else partialBytes == 0)
      ensures ok ==> Pads() && fill == if encrypted then FillAfter(old(partialBytes), |data|, old(fill)) else old(fill)
      ensures old(staging.faults) == [] && |image + data| <= staging.bytes.Length ==> ok && staging.faults == []
    {
      hide Blocks, Programmed, Pads, FillAfter;
      ghost var f, w, img := staging.Now(), wroteSize, image + data;
      if encrypted {
        var rest: Option<seq<byte>>;
        ok, rest := TopUp(data);
        ghost var f1, w1 := staging.Now(), wroteSize;
        if ok && rest.Some? {
          ProgrammedTo(f, f1, w, w1, img);
          ok := WriteBlocks(rest.value, img);
          ProgrammedOn(f, f1, staging.Now(), w, w1, wroteSize, img);
        }
      } else {
        assert img[wroteSize..wroteSize + |data|] == data;
        ok := Program(data, img);
      }
    }

    /** Whether the whole image, with what `esp_ota_end` flushes, lies in flash that this update has erased. */
    ghost predicate AllErased()
      reads `wroteSize, `partialBytes, `erasedTo
    {
      if partialBytes == 0 then wroteSize <= erasedTo else wroteSize < erasedTo
    }

    /** esp_ota_end; `imageOk` is what the image verification answers. */
    method EspOtaEnd(imageOk: bool) returns (r: Status)
      requires Valid()
      modifies this, staging`faults, staging`overprogrammed, staging.bytes, staging.clean
      ensures r == InvalidArg <==> old(wroteSize) == 0
      ensures r == Ok ==> imageOk
      ensures r == Ok || r == ValidateFailed ==>
                image == old(image) && partialBytes == 0
                && wroteSize == old(wroteSize) + (if old(partialBytes) > 0 then BLOCK else 0) <= staging.bytes.Length
      ensures (r == Ok || r == ValidateFailed) && old(AllErased()) ==>
                && wroteSize >= |image| && (forall i | 0 <= i < |image| :: staging.bytes[i] == image[i])
                && staging.overprogrammed == old(staging.overprogrammed)
      ensures r == Ok || r == ValidateFailed ==>
                (staging.overprogrammed <==>
                  old(staging.overprogrammed) || exists i | old(wroteSize) <= i < wroteSize :: !old(staging.clean[i]))
      ensures r == Ok || r == ValidateFailed ==> Flushed(old(staging.Now()), staging.Now(), old(wroteSize), image)
      ensures r == Ok || r == ValidateFailed ==>
                forall i | |image| <= i < wroteSize :: staging.bytes[i] == OverBy(old(staging.Now()), i, old(fill))
      ensures old(staging.faults) == [] && old(wroteSize > 0)
              && old(wroteSize + (if partialBytes > 0 then BLOCK else 0) <= staging.bytes.Length) ==>
                r == if imageOk then Ok else ValidateFailed
    {
      hide Blocks, Edge, EraseInv, HoldsIn, Flushed, Pads, OverBy;
      if wroteSize == 0 {
        return InvalidArg;
      }
      ghost var f, w := staging.Now(), wroteSize;
      if partialBytes > 0 {
        if wroteSize < erasedTo && encrypted {
          EdgeBlock(erasedTo, staging.eraseSize);
          BlocksGap(wroteSize, erasedTo);
        }
        var ok := Flush();
        if !ok {
          return InvalidState;
        }
      } else {
        FlushedNone(f, w, erasedTo, image);
      }
      if old(AllErased()) {
        FlushedErased(f, staging.Now(), w, erasedTo, image);
      }
      r := if imageOk then Ok else ValidateFailed;
    }

    /** What programming `x` gives at place `i`. */
    ghost function OverBy(f: Flash, i: nat, x: byte): byte
      requires i < |f.bytes| && i < |f.clean|
    {
      if f.clean[i] then x else And(f.bytes[i], x)
    }

    /** Writes out the cache as a whole block. */
    method Flush() returns (ok: bool)
      requires Separate() && Pads() && Caches(image) && 0 < partialBytes
      modifies `wroteSize, `partialBytes, staging`faults, staging`overprogrammed, staging.bytes, staging.clean
      ensures Separate()
      ensures ok ==> wroteSize == old(wroteSize) + BLOCK <= staging.bytes.Length && partialBytes == 0
      ensures ok ==> Flushed(old(staging.Now()), staging.Now(), old(wroteSize), image)
      ensures ok ==> forall i | |image| <= i < wroteSize :: staging.bytes[i] == OverBy(old(staging.Now()), i, old(fill))
      ensures ok ==>
                (staging.overprogrammed <==>
                  old(staging.overprogrammed) || exists i | old(wroteSize) <= i < wroteSize :: !old(staging.clean[i]))
      ensures old(staging.faults) == [] ==> (ok <== old(wroteSize) + BLOCK <= staging.bytes.Length)
    {
      ok := staging.Write(wroteSize, partialData[..]);
      if !ok {
        return false;
      }
      forall i | 0 <= i < |image|
        ensures staging.bytes[i] == if i < wroteSize then old(staging.bytes[i])
                                    else if old(staging.clean[i]) then image[i] else And(old(staging.bytes[i]), image[i])
      {
        if i >= wroteSize {
          assert partialData[i - wroteSize] == image[wroteSize + (i - wroteSize)];
          assert partialData[..][i - wroteSize] == image[i];
        }
      }
      wroteSize := wroteSize + BLOCK;
      partialBytes := 0;
    }
  }

  lemma HoldsBounds(f: Flash, wrote: nat, erasedTo: nat, img: seq<byte>)
    requires HoldsIn(f, wrote, erasedTo, img)
    ensures f.Wide(|f.bytes|) && wrote <= |f.bytes| && wrote <= |img|
  {
  }

  lemma HoldsNoErase(f: Flash, erasedTo: nat, img: seq<byte>)
    requires HoldsIn(f, 0, erasedTo, img)
    ensures HoldsIn(f, 0, 0, img)
  {
  }

  lemma FlushedNone(f: Flash, wrote: nat, erasedTo: nat, img: seq<byte>)
    requires HoldsIn(f, wrote, erasedTo, img)
    ensures wrote == |img| ==> Flushed(f, f, wrote, img) && wrote <= |f.bytes|
  {
  }

  lemma FlushedErased(f: Flash, f': Flash, wrote: nat, erasedTo: nat, img: seq<byte>)
    requires HoldsIn(f, wrote, erasedTo, img) && Flushed(f, f', wrote, img) && |img| <= erasedTo
    ensures forall i | 0 <= i < |img| :: f'.bytes[i] == img[i]
    ensures erasedTo <= |f.clean| && forall i | wrote <= i < erasedTo :: f.clean[i]
  {
  }

  /** How much is erased at once for a known image size, or for an unknown one. */
  function EraseSizeOf(imageSize: nat, staging: Partition): nat
    requires staging.eraseSize > 0
  {
    if imageSize == 0 || imageSize == OTA_SIZE_UNKNOWN then staging.bytes.Length
    else RoundUp(imageSize, staging.eraseSize)
  }

  /** The whole partition if no size is given, or else the fewest sectors that hold the image. */
  lemma EraseSizeIs(imageSize: nat, staging: Partition)
    requires staging.eraseSize > 0
    ensures var size := EraseSizeOf(imageSize, staging);
            if imageSize in {0, OTA_SIZE_UNKNOWN} then size == staging.bytes.Length
            else size % staging.eraseSize == 0 && imageSize <= size < imageSize + staging.eraseSize
  {
    RoundUpIsLeast(imageSize, staging.eraseSize);
    hide RoundUp;
  }

  /** esp_ota_begin: erases what is going to be written, or leaves that to the writes. */
  method EspOtaBegin(staging: Partition, imageSize: nat, encrypted: bool, isApp: bool) returns (r: Status, e: OtaEntry)
    requires staging.Valid()
    requires imageSize in {OTA_SIZE_UNKNOWN, OTA_WITH_SEQUENTIAL_WRITES} || imageSize + staging.eraseSize <= U32
    modifies staging`faults, staging.bytes, staging.clean
    ensures fresh(e) && fresh(e.partialData) && e.staging == staging && e.encrypted == encrypted && e.isApp == isApp
    ensures e.needErase == (imageSize == OTA_WITH_SEQUENTIAL_WRITES)
    ensures r == Ok || r == FlashError
    ensures r == Ok ==> e.Valid() && e.image == []
    ensures r == Ok ==> e.erasedTo == (if e.needErase then 0 else EraseSizeOf(imageSize, staging))
    ensures r == Ok && imageSize in {0, OTA_SIZE_UNKNOWN} ==> e.erasedTo == staging.bytes.Length
    ensures r == Ok && imageSize !in {0, OTA_SIZE_UNKNOWN, OTA_WITH_SEQUENTIAL_WRITES} ==>
              e.erasedTo % staging.eraseSize == 0 && imageSize <= e.erasedTo < imageSize + staging.eraseSize
    ensures r == Ok ==> Beyond(old(staging.Now()), staging.Now(), e.erasedTo)
    ensures old(staging.faults) == [] && (e.needErase || EraseSizeOf(imageSize, staging) <= staging.bytes.Length) ==>
              r == Ok && staging.faults == []
  {
    e := new OtaEntry(staging, encrypted, isApp, imageSize == OTA_WITH_SEQUENTIAL_WRITES);
    EdgeZero(staging.eraseSize);
    if imageSize != OTA_WITH_SEQUENTIAL_WRITES {
      var size := EraseSizeOf(imageSize, staging);
      EraseSizeIs(imageSize, staging);
      Multiple((imageSize + staging.eraseSize - 1) / staging.eraseSize, staging.eraseSize);
      hide Edge, EraseSizeOf;
      var ok := staging.EraseRange(0, size);
      if !ok {
        return FlashError, e;
      }
      e.erasedTo := size;
    }
    r := Ok;
  }

  lemma EdgeZero(unit: nat)
    requires unit > 0
    ensures Edge(0, unit)
  {
    Multiple(0, unit);
  }

  // ---- A whole update ----

  ghost function Concat(chunks: seq<seq<byte>>): seq<byte> {
    if chunks == [] then [] else Concat(chunks[..|chunks| - 1]) + chunks[|chunks| - 1]
  }

  /** The sizes of the calls that pass any data. */
  ghost function CallSizes(chunks: seq<seq<byte>>): (calls: seq<nat>)
    ensures Positive(calls)
  {
    if chunks == [] then [] else
    CallSizes(chunks[..|chunks| - 1])
    + (if chunks[|chunks| - 1] == [] then [] else [|chunks[|chunks| - 1]|])
  }

  ghost predicate FlushMisses(calls: seq<nat>, unit: nat)
    requires unit > 0
  {
    calls != [] && 0 < Total(calls) % unit <= Total(calls[..|calls| - 1]) % BLOCK
  }

  /** The end of what is programmed for `len` bytes of image. */
  function ProgrammedEnd(len: nat, encrypted: bool): nat {
    if encrypted then RoundUp(len, BLOCK) else len
  }

  /** An app image that does not start with the magic byte. */
  predicate BadImage(img: seq<byte>, isApp: bool) {
    isApp && img != [] && img[0] != IMAGE_MAGIC
  }

  /** How an update ends without flash faults and within the partition. */
  function Verdict(img: seq<byte>, isApp: bool, encrypted: bool, imageOk: bool): Status {
    if BadImage(img, isApp) then ValidateFailed
    else if |img| < (if encrypted then BLOCK else 1) then InvalidArg
    else if imageOk then Ok
    else ValidateFailed
  }

  lemma {:induction false} ConcatPrefix(chunks: seq<seq<byte>>, k: nat)
    requires k <= |chunks|
    ensures Concat(chunks[..k]) <= Concat(chunks)
  {
    if k < |chunks| {
      var n := |chunks| - 1;
      ConcatPrefix(chunks[..n], k);
      assert chunks[..n][..k] == chunks[..k];
    } else {
      assert chunks[..k] == chunks;
    }
  }

  /** The first byte decides, and only once. */
  lemma StartDecides(chunks: seq<seq<byte>>, k: nat, isApp: bool)
    requires k < |chunks|
    ensures var before, after := Concat(chunks[..k]), Concat(chunks[..k + 1]);
            && after == before + chunks[k] && |after| <= |Concat(chunks)|
            && (before != [] ==> BadImage(after, isApp) == BadImage(before, isApp))
            && (before == [] ==> BadImage(after, isApp) == BadImage(chunks[k], isApp))
            && (BadImage(after, isApp) ==> BadImage(Concat(chunks), isApp))
  {
    assert chunks[..k + 1][..k] == chunks[..k];
    ConcatPrefix(chunks, k + 1);
  }

  /** A whole image has been programmed. Up to `safe` it has come out as it was passed; behind that, every
      byte that was not clean has been programmed over. */
  ghost predicate Landed(f: Flash, f': Flash, img: seq<byte>, safe: nat, end: nat) {
    var n := |f.bytes|;
    && f.Wide(n) && f'.Wide(n) && |img| <= n && end <= n
    && (forall i | 0 <= i < |img| ::
          f'.bytes[i] == if i < safe || f.clean[i] then img[i] else And(f.bytes[i], img[i]))
    && (f'.overprogrammed <==> f.overprogrammed || exists i | safe <= i < end :: !f.clean[i])
  }

  lemma EndIs(wrote: nat, partial: nat)
    requires Blocks(wrote) && partial < BLOCK
    ensures RoundUp(wrote + partial, BLOCK) == wrote + (if partial > 0 then BLOCK else 0)
    ensures wrote + partial - (wrote + partial) % BLOCK == wrote
  {
    CachedIs(Sizes(wrote, partial, 0));
  }

  lemma LandedAtMiss(f: Flash, f1: Flash, f2: Flash, wrote: nat, end: nat, img: seq<byte>)
    requires Beyond(f, f1, wrote) && HoldsIn(f1, wrote, wrote, img) && Flushed(f1, f2, wrote, img) && end <= |f.bytes|
    requires f1.overprogrammed == f.overprogrammed
    requires f2.overprogrammed <==> f1.overprogrammed || exists i | wrote <= i < end :: !f1.clean[i]
    ensures Landed(f, f2, img, wrote, end)
  {
    if exists i | wrote <= i < end :: !f1.clean[i] {
      var i :| wrote <= i < end && !f1.clean[i];
      assert !f.clean[i];
    }
    if exists i | wrote <= i < end :: !f.clean[i] {
      var i :| wrote <= i < end && !f.clean[i];
      assert !f1.clean[i];
    }
  }

  /** The same for a sequential update with encryption in calls of these sizes: all of it is safe, or all but a
      last block whose flush misses. */
  ghost predicate LandedInCalls(f: Flash, f': Flash, img: seq<byte>, calls: seq<nat>, unit: nat)
    requires unit > 0
  {
    var end := ProgrammedEnd(|img|, true);
    Landed(f, f', img, if FlushMisses(calls, unit) then |img| - |img| % BLOCK else end, end)
  }

  /** A whole update with sequential erasing and flash encryption. If all goes well, the image is in
      flash as it was passed and nothing was programmed over unerased data - unless the flush misses.
      Then the last block has been programmed over whatever was there before the update. */
  method WholeUpdate(staging: Partition, isApp: bool, chunks: seq<seq<byte>>, imageOk: bool) returns (r: Status)
    requires staging.Valid()
    modifies staging`faults, staging`overprogrammed, staging.bytes, staging.clean
    ensures r == Ok ==>
              LandedInCalls(old(staging.Now()), staging.Now(), Concat(chunks), CallSizes(chunks), staging.eraseSize)
    ensures r == Ok ==> imageOk && CallSizes(chunks) != []
    ensures old(staging.faults) == [] && ProgrammedEnd(|Concat(chunks)|, true) <= staging.bytes.Length ==>
              r == Verdict(Concat(chunks), isApp, true, imageOk)
  {
    EndIsBehind(|Concat(chunks)|);
    ghost var f0, img := staging.Now(), Concat(chunks);
    assert Verdict(img, isApp, true, imageOk)
        == if BadImage(img, isApp) then ValidateFailed
           else if |img| < BLOCK then InvalidArg else if imageOk then Ok else ValidateFailed;
    hide *;
    var e;
    r, e := EspOtaBegin(staging, OTA_WITH_SEQUENTIAL_WRITES, true, isApp);
    if r == Ok {
      r := FeedChunks(e, chunks, f0);
    }
    if r == Ok {
      r := Finish(e, CallSizes(chunks), imageOk, f0);
    }
  }

  lemma EndIsBehind(len: nat)
    ensures len <= ProgrammedEnd(len, true)
  {
    RoundUpIsLeast(len, BLOCK);
  }

  /** The calls of a sequential update. */
  method FeedChunks(e: OtaEntry, chunks: seq<seq<byte>>, ghost f0: Flash) returns (r: Status)
    requires e.Valid() && e.image == [] && e.encrypted && e.needErase && e.erasedTo == 0
    requires e.staging.overprogrammed == f0.overprogrammed && Beyond(f0, e.staging.Now(), 0)
    modifies e, e.partialData
    modifies e.staging`faults, e.staging`overprogrammed, e.staging.bytes, e.staging.clean
    ensures r == Ok ==>
              && e.Valid() && e.image == Concat(chunks)
              && e.Now() == FeedAll(CallSizes(chunks), e.staging.eraseSize)
              && e.staging.overprogrammed == f0.overprogrammed && Beyond(f0, e.staging.Now(), e.erasedTo)
    ensures r == Ok ==> !BadImage(Concat(chunks), e.isApp)
    ensures old(e.staging.faults) == [] && |Concat(chunks)| <= e.staging.bytes.Length ==>
              e.staging.faults == [] && r == if BadImage(Concat(chunks), e.isApp) then ValidateFailed else Ok
  {
    assert e.Now() == FeedAll(CallSizes([]), e.staging.eraseSize) && e.image == Concat([]);
    assert chunks[..0] == [];
    hide Beyond, Concat, CallSizes, FeedAll, FeedEncrypted, ErasedTo, BadImage, e.Valid, e.BadStart;
    r := Ok;
    for k := 0 to |chunks|
      invariant r == Ok && e.Valid() && e.image == Concat(chunks[..k]) && !BadImage(e.image, e.isApp)
      invariant e.Now() == FeedAll(CallSizes(chunks[..k]), e.staging.eraseSize)
      invariant e.staging.overprogrammed == f0.overprogrammed && Beyond(f0, e.staging.Now(), e.erasedTo)
      invariant old(e.staging.faults) == [] && |Concat(chunks)| <= e.staging.bytes.Length ==> e.staging.faults == []
    {
      ghost var f, t := e.staging.Now(), e.erasedTo;
      r := WriteChunk(e, chunks, k);
      if r != Ok {
        return;
      }
      BeyondOn(f0, f, e.staging.Now(), t, e.erasedTo);
      CallsGrow(chunks, k, e.staging.eraseSize);
    }
    assert chunks[..|chunks|] == chunks;
  }

  /** One call of an update. */
  method WriteChunk(e: OtaEntry, chunks: seq<seq<byte>>, k: nat) returns (r: Status)
    requires e.Valid() && k < |chunks| && e.image == Concat(chunks[..k]) && !BadImage(e.image, e.isApp)
    modifies e, e.partialData
    modifies e.staging`faults, e.staging`overprogrammed, e.staging.bytes, e.staging.clean
    ensures e.needErase ==> e.staging.overprogrammed == old(e.staging.overprogrammed)
    ensures e.needErase && r == Ok ==>
              old(e.erasedTo) <= e.erasedTo && Beyond(old(e.staging.Now()), e.staging.Now(), e.erasedTo)
    ensures !e.needErase ==> e.erasedTo == old(e.erasedTo)
    ensures !e.needErase ==> Programmed(old(e.staging.Now()), e.staging.Now(), old(e.wroteSize), e.wroteSize,
                                        Concat(chunks[..k + 1]))
    ensures r == Ok ==> e.Valid() && e.image == Concat(chunks[..k + 1]) && !BadImage(e.image, e.isApp)
    ensures r == Ok ==> e.Now() == if chunks[k] == [] then old(e.Now()) else e.Fed(old(e.Now()), |chunks[k]|)
    ensures old(e.staging.faults) == [] && |Concat(chunks)| <= e.staging.bytes.Length ==>
              e.staging.faults == [] && (r == Ok || (r == ValidateFailed && BadImage(Concat(chunks), e.isApp)))
    ensures BadImage(Concat(chunks[..k + 1]), e.isApp) ==> r != Ok
  {
    StartDecides(chunks, k, e.isApp);
    BadStartIs(e, chunks[k]);
    hide Concat, BadImage, Beyond, Programmed, e.Valid, e.BadStart, e.Fed;
    r := e.EspOtaWrite(chunks[k]);
  }

  lemma BadStartIs(e: OtaEntry, data: seq<byte>)
    requires e.Valid()
    ensures e.BadStart(data) <==> e.image == [] && BadImage(data, e.isApp)
  {
  }

  /** The end of a sequential update. */
  method Finish(e: OtaEntry, ghost calls: seq<nat>, imageOk: bool, ghost f0: Flash) returns (r: Status)
    requires e.Valid() && e.encrypted && e.needErase && Positive(calls)
    requires e.Now() == FeedAll(calls, e.staging.eraseSize)
    requires e.staging.overprogrammed == f0.overprogrammed && Beyond(f0, e.staging.Now(), e.erasedTo)
    modifies e, e.staging`faults, e.staging`overprogrammed, e.staging.bytes, e.staging.clean
    ensures r == Ok ==> LandedInCalls(f0, e.staging.Now(), old(e.image), calls, e.staging.eraseSize)
    ensures r == Ok ==> imageOk && calls != []
    ensures old(e.staging.faults) == [] && ProgrammedEnd(|old(e.image)|, true) <= e.staging.bytes.Length ==>
              r == if |old(e.image)| < BLOCK then InvalidArg else if imageOk then Ok else ValidateFailed
  {
    hide Landed, LandedInCalls, Beyond, HoldsIn, Flushed, FeedAll, FlushMisses, Blocks, ProgrammedEnd, EraseInv;
    hide SizesInv, Positive, RoundUp, e.Valid;
    ghost var f, img, s := e.staging.Now(), e.image, e.Now();
    ghost var erased := e.AllErased();
    EndOfUpdate(e, calls, f0);
    r := e.EspOtaEnd(imageOk);
    if r == Ok {
      CallsLand(f0, f, e.staging.Now(), img, calls, e.staging.eraseSize, s, erased);
    }
  }

  /** What is known of a sequential update when all calls have been made. */
  lemma EndOfUpdate(e: OtaEntry, calls: seq<nat>, f0: Flash)
    requires e.Valid() && e.encrypted && e.needErase && Positive(calls)
    requires e.Now() == FeedAll(calls, e.staging.eraseSize)
    requires e.staging.overprogrammed == f0.overprogrammed
    ensures var s, f, img, unit := e.Now(), e.staging.Now(), e.image, e.staging.eraseSize;
            && s.wrote == e.wroteSize && s.partial == e.partialBytes && s.erasedTo == e.erasedTo
            && |img| == s.wrote + s.partial && HoldsIn(f, s.wrote, s.erasedTo, img)
            && f.overprogrammed == f0.overprogrammed && f.Wide(|f.bytes|) && |f.bytes| == e.staging.bytes.Length
            && e.staging.Valid() && unit > 0 && Blocks(unit)
            && (e.AllErased() <==> if s.partial == 0 then s.wrote <= s.erasedTo else s.wrote < s.erasedTo)
            && (s.wrote == 0 <==> |img| < BLOCK) && (calls == [] ==> s.wrote == 0)
            && ProgrammedEnd(|img|, true) == s.wrote + (if s.partial > 0 then BLOCK else 0)
  {
    hide FeedAll, Positive, e.Holds, HoldsIn, FlushMisses, Blocks, ProgrammedEnd, e.Valid;
    EndState(e);
    EndFacts(calls, e.staging.eraseSize, e.Now());
    NothingWritten(e.Now());
  }

  lemma EndState(e: OtaEntry)
    requires e.Valid() && e.encrypted
    ensures HoldsIn(e.staging.Now(), e.wroteSize, e.erasedTo, e.image) && |e.image| == e.wroteSize + e.partialBytes
    ensures e.staging.Valid() && e.staging.eraseSize > 0 && Blocks(e.staging.eraseSize) && Blocks(e.wroteSize)
    ensures e.partialBytes < BLOCK && e.staging.clean.Length == e.staging.bytes.Length
  {
  }

  lemma NothingWritten(s: Sizes)
    requires Blocks(s.wrote) && s.partial < BLOCK
    ensures s.wrote == 0 <==> s.wrote + s.partial < BLOCK
  {
  }

  lemma CallsLand(f0: Flash, f: Flash, f': Flash, img: seq<byte>, calls: seq<nat>, unit: nat, s: Sizes, erased: bool)
    requires unit > 0 && Blocks(unit) && Positive(calls) && s == FeedAll(calls, unit) && calls != []
    requires erased <==> if s.partial == 0 then s.wrote <= s.erasedTo else s.wrote < s.erasedTo
    requires Beyond(f0, f, s.erasedTo) && f.overprogrammed == f0.overprogrammed && f'.Wide(|f.bytes|)
    requires HoldsIn(f, s.wrote, s.erasedTo, img) && |img| == s.wrote + s.partial
    requires Flushed(f, f', s.wrote, img)
    requires var end := s.wrote + (if s.partial > 0 then BLOCK else 0);
             && end <= |f'.bytes|
             && (f'.overprogrammed <==> f.overprogrammed || exists i | s.wrote <= i < end :: !f.clean[i])
    requires erased ==> (forall i | 0 <= i < |img| :: f'.bytes[i] == img[i]) && f'.overprogrammed == f.overprogrammed
    ensures LandedInCalls(f0, f', img, calls, unit)
  {
    EndFacts(calls, unit, s);
    assert EraseInv(s, unit);
    assert !erased ==> s.wrote == s.erasedTo;
    hide Landed, Beyond, HoldsIn, Flushed, FeedAll, FlushMisses, Blocks, ProgrammedEnd, EraseInv, SizesInv, Positive;
    var end := s.wrote + (if s.partial > 0 then BLOCK else 0);
    if erased {
      LandedWhole(f0, f, f', s.erasedTo, end, img);
    } else {
      LandedAtMiss(f0, f, f', s.wrote, end, img);
    }
  }

  /** How the sizes at the end decide about the flush. */
  lemma EndFacts(calls: seq<nat>, unit: nat, s: Sizes)
    requires unit > 0 && Blocks(unit) && Positive(calls) && s == FeedAll(calls, unit)
    ensures SizesInv(s, unit) && (calls == [] ==> s.wrote == 0)
    ensures var len := s.wrote + s.partial;
            && ProgrammedEnd(len, true) == s.wrote + (if s.partial > 0 then BLOCK else 0)
            && len - len % BLOCK == s.wrote
    ensures FlushMisses(calls, unit) <==> calls != [] && s.partial > 0 && s.wrote >= s.erasedTo
  {
    FeedAllKeeps(calls, unit);
    EndIs(s.wrote, s.partial);
    if calls != [] {
      FlushIsErasedIff(calls, unit);
    }
  }

  lemma LandedWhole(f: Flash, f1: Flash, f2: Flash, erasedTo: nat, end: nat, img: seq<byte>)
    requires Beyond(f, f1, erasedTo) && |img| <= end <= |f2.bytes| && f2.Wide(|f1.bytes|)
    requires forall i | 0 <= i < |img| :: f2.bytes[i] == img[i]
    requires f2.overprogrammed == f.overprogrammed
    ensures Landed(f, f2, img, end, end)
  {
  }

  lemma LandedSized(f: Flash, fb: Flash, f1: Flash, f2: Flash, erased: nat, wrote: nat, end: nat, img: seq<byte>)
    requires Beyond(f, fb, erased) && fb.overprogrammed == f.overprogrammed && HoldsIn(fb, 0, erased, [])
    requires Programmed(fb, f1, 0, wrote, img) && Flushed(f1, f2, wrote, img) && wrote <= end <= |f.bytes|
    requires f2.overprogrammed <==> f1.overprogrammed || exists i | wrote <= i < end :: !f1.clean[i]
    ensures Landed(f, f2, img, erased, end)
  {
    if exists i | erased <= i < end :: !f.clean[i] {
      var i :| erased <= i < end && !f.clean[i];
      assert !fb.clean[i];
      assert i >= wrote ==> !f1.clean[i];
    }
    if exists i | wrote <= i < end :: !f1.clean[i] {
      var i :| wrote <= i < end && !f1.clean[i];
      assert !fb.clean[i];
    }
  }

  /** A whole update that was begun with a size, or with none. Nothing stops the data at the end of what was
      erased for it: bytes are programmed over exactly where data behind that end met flash that was not clean. */
  method SizedUpdate(staging: Partition, imageSize: nat, encrypted: bool, isApp: bool, chunks: seq<seq<byte>>,
                     imageOk: bool)
    returns (r: Status)
    requires staging.Valid()
    requires imageSize == OTA_SIZE_UNKNOWN || imageSize + staging.eraseSize <= U32
    requires imageSize != OTA_WITH_SEQUENTIAL_WRITES
    modifies staging`faults, staging`overprogrammed, staging.bytes, staging.clean
    ensures r == Ok ==>
              Landed(old(staging.Now()), staging.Now(), Concat(chunks),
                     EraseSizeOf(imageSize, staging), ProgrammedEnd(|Concat(chunks)|, encrypted))
    ensures r == Ok && (imageSize in {0, OTA_SIZE_UNKNOWN} || ProgrammedEnd(|Concat(chunks)|, encrypted) <= imageSize) ==>
              |Concat(chunks)| <= staging.bytes.Length && staging.bytes[..|Concat(chunks)|] == Concat(chunks)
              && staging.overprogrammed == old(staging.overprogrammed)
    ensures r == Ok ==> imageOk
    ensures old(staging.faults) == [] && EraseSizeOf(imageSize, staging) <= staging.bytes.Length
            && ProgrammedEnd(|Concat(chunks)|, encrypted) <= staging.bytes.Length ==>
              r == Verdict(Concat(chunks), isApp, encrypted, imageOk)
  {
    EndIsBehind(|Concat(chunks)|);
    EraseSizeIs(imageSize, staging);
    hide Landed, Beyond, HoldsIn, Flushed, Edge, Programmed, EraseSizeOf, Blocks, BadImage, Concat, ProgrammedEnd;
    PlainEnd(|Concat(chunks)|);
    ghost var f0 := staging.Now();
    var e;
    r, e := EspOtaBegin(staging, imageSize, encrypted, isApp);
    if r != Ok {
      return;
    }
    ghost var fb := staging.Now();
    r := FeedSized(e, chunks, fb);
    if r == Ok {
      r := FinishSized(e, imageOk, f0, fb);
    }
    if r == Ok {
      LandedSafe(f0, staging.Now(), Concat(chunks), EraseSizeOf(imageSize, staging),
                 ProgrammedEnd(|Concat(chunks)|, encrypted));
    }
  }

  /** Within the part erased for it, an image comes out as it was passed. */
  lemma LandedSafe(f: Flash, f': Flash, img: seq<byte>, safe: nat, end: nat)
    requires Landed(f, f', img, safe, end) && |img| <= end
    ensures |f.bytes| == |f'.bytes| >= end
    ensures end <= safe ==> f'.bytes[..|img|] == img && f'.overprogrammed == f.overprogrammed
  {
  }

  lemma PlainEnd(len: nat)
    ensures ProgrammedEnd(len, false) == len
  {
  }

  /** The calls of an update begun with a size. */
  method FeedSized(e: OtaEntry, chunks: seq<seq<byte>>, ghost fb: Flash) returns (r: Status)
    requires e.Valid() && e.image == [] && !e.needErase && e.wroteSize == 0 && e.staging.Now() == fb
    modifies e, e.partialData
    modifies e.staging`faults, e.staging`overprogrammed, e.staging.bytes, e.staging.clean
    ensures r == Ok ==>
              && e.Valid() && e.image == Concat(chunks) && e.erasedTo == old(e.erasedTo)
              && Programmed(fb, e.staging.Now(), 0, e.wroteSize, e.image) && !BadImage(e.image, e.isApp)
    ensures old(e.staging.faults) == [] && |Concat(chunks)| <= e.staging.bytes.Length ==>
              e.staging.faults == [] && r == if BadImage(Concat(chunks), e.isApp) then ValidateFailed else Ok
  {
    ProgrammedNone(fb, 0, []);
    assert chunks[..0] == [];
    hide Concat, Programmed, BadImage, e.Valid, e.Fed;
    r := Ok;
    for k := 0 to |chunks|
      invariant r == Ok && e.Valid() && e.image == Concat(chunks[..k]) && !BadImage(e.image, e.isApp)
      invariant e.erasedTo == old(e.erasedTo) && Programmed(fb, e.staging.Now(), 0, e.wroteSize, e.image)
      invariant old(e.staging.faults) == [] && |Concat(chunks)| <= e.staging.bytes.Length ==> e.staging.faults == []
    {
      ghost var f, w, img := e.staging.Now(), e.wroteSize, e.image;
      r := WriteChunk(e, chunks, k);
      if r != Ok {
        return;
      }
      StartDecides(chunks, k, e.isApp);
      ProgrammedLonger(fb, f, 0, w, img, chunks[k]);
      ProgrammedOn(fb, f, e.staging.Now(), 0, w, e.wroteSize, e.image);
    }
    assert chunks[..|chunks|] == chunks;
  }

  /** The end of an update begun with a size. */
  method FinishSized(e: OtaEntry, imageOk: bool, ghost f0: Flash, ghost fb: Flash) returns (r: Status)
    requires e.Valid() && Programmed(fb, e.staging.Now(), 0, e.wroteSize, e.image)
    requires Beyond(f0, fb, e.erasedTo) && fb.overprogrammed == f0.overprogrammed && HoldsIn(fb, 0, e.erasedTo, [])
    modifies e, e.staging`faults, e.staging`overprogrammed, e.staging.bytes, e.staging.clean
    ensures r == Ok ==>
              imageOk
              && Landed(f0, e.staging.Now(), old(e.image), old(e.erasedTo), ProgrammedEnd(|old(e.image)|, e.encrypted))
    ensures old(e.staging.faults) == [] && ProgrammedEnd(|old(e.image)|, e.encrypted) <= e.staging.bytes.Length ==>
              r == if |old(e.image)| < (if e.encrypted then BLOCK else 1) then InvalidArg
                   else if imageOk then Ok else ValidateFailed
  {
    hide Landed, Beyond, HoldsIn, Flushed, Programmed, Blocks, ProgrammedEnd, RoundUp, e.Valid, e.AllErased;
    ghost var f, w, t, img := e.staging.Now(), e.wroteSize, e.erasedTo, e.image;
    EndOfSized(e, f0, fb);
    r := e.EspOtaEnd(imageOk);
    if r == Ok {
      LandedSized(f0, fb, f, e.staging.Now(), t, w, e.wroteSize, img);
    }
  }

  /** What is known of an update begun with a size when all calls have been made. */
  lemma EndOfSized(e: OtaEntry, f0: Flash, fb: Flash)
    requires e.Valid() && Programmed(fb, e.staging.Now(), 0, e.wroteSize, e.image) && Beyond(f0, fb, e.erasedTo)
    ensures |f0.bytes| == e.staging.bytes.Length == e.staging.clean.Length
    ensures e.wroteSize == 0 <==> |e.image| < (if e.encrypted then BLOCK else 1)
    ensures ProgrammedEnd(|e.image|, e.encrypted) == e.wroteSize + (if e.partialBytes > 0 then BLOCK else 0)
  {
    hide Landed, HoldsIn, Flushed;
    if e.encrypted {
      EndIs(e.wroteSize, e.partialBytes);
    }
  }

  lemma ConcatOne(img: seq<byte>)
    ensures Concat([img]) == img
  {
    assert [img][..0] == [];
  }

  lemma ConcatTwo(a: seq<byte>, b: seq<byte>)
    ensures Concat([a, b]) == a + b
    ensures a != [] && b != [] ==> CallSizes([a, b]) == [|a|, |b|]
  {
    assert [a, b][..1] == [a] && [a][..0] == [];
    ConcatOne(a);
    if a != [] && b != [] {
      assert CallSizes([]) == [];
      assert CallSizes([a]) == [|a|];
    }
  }

  lemma LandedOver(f: Flash, f': Flash, img: seq<byte>, safe: nat, end: nat, i: nat)
    requires Landed(f, f', img, safe, end) && safe <= i < end && i < |img| && !f.clean[i]
    ensures f'.overprogrammed && f'.bytes[i] == And(f.bytes[i], img[i])
  {
  }

  /** An update begun with 100 bytes has one sector erased. It can be passed 5000 and succeed, and has then
      programmed over what was in the next sector. */
  method SizedCanOverrun(staging: Partition) returns (r: Status)
    requires staging.Valid() && staging.faults == [] && staging.eraseSize == 4096
    requires staging.bytes.Length >= 8192 && !staging.clean[4096]
    modifies staging`faults, staging`overprogrammed, staging.bytes, staging.clean
    ensures r == Ok && staging.overprogrammed
    ensures staging.bytes[4096] == And(old(staging.bytes[4096]), 1)
  {
    var img := [IMAGE_MAGIC] + seq(4999, _ => 1);
    ConcatOne(img);
    assert EraseSizeOf(100, staging) == 4096 && ProgrammedEnd(5000, false) == 5000;
    assert Verdict(img, true, false, true) == Ok && |img| == 5000 && img[4096] == 1;
    ghost var f := staging.Now();
    assert !f.clean[4096];
    hide *;
    r := SizedUpdate(staging, 100, false, true, [img], true);
    LandedOver(f, staging.Now(), img, 4096, 5000, 4096);
  }

  /** The flush misses when one byte is passed first, and then a sector's worth: the update succeeds, and its
      last block has been programmed over what was in the next sector. */
  method FlushCanMiss(staging: Partition) returns (r: Status)
    requires staging.Valid() && staging.faults == [] && staging.eraseSize == 4096
    requires staging.bytes.Length >= 8192 && !staging.clean[4096]
    modifies staging`faults, staging`overprogrammed, staging.bytes, staging.clean
    ensures r == Ok && staging.overprogrammed
    ensures staging.bytes[4096] == And(old(staging.bytes[4096]), 1)
  {
    var first, second := [IMAGE_MAGIC], seq(4096, _ => 1);
    ConcatTwo(first, second);
    SizesMiss();
    var img := first + second;
    assert Verdict(img, true, true, true) == Ok && |img| == 4097 && img[4096] == 1;
    ghost var f := staging.Now();
    assert !f.clean[4096];
    hide *;
    r := WholeUpdate(staging, true, [first, second], true);
    InCallsIs(f, staging.Now(), img, [1, 4096], 4096);
    LandedOver(f, staging.Now(), img, 4096, 4112, 4096);
  }

  lemma InCallsIs(f: Flash, f': Flash, img: seq<byte>, calls: seq<nat>, unit: nat)
    requires unit > 0 && LandedInCalls(f, f', img, calls, unit) && FlushMisses(calls, unit)
    ensures Landed(f, f', img, |img| - |img| % BLOCK, ProgrammedEnd(|img|, true))
  {
  }

  lemma SizesMiss()
    ensures FlushMisses([1, 4096], 4096) && ProgrammedEnd(4097, true) == 4112 && 4097 - 4097 % BLOCK == 4096
  {
    assert [1, 4096][..1] == [1] && [1][..0] == [];
    assert Total([1]) == 1 && Total([1, 4096]) == 4097;
  }

  lemma CallsGrow(chunks: seq<seq<byte>>, k: nat, unit: nat)
    requires k < |chunks| && unit > 0
    ensures Concat(chunks[..k + 1]) == Concat(chunks[..k]) + chunks[k]
    ensures FeedAll(CallSizes(chunks[..k + 1]), unit) ==
            var s := FeedAll(CallSizes(chunks[..k]), unit);
            if chunks[k] == [] then s else FeedEncrypted(s, |chunks[k]|, unit)
  {
    assert chunks[..k + 1][..k] == chunks[..k];
    var calls := CallSizes(chunks[..k]);
    assert calls + [] == calls;
    if chunks[k] != [] {
      assert (calls + [|chunks[k]|])[..|calls|] == calls;
    }
  }
}
