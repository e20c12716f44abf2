/** The DFU image writer of tools/mkdfu.py: files are cut into chunks, listed in dfuinfo0.dat and
    packed into one archive with a DFU suffix (USB DFU 1.1, appendix B). */
module DfuWriter {
  import opened Machine
  import opened Cpio

  const DFUINFO_FILE: Bytes := Ascii("dfuinfo0.dat")

  const FLASH_PARAMS_FILE: Bytes := Ascii("flash_params.dat")

  /** PARAM, NOERASE and IGNORE_MD5. */
  const PARAMS_FLAGS: nat := 4 + 8 + 16

  const CPIO_BLOCK: nat := 10240

  const DOT: byte := 0x2e

  /** One file of the archive together with the place it is meant for. */
  datatype Piece = Piece(name: Bytes, addr: int, flags: nat, data: Bytes)

  /** One record of dfuinfo0.dat. */
  datatype Info = Info(addr: int, flags: nat, name: Bytes, md5: Bytes)

  // ----- cutting a file into chunks -----

  /** What a read of at most `n` bytes gives: everything that is left if `n` is negative. */
  function FRead(rest: Bytes, n: int): (c: Bytes)
    ensures c <= rest
  {
    if n < 0 || n > |rest| then rest else rest[..n]
  }

  function Decimal(n: nat): (s: Bytes)
    ensures |s| > 0 && (n > 0 ==> |s| <= n)
    ensures forall i | 0 <= i < |s| :: 0x30 <= s[i] < 0x3a
  {
    if n < 10 then [(0x30 + n) as byte] else Decimal(n / 10) + [(0x30 + n % 10) as byte]
  }

  function PartName(name: Bytes, i: nat): Bytes {
    if i == 0 then name else name + [DOT] + Decimal(i)
  }

  function Chunks(name: Bytes, i: nat, addr: int, rest: Bytes, partSize: int): seq<Piece>
    decreases |rest|
  {
    var c := FRead(rest, partSize);
    if c == [] then []
    else [Piece(PartName(name, i), addr, 0, c)] + Chunks(name, i + 1, addr + |c|, rest[|c|..], partSize)
  }

  lemma NoChunk(name: Bytes, i: nat, addr: int, rest: Bytes, partSize: int)
    requires FRead(rest, partSize) == []
    ensures Chunks(name, i, addr, rest, partSize) == []
  {
  }

  lemma FirstChunk(name: Bytes, i: nat, addr: int, rest: Bytes, partSize: int)
    requires FRead(rest, partSize) != []
    ensures var c := FRead(rest, partSize);
            var more := Chunks(name, i + 1, addr + |c|, rest[|c|..], partSize);
            Chunks(name, i, addr, rest, partSize) == [Piece(PartName(name, i), addr, 0, c)] + more
  {
  }

  /** The pieces lie end to end from `addr` on and hold exactly `data`. */
  ghost predicate Tiles(ps: seq<Piece>, addr: int, data: Bytes) {
    if ps == [] then data == []
    else ps[0].addr == addr && ps[0].data <= data && Tiles(ps[1..], addr + |ps[0].data|, data[|ps[0].data|..])
  }

  /** The chunks of a file hold the file exactly if the part size is not 0: with 0 the first read
      looks like the end of the file and nothing is added. */
  lemma {:induction false} ChunksTileIff(name: Bytes, i: nat, addr: int, rest: Bytes, partSize: int)
    ensures Tiles(Chunks(name, i, addr, rest, partSize), addr, rest) <==> partSize != 0 || rest == []
    decreases |rest|
  {
    hide Chunks, PartName;
    var c := FRead(rest, partSize);
    if c == [] {
      NoChunk(name, i, addr, rest, partSize);
    } else {
      FirstChunk(name, i, addr, rest, partSize);
      ChunksTileIff(name, i + 1, addr + |c|, rest[|c|..], partSize);
      TilesOn(Piece(PartName(name, i), addr, 0, c), Chunks(name, i + 1, addr + |c|, rest[|c|..], partSize), addr, rest);
    }
  }

  lemma TilesOn(p: Piece, more: seq<Piece>, addr: int, data: Bytes)
    requires p.addr == addr && p.data <= data
    ensures Tiles([p] + more, addr, data) <==> Tiles(more, addr + |p.data|, data[|p.data|..])
  {
    assert ([p] + more)[1..] == more;
  }

  /** No chunk is empty or above the part size, all but the last are full, and chunk `k` carries
      its number. */
  lemma {:induction false} ChunkShape(name: Bytes, i: nat, addr: int, rest: Bytes, partSize: int, k: nat)
    requires k < |Chunks(name, i, addr, rest, partSize)|
    ensures var ps := Chunks(name, i, addr, rest, partSize);
            && ps[k].name == PartName(name, i + k) && ps[k].flags == 0
            && 0 < |ps[k].data| <= |rest| - k
            && (partSize > 0 ==> |ps[k].data| <= partSize && (k + 1 < |ps| ==> |ps[k].data| == partSize))
            && (partSize < 0 ==> |ps| == 1)
    decreases k
  {
    hide PartName, Chunks;
    var c := FRead(rest, partSize);
    if c == [] {
      NoChunk(name, i, addr, rest, partSize);
    } else {
      FirstChunk(name, i, addr, rest, partSize);
      if k > 0 {
        ChunkShape(name, i + 1, addr + |c|, rest[|c|..], partSize, k - 1);
      } else if |c| == |rest| {
        NoChunk(name, i + 1, addr + |c|, rest[|c|..], partSize);
      }
    }
  }

  /** The number that decimal digits stand for. */
  ghost function DecimalValue(s: Bytes): int {
    if s == [] then 0 else 10 * DecimalValue(s[..|s| - 1]) + (s[|s| - 1] as int - 48)
  }

  /** The digits of a number stand for it, without leading zeros. */
  lemma {:induction false} DecimalReads(n: nat)
    ensures DecimalValue(Decimal(n)) == n && (n > 0 ==> Decimal(n)[0] != 48)
  {
    var s := Decimal(n);
    if n < 10 {
      assert s[..|s| - 1] == [];
    } else {
      DecimalReads(n / 10);
      assert s[..|s| - 1] == Decimal(n / 10);
    }
  }

  lemma {:induction false} DecimalInjective(m: nat, n: nat)
    requires Decimal(m) == Decimal(n)
    ensures m == n
  {
    var s := Decimal(m);
    if m >= 10 && n >= 10 {
      assert Decimal(m / 10) == s[..|s| - 1] == Decimal(n / 10);
      DecimalInjective(m / 10, n / 10);
      assert s[|s| - 1] == (0x30 + m % 10) as byte == (0x30 + n % 10) as byte;
    }
  }

  /** Chunks of one file never share a name. */
  lemma PartNamesDiffer(name: Bytes, i: nat, j: nat)
    requires PartName(name, i) == PartName(name, j)
    ensures i == j
  {
    if i > 0 && j > 0 {
      var front := name + [DOT];
      assert (front + Decimal(i))[|front|..] == Decimal(i);
      assert (front + Decimal(j))[|front|..] == Decimal(j);
      DecimalInjective(i, j);
    }
  }

  /** A numbered chunk cannot be taken for the trailer, whatever the file is called. */
  lemma NumberedIsNoTrailer(name: Bytes, i: nat)
    requires i > 0
    ensures PartName(name, i) != TRAILER_NAME
  {
    assert PartName(name, i)[|name|] == DOT;
    assert DOT !in TRAILER_NAME;
  }

  /** A file whose name is neither the trailer's nor holds a NUL adds only readable entries, if it is
      within the 32-bit sizes of the format. */
  lemma ChunksListable(name: Bytes, addr: int, data: Bytes, partSize: int)
    requires NulFree(name) && name != TRAILER_NAME && |name| + |data| + 1 < U32
    ensures forall p | p in Chunks(name, 0, addr, data, partSize) :: Listable(File(p.name, p.data))
  {
    var ps := Chunks(name, 0, addr, data, partSize);
    forall k | 0 <= k < |ps| ensures Listable(File(ps[k].name, ps[k].data)) {
      ChunkShape(name, 0, addr, data, partSize, k);
      if k > 0 {
        NumberedIsNoTrailer(name, k);
      }
    }
  }

  // ----- the index file -----

  function Le32(n: nat): (s: Bytes)
    requires n < U32
    ensures |s| == 4 && FromLe32(s) == n
  {
    Le16(n % 0x1_0000) + Le16(n / 0x1_0000)
  }

  function FromLe32(s: Bytes): nat
    requires |s| == 4
  {
    FromLe16(s[0], s[1]) + 0x1_0000 * FromLe16(s[2], s[3])
  }

  /** A fixed-length string field: cut off or filled up with zeros. */
  function Fixed(s: Bytes, n: nat): (r: Bytes)
    ensures |r| == n
    ensures |s| <= n ==> r[..|s|] == s && forall i | |s| <= i < n :: r[i] == NUL
  {
    if |s| >= n then s[..n] else s + seq(n - |s|, _ => NUL)
  }

  predicate InRange(i: Info) {
    0 <= i.addr < U32 && i.flags < U32
  }

  const INFO_LEN: nat := 88

  function PrintInfo(i: Info): (s: Bytes)
    requires InRange(i)
    ensures |s| == INFO_LEN
  {
    Le32(i.addr) + Le32(i.flags) + Fixed(i.name, 64) + Fixed(i.md5, 16)
  }

  function ReadInfo(s: Bytes): Info
    requires |s| == INFO_LEN
  {
    Info(FromLe32(s[..4]), FromLe32(s[4..8]), CString(s[8..72]), s[72..])
  }

  function Index(infos: seq<Info>): (s: Bytes)
    requires forall i | i in infos :: InRange(i)
    ensures |s| == INFO_LEN * |infos|
  {
    if infos == [] then [] else PrintInfo(infos[0]) + Index(infos[1..])
  }

  function ReadIndex(s: Bytes): seq<Info> {
    if |s| < INFO_LEN then [] else [ReadInfo(s[..INFO_LEN])] + ReadIndex(s[INFO_LEN..])
  }

  ghost predicate Recordable(i: Info) {
    NulFree(i.name) && |i.name| <= 64 && |i.md5| == 16
  }

  lemma InfoParts(i: Info)
    requires InRange(i)
    ensures var s := PrintInfo(i);
            s[..4] == Le32(i.addr) && s[4..8] == Le32(i.flags) && s[8..72] == Fixed(i.name, 64) && s[72..] == Fixed(i.md5, 16)
  {
  }

  lemma CStringShorter(s: Bytes)
    ensures |CString(s)| <= |s|
  {
  }

  lemma InfoReadsBackIff(i: Info)
    requires InRange(i)
    ensures ReadInfo(PrintInfo(i)) == i <==> Recordable(i)
  {
    hide PrintInfo, Le32, FromLe32, Fixed, CString;
    InfoParts(i);
    var field := Fixed(i.name, 64);
    if |i.name| <= 64 {
      assert field == i.name + field[|i.name|..];
      CStringIs(i.name, field[|i.name|..]);
    } else {
      CStringShorter(field);
    }
    if |i.md5| == 16 {
      assert Fixed(i.md5, 16)[..16] == Fixed(i.md5, 16);
    }
  }

  lemma IndexCons(infos: seq<Info>)
    requires infos != [] && forall i | i in infos :: InRange(i)
    ensures InRange(infos[0]) && forall i | i in infos[1..] :: InRange(i)
    ensures ReadIndex(Index(infos)) == [ReadInfo(PrintInfo(infos[0]))] + ReadIndex(Index(infos[1..]))
  {
    hide PrintInfo, ReadInfo;
    var s := Index(infos);
    assert s[..INFO_LEN] == PrintInfo(infos[0]) && s[INFO_LEN..] == Index(infos[1..]);
  }

  /** The index reads back exactly if every name fits its 64 bytes. */
  lemma {:induction false} IndexReadsBackIff(infos: seq<Info>)
    requires forall i | i in infos :: InRange(i)
    ensures ReadIndex(Index(infos)) == infos <==> forall i | i in infos :: Recordable(i)
  {
    if infos != [] {
      IndexCons(infos);
      InfoReadsBackIff(infos[0]);
      IndexReadsBackIff(infos[1..]);
      AllRecordable(infos);
      hide *;
      SameList(ReadInfo(PrintInfo(infos[0])), ReadIndex(Index(infos[1..])), infos);
    }
  }

  lemma AllRecordable(infos: seq<Info>)
    requires infos != []
    ensures (forall i | i in infos :: Recordable(i))
            <==> Recordable(infos[0]) && forall i | i in infos[1..] :: Recordable(i)
  {
    hide Recordable;
    assert infos == [infos[0]] + infos[1..];
  }

  lemma SameList<T>(first: T, more: seq<T>, list: seq<T>)
    requires list != []
    ensures [first] + more == list <==> first == list[0] && more == list[1..]
  {
    assert list == [list[0]] + list[1..];
  }

  // ----- the image -----

  function Files(ps: seq<Piece>): (es: seq<Entry>)
    ensures |es| == |ps| && forall k | 0 <= k < |ps| :: es[k] == File(ps[k].name, ps[k].data)
  {
    seq(|ps|, k requires 0 <= k < |ps| => File(ps[k].name, ps[k].data))
  }

  function Infos(ps: seq<Piece>, md5: Bytes -> Bytes): (infos: seq<Info>)
    ensures |infos| == |ps| && forall k | 0 <= k < |ps| :: infos[k] == Info(ps[k].addr, ps[k].flags, ps[k].name, md5(ps[k].data))
  {
    seq(|ps|, k requires 0 <= k < |ps| => Info(ps[k].addr, ps[k].flags, ps[k].name, md5(ps[k].data)))
  }

  predicate Addressed(ps: seq<Piece>) {
    forall p | p in ps :: 0 <= p.addr < U32 && p.flags < U32
  }

  /** The index file, then every piece. */
  function Listing(ps: seq<Piece>, md5: Bytes -> Bytes): seq<Entry>
    requires Addressed(ps)
  {
    [File(DFUINFO_FILE, Index(Infos(ps, md5)))] + Files(ps)
  }

  /** struct.pack takes the addresses and the product id. */
  predicate Packable(ps: seq<Piece>, pid: int) {
    0 <= pid < 0x1_0000 && Addressed(ps)
  }

  const SIG: Bytes := [0x55, 0x46, 0x44]

  const SUFFIX_LEN: nat := 16

  function Suffix(pid: nat): (s: Bytes)
    requires pid < 0x1_0000
    ensures |s| == SUFFIX_LEN - 4
  {
    Le16(0xffff) + Le16(pid) + Le16(12346) + Le16(0x0100) + SIG + [16]
  }

  function DfuCrc(s: Bytes, crc32: Bytes -> nat): (c: nat)
    ensures c < U32
  {
    0xffff_ffff - crc32(s) % U32
  }

  function Sealed(content: Bytes, pid: nat, crc32: Bytes -> nat): Bytes
    requires pid < 0x1_0000
  {
    var body := content + Suffix(pid);
    body + Le32(DfuCrc(body, crc32))
  }

  /** What the suffix of a file says, and the content before it. */
  datatype Unsealed = Unsealed(content: Bytes, device: nat, product: nat, vendor: nat, version: nat)

  /** The checks of a device on the file it is given: length, signature and checksum of the suffix. */
  function Unseal(s: Bytes, crc32: Bytes -> nat): Option<Unsealed> {
    var n := |s|;
    if n < SUFFIX_LEN || s[n - 5] != 16 || s[n - 8..n - 5] != SIG || FromLe32(s[n - 4..]) != DfuCrc(s[..n - 4], crc32)
    then None
    else
      Some(Unsealed(s[..n - SUFFIX_LEN], FromLe16(s[n - 16], s[n - 15]), FromLe16(s[n - 14], s[n - 13]),
                    FromLe16(s[n - 12], s[n - 11]), FromLe16(s[n - 10], s[n - 9])))
  }

  /** The suffix that is written passes, and says: any device, the product id, Espressif, DFU 1.0. */
  lemma UnsealSealed(content: Bytes, pid: nat, crc32: Bytes -> nat)
    requires pid < 0x1_0000
    ensures Unseal(Sealed(content, pid, crc32), crc32) == Some(Unsealed(content, 0xffff, pid, 0x303a, 0x0100))
  {
    var body, sfx := content + Suffix(pid), Suffix(pid);
    var s := Sealed(content, pid, crc32);
    var n := |s|;
    assert s[..n - 4] == body && s[n - 4..] == Le32(DfuCrc(body, crc32));
    assert s[n - 8..n - 5] == body[n - 8..n - 5] == sfx[8..11] == SIG;
    assert forall k | 0 <= k < 12 :: s[n - 16 + k] == sfx[k];
    assert sfx[0..2] == Le16(0xffff) && sfx[2..4] == Le16(pid) && sfx[4..6] == Le16(12346) && sfx[6..8] == Le16(0x0100);
    assert s[..n - SUFFIX_LEN] == content;
  }

  /** Nothing else passes: the file is the content, four words, "UFD", the length 16, and the complement of the
      CRC of all that. */
  lemma OnlySealedPasses(s: Bytes, crc32: Bytes -> nat)
    requires Unseal(s, crc32).Some?
    ensures var u := Unseal(s, crc32).value;
            && |s| == |u.content| + 16 && u.content == s[..|u.content|]
            && s[|u.content|..|u.content| + 8] == Le16(u.device) + Le16(u.product) + Le16(u.vendor) + Le16(u.version)
            && s[|s| - 8..|s| - 4] == [0x55, 0x46, 0x44, 16]
            && FromLe32(s[|s| - 4..]) + crc32(s[..|s| - 4]) % 0x1_0000_0000 == 0xffff_ffff
  {
    var n := |s|;
    var sig := s[n - 8..n - 5];
    assert s[n - 8] == sig[0] && s[n - 7] == sig[1] && s[n - 6] == sig[2];
    Le16Back(s[n - 16], s[n - 15]);
    Le16Back(s[n - 14], s[n - 13]);
    Le16Back(s[n - 12], s[n - 11]);
    Le16Back(s[n - 10], s[n - 9]);
  }

  lemma Le16Back(lo: byte, hi: byte)
    ensures Le16(FromLe16(lo, hi)) == [lo, hi]
  {
  }

  /** The archive with its trailer, padded to whole blocks. */
  function Content(ps: seq<Piece>, md5: Bytes -> Bytes): Bytes
    requires Addressed(ps)
  {
    PadBytes(Joined(Listing(ps, md5)) + Print(TRAILER), CPIO_BLOCK)
  }

  /** The archive is the index file under its name and then the pieces. */
  lemma ListingShape(ps: seq<Piece>, md5: Bytes -> Bytes, k: nat)
    requires Addressed(ps) && k < |ps|
    ensures |Listing(ps, md5)| == |ps| + 1
    ensures Listing(ps, md5)[0].name == Ascii("dfuinfo0.dat")
    ensures Listing(ps, md5)[k + 1] == File(ps[k].name, ps[k].data)
  {
    hide Index, Infos;
  }

  /** The content is the archive with its trailer, and the fewest zeros that fill blocks of 10240 bytes. */
  lemma ContentShape(ps: seq<Piece>, md5: Bytes -> Bytes, archive: Bytes)
    requires Addressed(ps) && archive == Joined(Listing(ps, md5)) + Print(TRAILER)
    ensures |Content(ps, md5)| % 10240 == 0 && archive <= Content(ps, md5) && |Content(ps, md5)| < |archive| + 10240
    ensures forall i | |archive| <= i < |Content(ps, md5)| :: Content(ps, md5)[i] == 0
  {
    hide Print, Index, Infos, Joined, Listing;
  }

  /** The image of these pieces, or nothing where a field of them does not fit. */
  function Image(ps: seq<Piece>, pid: int, md5: Bytes -> Bytes, crc32: Bytes -> nat): Option<Bytes> {
    if Packable(ps, pid) then Some(Sealed(Content(ps, md5), pid, crc32)) else None
  }

  /** A device that is given the image: the product id and the entries. */
  function Unpack(image: Bytes, crc32: Bytes -> nat): Option<(nat, seq<Entry>)> {
    match Unseal(image, crc32)
    case None => None
    case Some(u) =>
      match ReadArchive(u.content)
      case None => None
      case Some(es) => Some((u.product, es))
  }

  /** The device finds the index first and then exactly the pieces, in order and byte for byte, if
      and only if every piece is listable and the index itself is within the sizes of the format. */
  lemma ImageReadsBackIff(ps: seq<Piece>, pid: int, md5: Bytes -> Bytes, crc32: Bytes -> nat)
    requires Packable(ps, pid)
    ensures Unpack(Image(ps, pid, md5, crc32).value, crc32) == Some((pid, Listing(ps, md5)))
            <==> INFO_LEN * |ps| < U32 && forall p | p in ps :: Listable(File(p.name, p.data))
  {
    hide ReadArchive, Print, Unseal, Sealed, Index, Joined, Listing, Listable, Addressed;
    UnsealSealed(Content(ps, md5), pid, crc32);
    var es := Listing(ps, md5);
    var plain := Joined(es) + Print(TRAILER);
    var pad := Content(ps, md5)[|plain|..];
    assert Content(ps, md5) == plain + pad;
    ArchiveReadsBackIff(es, pad);
    ListingListableIff(ps, md5);
  }

  lemma ListingListableIff(ps: seq<Piece>, md5: Bytes -> Bytes)
    requires Addressed(ps)
    ensures (forall e | e in Listing(ps, md5) :: Listable(e))
            <==> INFO_LEN * |ps| < U32 && forall p | p in ps :: Listable(File(p.name, p.data))
  {
    IndexListableIff(ps, md5);
    hide Listable, Index, Infos;
    var first, rest := Listing(ps, md5)[0], Files(ps);
    assert Listing(ps, md5) == [first] + rest;
    FilesListableIff(ps);
  }

  lemma FilesListableIff(ps: seq<Piece>)
    ensures (forall e | e in Files(ps) :: Listable(e)) <==> forall p | p in ps :: Listable(File(p.name, p.data))
  {
    hide Listable;
    var es := Files(ps);
    if forall e | e in es :: Listable(e) {
      forall p | p in ps
        ensures Listable(File(p.name, p.data))
      {
        var k :| 0 <= k < |ps| && ps[k] == p;
        assert es[k] in es;
      }
    }
  }

  lemma IndexListableIff(ps: seq<Piece>, md5: Bytes -> Bytes)
    requires Addressed(ps)
    ensures Listable(Listing(ps, md5)[0]) <==> INFO_LEN * |ps| < U32
  {
    assert NUL !in DFUINFO_FILE && DFUINFO_FILE[0] != TRAILER_NAME[0];
  }

  // ----- the writer -----

  function Concat(bs: seq<Bytes>): Bytes {
    if bs == [] then [] else bs[0] + Concat(bs[1..])
  }

  function Printed(es: seq<Entry>): (bs: seq<Bytes>)
    ensures |bs| == |es| && forall k | 0 <= k < |es| :: bs[k] == Print(es[k])
  {
    seq(|es|, k requires 0 <= k < |es| => Print(es[k]))
  }

  lemma {:induction false} ConcatPrinted(es: seq<Entry>)
    ensures Concat(Printed(es)) == Joined(es)
  {
    if es != [] {
      ConcatPrinted(es[1..]);
      assert Printed(es)[1..] == Printed(es[1..]);
    }
  }

  lemma PrintedSplits(es: seq<Entry>, more: seq<Entry>)
    ensures Printed(es + more) == Printed(es) + Printed(more)
  {
  }

  lemma {:induction false} JoinedEnd(es: seq<Entry>, e: Entry)
    ensures Joined(es + [e]) == Joined(es) + Print(e)
  {
    hide Print;
    if es == [] {
      assert [e][1..] == [];
    } else {
      JoinedEnd(es[1..], e);
      assert (es + [e])[1..] == es[1..] + [e];
    }
  }

  /** A file on the command line: where it goes, its base name and what it holds. */
  datatype Input = Input(addr: int, name: Bytes, data: Bytes)

  function AllChunks(files: seq<Input>, partSize: int): seq<Piece> {
    if files == [] then []
    else
      var n := |files| - 1;
      AllChunks(files[..n], partSize) + Chunks(files[n].name, 0, files[n].addr, files[n].data, partSize)
  }

  lemma AllChunksNone(files: seq<Input>, partSize: int)
    ensures AllChunks(files[..0], partSize) == []
  {
  }

  lemma AllChunksNext(files: seq<Input>, i: nat, partSize: int)
    requires i < |files|
    ensures AllChunks(files[..i + 1], partSize)
         == AllChunks(files[..i], partSize) + Chunks(files[i].name, 0, files[i].addr, files[i].data, partSize)
  {
    assert files[..i + 1][..i] == files[..i];
  }

  /** The flash chip parameters: block, sector and page size and the status mask are fixed. */
  function Params(chipSize: nat): Piece
    requires chipSize < U32
  {
    var data := Le32(0) + Le32(0) + Le32(0) + Le32(chipSize) + Le32(0x1_0000) + Le32(0x1000) + Le32(256) + Le32(0xffff);
    Piece(FLASH_PARAMS_FILE, 0, PARAMS_FLAGS, data)
  }

  /** The file of the parameters, word by word: no HSPI pins, not legacy, no device id, then the sizes of chip, block,
      sector and page and the status mask. It belongs to no address and is flagged as parameters. */
  lemma ParamsRead(chipSize: nat)
    requires chipSize < U32
    ensures var p := Params(chipSize);
            && p.addr == 0 && p.flags == 28 && |p.data| == 32 && p.name == Ascii("flash_params.dat")
            && FromLe32(p.data[0..4]) == FromLe32(p.data[4..8]) == FromLe32(p.data[8..12]) == 0
            && FromLe32(p.data[12..16]) == chipSize && FromLe32(p.data[16..20]) == 65536
            && FromLe32(p.data[20..24]) == 4096 && FromLe32(p.data[24..28]) == 256
            && FromLe32(p.data[28..32]) == 65535
  {
    hide Le32, FromLe32;
    var d := Params(chipSize).data;
    assert d[0..4] == d[4..8] == d[8..12] == Le32(0);
    assert d[12..16] == Le32(chipSize) && d[16..20] == Le32(0x1_0000) && d[20..24] == Le32(0x1000);
    assert d[24..28] == Le32(256) && d[28..32] == Le32(0xffff);
  }

  class EspDfuWriter {
    const pid: int
    const partSize: int
    const md5: Bytes -> Bytes
    const crc32: Bytes -> nat
    var entries: seq<Bytes>
    var index: seq<Info>
    var dest: Bytes
    ghost var pieces: seq<Piece>

    /** The archive entries and the index name the same pieces in the same order. */
    ghost predicate Valid()
      reads this
    {
      index == Infos(pieces, md5) && entries == Printed(Files(pieces))
    }

    constructor (pid: int, partSize: int, md5: Bytes -> Bytes, crc32: Bytes -> nat)
      ensures Valid() && pieces == [] && dest == []
      ensures this.pid == pid && this.partSize == partSize && this.md5 == md5 && this.crc32 == crc32
    {
      this.pid, this.partSize, this.md5, this.crc32 := pid, partSize, md5, crc32;
      entries, index, dest := [], [], [];
      pieces := [];
    }

    method AddCpioEntry(e: Entry, first: bool)
      modifies this`entries
      ensures entries == if first then [Print(e)] + old(entries) else old(entries) + [Print(e)]
    {
      var entry := PadBytes(Front(e), 4) + PadBytes(e.data, 4);
      if !first {
        entries := entries + [entry];
      } else {
        entries := [entry] + entries;
      }
    }

    method AddCpioFlashEntry(p: Piece)
      requires Valid()
      modifies this`entries, this`index, this`pieces
      ensures Valid() && pieces == old(pieces) + [p]
    {
      index := index + [Info(p.addr, p.flags, p.name, md5(p.data))];
      AddCpioEntry(File(p.name, p.data), false);
      pieces := pieces + [p];
    }

    method AddFlashParamsFile(chipSize: int) returns (ok: bool)
      requires Valid()
      modifies this`entries, this`index, this`pieces
      ensures Valid() && ok == (0 <= chipSize < U32)
      ensures pieces == if ok then old(pieces) + [Params(chipSize)] else old(pieces)
    {
      ok := 0 <= chipSize < U32;
      if ok {
        AddCpioFlashEntry(Params(chipSize));
      }
    }

    /** Cuts a file into chunks of the part size and adds them at successive addresses. */
    method AddFile(flashAddr: int, name: Bytes, data: Bytes)
      requires Valid()
      modifies this`entries, this`index, this`pieces
      ensures Valid() && pieces == old(pieces) + Chunks(name, 0, flashAddr, data, partSize)
    {
      hide PartName, Chunks, Valid;
      var i: nat, addr, rest := 0, flashAddr, data;
      var chunk := FRead(rest, partSize);
      while chunk != []
        invariant Valid() && chunk == FRead(rest, partSize)
        invariant pieces + Chunks(name, i, addr, rest, partSize) == old(pieces) + Chunks(name, 0, flashAddr, data, partSize)
        decreases |rest|
      {
        FirstChunk(name, i, addr, rest, partSize);
        AddCpioFlashEntry(Piece(PartName(name, i), addr, 0, chunk));
        addr := addr + |chunk|;
        rest := rest[|chunk|..];
        i := i + 1;
        chunk := FRead(rest, partSize);
      }
      NoChunk(name, i, addr, rest, partSize);
    }

    method AddFiles(files: seq<Input>)
      requires Valid()
      modifies this`entries, this`index, this`pieces
      ensures Valid() && pieces == old(pieces) + AllChunks(files, partSize)
    {
      hide AllChunks, Chunks, Valid;
      AllChunksNone(files, partSize);
      for i := 0 to |files|
        invariant Valid() && pieces == old(pieces) + AllChunks(files[..i], partSize)
      {
        AddFile(files[i].addr, files[i].name, files[i].data);
        AllChunksNext(files, i, partSize);
      }
      assert files[..|files|] == files;
    }

    /** Nothing is written unless every record of the index and the suffix can be packed. */
    method Finish() returns (ok: bool)
      requires Valid()
      modifies this
      ensures pieces == old(pieces) && ok == Packable(pieces, pid)
      ensures var image := Image(pieces, pid, md5, crc32);
              ok == image.Some? && dest == if ok then old(dest) + image.value else old(dest)
    {
      hide Print, Index, Joined, Sealed, PadBytes, Unseal, ReadArchive, Concat, Printed;
      if !(forall i | i in index :: InRange(i)) {
        assert !Addressed(pieces);
        return false;
      }
      forall p | p in pieces ensures 0 <= p.addr < U32 && p.flags < U32 {
        var k :| 0 <= k < |pieces| && pieces[k] == p;
        assert InRange(index[k]);
      }
      var dfuinfo := File(DFUINFO_FILE, Index(index));
      AddCpioEntry(dfuinfo, true);
      AddCpioEntry(TRAILER, false);
      ghost var es := [dfuinfo] + Files(pieces);
      assert entries == Printed(es + [TRAILER]);
      ConcatPrinted(es + [TRAILER]);
      JoinedEnd(es, TRAILER);
      var content := PadBytes(Concat(entries), CPIO_BLOCK);
      if !(0 <= pid < 0x1_0000) {
        return false;
      }
      dest := dest + Sealed(content, pid, crc32);
      return true;
    }
  }

  /** The whole of `mkdfu.py write`: the image, or nothing. */
  method ActionWrite(files: seq<Input>, pid: int, partSize: int, chipSize: int, md5: Bytes -> Bytes, crc32: Bytes -> nat)
      returns (image: Option<Bytes>)
    ensures image == if 0 <= chipSize < U32 then Image([Params(chipSize)] + AllChunks(files, partSize), pid, md5, crc32)
                     else None
  {
    hide Params, Image, Packable, AllChunks, Chunks, Infos, Files, Printed;
    var w := new EspDfuWriter(pid, partSize, md5, crc32);
    var ok := w.AddFlashParamsFile(chipSize);
    if !ok {
      return None;
    }
    assert w.pieces == [Params(chipSize)];
    w.AddFiles(files);
    ok := w.Finish();
    assert ok ==> w.dest == Image(w.pieces, pid, md5, crc32).value;
    image := if ok then Some(w.dest) else None;
  }

  ghost predicate Clean(f: Input) {
    NulFree(f.name) && f.name != TRAILER_NAME && |f.name| + |f.data| + 1 < U32
  }

  lemma {:induction false} AllChunksListable(files: seq<Input>, partSize: int)
    requires forall f | f in files :: Clean(f)
    ensures forall p | p in AllChunks(files, partSize) :: Listable(File(p.name, p.data))
  {
    if files != [] {
      var n := |files| - 1;
      assert Clean(files[n]) && forall f | f in files[..n] :: f in files;
      AllChunksListable(files[..n], partSize);
      ChunksListable(files[n].name, files[n].addr, files[n].data, partSize);
    }
  }

  lemma InfosRecordableIff(ps: seq<Piece>, md5: Bytes -> Bytes)
    requires forall p | p in ps :: NulFree(p.name)
    ensures (forall i | i in Infos(ps, md5) :: Recordable(i)) <==> forall p | p in ps :: |p.name| <= 64 && |md5(p.data)| == 16
  {
    var infos := Infos(ps, md5);
    if forall i | i in infos :: Recordable(i) {
      forall p | p in ps
        ensures |p.name| <= 64 && |md5(p.data)| == 16
      {
        var k :| 0 <= k < |ps| && ps[k] == p;
        assert infos[k] in infos;
      }
    }
  }

  /** The device finds the index and then the pieces, and its records are as they were meant exactly if every
      name has at most 64 bytes and every digest 16. */
  ghost predicate DeviceFinds(ps: seq<Piece>, pid: int, md5: Bytes -> Bytes, crc32: Bytes -> nat)
    requires Packable(ps, pid)
  {
    && Unpack(Image(ps, pid, md5, crc32).value, crc32) == Some((pid, Listing(ps, md5)))
    && (ReadIndex(Listing(ps, md5)[0].data) == Infos(ps, md5)
        <==> forall p | p in ps :: |p.name| <= 64 && |md5(p.data)| == 16)
  }

  /** From the command line to the device: with clean file names the image holds the index, the
      parameters and then the chunks of every file in turn. The device reads the records of the index as
      they were meant if and only if every name fits its 64 bytes. */
  lemma InputsReadBack(files: seq<Input>, pid: int, partSize: int, chipSize: nat, md5: Bytes -> Bytes, crc32: Bytes -> nat)
    requires chipSize < U32 && forall f | f in files :: Clean(f)
    requires Packable([Params(chipSize)] + AllChunks(files, partSize), pid)
    requires INFO_LEN * (1 + |AllChunks(files, partSize)|) < U32
    ensures DeviceFinds([Params(chipSize)] + AllChunks(files, partSize), pid, md5, crc32)
  {
    hide Unpack, Print, Image, Index, Joined, ReadIndex, Infos, Recordable, AllChunks, Params;
    var ps := [Params(chipSize)] + AllChunks(files, partSize);
    ImageReadsBackIff(ps, pid, md5, crc32);
    AllChunksListable(files, partSize);
    ParamsListable(chipSize);
    assert forall p | p in ps :: Listable(File(p.name, p.data));
    InfosInRange(ps, md5);
    IndexReadsBackIff(Infos(ps, md5));
    InfosRecordableIff(ps, md5);
  }

  lemma ParamsListable(chipSize: nat)
    requires chipSize < U32
    ensures Listable(File(Params(chipSize).name, Params(chipSize).data))
  {
    assert NUL !in FLASH_PARAMS_FILE && FLASH_PARAMS_FILE[0] != TRAILER_NAME[0];
  }

  lemma InfosInRange(ps: seq<Piece>, md5: Bytes -> Bytes)
    requires Addressed(ps)
    ensures forall i | i in Infos(ps, md5) :: InRange(i)
  {
  }
}
