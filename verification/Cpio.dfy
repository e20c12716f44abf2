/** The printer of tools/mkdfu.py for archives in the "new ASCII" cpio format, and a reader of
    that format. */
module Cpio {
  import opened Machine
  import opened DivMod

  type Bytes = seq<byte>

  const NUL: byte := 0

  function Ascii(s: string): (b: Bytes)
    requires forall c | c in s :: c < 128 as char
    ensures |b| == |s| && forall i | 0 <= i < |s| :: b[i] as int == s[i] as int
  {
    seq(|s|, i requires 0 <= i < |s| => assert s[i] in s; s[i] as int as byte)
  }

  ghost predicate NulFree(s: Bytes) {
    NUL !in s
  }

  /** The bytes up to the first NUL. */
  function CString(s: Bytes): Bytes {
    if s == [] || s[0] == NUL then [] else [s[0]] + CString(s[1..])
  }

  lemma {:induction false} CStringIs(name: Bytes, rest: Bytes)
    requires rest == [] || rest[0] == NUL
    ensures CString(name + rest) == name <==> NulFree(name)
    ensures |CString(name + rest)| <= |name|
  {
    if name == [] {
      assert name + rest == rest;
    } else {
      var s := name + rest;
      assert s[1..] == name[1..] + rest;
      CStringIs(name[1..], rest);
      assert name == [name[0]] + name[1..];
      if name[0] != NUL && CString(s) == name {
        assert CString(s)[1..] == CString(s[1..]);
      }
    }
  }

  // ----- numbers -----

  function Digit(d: nat): byte
    requires d < 16
  {
    if d < 10 then (0x30 + d) as byte else (0x61 + d - 10) as byte
  }

  function DigitValue(b: byte): Option<nat> {
    var c := b as nat;
    if 0x30 <= c < 0x3a then Some(c - 0x30)
    else if 0x61 <= c < 0x67 then Some(c - 0x61 + 10)
    else if 0x41 <= c < 0x47 then Some(c - 0x41 + 10)
    else None
  }

  function Digits(n: nat, k: nat): (s: Bytes)
    ensures |s| == k
  {
    if k == 0 then [] else Digits(n / 16, k - 1) + [Digit(n % 16)]
  }

  /** At least eight hexadecimal digits, more where the value needs them. */
  function AsHex(n: nat): (s: Bytes)
    ensures |s| >= 8
  {
    if n < U32 then Digits(n, 8) else AsHex(n / 16) + [Digit(n % 16)]
  }

  /** An eight-character field of the header. Characters after the eighth are cut off silently. */
  function Field(n: nat): (s: Bytes)
    ensures |s| == 8
  {
    AsHex(n)[..8]
  }

  function Value(s: Bytes): Option<nat> {
    if s == [] then Some(0) else
    match (Value(s[..|s| - 1]), DigitValue(s[|s| - 1]))
    case (Some(n), Some(d)) => Some(16 * n + d)
    case _ => None
  }

  /** The sixteen digits, in lower or in upper case, and nothing else. */
  lemma DigitsAre(b: byte, d: nat)
    ensures DigitValue(b) == Some(d) <==>
              d < 16 && (b as int == "0123456789abcdef"[d] as int || b as int == "0123456789ABCDEF"[d] as int)
  {
  }

  lemma {:induction false} ValueIff(s: Bytes)
    ensures Value(s).Some? <==> forall i | 0 <= i < |s| :: DigitValue(s[i]).Some?
  {
    if s != [] {
      var k := |s| - 1;
      ValueIff(s[..k]);
      assert s == s[..k] + [s[k]];
      hide DigitValue;
    }
  }

  /** The digits of a number read back as it, however many there are. */
  lemma {:induction false} HexReads(n: nat)
    ensures Value(AsHex(n)) == Some(n) && (|AsHex(n)| > 8 ==> n >= U32)
  {
    if n < U32 {
      EightDigits(n);
    } else {
      HexReads(n / 16);
      DigitsAre(Digit(n % 16), n % 16);
      var s := AsHex(n);
      assert s[..|s| - 1] == AsHex(n / 16);
    }
  }

  lemma EightDigits(n: nat)
    requires n < U32
    ensures Value(Digits(n, 8)) == Some(n)
  {
    assert Pow16(8) == U32 by {
      assert Pow16(2) == 0x100;
      assert Pow16(4) == 0x1_0000;
      assert Pow16(6) == 0x100_0000;
    }
    DigitsValue(n, 8);
  }

  function Pow16(k: nat): nat {
    if k == 0 then 1 else 16 * Pow16(k - 1)
  }

  lemma {:induction false} DigitsValue(n: nat, k: nat)
    requires n < Pow16(k)
    ensures Value(Digits(n, k)) == Some(n)
  {
    if k > 0 {
      DigitsValue(n / 16, k - 1);
      var s := Digits(n, k);
      assert s[..k - 1] == Digits(n / 16, k - 1);
    }
  }

  /** What a reader makes of the field for `n`. */
  function Kept(n: nat): (r: nat)
    ensures r == n <==> n < U32
    ensures r <= n
  {
    if n < U32 then n else Kept(n / 16)
  }

  lemma {:induction false} FieldValue(n: nat)
    ensures Value(Field(n)) == Some(Kept(n))
  {
    if n < U32 {
      EightDigits(n);
      assert Field(n) == Digits(n, 8);
    } else {
      FieldValue(n / 16);
      assert Field(n) == Field(n / 16);
    }
  }

  function Fields(ns: seq<nat>): (s: Bytes)
    ensures |s| == 8 * |ns|
  {
    if ns == [] then [] else Field(ns[0]) + Fields(ns[1..])
  }

  function ReadFields(s: Bytes): (r: Option<seq<nat>>)
    ensures r.Some? ==> |r.value| == |s| / 8
  {
    if |s| < 8 then Some([]) else
    match (Value(s[..8]), ReadFields(s[8..]))
    case (Some(n), Some(ns)) => Some([n] + ns)
    case _ => None
  }

  lemma {:induction false} FieldsReadBack(ns: seq<nat>)
    ensures ReadFields(Fields(ns)).Some?
    ensures forall i | 0 <= i < |ns| :: ReadFields(Fields(ns)).value[i] == Kept(ns[i])
  {
    if ns != [] {
      var s := Fields(ns);
      assert s[..8] == Field(ns[0]) && s[8..] == Fields(ns[1..]);
      FieldValue(ns[0]);
      FieldsReadBack(ns[1..]);
    }
  }

  // ----- padding -----

  /** `b`, then the fewest zero bytes that make the length a multiple. */
  function PadBytes(b: Bytes, multiple: nat): (s: Bytes)
    requires multiple > 0
    ensures |s| == RoundUp(|b|, multiple) && |b| <= |s| < |b| + multiple && |s| % multiple == 0
    ensures b <= s && forall i | |b| <= i < |s| :: s[i] == NUL
  {
    RoundUpIsLeast(|b|, multiple);
    b + seq(RoundUp(|b|, multiple) - |b|, _ => NUL)
  }

  // ----- entries -----

  const HEADER_LEN: nat := 110

  const MAGIC: Bytes := [0x30, 0x37, 0x30, 0x37, 0x30, 0x31]

  const TRAILER_NAME: Bytes := Ascii("TRAILER!!!")

  datatype Entry = Entry(mode: nat, nlink: nat, name: Bytes, data: Bytes)

  /** A regular file: mode 0100644, as the source writes it. */
  function File(name: Bytes, data: Bytes): Entry {
    Entry(0x81a4, 0, name, data)
  }

  const TRAILER: Entry := Entry(0, 1, TRAILER_NAME, [])

  function HeaderFields(e: Entry): (ns: seq<nat>)
    ensures |ns| == 13
  {
    [0, e.mode, 0, 0, e.nlink, 0, |e.data|, 0, 0, 0, 0, |e.name| + 1, 0]
  }

  function Front(e: Entry): (s: Bytes)
    ensures |s| == HEADER_LEN + |e.name| + 1
  {
    MAGIC + Fields(HeaderFields(e)) + (e.name + [NUL])
  }

  function Print(e: Entry): Bytes {
    PadBytes(Front(e), 4) + PadBytes(e.data, 4)
  }

  function ReadEntry(s: Bytes): (r: Option<(Entry, Bytes)>)
    ensures r.Some? ==> |r.value.1| < |s|
  {
    if |s| < HEADER_LEN || s[..6] != MAGIC then None else
    match ReadFields(s[6..HEADER_LEN])
    case None => None
    case Some(f) =>
      var fileSize, nameSize := f[6], f[11];
      RoundUpIsLeast(HEADER_LEN + nameSize, 4);
      RoundUpIsLeast(fileSize, 4);
      var dataAt := RoundUp(HEADER_LEN + nameSize, 4);
      var end := dataAt + RoundUp(fileSize, 4);
      if nameSize == 0 || |s| < end || s[HEADER_LEN + nameSize - 1] != NUL then None else
      var name := CString(s[HEADER_LEN..HEADER_LEN + nameSize]);
      Some((Entry(f[1], f[4], name, s[dataAt..dataAt + fileSize]), s[end..]))
  }

  /** The entries before the trailer. */
  function ReadArchive(s: Bytes): Option<seq<Entry>>
    decreases |s|
  {
    match ReadEntry(s)
    case None => None
    case Some((e, rest)) =>
      if e.name == TRAILER_NAME then Some([]) else
      match ReadArchive(rest)
      case None => None
      case Some(es) => Some([e] + es)
  }

  ghost predicate Printable(e: Entry) {
    e.mode < U32 && e.nlink < U32 && |e.name| + 1 < U32 && |e.data| < U32 && NulFree(e.name)
  }

  lemma Slice(a: Bytes, b: Bytes, c: Bytes)
    ensures (a + b + c)[|a|..|a| + |b|] == b && (a + b + c)[..|a|] == a
    ensures (a + b + c)[|a| + |b|..] == c
  {
  }

  lemma Within(front: Bytes, padded: Bytes, rest: Bytes, lo: nat, hi: nat)
    requires front <= padded && lo <= hi <= |front|
    ensures (padded + rest)[lo..hi] == front[lo..hi]
  {
    assert padded[..|front|] == front;
  }

  /** The fields of the header that a reader looks at. */
  lemma HeaderReads(e: Entry, rest: Bytes)
    ensures var s := Print(e) + rest; |s| >= HEADER_LEN && s[..6] == MAGIC
    ensures var f := ReadFields((Print(e) + rest)[6..HEADER_LEN]);
            f.Some? && f.value[1] == Kept(e.mode) && f.value[4] == Kept(e.nlink)
            && f.value[6] == Kept(|e.data|) && f.value[11] == Kept(|e.name| + 1)
  {
    hide Print, ReadFields, Kept;
    HeaderIs(e, rest);
  }

  /** The whole header, whatever follows. */
  lemma HeaderIs(e: Entry, rest: Bytes)
    ensures var s := Print(e) + rest; |s| >= HEADER_LEN && s[..6] == MAGIC
    ensures var f := ReadFields((Print(e) + rest)[6..HEADER_LEN]);
            f == Some([0, Kept(e.mode), 0, 0, Kept(e.nlink), 0, Kept(|e.data|), 0, 0, 0, 0, Kept(|e.name| + 1), 0])
  {
    FrontStarts(e);
    FieldsRead(e);
    FrontPadded(e);
    hide *;
    PrintIs(e, rest);
    var front, more := PadBytes(Front(e), 4), PadBytes(e.data, 4) + rest;
    Within(Front(e), front, more, 0, 6);
    Within(Front(e), front, more, 6, HEADER_LEN);
  }

  lemma FieldsRead(e: Entry)
    ensures ReadFields(Fields(HeaderFields(e)))
         == Some([0, Kept(e.mode), 0, 0, Kept(e.nlink), 0, Kept(|e.data|), 0, 0, 0, 0, Kept(|e.name| + 1), 0])
  {
    var ns := HeaderFields(e);
    FieldsReadBack(ns);
    assert Kept(0) == 0 && |Fields(ns)| == 104;
    hide Fields, ReadFields, Kept;
    var f := ReadFields(Fields(ns)).value;
    assert f == [0, Kept(e.mode), 0, 0, Kept(e.nlink), 0, Kept(|e.data|), 0, 0, 0, 0, Kept(|e.name| + 1), 0];
  }

  lemma FrontPadded(e: Entry)
    ensures Front(e) <= PadBytes(Front(e), 4) && 6 < HEADER_LEN <= |Front(e)| && |MAGIC| == 6
  {
  }

  lemma PrintIs(e: Entry, rest: Bytes)
    ensures Print(e) + rest == PadBytes(Front(e), 4) + (PadBytes(e.data, 4) + rest)
  {
  }

  /** The header of a file, byte for byte: "070701", then inode, mode 0100644, user, group, links, time, size, four
      device numbers, length of the name with its NUL, and checksum. */
  lemma FileHeaderReads(name: Bytes, data: Bytes, rest: Bytes)
    requires |name| + 1 < U32 && |data| < U32
    ensures var s := Print(File(name, data)) + rest;
            && |s| >= 110 && s[..6] == [48, 55, 48, 55, 48, 49]
            && ReadFields(s[6..110]) == Some([0, 33188, 0, 0, 0, 0, |data|, 0, 0, 0, 0, |name| + 1, 0])
  {
    hide Print, ReadFields;
    HeaderIs(File(name, data), rest);
  }

  /** The trailer has no mode and one link. */
  lemma TrailerHeaderReads(rest: Bytes)
    ensures var s := Print(TRAILER) + rest;
            && |s| >= 110 && s[..6] == [48, 55, 48, 55, 48, 49]
            && ReadFields(s[6..110]) == Some([0, 0, 0, 0, 1, 0, 0, 0, 0, 0, 0, 11, 0])
  {
    hide Print, ReadFields;
    HeaderIs(TRAILER, rest);
  }

  /** Nothing else is read as an entry. */
  lemma EntryBeginsRight(s: Bytes)
    requires ReadEntry(s).Some?
    ensures |s| >= 110 && s[..6] == [48, 55, 48, 55, 48, 49]
  {
  }

  lemma FrontStarts(e: Entry)
    ensures Front(e)[0..6] == MAGIC && Front(e)[6..HEADER_LEN] == Fields(HeaderFields(e))
  {
    hide Fields, HeaderFields;
    Slice(MAGIC, Fields(HeaderFields(e)), e.name + [NUL]);
  }

  lemma Lengths(e: Entry)
    ensures |PadBytes(Front(e), 4)| == RoundUp(HEADER_LEN + (|e.name| + 1), 4)
    ensures |PadBytes(e.data, 4)| == RoundUp(|e.data|, 4)
  {
  }

  lemma Placed(front: Bytes, paddedFront: Bytes, data: Bytes, padded: Bytes, rest: Bytes)
    requires front <= paddedFront && data <= padded
    ensures var s := paddedFront + padded + rest;
            && s[..|front|] == front && s[|paddedFront|..|paddedFront| + |data|] == data
            && s[|paddedFront| + |padded|..] == rest
  {
  }

  lemma FrontEnds(e: Entry)
    ensures Front(e)[HEADER_LEN..] == e.name + [NUL]
  {
  }

  /** The name field and the contents, where the sizes say they are. */
  lemma BodyReads(e: Entry, rest: Bytes)
    ensures var s, at := Print(e) + rest, |PadBytes(Front(e), 4)|;
            && HEADER_LEN + |e.name| + 1 <= at && at + |PadBytes(e.data, 4)| <= |s|
            && s[HEADER_LEN..HEADER_LEN + |e.name| + 1] == e.name + [NUL]
            && s[at..at + |e.data|] == e.data && s[at + |PadBytes(e.data, 4)|..] == rest
  {
    hide Front, PadBytes, RoundUp;
    var s := Print(e) + rest;
    Placed(Front(e), PadBytes(Front(e), 4), e.data, PadBytes(e.data, 4), rest);
    FrontEnds(e);
    assert s[HEADER_LEN..|Front(e)|] == s[..|Front(e)|][HEADER_LEN..];
  }

  /** A size of nine digits or more is read as a smaller one. */
  lemma CutSizeShows(e: Entry, rest: Bytes)
    requires |e.name| + 1 >= U32 || |e.data| >= U32
    ensures var r := ReadEntry(Print(e) + rest); r.Some? ==> r.value.0 != e
  {
    hide Print, ReadFields, PadBytes;
    var s := Print(e) + rest;
    HeaderReads(e, rest);
    if ReadEntry(s).Some? && |e.data| < U32 {
      var kept := Kept(|e.name| + 1);
      var name := s[HEADER_LEN..HEADER_LEN + kept];
      assert name == name[..kept - 1] + [NUL];
      CStringIs(name[..kept - 1], [NUL]);
    }
  }

  /** One printed entry reads back as itself and what follows it, exactly if its sizes have eight
      hexadecimal digits and its name no NUL. */
  lemma EntryReadsBackIff(e: Entry, rest: Bytes)
    ensures Printable(e) ==> ReadEntry(Print(e) + rest) == Some((e, rest))
    ensures ReadEntry(Print(e) + rest).Some? && ReadEntry(Print(e) + rest).value.0 == e ==> Printable(e)
  {
    if |e.name| + 1 >= U32 || |e.data| >= U32 {
      CutSizeShows(e, rest);
    } else {
      hide Print, ReadFields, PadBytes, Front, HeaderFields, CString, RoundUp;
      HeaderReads(e, rest);
      Lengths(e);
      BodyReads(e, rest);
      CStringIs(e.name, [NUL]);
      assert (Print(e) + rest)[HEADER_LEN..HEADER_LEN + |e.name| + 1][|e.name|] == NUL;
    }
  }

  function Joined(es: seq<Entry>): Bytes {
    if es == [] then [] else Print(es[0]) + Joined(es[1..])
  }

  ghost predicate Listable(e: Entry) {
    Printable(e) && e.name != TRAILER_NAME
  }

  lemma TrailerPrints()
    ensures Printable(TRAILER)
  {
  }

  /** An archive reads back as exactly its entries, in order and byte for byte, if and only if every
      one of them is printable and none has the trailer's name. */
  lemma {:induction false} ArchiveReadsBackIff(es: seq<Entry>, rest: Bytes)
    ensures ReadArchive(Joined(es) + Print(TRAILER) + rest) == Some(es) <==> forall e | e in es :: Listable(e)
  {
    hide Print, ReadEntry;
    var s := Joined(es) + Print(TRAILER) + rest;
    if es == [] {
      assert s == Print(TRAILER) + rest;
      TrailerPrints();
      EntryReadsBackIff(TRAILER, rest);
    } else {
      var e, tail := es[0], Joined(es[1..]) + Print(TRAILER) + rest;
      assert s == Print(e) + tail;
      EntryReadsBackIff(e, tail);
      ArchiveReadsBackIff(es[1..], rest);
      assert es == [e] + es[1..];
      if forall x | x in es :: Listable(x) {
        assert e in es && forall x | x in es[1..] :: x in es;
      }
    }
  }
}
