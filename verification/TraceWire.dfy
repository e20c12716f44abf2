/** The up-going byte stream: packets as the target lays them out in memory and as the host
    reads them back (components/app_trace/app_trace_membufs_proto.c). */
module TraceWire {
  import opened Machine

  /** sizeof(esp_tracedata_hdr_t): two 16-bit fields. */
  const HEADER_SIZE: nat := 4

  /** The core id is kept in bit 15 of the block size. */
  const CORE_FLAG: nat := 0x8000

  datatype Packet = Packet(core: bool, payload: seq<byte>) {
    ghost predicate Fits() { |payload| < CORE_FLAG }
  }

  function BlockSz(core: bool, size: nat): (n: nat)
    requires size < CORE_FLAG
    ensures n < 0x1_0000
  {
    if core then CORE_FLAG + size else size
  }

  /** The finished packet: `wr_sz` has been set to `block_sz`. */
  function Encode(p: Packet): (s: seq<byte>)
    requires p.Fits()
    ensures |s| == HEADER_SIZE + |p.payload|
    ensures FromLe16(s[0], s[1]) == BlockSz(p.core, |p.payload|) == FromLe16(s[2], s[3])
    ensures s[HEADER_SIZE..] == p.payload
  {
    var sz := BlockSz(p.core, |p.payload|);
    Le16(sz) + Le16(sz) + p.payload
  }

  ghost predicate AllFit(ps: seq<Packet>) {
    forall p | p in ps :: p.Fits()
  }

  function Wire(ps: seq<Packet>): seq<byte>
    requires AllFit(ps)
  {
    if ps == [] then [] else Encode(ps[0]) + Wire(ps[1..])
  }

  datatype Decoded = Complete(packets: seq<Packet>, rest: seq<byte>) | Unfinished

  /** The host's reader. A packet whose `wr_sz` differs from `block_sz` is reported as unfinished;
      bytes that do not yet hold a whole packet are left over. */
  function Decode(s: seq<byte>): Decoded {
    if |s| < HEADER_SIZE then Complete([], s) else
    var sz := FromLe16(s[0], s[1]);
    var len := sz % CORE_FLAG;
    if |s| < HEADER_SIZE + len then Complete([], s) else
    if FromLe16(s[2], s[3]) != sz then Unfinished else
    match Decode(s[HEADER_SIZE + len..])
    case Unfinished => Unfinished
    case Complete(ps, rest) => Complete([Packet(sz >= CORE_FLAG, s[HEADER_SIZE..HEADER_SIZE + len])] + ps, rest)
  }

  lemma {:induction false} WireAppend(ps: seq<Packet>, p: Packet)
    requires AllFit(ps) && p.Fits()
    ensures AllFit(ps + [p]) && Wire(ps + [p]) == Wire(ps) + Encode(p)
  {
    if ps == [] {
      assert [p][1..] == [];
    } else {
      WireAppend(ps[1..], p);
      assert (ps + [p])[1..] == ps[1..] + [p];
    }
  }

  lemma SameHeader(e: seq<byte>, s: seq<byte>)
    requires HEADER_SIZE <= |e| && HEADER_SIZE <= |s| && (e <= s || s <= e)
    ensures s[0] == e[0] && s[1] == e[1] && s[2] == e[2] && s[3] == e[3]
  {
  }

  lemma SizeBits(core: bool, size: nat)
    requires size < CORE_FLAG
    ensures BlockSz(core, size) % CORE_FLAG == size
    ensures BlockSz(core, size) >= CORE_FLAG <==> core
  {
  }

  lemma Cut(e: seq<byte>, s: seq<byte>)
    requires HEADER_SIZE <= |e|
    ensures (e + s)[|e|..] == s && (e + s)[HEADER_SIZE..|e|] == e[HEADER_SIZE..]
  {
  }

  /** Reading an encoded packet gives it back and goes on behind it. */
  lemma DecodeEncoded(p: Packet, s: seq<byte>)
    requires p.Fits()
    ensures Decode(Encode(p) + s) == match Decode(s)
                                     case Unfinished => Unfinished
                                     case Complete(ps, rest) => Complete([p] + ps, rest)
  {
    var e := Encode(p);
    SameHeader(e, e + s);
    SizeBits(p.core, |p.payload|);
    Cut(e, s);
  }

  lemma DecodeStump(p: Packet, s: seq<byte>)
    requires p.Fits() && s <= Encode(p) && |s| < |Encode(p)|
    ensures Decode(s) == Complete([], s)
  {
    if |s| >= HEADER_SIZE {
      SameHeader(Encode(p), s);
      SizeBits(p.core, |p.payload|);
    }
  }

  lemma PrefixOfSum(a: seq<byte>, b: seq<byte>, h: seq<byte>)
    requires h <= a + b
    ensures |h| < |a| ==> h <= a
    ensures |h| >= |a| ==> h == a + h[|a|..] && h[|a|..] <= b && (h == a + b ==> h[|a|..] == b)
  {
    assert h == (a + b)[..|h|];
  }

  /** Whatever prefix of the stream the host has been handed, it reads a prefix of the packets in
      order, plus the bytes of at most one packet that is still on its way; the whole stream reads
      back as exactly the packets. */
  lemma {:induction false} HostReadsPrefix(ps: seq<Packet>, handed: seq<byte>)
    requires AllFit(ps) && handed <= Wire(ps)
    ensures Decode(handed).Complete?
    ensures Decode(handed).packets <= ps
    ensures handed == Wire(Decode(handed).packets) + Decode(handed).rest
    ensures |Decode(handed).packets| < |ps| ==> |Decode(handed).rest| < |Encode(ps[|Decode(handed).packets|])|
    ensures handed == Wire(ps) ==> Decode(handed) == Complete(ps, [])
    decreases |ps|
  {
    if ps == [] {
    } else {
      hide Encode, Decode;
      var e, tail := Encode(ps[0]), ps[1..];
      PrefixOfSum(e, Wire(tail), handed);
      if |handed| < |e| {
        DecodeStump(ps[0], handed);
      } else {
        var more := handed[|e|..];
        DecodeEncoded(ps[0], more);
        HostReadsPrefix(tail, more);
        assert ps == [ps[0]] + tail;
      }
    }
  }
}
