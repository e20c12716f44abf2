/** The tracing ring buffer (components/app_trace/app_trace_util.c).

    The ring hands out only contiguous regions. When a request does not fit behind the write
    index it wraps early and shrinks `curSize`; the full size comes back when the reader wraps. */
module RingBuffer {
  import opened Machine

  class Ring {
    const data: array<byte>
    var curSize: nat
    var rd: nat
    var wr: nat

    /** The queued bytes, oldest first. */
    ghost var contents: seq<byte>

    constructor (data: array<byte>)
      requires data.Length < U32
      ensures this.data == data && Valid() && contents == []
    {
      this.data := data;
      contents := [];
      curSize := data.Length;
      rd, wr := 0, 0;
    }

    /** Reader and writer are in order in a ring of full size, or the writer has wrapped and is
        strictly behind the reader, which is strictly inside the shrunken ring. */
    ghost predicate InOrder()
      reads `rd, `wr, `curSize
    {
      && data.Length < U32
      && (rd <= wr ==> curSize == data.Length && (wr < data.Length || data.Length == 0 == wr))
      && (rd > wr ==> rd < curSize <= data.Length)
    }

    ghost predicate Valid()
      reads this, data
    {
      && InOrder() && |contents| == Used()
      && forall i | 0 <= i < Used() :: contents[i] == data[Slot(i)]
    }

    /** The number of queued bytes. */
    ghost function Used(): nat
      requires InOrder()
      reads `rd, `wr, `curSize
    {
      if rd <= wr then wr - rd else curSize - rd + wr
    }

    /** Where the `i`-th oldest queued byte is stored. */
    ghost function Slot(i: nat): (k: nat)
      requires InOrder() && i < Used()
      reads `rd, `wr, `curSize
      ensures k < data.Length
    {
      if rd <= wr || rd + i < curSize then rd + i else rd + i - curSize
    }

    /** The largest region the ring can hand out in its present shape. */
    ghost function MaxRegion(): nat
      requires InOrder()
      reads `rd, `wr, `curSize
    {
      if rd <= wr then Max(WriteSize(), if rd == 0 then 0 else rd - 1) else rd - wr - 1
    }

    /** The newest `n` queued bytes are stored contiguously at offset `p`. */
    ghost predicate IsTail(p: nat, n: nat)
      requires InOrder()
      reads `rd, `wr, `curSize
    {
      && n <= Used()
      && p + n <= data.Length
      && forall i | Used() - n <= i < Used() :: Slot(i) == p + i - (Used() - n)
    }

    method Produce(n: nat) returns (p: Option<nat>)
      requires Valid() && n < U32
      modifies this
      ensures old(rd <= wr && wr + n >= U32) ==> p.Some? && wr < old(wr)
      ensures !old(rd <= wr && wr + n >= U32) ==>
                && Valid()
                && (p.Some? <==> data.Length > 0 && n <= old(MaxRegion()))
                && (p.Some? ==> IsTail(p.value, n) && contents == old(contents) + data[p.value..p.value + n])
      ensures p.None? ==> unchanged(this)
    {
      p := Reserve(n);
      if p.Some? && !old(rd <= wr && wr + n >= U32) {
        contents := contents + data[p.value..p.value + n];
      }
    }

    /** The index arithmetic of `Produce`: queued bytes keep their slots. */
    method Reserve(n: nat) returns (p: Option<nat>)
      requires InOrder() && n < U32
      modifies `rd, `wr, `curSize
      ensures old(rd <= wr && wr + n >= U32) ==> p.Some? && wr < old(wr)
      ensures !old(rd <= wr && wr + n >= U32) ==>
                && InOrder()
                && (p.Some? <==> data.Length > 0 && n <= old(MaxRegion()))
                && (p.Some? ==> Used() == old(Used()) + n && IsTail(p.value, n))
                && (p.Some? ==> forall i | 0 <= i < old(Used()) :: Slot(i) == old(Slot(i)))
      ensures p.None? ==> unchanged(this)
    {
      p := Some(wr);
      if rd <= wr {
        if Add32(wr, n) >= data.Length {
          if rd == 0 {
            return None;
          }
          if Add32(wr, n) == data.Length {
            wr := 0;
          } else {
            if n > rd - 1 {
              return None;
            }
            curSize := wr;
            wr := 0;
            p := Some(0);
            if rd == curSize {
              rd := 0;
              if curSize < data.Length {
                curSize := data.Length;
              }
            }
            wr := Add32(wr, n);
          }
        } else {
          wr := Add32(wr, n);
        }
      } else {
        if n > rd - wr - 1 {
          return None;
        }
        wr := Add32(wr, n);
      }
    }

    method Consume(n: nat) returns (p: Option<nat>)
      requires Valid() && n < U32
      modifies this
      ensures old(rd) + n >= U32 ==> p.Some? && rd < old(rd)
      ensures old(rd) + n < U32 ==>
                && Valid()
                && (p.Some? <==> n <= old(ReadSize()))
                && (p.Some? ==> p.value + n <= data.Length)
                && (p.Some? ==> data[p.value..p.value + n] == old(contents)[..n])
                && (p.Some? ==> contents == old(contents)[n..])
                && (p.Some? && n == old(ReadSize()) ==> rd == 0 || Used() == 0)
      ensures p.None? ==> unchanged(this)
    {
      if n <= ReadSize() {
        OldestAt(n);
      }
      p := Release(n);
      if p.Some? && old(rd) + n < U32 {
        contents := contents[n..];
        forall i | 0 <= i < Used()
          ensures contents[i] == data[Slot(i)]
        {
          assert Slot(n + i - n) == old(Slot(n + i));
        }
      }
    }

    /** The oldest bytes, as far as they can be read without a gap, are where the read index points to. */
    lemma OldestAt(n: nat)
      requires Valid() && n <= ReadSize()
      ensures rd + n <= data.Length && data[rd..rd + n] == contents[..n]
    {
      assert n > 0 ==> Slot(n - 1) == rd + n - 1;
      forall i | 0 <= i < n
        ensures data[rd..rd + n][i] == contents[i]
      {
        assert Slot(i) == rd + i;
      }
    }

    /** The index arithmetic of `Consume`: the bytes that stay queued keep their slots. */
    method Release(n: nat) returns (p: Option<nat>)
      requires InOrder() && n < U32
      modifies `rd, `curSize
      ensures old(rd) + n >= U32 ==> p.Some? && rd < old(rd)
      ensures old(rd) + n < U32 ==>
                && InOrder()
                && (p.Some? <==> n <= old(ReadSize()))
                && (p.Some? ==> p.value == old(rd) && Used() == old(Used()) - n)
                && (p.Some? && n == old(ReadSize()) ==> rd == 0 || Used() == 0)
                && (p.Some? ==> forall i | n <= i < old(Used()) :: Slot(i - n) == old(Slot(i)))
      ensures p.None? ==> unchanged(this)
    {
      p := Some(rd);
      if rd <= wr {
        if Add32(rd, n) > wr {
          return None;
        }
        rd := Add32(rd, n);
      } else {
        if Add32(rd, n) > curSize {
          return None;
        } else if Add32(rd, n) == curSize {
          // the reader wraps here, and what an early wrap cut off can be used again
          if curSize < data.Length {
            curSize := data.Length;
          }
          rd := 0;
        } else {
          rd := Add32(rd, n);
        }
      }
    }

    /** Readable bytes without a gap. Zero exactly when nothing is queued. */
    function ReadSize(): (n: nat)
      requires InOrder()
      reads `rd, `wr, `curSize
      ensures n <= Used() && (n == 0 <==> Used() == 0)
      ensures forall i | 0 <= i < n :: Slot(i) == rd + i
    {
      if rd <= wr then wr - rd else curSize - rd
    }

    /** Writable bytes behind the write index: never more than `Produce` grants, and zero exactly
        when only the slot that keeps a full ring apart from an empty one is left. */
    function WriteSize(): (n: nat)
      requires InOrder()
      reads `rd, `wr, `curSize
      ensures n == 0 <==> Used() + 1 >= curSize
    {
      if rd <= wr then
        if data.Length - wr != 0 && rd == 0 then data.Length - wr - 1 else data.Length - wr
      else
        rd - wr - 1
    }

    /** Older bytes are not stored in the region of the newest `n`. */
    lemma OlderAside(p: nat, n: nat)
      requires InOrder() && IsTail(p, n)
      ensures n <= Used() && forall i | 0 <= i < Used() - n :: !(p <= Slot(i) < p + n)
    {
      var older := Used() - n;
      forall i | 0 <= i < older
        ensures !(p <= Slot(i) < p + n)
      {
        assert n > 0 ==> Slot(older) == p && Slot(older + n - 1) == p + n - 1;
      }
    }

    /** Copies into memory handed out by `Produce`: only the newest bytes change. */
    method Store(p: nat, n: nat, at: nat, bytes: seq<byte>)
      requires Valid() && IsTail(p, n) && at + |bytes| <= n
      modifies `contents, data
      ensures Valid() && contents == Splice(old(contents), Used() - n + at, bytes)
    {
      forall k | 0 <= k < |bytes| {
        data[p + at + k] := bytes[k];
      }
      ghost var older := Used() - n;
      OlderAside(p, n);
      ghost var was := contents;
      contents := Splice(was, older + at, bytes);
      forall i | 0 <= i < Used()
        ensures contents[i] == data[Slot(i)]
      {
        if i >= older {
          assert Slot(i) == p + i - older;
        }
      }
    }
  }

  /** Queues a chunk that the ring reported room for. */
  method Push(ring: Ring, chunk: seq<byte>)
    requires ring.Valid() && ring.data.Length < U32 / 2 && 0 < |chunk| <= ring.WriteSize()
    modifies ring, ring.data
    ensures ring.Valid() && ring.contents == old(ring.contents) + chunk
  {
    var ptr := ring.Produce(|chunk|);
    ring.Store(ptr.value, |chunk|, 0, chunk);
  }

  /** Moves the `n` oldest bytes of the ring to offset `at` of a block. */
  method Move(ring: Ring, n: nat, block: array<byte>, at: nat)
    requires ring.Valid() && ring.data.Length < U32 / 2 && n <= ring.ReadSize()
    requires block != ring.data && at + n <= block.Length
    modifies ring, block
    ensures ring.Valid() && n <= |old(ring.contents)|
    ensures ring.contents == old(ring.contents)[n..]
    ensures block[..at + n] == old(block[..at]) + old(ring.contents)[..n]
  {
    var ptr := ring.Consume(n);
    CopyInto(block, at, ring.data[ptr.value..ptr.value + n]);
  }

  /** Copies host data into the down ring, as much as fits: bytes are dropped only when the ring is full. */
  method DownWrite(ring: Ring, data: seq<byte>) returns (total: nat)
    requires ring.Valid() && ring.data.Length < U32 / 2
    modifies ring, ring.data
    ensures ring.Valid() && total <= |data|
    ensures ring.contents == old(ring.contents) + data[..total]
    ensures total < |data| ==> ring.Used() + 1 >= ring.curSize
  {
    total := 0;
    while total < |data|
      invariant ring.Valid() && total <= |data|
      invariant ring.contents == old(ring.contents) + data[..total]
    {
      var sz := ring.WriteSize();
      if sz == 0 {
        break;
      }
      if sz > |data| - total {
        sz := |data| - total;
      }
      Push(ring, data[total..total + sz]);
      assert data[..total + sz] == data[..total] + data[total..total + sz];
      total := total + sz;
    }
  }

  /** Moves pending bytes into a block behind its marker until the block is full or nothing is pending. */
  method Pump(ring: Ring, block: array<byte>, start: nat) returns (marker: nat)
    requires ring.Valid() && ring.data.Length < U32 / 2 && block != ring.data && start <= block.Length
    modifies ring, block
    ensures ring.Valid() && start <= marker <= block.Length
    ensures block[..marker] + ring.contents == old(block[..start]) + old(ring.contents)
    ensures marker == block.Length || ring.Used() == 0
    ensures old(ring.Used()) == 0 ==> ring.MaxRegion() == old(ring.MaxRegion())
  {
    marker := start;
    while marker < block.Length
      invariant ring.Valid() && start <= marker <= block.Length
      invariant old(ring.Used()) == 0 ==> ring.Used() == 0 && ring.MaxRegion() == old(ring.MaxRegion())
      invariant block[..marker] + ring.contents == old(block[..start]) + old(ring.contents)
    {
      var sz := ring.ReadSize();
      if sz == 0 {
        break;
      }
      if sz > block.Length - marker {
        sz := block.Length - marker;
      }
      ghost var done, pend := block[..marker], ring.contents;
      Move(ring, sz, block, marker);
      Rejoin(done, pend, sz);
      marker := marker + sz;
    }
  }

  lemma Rejoin(done: seq<byte>, pend: seq<byte>, n: nat)
    requires n <= |pend|
    ensures (done + pend[..n]) + pend[n..] == done + pend
  {
  }

  /** `mem` with `bytes` written over it at offset `q`. */
  ghost function Splice(mem: seq<byte>, q: nat, bytes: seq<byte>): (r: seq<byte>)
    requires q + |bytes| <= |mem|
    ensures |r| == |mem|
  {
    seq(|mem|, i requires 0 <= i < |mem| => if q <= i < q + |bytes| then bytes[i - q] else mem[i])
  }

  /** memcpy into an array. */
  method CopyInto(dest: array<byte>, q: nat, bytes: seq<byte>)
    requires q + |bytes| <= dest.Length
    modifies dest
    ensures dest[q..q + |bytes|] == bytes
    ensures dest[..q + |bytes|] == old(dest[..q]) + bytes
    ensures forall i | 0 <= i < dest.Length ::
              dest[i] == if q <= i < q + |bytes| then bytes[i - q] else old(dest[i])
  {
    forall k | 0 <= k < |bytes| {
      dest[q + k] := bytes[k];
    }
  }
}
