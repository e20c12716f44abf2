/** Cyclic output of the DAC driver (components/esp_driver_dac/dac_continuous.c:457-545). */
module DacCyclic {
  import opened Machine
  import opened DivMod

  /** `StrayIndex` stands for an access to a descriptor that does not exist. */
  datatype Status = Ok | InvalidArg | StrayIndex

  /** A sample as it is put out: moved by the offset, in 8 bits. */
  function Moved(x: byte, offset: byte): (r: byte)
    ensures r as int == x as int + offset as int || r as int == x as int + offset as int - 256
  {
    ((x as int + offset as int) % 256) as byte
  }

  function MovedAll(s: seq<byte>, offset: byte): (r: seq<byte>)
    ensures |r| == |s|
  {
    seq(|s|, i requires 0 <= i < |s| => Moved(s[i], offset))
  }

  function Flatten(parts: seq<seq<byte>>): seq<byte> {
    if parts == [] then [] else Flatten(parts[..|parts| - 1]) + parts[|parts| - 1]
  }

  /** Each sample takes `coeff` bytes of a DMA buffer and is held in the last of them. */
  ghost predicate HoldsSamples(mem: seq<byte>, coeff: nat, samples: seq<byte>)
    requires coeff == 1 || coeff == 2
  {
    && |samples| * coeff <= |mem|
    && forall i | 0 <= i < |samples| :: mem[i * coeff + coeff - 1] == samples[i]
  }

  class Channel {
    /** DAC_16BIT_ALIGN_COEFF. */
    const coeff: nat
    const bufSize: nat
    const offset: byte
    const bufs: seq<array<byte>>
    /** The descriptors' payload lengths and links. */
    var lengths: seq<nat>
    var next: seq<Option<nat>>
    /** Whether cyclic output has been started before. */
    var isCyclic: bool

    ghost predicate Valid()
      reads `lengths, `next
    {
      && (coeff == 1 || coeff == 2) && 0 < bufSize && bufSize % coeff == 0
      && 2 <= |bufs| == |lengths| == |next|
      && (forall i | 0 <= i < |bufs| :: bufs[i].Length == bufSize)
      && (forall i, j | 0 <= i < j < |bufs| :: bufs[i] != bufs[j])
    }

    /** Samples that fit into one buffer. */
    ghost function PerBuffer(): nat
      requires coeff > 0
    {
      bufSize / coeff
    }

    /** s_dac_load_data_into_buf. */
    method LoadDataIntoBuf(dest: array<byte>, src: seq<byte>) returns (loadBytes: nat)
      requires Valid() && dest.Length == bufSize
      modifies dest
      ensures loadBytes == Min(|src|, PerBuffer()) * coeff
      ensures HoldsSamples(dest[..], coeff, MovedAll(src[..Min(|src|, PerBuffer())], offset))
    {
      PerBufferIs();
      hide PerBuffer;
      if coeff == 2 {
        loadBytes := if |src| * 2 > dest.Length then dest.Length else |src| * 2;
        var i := 0;
        while i < loadBytes
          invariant i % 2 == 0 && i <= loadBytes
          invariant forall k | 0 <= k < i / 2 :: dest[k * 2 + 1] == Moved(src[k], offset)
        {
          dest[i + 1] := Moved(src[i / 2], offset);
          i := i + 2;
        }
      } else {
        loadBytes := if |src| > dest.Length then dest.Length else |src|;
        var i := 0;
        while i < loadBytes
          invariant i <= loadBytes
          invariant forall k | 0 <= k < i :: dest[k] == Moved(src[k], offset)
        {
          dest[i] := Moved(src[i], offset);
          i := i + 1;
        }
      }
    }

    /** The parts of the data, one per used descriptor, lie in the buffers in order, and the used
        descriptors form one ring. */
    ghost predicate Cycles(parts: seq<seq<byte>>)
      requires Valid()
      reads `lengths, `next, bufs
    {
      && 0 < |parts| <= |bufs|
      && forall i | 0 <= i < |parts| ::
           && HoldsSamples(bufs[i][..], coeff, parts[i]) && lengths[i] == |parts[i]| * coeff
           && next[i] == Some(if i == |parts| - 1 then 0 else i + 1)
    }

    ghost predicate Loaded(parts: seq<seq<byte>>)
      requires Valid() && |parts| <= |bufs|
      reads `lengths, `next, bufs
    {
      forall i | 0 <= i < |parts| ::
        && HoldsSamples(bufs[i][..], coeff, parts[i]) && lengths[i] == |parts[i]| * coeff
        && next[i] == if i < |bufs| - 1 then Some(i + 1) else None
    }

    /** Loads the first `|src|` samples, as many as fit, into descriptor `i`. */
    method LoadDescriptor(i: nat, src: seq<byte>, ghost parts: seq<seq<byte>>) returns (samples: nat)
      requires Valid() && i == |parts| < |bufs| && Loaded(parts)
      modifies `lengths, `next, bufs
      ensures Valid() && samples == Min(|src|, PerBuffer())
      ensures Loaded(parts + [MovedAll(src[..samples], offset)])
    {
      ghost var held := parts;
      var loadBytes := LoadDataIntoBuf(bufs[i], src);
      Scaled(Min(|src|, PerBuffer()), coeff);
      samples := loadBytes / coeff;
      lengths := lengths[i := loadBytes];
      next := next[i := if i < |bufs| - 1 then Some(i + 1) else None];
      forall k | 0 <= k < i
        ensures HoldsSamples(bufs[k][..], coeff, parts[k])
      {
        assert bufs[k] != bufs[i];
        assert bufs[k][..] == old(bufs[k][..]);
      }
    }

    function Unlinked(): (links: seq<Option<nat>>)
      ensures |links| == |bufs|
    {
      seq(|bufs|, _ => None)
    }

    /** Unlinks the descriptors, which stops an output that is under way. */
    method BreakChain()
      requires Valid()
      modifies `next
      ensures Valid() && next == Unlinked()
    {
      for i := 0 to |bufs|
        invariant |next| == |bufs| && forall k | 0 <= k < i :: next[k] == None
      {
        next := next[i := None];
      }
    }

    /** dac_continuous_write_cyclically. All data is loaded exactly if it leaves room in the buffers. With no
        data no descriptor is used, and the tail to be linked is the descriptor before the first. */
    method WriteCyclically(buf: seq<byte>) returns (r: Status, loaded: nat, ghost parts: seq<seq<byte>>)
      requires Valid()
      modifies `lengths, `next, `isCyclic, bufs
      ensures Valid()
      ensures r == InvalidArg <==> |buf| > bufSize * |bufs|
      ensures r == InvalidArg ==> lengths == old(lengths) && next == old(next) && isCyclic == old(isCyclic)
      ensures r == StrayIndex <==> buf == []
      ensures r == StrayIndex ==> lengths == old(lengths) && next == if old(isCyclic) then Unlinked() else old(next)
      ensures r != InvalidArg ==> isCyclic
      ensures r == Ok ==> loaded <= |buf| && Cycles(parts) && Flatten(parts) == MovedAll(buf[..loaded], offset)
      ensures r == Ok ==> (loaded == |buf| <==> LeavesRoom(|buf|))
    {
      if |buf| > bufSize * |bufs| {
        assert |buf| > 0;
        return InvalidArg, 0, [];
      }
      if isCyclic {
        BreakChain();
      }
      isCyclic := true;
      var used;
      used, loaded, parts := Fill(buf);
      FillEnds(buf, loaded, used, parts);
      hide LeavesRoom, Cycles, Loaded, Filling;
      if used == 0 {
        return StrayIndex, loaded, parts;
      }
      LinkTail(used, parts);
      r := Ok;
    }

    /** How far the data has been loaded: `done` samples, into `i` descriptors. */
    ghost predicate Filling(buf: seq<byte>, done: nat, split: nat, i: nat, parts: seq<seq<byte>>)
      requires Valid()
      reads `lengths, `next, bufs
    {
      && i == |parts| <= |bufs| && done <= |buf| && 1 <= split <= 2 && Loaded(parts)
      && Flatten(parts) == MovedAll(buf[..done], offset)
      && (buf == [] ==> i == 0)
      && (buf != [] ==> Spread(|buf|, |buf| - done, Times(i, PerBuffer()), i, split, PerBuffer()))
    }

    lemma FillStarts(buf: seq<byte>)
      requires Valid()
      ensures Filling(buf, 0, 1, 0, [])
    {
      FlattenNone(buf, offset);
      TimesNext(0, PerBuffer());
    }

    /** Loads one descriptor after the other, until there is no data or no descriptor left. */
    method Fill(buf: seq<byte>) returns (i: nat, done: nat, ghost parts: seq<seq<byte>>)
      requires Valid()
      modifies `lengths, `next, bufs
      ensures Valid() && (exists split :: Filling(buf, done, split, i, parts)) && (done == |buf| || i == |bufs|)
      ensures buf == [] ==> lengths == old(lengths) && next == old(next)
    {
      FillStarts(buf);
      hide Filling, Valid;
      i, done, parts := 0, 0, [];
      var split: nat := 1;
      while i < |bufs| && done < |buf|
        invariant Valid() && Filling(buf, done, split, i, parts) && done <= |buf|
        invariant buf == [] ==> lengths == old(lengths) && next == old(next)
      {
        done, split, parts := LoadNext(buf, done, split, i, parts);
        i := i + 1;
      }
      FillInRange(buf, done, split, i, parts);
    }

    lemma FillInRange(buf: seq<byte>, done: nat, split: nat, i: nat, parts: seq<seq<byte>>)
      requires Valid() && Filling(buf, done, split, i, parts)
      ensures i <= |bufs|
    {
    }

    lemma FillEnds(buf: seq<byte>, done: nat, i: nat, parts: seq<seq<byte>>)
      requires Valid() && (exists split :: Filling(buf, done, split, i, parts)) && (done == |buf| || i == |bufs|)
      ensures i == |parts| <= |bufs| && done <= |buf| && Loaded(parts) && (i == 0 <==> buf == [])
      ensures Flatten(parts) == MovedAll(buf[..done], offset)
      ensures done == |buf| <==> LeavesRoom(|buf|)
    {
      var split :| Filling(buf, done, split, i, parts);
      PerBufferIs();
      TimesNext(0, PerBuffer());
      hide PerBuffer, HoldsSamples, MovedAll, Flatten, Loaded, Times;
      if buf != [] {
        RoomAtEnd(|buf|, |buf| - done, Times(i, PerBuffer()), i, split);
        assert done == |buf| ==> |buf| < Times(i, PerBuffer());
      } else {
        NoDataLeavesRoom();
      }
    }

    lemma NoDataLeavesRoom()
      requires Valid()
      ensures LeavesRoom(0)
    {
      Grows(1, |bufs|, bufSize);
    }

    /** The data takes less than all DMA memory there is. */
    ghost predicate LeavesRoom(len: nat) {
      len * coeff < |bufs| * bufSize
    }

    lemma RoomAtEnd(len: nat, rest: nat, room: nat, i: nat, split: nat)
      requires Valid() && Spread(len, rest, room, i, split, PerBuffer()) && room == Times(i, PerBuffer())
      requires i <= |bufs| && (rest == 0 || i == |bufs|)
      ensures rest == 0 <==> LeavesRoom(len)
    {
      PerBufferIs();
      hide PerBuffer;
      SpreadEnd(len, rest, room, i, |bufs|, split, PerBuffer(), coeff, bufSize);
    }

    lemma PerBufferIs()
      requires Valid()
      ensures coeff > 0 && PerBuffer() > 0 && bufSize == PerBuffer() * coeff
    {
    }

    lemma LoadedNone()
      requires Valid()
      ensures Loaded([])
    {
    }

    /** Links the tail to the head. */
    method LinkTail(used: nat, ghost parts: seq<seq<byte>>)
      requires Valid() && 0 < used == |parts| <= |bufs| && Loaded(parts)
      modifies `next
      ensures Valid() && Cycles(parts)
    {
      next := next[used - 1 := Some(0)];
    }

    /** Loads one descriptor. The data is spread more evenly near its end: the last two descriptors share it. */
    method LoadNext(buf: seq<byte>, done: nat, split: nat, i: nat, ghost parts: seq<seq<byte>>)
      returns (done': nat, split': nat, ghost parts': seq<seq<byte>>)
      requires Valid() && Filling(buf, done, split, i, parts) && i < |bufs| && done < |buf|
      modifies `lengths, `next, bufs
      ensures Valid() && Filling(buf, done', split', i + 1, parts')
      ensures split' == (if |buf| - done < 2 * PerBuffer() then 3 - split else 1) && 1 <= split' <= 2
      ensures done' == done + Min(Share(|buf| - done, split'), PerBuffer()) <= |buf|
    {
      PerBufferIs();
      TwoBuffers(|buf| - done, bufSize, coeff, PerBuffer());
      FillingIs(buf, done, split, i, parts);
      split' := if (|buf| - done) * coeff < bufSize * 2 then 3 - split else 1;
      hide *;
      done', parts' := LoadShare(buf, done, Share(|buf| - done, split'), i, parts);
      SpreadGoesOn(|buf|, |buf| - done, split, split', done' - done, i, PerBuffer());
      FillingOf(buf, done', split', i + 1, parts');
    }

    /** Loads the next `want` samples, as many as fit. */
    method LoadShare(buf: seq<byte>, done: nat, want: nat, i: nat, ghost parts: seq<seq<byte>>)
      returns (done': nat, ghost parts': seq<seq<byte>>)
      requires Valid() && i == |parts| < |bufs| && Loaded(parts) && done + want <= |buf|
      requires Flatten(parts) == MovedAll(buf[..done], offset)
      modifies `lengths, `next, bufs
      ensures Valid() && |parts'| == i + 1 && Loaded(parts') && done' == done + Min(want, PerBuffer())
      ensures Flatten(parts') == MovedAll(buf[..done'], offset)
    {
      hide PerBuffer, Flatten, MovedAll, Loaded, Valid;
      var samples := LoadDescriptor(i, buf[done..done + want], parts);
      Taken(buf, done, want, samples);
      FlattenMore(buf, done, samples, offset, parts);
      done', parts' := done + samples, parts + [MovedAll(buf[done..done + samples], offset)];
    }

    lemma FillingIs(buf: seq<byte>, done: nat, split: nat, i: nat, parts: seq<seq<byte>>)
      requires Valid() && Filling(buf, done, split, i, parts) && done < |buf|
      ensures i == |parts| && 1 <= split <= 2 && Loaded(parts)
      ensures Flatten(parts) == MovedAll(buf[..done], offset)
      ensures Spread(|buf|, |buf| - done, Times(i, PerBuffer()), i, split, PerBuffer())
    {
    }

    lemma FillingOf(buf: seq<byte>, done: nat, split: nat, i: nat, parts: seq<seq<byte>>)
      requires Valid() && 0 < i == |parts| <= |bufs| && done <= |buf| && buf != [] && 1 <= split <= 2 && Loaded(parts)
      requires Flatten(parts) == MovedAll(buf[..done], offset)
      requires Spread(|buf|, |buf| - done, Times(i, PerBuffer()), i, split, PerBuffer())
      ensures Filling(buf, done, split, i, parts)
    {
    }
  }

  lemma SpreadGoesOn(len: nat, left: nat, split: nat, split': nat, samples: nat, i: nat, b: nat)
    requires 1 <= split <= 2 && split' == (if left < 2 * b then 3 - split else 1)
    requires samples == Min(Share(left, split'), b) && samples <= left && 0 < left && 0 < b
    requires Spread(len, left, Times(i, b), i, split, b)
    ensures Spread(len, left - samples, Times(i + 1, b), i + 1, split', b)
  {
    hide Spread, Times, Share, Min;
    SpreadOn(len, left, Times(i, b), i, split, b);
    TimesNext(i, b);
  }

  /** The next share of what is left, in two parts or in one. */
  function Share(left: nat, split: nat): (want: nat)
    requires 1 <= split <= 2
    ensures want <= left && want == if split == 2 then left / 2 else left
  {
    left / split
  }

  lemma Taken(buf: seq<byte>, at: nat, want: nat, samples: nat)
    requires samples <= want && at + want <= |buf|
    ensures buf[at..at + want][..samples] == buf[at..at + samples]
  {
  }

  lemma Scaled(x: nat, coeff: nat)
    requires coeff > 0
    ensures x * coeff / coeff == x
  {
    Quotient(x, 0, coeff);
  }

  lemma TwoBuffers(rest: nat, bufSize: nat, coeff: nat, b: nat)
    requires (coeff == 1 || coeff == 2) && bufSize == b * coeff
    ensures rest * coeff < bufSize * 2 <==> rest < 2 * b
  {
  }

  lemma FlattenNone(buf: seq<byte>, offset: byte)
    ensures Flatten([]) == MovedAll(buf[..0], offset)
  {
  }

  lemma FlattenMore(buf: seq<byte>, done: nat, n: nat, offset: byte, parts: seq<seq<byte>>)
    requires done + n <= |buf| && Flatten(parts) == MovedAll(buf[..done], offset)
    ensures Flatten(parts + [MovedAll(buf[done..done + n], offset)]) == MovedAll(buf[..done + n], offset)
  {
    var last := MovedAll(buf[done..done + n], offset);
    assert (parts + [last])[..|parts|] == parts;
  }

  /** How `len` samples have been spread over `i` descriptors of `b` samples each: `rest` are left, and
      `room` is what the descriptors used so far could take. */
  ghost predicate Spread(len: nat, rest: nat, room: nat, i: nat, split: nat, b: nat) {
    if rest == 0 then split == 1 && len < room
    else if split == 1 then len == room + rest && (i > 0 ==> rest >= b)
    else split == 2 && i > 0 && room >= b
         && var half := len + b - room; rest == half - half / 2 && half < 2 * b && (i > 1 ==> half >= b)
  }

  lemma SpreadOn(len: nat, rest: nat, room: nat, i: nat, split: nat, b: nat)
    requires Spread(len, rest, room, i, split, b) && rest > 0 && b > 0
    ensures 1 <= split <= 2
    ensures var split' := if rest < 2 * b then 3 - split else 1;
            Spread(len, rest - Min(Share(rest, split'), b), room + b, i + 1, split', b)
  {
  }

  ghost function Times(i: nat, b: nat): nat {
    i * b
  }

  lemma TimesNext(i: nat, b: nat)
    ensures Times(0, b) == 0 && Times(i + 1, b) == Times(i, b) + b
  {
    OneMore(i, b);
  }

  lemma SpreadStart(len: nat, b: nat)
    requires len > 0
    ensures Spread(len, len, 0, 0, 1, b)
  {
  }

  lemma SpreadEnd(len: nat, rest: nat, room: nat, i: nat, n: nat, split: nat, b: nat, coeff: nat, bufSize: nat)
    requires Spread(len, rest, room, i, split, b) && room == Times(i, b) && b > 0 && n >= 2 && i <= n && (rest == 0 || i == n)
    requires (coeff == 1 || coeff == 2) && bufSize == b * coeff
    ensures rest == 0 <==> len * coeff < n * bufSize
  {
    Grows(i, n, b);
    assert n * bufSize == n * b * coeff;
  }
}
