/** The two-block trace protocol with its pending ring and its ring for data from the host
    (components/app_trace/app_trace_membufs_proto.c). */
module MemBufsProto {
  import opened Machine
  import opened RingBuffer
  import opened TraceWire

  /** What the transport answers the next time it is asked: whether a swap is accepted, whether the
      caller's timer has expired by then, whether host data is pending, and the host data left in the
      block that is given back. */
  datatype Turn = Turn(accept: bool, expired: bool, pending: bool, inbox: seq<byte>)

  /** Memory handed to a tracing task: an offset in the current block or in the pending ring. */
  datatype Region = InBlock(at: nat) | InPend(at: nat)

  /** An answer that has been used, how many bytes of its inbox went to the down ring, and whether the ring was
      full then. */
  datatype Receipt = Receipt(turn: Turn, got: nat, full: bool) {
    /** An accepted switch with host data pending takes all of it, or as much as makes the ring full; nothing else
        takes anything. */
    ghost predicate Fair() {
      && got <= |turn.inbox| && (got > 0 ==> turn.accept && turn.pending)
      && (turn.accept && turn.pending && got < |turn.inbox| ==> full)
    }
  }

  function Turns(log: seq<Receipt>): (turns: seq<Turn>)
    ensures |turns| == |log| && forall k | 0 <= k < |log| :: turns[k] == log[k].turn
  {
    seq(|log|, k requires 0 <= k < |log| => log[k].turn)
  }

  ghost predicate AllFair(log: seq<Receipt>) {
    forall r | r in log :: r.Fair()
  }

  /** The accepted parts of all inboxes, in order. */
  ghost function Taken(log: seq<Receipt>): seq<byte>
    requires AllFair(log)
  {
    if log == [] then [] else
    var last := log[|log| - 1];
    assert last.Fair();
    Taken(log[..|log| - 1]) + last.turn.inbox[..last.got]
  }

  lemma TakenOn(log: seq<Receipt>, r: Receipt)
    requires AllFair(log) && r.Fair()
    ensures AllFair(log + [r]) && Taken(log + [r]) == Taken(log) + r.turn.inbox[..r.got]
    ensures Turns(log + [r]) == Turns(log) + [r.turn]
  {
    assert (log + [r])[..|log|] == log;
  }

  /** Where a block switch starts from: what the host has been handed, what it is going to be handed, and how much
      is pending in which shape of the ring. */
  datatype Before = Before(handed: seq<byte>, block: seq<byte>, pending: nat, region: nat)

  /** A call made by the application. */
  datatype Call = SendCall(core: bool, payload: seq<byte>) | FlushCall(minSz: nat) | GetCall(size: nat)

  class MemBufs {
    const block0: array<byte>
    const block1: array<byte>
    const rbPend: Ring
    const rbDown: Ring
    var markers: seq<nat>
    var inBlock: nat
    var host: seq<Turn>

    /** All the answers the host is ever going to give, and those used so far. */
    ghost const script: seq<Turn>
    ghost var log: seq<Receipt>
    /** All bytes the host has been told to read, in order. */
    ghost var handed: seq<byte>
    /** All packets whose space was granted, in order. */
    ghost var sent: seq<Packet>
    /** Host bytes accepted into the down ring, and those passed on to the application. */
    ghost var accepted: seq<byte>
    ghost var delivered: seq<byte>

    constructor (block0: array<byte>, block1: array<byte>, rbPend: Ring, rbDown: Ring, host: seq<Turn>)
      requires block0 != block1 && rbPend != rbDown && rbPend.data != rbDown.data
      requires rbPend.data != block0 && rbPend.data != block1 && rbDown.data != block0 && rbDown.data != block1
      requires HEADER_SIZE <= block0.Length < CORE_FLAG && HEADER_SIZE <= block1.Length < CORE_FLAG
      requires rbPend.data.Length < U32 / 2 && rbDown.data.Length < U32 / 2
      requires rbPend.Valid() && rbDown.Valid() && rbPend.Used() == rbDown.Used() == 0
      requires forall t | t in host :: 2 + |t.inbox| <= block0.Length && 2 + |t.inbox| <= block1.Length
      ensures Valid() && sent == [] && handed == [] && this.host == this.script == host && log == []
      ensures markers == [0, 0] && inBlock == 0
    {
      this.block0, this.block1, this.rbPend, this.rbDown := block0, block1, rbPend, rbDown;
      markers := [0, 0];
      inBlock := 0;
      this.host, this.script, log := host, host, [];
      handed, sent, accepted, delivered := [], [], [], [];
    }

    /** The parts do not share memory, and sizes fit the fields that carry them. */
    ghost predicate Wired() {
      && block0 != block1 && rbPend != rbDown && rbPend.data != rbDown.data
      && rbPend.data != block0 && rbPend.data != block1 && rbDown.data != block0 && rbDown.data != block1
      && HEADER_SIZE <= block0.Length < CORE_FLAG && HEADER_SIZE <= block1.Length < CORE_FLAG
      && rbPend.data.Length < U32 / 2 && rbDown.data.Length < U32 / 2
    }

    ghost predicate InboxFits(t: Turn) {
      2 + |t.inbox| <= block0.Length && 2 + |t.inbox| <= block1.Length
    }

    /** The answers used and those to come are the script, and what was accepted is what was taken from the
        inboxes of those used. */
    ghost predicate Logged()
      reads `host, `log, `accepted
    {
      AllFair(log) && Turns(log) + host == script && accepted == Taken(log) && forall t | t in host :: InboxFits(t)
    }

    /** The same but for one answer that has been used and is not in the log yet. */
    ghost predicate Owed(t: Turn)
      reads `host, `log, `accepted
    {
      && AllFair(log) && (Turns(log) + [t]) + host == script && accepted == Taken(log) && InboxFits(t)
      && forall t | t in host :: InboxFits(t)
    }

    /** What holds at every step. The down ring holds exactly what was accepted and not yet delivered. */
    ghost predicate Core()
      reads `markers, `inBlock, `accepted, `delivered, rbPend, rbPend.data, rbDown, rbDown.data
    {
      && Wired() && |markers| == 2 && inBlock < U32
      && rbPend.Valid() && rbDown.Valid()
      && markers[0] <= block0.Length && markers[1] <= block1.Length
      && accepted == delivered + rbDown.contents
    }

    /** What holds between steps: pending bytes imply a used block. */
    ghost predicate Inv()
      reads `markers, `inBlock, `host, `log, `accepted, `delivered, rbPend, rbPend.data, rbDown, rbDown.data
    {
      Core() && Logged() && (rbPend.Used() > 0 ==> Marker() > 0)
    }

    /** ESP_APPTRACE_INBLOCK. */
    function Block(): array<byte>
      reads `inBlock, `markers
    {
      if inBlock % 2 == 0 then block0 else block1
    }

    /** ESP_APPTRACE_INBLOCK_MARKER. */
    function Marker(): nat
      requires |markers| == 2
      reads `inBlock, `markers
    {
      markers[inBlock % 2]
    }

    /** Everything on its way to the host: what it was handed, then the current block up to its
        marker, then the pending ring. */
    ghost function Stream(): (s: seq<byte>)
      requires Core()
      reads `markers, `inBlock, `handed, `accepted, `delivered, block0, block1, rbPend, rbPend.data, rbDown, rbDown.data
    {
      handed + (Block()[..Marker()] + rbPend.contents)
    }

    /** Between calls the stream is exactly the packets. */
    ghost predicate Valid()
      reads this, block0, block1, rbPend, rbPend.data, rbDown, rbDown.data
    {
      && Inv()
      && AllFit(sent) && Stream() == Wire(sent)
    }

    /** The host answers; when nothing more is known of it, it refuses and the timer has expired. */
    method NextTurn() returns (t: Turn)
      requires Logged()
      modifies this`host
      ensures host == if old(host) == [] then [] else old(host)[1..]
      ensures t == if old(host) == [] then Turn(false, true, false, []) else old(host)[0]
      ensures if old(host) == [] then Logged() else Owed(t)
    {
      if host == [] {
        return Turn(false, true, false, []);
      }
      t := host[0];
      assert Turns(log) + host == (Turns(log) + [t]) + host[1..];
      host := host[1..];
    }

    /** Puts an answer on record. */
    ghost method Note(r: Receipt)
      requires Owed(r.turn) && r.Fair()
      modifies this`log, this`accepted
      ensures Logged() && log == old(log) + [r] && accepted == old(accepted) + r.turn.inbox[..r.got]
    {
      TakenOn(log, r);
      accepted, log := accepted + r.turn.inbox[..r.got], log + [r];
    }

    /** Puts an answer on record from which nothing was taken. */
    ghost method NoteNothing(t: Turn)
      requires Owed(t) && (t.accept ==> !t.pending)
      modifies this`log
      ensures Logged()
    {
      TakenOn(log, Receipt(t, 0, false));
      log := log + [Receipt(t, 0, false)];
    }

    ghost function Now(): Before
      requires Core()
      reads `markers, `inBlock, `handed, `accepted, `delivered, block0, block1, rbPend, rbPend.data, rbDown, rbDown.data
    {
      Before(handed, Block()[..Marker()], rbPend.Used(), rbPend.MaxRegion())
    }

    /** The marked part of the block has been handed over, and the new block has been filled from the pending ring
        as far as there was anything. */
    ghost predicate SwitchedSince(b: Before)
      requires Core()
      reads `markers, `inBlock, `handed, `accepted, `delivered, block0, block1, rbPend, rbPend.data, rbDown, rbDown.data
    {
      && handed == b.handed + b.block
      && Marker() + rbPend.Used() == b.pending && (Marker() == Block().Length || rbPend.Used() == 0)
      && (b.pending == 0 ==> rbPend.MaxRegion() == b.region)
    }

    /** Since `before`, exactly the logged part of this answer's inbox has been accepted, and the log says whether
        the down ring is full. */
    ghost predicate Received(before: seq<byte>, t: Turn)
      reads `log, `accepted, rbDown
    {
      log != [] && var r := log[|log| - 1];
      && r.turn == t && r.Fair() && accepted == before + t.inbox[..r.got]
      && rbDown.InOrder() && (r.full <==> rbDown.Used() + 1 >= rbDown.curSize)
    }

    /** Makes the other block the current one, empty, and hands the old one to the host. */
    method FlipBlock()
      requires Core()
      modifies this`markers, this`inBlock, this`handed
      ensures Core() && Marker() == 0
      ensures handed == old(handed) + old(Block()[..Marker()])
      ensures inBlock == (old(inBlock) + 1) % U32 && Block() == (if old(Block()) == block0 then block1 else block0)
    {
      var newBlock := 1 - inBlock % 2;
      handed := handed + Block()[..Marker()];
      markers := markers[newBlock := 0];
      assert inBlock % 2 == 0 ==> inBlock + 1 < U32;
      inBlock := Add32(inBlock, 1);
    }

    /** Passes host data in the new block on to the down ring. */
    method TakeInbox(t: Turn)
      requires Core() && Marker() == 0 && InboxFits(t) && t.accept && Owed(t)
      modifies this`log, this`accepted, block0, block1, rbDown, rbDown.data
      ensures Core() && Logged() && Received(old(accepted), t)
    {
      hide Logged, Owed;
      var got := Receive(rbDown, Block(), t);
      Note(Receipt(t, got, rbDown.Used() + 1 >= rbDown.curSize));
    }

    /** Pumps pending bytes into the empty new block. */
    method TakePending()
      requires Core() && Logged() && Marker() == 0
      modifies this`markers, block0, block1, rbPend
      ensures Inv()
      ensures Marker() + rbPend.Used() == old(rbPend.Used())
      ensures Marker() == Block().Length || rbPend.Used() == 0
      ensures Block()[..Marker()] + rbPend.contents == old(rbPend.contents)
      ensures old(rbPend.Used()) == 0 ==> rbPend.MaxRegion() == old(rbPend.MaxRegion())
    {
      ghost var pend := rbPend.contents;
      var marker := Pump(rbPend, Block(), 0);
      markers := markers[inBlock % 2 := marker];
      assert Block()[..marker] + rbPend.contents == pend;
      assert |pend| == marker + |rbPend.contents|;
    }

    /** Asks for a block switch. The old block goes to the host as it stands, host data in the new
        block goes to the down ring, and pending bytes are pumped into the new block. */
    method Swap() returns (ok: bool)
      requires Inv()
      modifies this`host, this`log, this`markers, this`inBlock, this`handed, this`accepted
      modifies block0, block1, rbPend, rbDown, rbDown.data
      ensures Inv() && Core() && Stream() == old(Stream())
      ensures host == if old(host) == [] then [] else old(host)[1..]
      ensures ok <==> old(host) != [] && old(host[0]).accept
      ensures !ok ==> unchanged(`markers, `inBlock, `handed, `accepted, block0, block1, rbPend, rbDown, rbDown.data)
      ensures ok ==> SwitchedSince(old(Now())) && Received(old(accepted), old(host)[0])
    {
      hide Logged, Owed, Received, SwitchedSince, Stream;
      ghost var known := host != [];
      var t := NextTurn();
      if !t.accept {
        if known {
          NoteNothing(t);
        }
        return false;
      }
      Switch(t);
      return true;
    }

    /** The part of `Swap` behind an accepted request. */
    method Switch(t: Turn)
      requires Core() && (rbPend.Used() > 0 ==> Marker() > 0) && InboxFits(t) && t.accept && Owed(t)
      modifies this`log, this`markers, this`inBlock, this`handed, this`accepted
      modifies block0, block1, rbPend, rbDown, rbDown.data
      ensures Inv() && Stream() == old(Stream())
      ensures SwitchedSince(old(Now())) && Received(old(accepted), t)
    {
      hide Logged, Owed, Received, InboxFits, Stream, SwitchedSince;
      ghost var b, pend := Now(), rbPend.contents;
      StreamIs();
      Rejoined(b.handed, b.block, pend);
      FlipBlock();
      TakeInbox(t);
      ghost var region := rbPend.MaxRegion();
      TakePending();
      StreamIs();
      SwitchedIs(b, region);
    }

    lemma StreamIs()
      requires Core()
      ensures Stream() == handed + (Block()[..Marker()] + rbPend.contents)
    {
    }

    lemma SwitchedIs(b: Before, region: nat)
      requires Core() && handed == b.handed + b.block && region == b.region
      requires Marker() + rbPend.Used() == b.pending && (Marker() == Block().Length || rbPend.Used() == 0)
      requires b.pending == 0 ==> rbPend.MaxRegion() == region
      ensures SwitchedSince(b)
    {
    }

    /** Retries a block switch until it is accepted or the timer has expired. */
    method SwapWaitUs() returns (ok: bool)
      requires Inv()
      modifies this`host, this`log, this`markers, this`inBlock, this`handed, this`accepted
      modifies block0, block1, rbPend, rbDown, rbDown.data
      ensures Inv() && Core() && Stream() == old(Stream())
      ensures Consumed(old(host), host) && (old(host) != [] ==> host != old(host))
      ensures host == AfterSwap(old(host)) && (ok <==> SwapAccepted(old(host)))
      ensures ok ==> host != old(host) && LastTurn(old(host), host).accept
      ensures !ok && host != [] ==> GaveUp(old(host), host)
      ensures !ok ==> unchanged(`markers, `inBlock, `handed, `accepted, block0, block1, rbPend, rbDown, rbDown.data)
      ensures ok ==> SwitchedSince(old(Now())) && Received(old(accepted), LastTurn(old(host), host))
    {
      WaitBegins(host);
      ghost var h, b, a, was := host, Now(), accepted, Stream();
      assert Core();
      hide *;
      ok := false;
      while !ok
        invariant Inv() && Core() && Stream() == was && Waited(h, host, ok)
        invariant !ok ==> unchanged(`markers, `inBlock, `handed, `accepted, block0, block1, rbPend, rbDown, rbDown.data)
        invariant ok ==> SwitchedSince(b) && Received(a, LastTurn(h, host))
        decreases !ok, |host|
      {
        var expired := host == [] || host[0].expired;
        WaitGoesOn(h, host);
        ok := Swap();
        if !ok && expired {
          WaitEnds(h, host, ok);
          return false;
        }
      }
      WaitEnds(h, host, ok);
    }

    /** Neither the pending ring nor, with nothing pending, the current block can take `raw` bytes. */
    ghost predicate NoRoom(raw: nat)
      requires Core()
      reads this, rbPend, rbPend.data, rbDown, rbDown.data
    {
      && (rbPend.data.Length == 0 || rbPend.MaxRegion() < raw)
      && (rbPend.Used() > 0 || Marker() + raw > Block().Length)
    }

    /** The pending ring has a region of `raw` bytes to give. */
    ghost predicate RingTakes(raw: nat)
      requires rbPend.InOrder()
      reads rbPend
    {
      rbPend.data.Length > 0 && raw <= rbPend.MaxRegion()
    }

    /** The region is where the newest `n` bytes of the stream are stored. */
    ghost predicate IsNewest(r: Region, n: nat)
      requires Core()
      reads this, rbPend, rbPend.data, rbDown, rbDown.data
    {
      match r
      case InBlock(at) => rbPend.Used() == 0 && at + n == Marker()
      case InPend(at) => rbPend.IsTail(at, n)
    }

    /** Takes `raw` bytes from the pending ring. */
    method ProducePending(raw: nat) returns (ptr: Option<nat>)
      requires Inv() && raw < U32 / 2
      requires Marker() == 0 ==> rbPend.data.Length == 0 || rbPend.MaxRegion() < raw
      modifies rbPend
      ensures Inv()
      ensures ptr.Some? <==> old(rbPend.data.Length > 0 && raw <= rbPend.MaxRegion())
      ensures ptr.Some? ==> IsNewest(InPend(ptr.value), raw)
      ensures ptr.Some? ==> |Stream()| == |old(Stream())| + raw && Stream()[..|old(Stream())|] == old(Stream())
      ensures ptr.None? ==> unchanged(rbPend)
    {
      ghost var older := Stream();
      ptr := rbPend.Produce(raw);
      if ptr.Some? {
        assert Stream() == older + rbPend.data[ptr.value..ptr.value + raw];
      }
    }

    /** Takes `raw` bytes from the current block. */
    method ProduceInBlock(raw: nat) returns (at: nat)
      requires Inv() && rbPend.Used() == 0 && Marker() + raw <= Block().Length
      modifies this`markers
      ensures Inv() && at == old(Marker()) && IsNewest(InBlock(at), raw)
      ensures |Stream()| == |old(Stream())| + raw && Stream()[..|old(Stream())|] == old(Stream())
    {
      ghost var older := Stream();
      at := Marker();
      markers := markers[inBlock % 2 := Marker() + raw];
      assert Stream() == older + Block()[at..at + raw];
    }

    /** Waits for a block switch, then looks for space again. `pended` says where `ptr` points to. */
    method Wait4Buf(raw: nat) returns (ptr: Option<nat>, pended: bool)
      requires Inv() && 0 < raw < U32 / 2 && NoRoom(raw)
      modifies this`host, this`log, this`markers, this`inBlock, this`handed, this`accepted
      modifies block0, block1, rbPend, rbDown, rbDown.data
      ensures Inv() && Consumed(old(host), host) && host == AfterSwap(old(host))
      ensures ptr.None? ==> Stream() == old(Stream()) && NoRoom(raw)
      ensures ptr.Some? && pended ==> IsNewest(InPend(ptr.value), raw)
      ensures ptr.Some? && pended ==>
                |Stream()| == |old(Stream())| + raw && Stream()[..|old(Stream())|] == old(Stream())
      ensures ptr.Some? && !pended ==>
                && Stream() == old(Stream())
                && rbPend.Used() == 0 && ptr.value == Marker() && Marker() + raw <= Block().Length
    {
      hide Logged, Received, AfterSwap, SwapAccepted, LastTurn, GaveUp, Consumed;
      var ok := SwapWaitUs();
      if !ok {
        return None, false;
      }
      if rbPend.ReadSize() > 0 {
        pended := true;
        ptr := ProducePending(raw);
      } else {
        if Marker() + raw > Block().Length {
          pended := true;
          ptr := ProducePending(raw);
        } else {
          pended := false;
          ptr := Some(Marker());
        }
      }
    }

    /** Finds space for a packet. It gives up at once on a packet larger than a block, and otherwise
        only in a state with no room for it. */
    method UpBufferGet(core: bool, size: nat) returns (r: Option<Region>)
      requires Inv()
      modifies this`host, this`log, this`markers, this`inBlock, this`handed, this`accepted
      modifies block0, block1, rbPend, rbDown, rbDown.data
      modifies rbPend.data
      ensures Inv() && Consumed(old(host), host)
      ensures if size + HEADER_SIZE > old(Block().Length) then r.None? && host == old(host)
              else Asked(r.Some?, old(rbPend.Used()), old(host), host)
      ensures old(rbPend.Used() == 0 && Marker() + size + HEADER_SIZE <= Block().Length) ==>
                r == Some(InBlock(old(Marker()))) && host == old(host)
      ensures size + HEADER_SIZE <= old(Block().Length)
              && old(rbPend.Used() == 0 && Marker() + size + HEADER_SIZE > Block().Length && RingTakes(size + HEADER_SIZE)) ==>
                r.Some? && r.value.InPend? && host == old(host)
      ensures r.None? ==> Stream() == old(Stream())
      ensures r.None? && size + HEADER_SIZE <= old(Block().Length) ==> NoRoom(size + HEADER_SIZE)
      ensures r.Some? ==> size < CORE_FLAG && IsNewest(r.value, HEADER_SIZE + size)
      ensures r.Some? ==> Begun(old(Stream()), Stream(), core, size)
    {
      hide Logged, Received, Begun;
      if size > Block().Length - HEADER_SIZE {
        return None;
      }
      r := Allocate(size + HEADER_SIZE);
      if r.Some? {
        PktStart(r.value, core, size);
      }
    }

    /** Chooses between the current block, the pending ring and waiting for a block switch. */
    method Allocate(raw: nat) returns (r: Option<Region>)
      requires Inv() && 0 < raw <= Block().Length
      modifies this`host, this`log, this`markers, this`inBlock, this`handed, this`accepted
      modifies block0, block1, rbPend, rbDown, rbDown.data
      ensures Inv() && Consumed(old(host), host) && Asked(r.Some?, old(rbPend.Used()), old(host), host)
      ensures old(rbPend.Used() == 0 && Marker() + raw <= Block().Length) ==>
                r == Some(InBlock(old(Marker()))) && host == old(host)
      ensures old(rbPend.Used() == 0 && Marker() + raw > Block().Length && RingTakes(raw)) ==>
                r.Some? && r.value.InPend? && host == old(host)
      ensures r.None? ==> Stream() == old(Stream()) && NoRoom(raw)
      ensures r.Some? ==> IsNewest(r.value, raw)
      ensures r.Some? ==> |Stream()| == |old(Stream())| + raw && Stream()[..|old(Stream())|] == old(Stream())
    {
      hide Logged, Received, AfterSwap, SwapAccepted, LastTurn, GaveUp, Consumed, Asked, Rest, NoRoom, RingTakes, Stream;
      hide IsNewest;
      ghost var before, pending := host, rbPend.Used();
      ConsumedRest(before);
      if rbPend.ReadSize() > 0 {
        var _ := Swap();
      }
      ghost var asked := host;
      r := AllocateHere(raw);
      AskedIs(r.Some?, pending, before, asked, host);
    }

    /** The choice as the buffers are now. */
    method AllocateHere(raw: nat) returns (r: Option<Region>)
      requires Inv() && 0 < raw < U32 / 2 && (rbPend.Used() == 0 && Marker() == 0 ==> raw <= Block().Length)
      modifies this`host, this`log, this`markers, this`inBlock, this`handed, this`accepted
      modifies block0, block1, rbPend, rbDown, rbDown.data
      ensures Inv() && Consumed(old(host), host)
      ensures if old(rbPend.Used() == 0 && Marker() + raw <= Block().Length)
              then r == Some(InBlock(old(Marker()))) && host == old(host)
              else if old(RingTakes(raw)) then r.Some? && r.value.InPend? && host == old(host)
              else host == AfterSwap(old(host))
      ensures r.None? ==> Stream() == old(Stream()) && NoRoom(raw)
      ensures r.Some? ==> IsNewest(r.value, raw)
      ensures r.Some? ==> |Stream()| == |old(Stream())| + raw && Stream()[..|old(Stream())|] == old(Stream())
    {
      hide Logged, Received, AfterSwap, SwapAccepted, LastTurn, GaveUp, Consumed, RingTakes, Stream, NoRoom, IsNewest;
      ConsumedNone(host);
      if rbPend.ReadSize() > 0 {
        r := PendOrWait(raw);
      } else {
        if Marker() + raw > Block().Length {
          r := PendOrWait(raw);
        } else {
          var at := ProduceInBlock(raw);
          r := Some(InBlock(at));
        }
      }
    }

    /** The pending ring first, then a block switch; both branches of `UpBufferGet` do this. */
    method PendOrWait(raw: nat) returns (r: Option<Region>)
      requires Inv() && 0 < raw < U32 / 2
      requires rbPend.Used() > 0 || (Marker() + raw > Block().Length && Marker() > 0)
      modifies this`host, this`log, this`markers, this`inBlock, this`handed, this`accepted
      modifies block0, block1, rbPend, rbDown, rbDown.data
      ensures Inv() && Consumed(old(host), host)
      ensures if old(RingTakes(raw))
              then r.Some? && r.value.InPend? && host == old(host) else host == AfterSwap(old(host))
      ensures r.None? ==> Stream() == old(Stream()) && NoRoom(raw)
      ensures r.Some? ==> IsNewest(r.value, raw)
      ensures r.Some? ==> |Stream()| == |old(Stream())| + raw && Stream()[..|old(Stream())|] == old(Stream())
    {
      var ptr := ProducePending(raw);
      if ptr.Some? {
        return Some(InPend(ptr.value));
      }
      r := WaitForRegion(raw);
    }

    /** The use both callers make of `Wait4Buf`: space in a block still has to be marked as taken. */
    method WaitForRegion(raw: nat) returns (r: Option<Region>)
      requires Inv() && 0 < raw < U32 / 2 && NoRoom(raw)
      modifies this`host, this`log, this`markers, this`inBlock, this`handed, this`accepted
      modifies block0, block1, rbPend, rbDown, rbDown.data
      ensures Inv() && Consumed(old(host), host) && host == AfterSwap(old(host))
      ensures r.None? ==> Stream() == old(Stream()) && NoRoom(raw)
      ensures r.Some? ==> IsNewest(r.value, raw)
      ensures r.Some? ==> |Stream()| == |old(Stream())| + raw && Stream()[..|old(Stream())|] == old(Stream())
    {
      var ptr, pended := Wait4Buf(raw);
      if ptr == None {
        return None;
      }
      if pended {
        return Some(InPend(ptr.value));
      }
      var at := ProduceInBlock(raw);
      return Some(InBlock(at));
    }

    /** Writes into a granted region: only the newest bytes of the stream change. */
    method Poke(r: Region, n: nat, at: nat, bytes: seq<byte>)
      requires Inv() && IsNewest(r, n) && at + |bytes| <= n <= |Stream()|
      modifies block0, block1, rbPend`contents, rbPend.data
      ensures Inv() && IsNewest(r, n)
      ensures Stream() == Splice(old(Stream()), |old(Stream())| - n + at, bytes)
    {
      hide Logged, Received, Begun, MarkWritten;
      match r
      case InBlock(start) =>
        CopyInto(Block(), start + at, bytes);
      case InPend(start) =>
        rbPend.Store(start, n, at, bytes);
    }

    /** Stores the packet header with nothing written yet. */
    method PktStart(r: Region, core: bool, size: nat)
      requires Inv() && size < CORE_FLAG && IsNewest(r, HEADER_SIZE + size) && HEADER_SIZE + size <= |Stream()|
      modifies block0, block1, rbPend`contents, rbPend.data
      ensures Inv() && IsNewest(r, HEADER_SIZE + size)
      ensures Begun(old(Stream())[..|old(Stream())| - HEADER_SIZE - size], Stream(), core, size)
    {
      ghost var s := Stream();
      var header := PktHeader(core, size);
      Poke(r, HEADER_SIZE + size, 0, header);
      SpliceHeader(s, header, core, size);
    }

    /** The two block-size bytes at the start of a granted region. */
    method Peek(r: Region, n: nat) returns (bytes: seq<byte>)
      requires Inv() && IsNewest(r, n) && 2 <= n <= |Stream()|
      ensures bytes == [Stream()[|Stream()| - n], Stream()[|Stream()| - n + 1]]
    {
      match r
      case InBlock(start) =>
        bytes := [Block()[start], Block()[start + 1]];
      case InPend(start) =>
        bytes := [rbPend.data[start], rbPend.data[start + 1]];
        assert rbPend.Slot(rbPend.Used() - n) == start && rbPend.Slot(rbPend.Used() - n + 1) == start + 1;
    }

    /** Marks the packet as completely written. */
    method UpBufferPut(r: Region, n: nat)
      requires Inv() && IsNewest(r, n) && HEADER_SIZE <= n <= |Stream()|
      modifies block0, block1, rbPend`contents, rbPend.data
      ensures Inv()
      ensures Stream() == MarkWritten(old(Stream()), n)
    {
      hide Stream, Splice;
      var blockSz := Peek(r, n);
      Poke(r, n, 2, blockSz);
    }

    /** One tracing call: get a buffer, fill it, put it. */
    method Send(core: bool, payload: seq<byte>) returns (ok: bool)
      requires Valid()
      modifies this`host, this`log, this`markers, this`inBlock, this`handed, this`accepted
      modifies block0, block1, rbPend, rbDown, rbDown.data
      modifies this`sent, rbPend.data
      ensures Valid() && Consumed(old(host), host)
      ensures sent == if ok then old(sent) + [Packet(core, payload)] else old(sent)
      ensures if |payload| + HEADER_SIZE > old(Block().Length) then !ok && host == old(host)
              else Asked(ok, old(rbPend.Used()), old(host), host)
      ensures !ok ==> |payload| + HEADER_SIZE > old(Block().Length) || NoRoom(|payload| + HEADER_SIZE)
    {
      hide Stream, Splice, MarkWritten, Encode, Wire, NoRoom, RingTakes, Asked, AfterSwap, Consumed, IsNewest, Logged;
      ghost var older := Stream();
      var r := UpBufferGet(core, |payload|);
      if r == None {
        return false;
      }
      var p := Packet(core, payload);
      ghost var begun := Stream();
      FillAndPut(r.value, payload);
      Finished(older, begun, p);
      WireAppend(sent, p);
      sent := sent + [p];
      return true;
    }

    /** Fills a granted region behind its header and marks the packet as written. */
    method FillAndPut(r: Region, payload: seq<byte>)
      requires Inv() && IsNewest(r, HEADER_SIZE + |payload|) && HEADER_SIZE + |payload| <= |Stream()|
      modifies block0, block1, rbPend`contents, rbPend.data
      ensures Inv()
      ensures var s, n := old(Stream()), HEADER_SIZE + |payload|;
              Stream() == MarkWritten(Splice(s, |s| - n + HEADER_SIZE, payload), n)
    {
      hide Stream, Splice, Valid;
      Poke(r, HEADER_SIZE + |payload|, HEADER_SIZE, payload);
      UpBufferPut(r, HEADER_SIZE + |payload|);
    }

    /** Switches blocks while more than `minSz` bytes are in the current one. */
    method Flush(minSz: nat) returns (ok: bool)
      requires Valid()
      modifies this`host, this`log, this`markers, this`inBlock, this`handed, this`accepted
      modifies block0, block1, rbPend, rbDown, rbDown.data
      ensures Valid() && Consumed(old(host), host)
      ensures old(Marker()) <= minSz ==> ok && host == old(host) && handed == old(handed)
      ensures old(Marker()) > minSz && old(rbPend.Used()) == 0 ==>
                host == AfterSwap(old(host)) && (ok <==> SwapAccepted(old(host)))
      ensures !ok ==> Marker() > minSz && (host == [] || GaveUp(old(host), host))
      ensures ok && old(Marker()) >= minSz ==> Marker() <= minSz
      ensures ok && minSz == 0 ==> Marker() == 0 && rbPend.Used() == 0 && handed == Wire(sent)
    {
      hide Logged, Received, Stream, Wire, Consumed, AfterSwap, SwapAccepted;
      ConsumedNone(host);
      if Marker() < minSz {
        return true;
      }
      ghost var h, more := host, Marker() > minSz;
      while Marker() > minSz
        invariant Valid() && Consumed(old(host), host)
        invariant Marker() > minSz ==> more
        invariant !more ==> host == h && handed == old(handed)
        invariant more && old(rbPend.Used()) == 0 ==>
                    if Marker() > minSz then host == h && rbPend.Used() == 0 else host == AfterSwap(h) && SwapAccepted(h)
        decreases Marker() + rbPend.Used()
      {
        ghost var before := host;
        ok := SwapWaitUs();
        ConsumedOn(old(host), before, host);
        if !ok {
          return false;
        }
      }
      if minSz == 0 {
        Drained();
      }
      return true;
    }

    /** With an unused block nothing is pending, and all has been handed over. */
    lemma Drained()
      requires Valid() && Marker() == 0
      ensures rbPend.Used() == 0 && handed == Wire(sent)
    {
    }

    method ConsumeDown(n: nat) returns (bytes: seq<byte>)
      requires Inv() && n <= rbDown.ReadSize()
      modifies rbDown, this`delivered
      ensures Inv() && Stream() == old(Stream()) && |bytes| == n && delivered == old(delivered) + bytes
      ensures n == old(rbDown.ReadSize()) ==> rbDown.rd == 0 || rbDown.Used() == 0
    {
      ghost var queued := rbDown.contents;
      var ptr := rbDown.Consume(n);
      bytes := rbDown.data[ptr.value..ptr.value + n];
      delivered := delivered + bytes;
      Rejoin(old(delivered), queued, n);
    }

    /** Passes queued bytes on, as many as asked for or as can be read without a gap. */
    method TakeDown(size: nat) returns (bytes: seq<byte>)
      requires Valid() && rbDown.Used() > 0
      modifies rbDown, this`delivered
      ensures Valid() && |bytes| == Min(size, old(rbDown.ReadSize())) <= size && (size > 0 ==> bytes != [])
      ensures |bytes| == size || rbDown.rd == 0 || rbDown.Used() == 0
      ensures delivered == old(delivered) + bytes && delivered <= accepted
    {
      hide Logged, Wire, Stream;
      var sz := rbDown.ReadSize();
      bytes := ConsumeDown(Min(size, sz));
    }

    /** Passes queued host bytes on, in order: as many as asked for, or as can be read without a gap. With nothing
        queued they are fetched first; None means that the timer expired with no host data pending. */
    method DownBufferGet(size: nat) returns (bytes: Option<seq<byte>>)
      requires Valid()
      modifies this`host, this`log, this`markers, this`inBlock, this`handed, this`accepted
      modifies block0, block1, rbPend, rbDown, rbDown.data
      modifies this`delivered
      ensures Valid() && Consumed(old(host), host) && old(accepted) <= accepted
      ensures old(rbDown.Used()) > 0 ==>
                && bytes.Some? && |bytes.value| == Min(size, old(rbDown.ReadSize()))
                && host == old(host) && accepted == old(accepted)
      ensures old(rbDown.Used()) == 0 ==> (host, bytes.Some?) == Fetched(old(host), rbDown.data.Length > 1)
      ensures bytes.Some? ==> |bytes.value| <= size && (size > 0 ==> bytes.value != [])
      ensures bytes.Some? ==> |bytes.value| == size || rbDown.rd == 0 || rbDown.Used() == 0
      ensures bytes.Some? ==> delivered == old(delivered) + bytes.value && delivered <= accepted
      ensures bytes.Some? && old(rbDown.Used()) == 0 ==> Accepted(old(accepted), old(host))
      ensures bytes.None? ==> delivered == old(delivered) == accepted == old(accepted)
      ensures bytes.None? && host != [] ==> Expired(old(host), host)
    {
      hide *;
      ValidIs();
      ghost var h, a, empty := host, accepted, rbDown.Used() == 0;
      FetchBegins();
      while true
        invariant Valid() && Fetching(h, a, empty) && delivered == old(delivered) && rbDown.InOrder()
        invariant !empty ==> unchanged(rbDown)
        decreases |host|
      {
        var sz := rbDown.ReadSize();
        if sz != 0 {
          FetchEnds(h, a, empty);
          var got := TakeDown(size);
          return Some(got);
        }
        StillEmpty(h, a, empty);
        if host != [] && host[0].pending {
          ForceFlush(h, a);
        } else {
          var expired := CheckTimer(h, a);
          if expired {
            return None;
          }
        }
      }
    }

    /** How far data has been fetched since the script was `h` and `a` had been accepted. */
    ghost predicate Fetching(h: seq<Turn>, a: seq<byte>, empty: bool)
      reads `host, `log, `accepted, rbDown
    {
      && rbDown.InOrder() && Consumed(h, host) && a <= accepted
      && var room := rbDown.data.Length > 1;
      if !empty then rbDown.Used() > 0 && host == h && accepted == a
      else if rbDown.Used() == 0 then accepted == a && Fetched(host, room) == Fetched(h, room)
      else (host, true) == Fetched(h, room) && Accepted(a, h)
    }

    /** Switches blocks because the host reports data. */
    method ForceFlush(ghost h: seq<Turn>, ghost a: seq<byte>)
      requires Valid() && rbDown.Used() == 0 && Fetching(h, a, true) && host != [] && host[0].pending
      modifies this`host, this`log, this`markers, this`inBlock, this`handed, this`accepted
      modifies block0, block1, rbPend, rbDown, rbDown.data
      ensures Valid() && rbDown.InOrder() && Fetching(h, a, true) && |host| < |old(host)|
    {
      hide *;
      ghost var asked := host;
      ValidIs();
      FetchingIs(h, a);
      NoneQueued();
      var ok := SwapForDown();
      Brought(ok, asked, a, h);
    }

    /** A block switch as far as the data for the application is concerned. */
    method SwapForDown() returns (ok: bool)
      requires Valid()
      modifies this`host, this`log, this`markers, this`inBlock, this`handed, this`accepted
      modifies block0, block1, rbPend, rbDown, rbDown.data
      ensures Valid() && Core() && host == AfterSwap(old(host)) && (ok <==> SwapAccepted(old(host)))
      ensures if ok then Received(old(accepted), Accepting(old(host))) else accepted == old(accepted)
    {
      hide *;
      ValidIs();
      AcceptingIs(host);
      ok := SwapWaitUs();
      StillValid();
    }

    /** Looks whether the timer has expired. */
    method CheckTimer(ghost h: seq<Turn>, ghost a: seq<byte>) returns (expired: bool)
      requires Valid() && rbDown.Used() == 0 && Fetching(h, a, true) && (host == [] || !host[0].pending)
      modifies this`host, this`log
      ensures Valid() && rbDown.InOrder() && host == Rest(old(host)) && Consumed(h, host) && accepted == a
      ensures expired == (old(host) == [] || old(host)[0].expired)
      ensures expired ==> Fetched(h, rbDown.data.Length > 1) == (host, false) && (host != [] ==> Expired(h, host))
      ensures !expired ==> Fetching(h, a, true) && host != old(host) && |host| < |old(host)|
    {
      hide Fetched, Wire, Stream, Consumed, LastTurn, Owed, AllFair, Turns, Taken, InboxFits, Wired, Accepted;
      FetchedOn(host, rbDown.data.Length > 1);
      if host != [] {
        ConsumedOne(h, host);
      }
      ghost var known := host != [];
      var t := NextTurn();
      if known {
        NoteNothing(t);
      }
      expired := t.expired;
    }

    lemma ValidIs()
      requires Valid()
      ensures Inv() && Core() && AllFit(sent) && Stream() == Wire(sent) && rbDown.InOrder()
    {
    }

    lemma StillValid()
      requires Inv() && Core() && AllFit(sent) && Stream() == Wire(sent)
      ensures Valid()
    {
    }

    lemma NoneQueued()
      requires Core() && rbDown.Used() == 0
      ensures delivered == accepted
    {
    }

    lemma FetchingIs(h: seq<Turn>, a: seq<byte>)
      requires rbDown.InOrder() && rbDown.Used() == 0 && Fetching(h, a, true)
      ensures accepted == a && Consumed(h, host)
      ensures Fetched(host, rbDown.data.Length > 1) == Fetched(h, rbDown.data.Length > 1)
    {
    }

    lemma FetchBegins()
      requires Core() && rbDown.InOrder()
      ensures Fetching(host, accepted, rbDown.Used() == 0) && (rbDown.Used() == 0 ==> delivered == accepted)
    {
    }

    lemma StillEmpty(h: seq<Turn>, a: seq<byte>, empty: bool)
      requires rbDown.InOrder() && rbDown.ReadSize() == 0 && Fetching(h, a, empty)
      ensures empty && rbDown.Used() == 0
    {
    }

    lemma FetchEnds(h: seq<Turn>, a: seq<byte>, empty: bool)
      requires rbDown.InOrder() && rbDown.ReadSize() > 0 && Fetching(h, a, empty)
      ensures rbDown.Used() > 0 && Consumed(h, host) && a <= accepted
      ensures if empty then (host, true) == Fetched(h, rbDown.data.Length > 1) && Accepted(a, h)
              else host == h && accepted == a
    {
    }

    /** A switch asked for with an empty ring has brought something, or there is still to be asked. */
    lemma Brought(ok: bool, asked: seq<Turn>, before: seq<byte>, h: seq<Turn>)
      requires Core() && delivered == before
      requires asked != [] && asked[0].pending && host == AfterSwap(asked) && (ok <==> SwapAccepted(asked))
      requires Consumed(h, asked) && Fetched(asked, rbDown.data.Length > 1) == Fetched(h, rbDown.data.Length > 1)
      requires if ok then Received(before, Accepting(asked)) else accepted == before
      ensures rbDown.InOrder() && Fetching(h, before, true)
    {
      ConsumedOn(h, asked, host);
      LastStays(h, asked, host);
      assert |accepted| == |before| + rbDown.Used() && rbDown.InOrder();
      FetchedNow(asked, rbDown.data.Length > 1);
      RoomInEmpty();
      if ok {
        ReceivedIs(before, Accepting(asked));
      }
      hide Core, Inv, Fetched, AfterSwap, SwapAccepted, LastTurn, Received, Consumed;
    }

    lemma RoomInEmpty()
      requires rbDown.InOrder()
      ensures rbDown.Used() < Max(rbDown.data.Length, 1)
      ensures rbDown.Used() == 0 ==> rbDown.curSize == rbDown.data.Length
    {
    }

    lemma ReceivedIs(before: seq<byte>, t: Turn)
      requires Received(before, t) && rbDown.InOrder()
      ensures log != [] && var r := log[|log| - 1];
              && r.turn == t && r.Fair() && accepted == before + t.inbox[..r.got] && |accepted| == |before| + r.got
              && before <= accepted && (r.full <==> rbDown.Used() + 1 >= rbDown.curSize)
              && (r.got > 0 ==> Brings(t)) && (Brings(t) && r.got == 0 ==> r.full)
    {
    }

    /** What has been accepted since `before` is what was taken of the inbox of the answer used last. */
    ghost predicate Accepted(before: seq<byte>, asked: seq<Turn>)
      reads `log, `accepted, `host
    {
      && Consumed(asked, host) && host != asked && log != []
      && var r := log[|log| - 1];
      && r.turn == LastTurn(asked, host) && r.Fair() && accepted == before + r.turn.inbox[..r.got]
    }

    /** At any time the host can read the packets it has been handed: an initial part of those sent,
        in order and unchanged, and all of them once nothing is left on the way. */
    lemma HostSees()
      requires Valid()
      ensures Decode(handed).Complete? && Decode(handed).packets <= sent
      ensures Marker() == 0 ==> Decode(handed) == Complete(sent, [])
    {
      assert handed <= Stream();
      HostReadsPrefix(sent, handed);
    }

    /** Any run: after every sequence of calls the host can read an initial part of the packets whose
        calls succeeded, and after a successful full flush it can read all of them. */
    method Session(calls: seq<Call>) returns (granted: seq<Packet>, drained: bool)
      requires Valid() && sent == []
      modifies this`host, this`log, this`markers, this`inBlock, this`handed, this`accepted
      modifies block0, block1, rbPend, rbDown, rbDown.data
      modifies this`sent, this`delivered, rbPend.data
      ensures Valid() && granted == sent
      ensures Decode(handed).Complete? && Decode(handed).packets <= granted
      ensures drained ==> Decode(handed) == Complete(granted, [])
      ensures AllFair(log) && Turns(log) + host == script
      ensures delivered <= accepted == Taken(log)
    {
      granted := [];
      for k := 0 to |calls|
        invariant Valid() && granted == sent
      {
        match calls[k]
        case SendCall(core, payload) =>
          var ok := Send(core, payload);
          if ok {
            granted := granted + [Packet(core, payload)];
          }
        case FlushCall(minSz) =>
          var _ := Flush(minSz);
        case GetCall(size) =>
          var _ := DownBufferGet(size);
      }
      drained := Flush(0);
      HostSees();
    }
  }

  lemma Rejoined(a: seq<byte>, b: seq<byte>, c: seq<byte>)
    ensures a + (b + c) == (a + b) + c
  {
  }

  /** The answers still to come are the last ones of those before. */
  ghost predicate Consumed(before: seq<Turn>, after: seq<Turn>) {
    |after| <= |before| && after == before[|before| - |after|..]
  }

  lemma ConsumedNone(host: seq<Turn>)
    ensures Consumed(host, host)
  {
  }

  lemma ConsumedOn(a: seq<Turn>, b: seq<Turn>, c: seq<Turn>)
    requires Consumed(a, b) && Consumed(b, c)
    ensures Consumed(a, c)
    ensures b != c && GaveUp(b, c) ==> a != c && GaveUp(a, c)
  {
  }

  /** The answers left when a switch has been asked for until it was accepted or the timer had expired. */
  ghost function AfterSwap(host: seq<Turn>): (rest: seq<Turn>)
    ensures Consumed(host, rest) && (host != [] ==> |rest| < |host|)
  {
    if host == [] then [] else
    if host[0].accept || host[0].expired then host[1..] else AfterSwap(host[1..])
  }

  ghost predicate SwapAccepted(host: seq<Turn>)
    ensures SwapAccepted(host) ==> host != [] && LastTurn(host, AfterSwap(host)).accept
  {
    host != [] && (host[0].accept || (!host[0].expired && SwapAccepted(host[1..])))
  }

  /** How far a switch has been asked for: what is to come is still to come, or it has been accepted. */
  ghost predicate Waited(start: seq<Turn>, host: seq<Turn>, ok: bool)
    ensures Waited(start, host, ok) ==> Consumed(start, host) && (ok ==> host != start)
  {
    && Consumed(start, host)
    && if ok then host != start && LastTurn(start, host).accept && host == AfterSwap(start) && SwapAccepted(start)
       else AfterSwap(host) == AfterSwap(start) && (SwapAccepted(host) <==> SwapAccepted(start))
  }

  lemma WaitBegins(host: seq<Turn>)
    ensures Waited(host, host, false)
  {
  }

  lemma WaitGoesOn(start: seq<Turn>, host: seq<Turn>)
    requires Waited(start, host, false)
    ensures host == [] ==> GivenUp(start, host)
    ensures host != [] ==>
              && Consumed(start, host[1..]) && host[1..] != start && LastTurn(start, host[1..]) == host[0]
              && (if host[0].accept then Waited(start, host[1..], true)
                  else if host[0].expired then GivenUp(start, host[1..]) else Waited(start, host[1..], false))
  {
    if host != [] {
      ConsumedOne(start, host);
    }
    hide Consumed, LastTurn;
  }

  lemma ConsumedOne(start: seq<Turn>, host: seq<Turn>)
    requires Consumed(start, host) && host != []
    ensures Consumed(start, host[1..]) && host[1..] != start && LastTurn(start, host[1..]) == host[0]
  {
  }

  lemma WaitEnds(start: seq<Turn>, host: seq<Turn>, ok: bool)
    requires if ok then Waited(start, host, true) else GivenUp(start, host)
    ensures Consumed(start, host) && (start != [] ==> host != start)
    ensures host == AfterSwap(start) && (ok <==> SwapAccepted(start))
    ensures ok ==> host != start && LastTurn(start, host).accept
    ensures !ok && host != [] ==> GaveUp(start, host)
  {
  }

  ghost predicate GivenUp(start: seq<Turn>, host: seq<Turn>) {
    && Consumed(start, host) && host == AfterSwap(start) && !SwapAccepted(start)
    && (start != [] ==> host != start) && (host != [] ==> GaveUp(start, host))
  }

  /** The answer that accepts. */
  ghost function Accepting(host: seq<Turn>): Turn
    requires SwapAccepted(host)
  {
    LastTurn(host, AfterSwap(host))
  }

  lemma AcceptingIs(host: seq<Turn>)
    ensures SwapAccepted(host) ==> Accepting(host) == LastTurn(host, AfterSwap(host))
  {
  }

  ghost function Rest(host: seq<Turn>): seq<Turn> {
    if host == [] then [] else host[1..]
  }

  /** With bytes pending the host is asked once for a switch. For a packet that still finds no room it is asked until
      it accepts or the timer has expired, and only then the packet can be refused. */
  ghost predicate Asked(granted: bool, pending: nat, before: seq<Turn>, after: seq<Turn>) {
    var host := if pending > 0 then Rest(before) else before;
    after == AfterSwap(host) || (granted && after == host)
  }

  lemma AskedIs(granted: bool, pending: nat, before: seq<Turn>, asked: seq<Turn>, after: seq<Turn>)
    requires asked == (if pending > 0 then Rest(before) else before) && Consumed(asked, after)
    requires after == AfterSwap(asked) || (granted && after == asked)
    ensures Asked(granted, pending, before, after) && Consumed(before, after)
  {
  }

  lemma ConsumedRest(host: seq<Turn>)
    ensures Rest(host) == if host == [] then [] else host[1..]
  {
  }

  /** The answers left when host data has been fetched into an empty ring, and whether there was any: while the host
      reports data a switch is asked for, and else it is waited until the timer has expired. */
  ghost function Fetched(host: seq<Turn>, room: bool): (seq<Turn>, bool)
    decreases |host|
  {
    if host == [] then ([], false) else
    if host[0].pending then
      var rest := AfterSwap(host);
      if SwapAccepted(host) && Brings(Accepting(host)) && room then (rest, true) else Fetched(rest, room)
    else if host[0].expired then (host[1..], false)
    else Fetched(host[1..], room)
  }

  lemma FetchedNow(host: seq<Turn>, room: bool)
    requires host != [] && host[0].pending
    ensures var rest := AfterSwap(host);
            Fetched(host, room) == if SwapAccepted(host) && Brings(Accepting(host)) && room then (rest, true)
                                   else Fetched(rest, room)
  {
  }

  lemma LastStays(a: seq<Turn>, b: seq<Turn>, c: seq<Turn>)
    requires Consumed(a, b) && Consumed(b, c) && b != c
    ensures Consumed(a, c) && a != c && LastTurn(a, c) == LastTurn(b, c)
  {
  }

  lemma FetchedOn(host: seq<Turn>, room: bool)
    requires host == [] || !host[0].pending
    ensures Fetched(host, room) == if host == [] then ([], false)
                                   else if host[0].expired then (host[1..], false) else Fetched(host[1..], room)
  {
  }

  ghost predicate Brings(t: Turn) {
    t.accept && t.pending && t.inbox != []
  }

  /** The answer used last. */
  ghost function LastTurn(before: seq<Turn>, after: seq<Turn>): Turn
    requires Consumed(before, after) && after != before
  {
    before[|before| - |after| - 1]
  }

  /** The last answer was that no host data is pending, with the timer expired. */
  ghost predicate Expired(before: seq<Turn>, after: seq<Turn>)
    requires Consumed(before, after)
  {
    after != before && !LastTurn(before, after).pending && LastTurn(before, after).expired
  }

  /** The last answer was a refusal with the timer expired. */
  ghost predicate GaveUp(before: seq<Turn>, after: seq<Turn>)
    requires Consumed(before, after)
  {
    after != before && !LastTurn(before, after).accept && LastTurn(before, after).expired
  }

  /** A packet has been begun behind the stream `older`: its block size is set, and nothing of it is written. */
  ghost predicate Begun(older: seq<byte>, s: seq<byte>, core: bool, size: nat)
    requires size < CORE_FLAG
  {
    && |s| == |older| + HEADER_SIZE + size
    && (forall i | 0 <= i < |older| :: s[i] == older[i])
    && FromLe16(s[|older|], s[|older| + 1]) == BlockSz(core, size) && s[|older| + 2] == 0 && s[|older| + 3] == 0
  }

  /** `esp_tracedata_hdr_t` with nothing written yet. */
  function PktHeader(core: bool, size: nat): (s: seq<byte>)
    requires size < CORE_FLAG
    ensures |s| == HEADER_SIZE && FromLe16(s[0], s[1]) == BlockSz(core, size) && s[2] == 0 && s[3] == 0
  {
    Le16(BlockSz(core, size)) + [0, 0]
  }

  lemma SpliceHeader(s: seq<byte>, header: seq<byte>, core: bool, size: nat)
    requires size < CORE_FLAG && HEADER_SIZE + size <= |s|
    requires |header| == HEADER_SIZE && FromLe16(header[0], header[1]) == BlockSz(core, size)
    requires header[2] == 0 && header[3] == 0
    ensures var start := |s| - HEADER_SIZE - size;
            Begun(s[..start], Splice(s, start, header), core, size)
  {
  }

  lemma Le16Injective(lo: byte, hi: byte, lo': byte, hi': byte)
    requires FromLe16(lo, hi) == FromLe16(lo', hi')
    ensures lo == lo' && hi == hi'
  {
  }

  /** The stream with `wr_sz` of its newest packet, `n` bytes long, set to its `block_sz`. */
  ghost function MarkWritten(s: seq<byte>, n: nat): (r: seq<byte>)
    requires HEADER_SIZE <= n <= |s|
    ensures |r| == |s|
  {
    Splice(s, |s| - n + 2, [s[|s| - n], s[|s| - n + 1]])
  }

  /** Filling in the payload and the written size turns a begun packet into the finished one. */
  lemma Finished(older: seq<byte>, begun: seq<byte>, p: Packet)
    requires p.Fits() && Begun(older, begun, p.core, |p.payload|)
    ensures var n := HEADER_SIZE + |p.payload|;
            MarkWritten(Splice(begun, |begun| - n + HEADER_SIZE, p.payload), n) == older + Encode(p)
  {
  }

  /** The host leaves its data behind a 16-bit length. */
  method HostWrites(block: array<byte>, inbox: seq<byte>)
    requires 2 + |inbox| <= block.Length < CORE_FLAG
    modifies block
    ensures FromLe16(block[0], block[1]) == |inbox| && block[2..2 + |inbox|] == inbox
  {
    var header := Le16(|inbox|);
    CopyInto(block, 0, header);
    CopyInto(block, 2, inbox);
    assert block[0] == header[0] && block[1] == header[1];
  }

  method MarkRead(block: array<byte>)
    requires 2 <= block.Length
    modifies block
    ensures FromLe16(block[0], block[1]) == 0
  {
    block[0], block[1] := 0, 0;
  }

  /** Passes data the host left in a block to the down ring and marks it as read. */
  method Receive(ring: Ring, block: array<byte>, t: Turn) returns (total: nat)
    requires ring.Valid() && ring.data.Length < U32 / 2 && block != ring.data
    requires 2 + |t.inbox| <= block.Length < CORE_FLAG
    modifies block, ring, ring.data
    ensures ring.Valid() && total <= |t.inbox|
    ensures ring.contents == old(ring.contents) + t.inbox[..total]
    ensures t.pending && total < |t.inbox| ==> ring.Used() + 1 >= ring.curSize
    ensures if t.pending then FromLe16(block[0], block[1]) == 0 else total == 0
  {
    HostWrites(block, t.inbox);
    var blockSz := FromLe16(block[0], block[1]);
    total := 0;
    if t.pending && blockSz > 0 {
      total := DownWrite(ring, block[2..2 + blockSz]);
      MarkRead(block);
    }
  }
}
