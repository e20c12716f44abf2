/** Choosing the boot slot through the two otadata sectors (components/app_update/esp_ota_ops.c:451-622,
    773-868, components/bootloader_support/src/bootloader_common_loader.c:34-141 and
    components/app_update/otatool.py:89-190). */
module OtaSelect {
  import opened Machine
  import opened DivMod

  const SEQ_MAX: nat := U32 - 1
  const MAX_SLOTS: nat := 16

  datatype ImgState = New | PendingVerify | Confirmed | Invalid | Aborted | Undefined

  /** The stored checksum: that of a sequence number, or no sequence number's. */
  datatype Crc = Of(n: nat) | Garbage

  /** esp_ota_select_entry_t. */
  datatype Entry = Entry(seqNo: nat, state: ImgState, crc: Crc)

  /** An erased sector. */
  const BLANK: Entry := Entry(SEQ_MAX, Undefined, Garbage)

  type Otadata = s: seq<Entry> | |s| == 2 witness [BLANK, BLANK]

  datatype App = Factory | Ota(id: nat) | Test

  /** The application partitions there are. */
  datatype Table = Table(factory: bool, slots: set<nat>, test: bool) {
    predicate Has(p: App) {
      match p
      case Factory => factory
      case Ota(id) => id < MAX_SLOTS && id in slots
      case Test => test
    }

    function Find(p: App): Option<App> {
      if Has(p) then Some(p) else None
    }

    /** esp_ota_get_app_partition_count: slots 0 to n - 1 exist and slot n does not. */
    function Count(from: nat := 0): (n: nat)
      requires from <= MAX_SLOTS
      ensures from <= n <= MAX_SLOTS
      ensures forall id | from <= id < n :: Has(Ota(id))
      ensures !Has(Ota(n))
      decreases MAX_SLOTS - from
    {
      if Has(Ota(from)) then Count(from + 1) else from
    }

    function FirstSlot(from: nat := 0): (p: Option<App>)
      requires from <= MAX_SLOTS
      ensures p.Some? ==> p.value.Ota? && from <= p.value.id && Has(p.value)
      ensures p.Some? ==> forall id | from <= id < p.value.id :: !Has(Ota(id))
      ensures p == None ==> forall id | from <= id < MAX_SLOTS :: !Has(Ota(id))
      decreases MAX_SLOTS - from
    {
      if from == MAX_SLOTS then None
      else if Has(Ota(from)) then Some(Ota(from))
      else FirstSlot(from + 1)
    }

    /** find_default_boot_partition: the factory application, or else the lowest slot there is, or else the test
        application. */
    function Default(): (p: Option<App>)
      ensures p.Some? ==> Has(p.value)
      ensures p == Some(Factory) <==> factory
      ensures p.Some? && p.value.Ota? ==> forall id | 0 <= id < p.value.id :: !Has(Ota(id))
      ensures p in {None, Some(Test)} ==> !Has(Ota(0)) && forall id | 0 <= id < MAX_SLOTS :: !Has(Ota(id))
      ensures p == None ==> !test
    {
      if factory then Some(Factory) else
      var first := FirstSlot();
      if first.Some? then first else Find(Test)
    }
  }

  // ---- bootloader_common ----

  predicate SelectInvalid(e: Entry) {
    e.seqNo == SEQ_MAX || e.state == Invalid || e.state == Aborted
  }

  predicate SelectValid(e: Entry) {
    !SelectInvalid(e) && e.crc == Of(e.seqNo)
  }

  /** The usable entry of the largest sequence number, the first one on a tie. */
  function Active(two: Otadata): (a: Option<nat>)
    ensures a.Some? ==> a.value < 2 && SelectValid(two[a.value])
    ensures a.Some? ==> forall i | 0 <= i < 2 && SelectValid(two[i]) :: two[i].seqNo <= two[a.value].seqNo
    ensures a == None ==> !SelectValid(two[0]) && !SelectValid(two[1])
  {
    if SelectValid(two[0]) && SelectValid(two[1]) then
      if two[0].seqNo >= two[1].seqNo then Some(0) else Some(1)
    else if SelectValid(two[0]) then Some(0)
    else if SelectValid(two[1]) then Some(1)
    else None
  }

  /** The slot a sequence number stands for; the subtraction is 32 bits wide. */
  function SlotOf(seqNo: nat, n: nat): (id: nat)
    requires n > 0
  {
    (if seqNo == 0 then SEQ_MAX else seqNo - 1) % n
  }

  /** esp_ota_get_boot_partition. */
  function Boot(t: Table, two: Otadata): (p: Option<App>) {
    if (SelectInvalid(two[0]) && SelectInvalid(two[1])) || t.Count() == 0 then t.Default()
    else
      var a := Active(two);
      if a.Some? then t.Find(Ota(SlotOf(two[a.value].seqNo, t.Count()))) else t.Default()
  }

  // ---- The next sequence number ----

  /** The least number from `seqNo` on that stands for slot `id`. */
  ghost predicate IsNext(v: nat, seqNo: nat, id: nat, n: nat)
    requires n > 0
  {
    && seqNo <= v && v % n == (id + 1) % n
    && forall w | seqNo <= w < v :: w % n != (id + 1) % n
  }

  /** The search both the device and the host tool make. */
  method NextSequence(seqNo: nat, id: nat, n: nat) returns (v: nat)
    requires id < n
    ensures IsNext(v, seqNo, id, n)
  {
    var base := (id + 1) % n;
    var i := 0;
    while seqNo > base + i * n
      invariant i == 0 || base + (i - 1) * n < seqNo
      decreases seqNo - i * n
    {
      OneMore(i, n);
      i := i + 1;
    }
    v := base + i * n;
    Quotient(i, base, n);
    forall w | seqNo <= w < v
      ensures w % n != base
    {
      Between(w, base, i, n);
    }
  }

  /** No number of the same remainder lies strictly between two neighbours. */
  lemma Between(w: nat, base: nat, i: nat, n: nat)
    requires base < n && w < base + i * n && (i > 0 ==> base + (i - 1) * n < w)
    ensures w % n != base
  {
    var q := w / n;
    Divided(w, n);
    if q < i {
      Grows(q, i - 1, n);
    } else {
      Grows(i, q, n);
    }
  }

  lemma Residue(id: nat, n: nat)
    requires id < n
    ensures (id + 1) % n == if id + 1 == n then 0 else id + 1
  {
    if id + 1 == n {
      Quotient(1, 0, n);
    } else {
      Quotient(0, id + 1, n);
    }
  }

  /** The number found stands for the slot asked for, unless it is zero. */
  lemma NextStandsFor(v: nat, seqNo: nat, id: nat, n: nat)
    requires id < n && IsNext(v, seqNo, id, n)
    ensures v >= 1 ==> SlotOf(v, n) == id
    ensures v == 0 <==> seqNo == 0 && id + 1 == n
  {
    var q := v / n;
    Residue(id, n);
    Quotient(0, 0, n);
    assert seqNo == 0 && v > 0 ==> 0 % n != (id + 1) % n;
    Divided(v, n);
    if id + 1 < n {
      Quotient(q, id, n);
    } else if q > 0 {
      OneMore(q - 1, n);
      Quotient(q - 1, n - 1, n);
    }
  }

  // ---- Switching on the device ----

  /** The sector holds no record with a matching checksum: it is erased, or erased or written in part. */
  predicate Wiped(e: Entry) {
    e.crc != Of(e.seqNo)
  }

  /** The states that a power cut can leave while sector `sec` of `two` is rewritten to `e`: nothing
      done, the sector erased or written in part, or all done. A record written in part does
      not have the checksum of its number. */
  ghost predicate CutPoint(two: Otadata, sec: nat, e: Entry, c: Otadata)
    requires sec < 2
  {
    || c == two
    || (Wiped(c[sec]) && c == two[sec := c[sec]])
    || c == two[sec := e]
  }

  /** The sector that is rewritten to switch slots: never that of the active entry. */
  function Target(two: Otadata): (sec: nat)
    ensures sec < 2 && Active(two) != Some(sec)
  {
    if Active(two).Some? then 1 - Active(two).value else 0
  }

  /** Replacing an entry that is not active by an unusable one does not change what is booted. */
  lemma UnusableIsIgnored(t: Table, two: Otadata, sec: nat, x: Entry)
    requires sec < 2 && Active(two) != Some(sec) && !SelectValid(x)
    ensures Boot(t, two[sec := x]) == Boot(t, two)
  {
  }

  /** A usable entry of at least the active one's number that stands for slot `id` is booted. */
  lemma NewerIsBooted(t: Table, two: Otadata, e: Entry, id: nat)
    requires id < t.Count() && SelectValid(e) && SlotOf(e.seqNo, t.Count()) == id
    requires Active(two).Some? ==> two[Active(two).value].seqNo <= e.seqNo
    ensures Boot(t, two[Target(two) := e]) == Some(Ota(id))
  {
  }

  /** What a switch writes: the record for slot `id`, or for no sequence number so far. */
  ghost predicate SwitchRecord(t: Table, two: Otadata, id: nat, state: ImgState, e: Entry)
    requires id < t.Count()
  {
    && e.state == state && e.crc == Of(e.seqNo)
    && if Active(two).Some? then IsNext(e.seqNo, two[Active(two).value].seqNo, id, t.Count()) else e.seqNo == id + 1
  }

  /** A stored zero is counted on from, and the last slot is asked for: zero is then taken for the number
      of that slot, but the 32-bit subtraction makes it stand for another. */
  ghost predicate ZeroTrap(t: Table, two: Otadata, id: nat)
    requires t.Count() > 0
  {
    && Active(two).Some? && two[Active(two).value].seqNo == 0
    && id + 1 == t.Count() && SlotOf(0, t.Count()) != id
  }

  /** The switch works exactly if the number is not zero by accident of a stored zero. */
  lemma SwitchIsBootedIff(t: Table, two: Otadata, id: nat, state: ImgState, e: Entry)
    requires id < t.Count() && SwitchRecord(t, two, id, state, e)
    requires state != Invalid && state != Aborted && e.seqNo < SEQ_MAX
    ensures Boot(t, two[Target(two) := e]) == Some(Ota(id)) <==> !ZeroTrap(t, two, id)
    ensures ZeroTrap(t, two, id) ==> Boot(t, two[Target(two) := e]) == Boot(t, two)
  {
    var n, a := t.Count(), Active(two);
    if a.Some? {
      NextStandsFor(e.seqNo, two[a.value].seqNo, id, n);
      NewerIsBooted(t, two, e, SlotOf(e.seqNo, n));
    } else {
      Quotient(0, id, n);
      NewerIsBooted(t, two, e, id);
    }
  }

  /** With three slots and a stored zero, slot 2 is asked for and slot 0 is booted. */
  lemma SwitchCanFail(state: ImgState)
    requires state != Invalid && state != Aborted
    ensures var t := Table(false, {0, 1, 2}, false);
            var two := [Entry(0, Confirmed, Of(0)), BLANK];
            var e := Entry(0, state, Of(0));
            && t.Count() == 3 && SwitchRecord(t, two, 2, state, e) && ZeroTrap(t, two, 2)
            && Boot(t, two[Target(two) := e]) == Some(Ota(0))
  {
    var t := Table(false, {0, 1, 2}, false);
    assert t.Count(3) == 3 && t.Count(2) == 3 && t.Count(1) == 3;
    assert SlotOf(0, 3) == 0 && t.Find(Ota(0)) == Some(Ota(0));
  }

  /** A power cut anywhere in a switch leaves the old choice or the new one. */
  lemma CutIsSafe(t: Table, two: Otadata, id: nat, state: ImgState, e: Entry, c: Otadata)
    requires id < t.Count() && SwitchRecord(t, two, id, state, e)
    requires state != Invalid && state != Aborted && e.seqNo < SEQ_MAX
    requires CutPoint(two, Target(two), e, c)
    ensures Boot(t, c) == Boot(t, two) || Boot(t, c) == Some(Ota(id))
  {
    var sec := Target(two);
    if c == two[sec := e] {
      SwitchIsBootedIff(t, two, id, state, e);
    } else if c != two {
      UnusableIsIgnored(t, two, sec, c[sec]);
      assert two[sec := c[sec]] == c;
    }
  }

  // ---- Switching to the factory application ----

  /** The states that a power cut can leave while both sectors are erased, one after the other. */
  ghost predicate FactoryCut(two: Otadata, c: Otadata) {
    || c == two
    || (Wiped(c[0]) && c[1] == two[1])
    || (c[0] == BLANK && Wiped(c[1]))
  }

  /** Erasing sector 0 leaves the second record, of a slot that was neither booted nor asked for. */
  ghost predicate SecondTakesOver(t: Table, two: Otadata) {
    && t.Count() > 0 && Active(two) == Some(0) && SelectValid(two[1])
    && SlotOf(two[0].seqNo, t.Count()) != SlotOf(two[1].seqNo, t.Count())
  }

  /** A power cut in the switch to the factory application leaves the old choice or the factory
      application, unless the second record takes over in between. */
  lemma FactoryCutIsSafeIff(t: Table, two: Otadata)
    requires t.factory
    ensures (forall c | FactoryCut(two, c) :: Boot(t, c) == Boot(t, two) || Boot(t, c) == Some(Factory))
            <==> !SecondTakesOver(t, two)
  {
    if SecondTakesOver(t, two) {
      var c: Otadata := [BLANK, two[1]];
      SlotBound(two[0].seqNo, t.Count());
      SlotBound(two[1].seqNo, t.Count());
      assert FactoryCut(two, c) && Active(c) == Some(1);
      assert Boot(t, c) == Some(Ota(SlotOf(two[1].seqNo, t.Count())));
      assert Boot(t, two) == Some(Ota(SlotOf(two[0].seqNo, t.Count())));
    } else {
      forall c | FactoryCut(two, c)
        ensures Boot(t, c) == Boot(t, two) || Boot(t, c) == Some(Factory)
      {
      }
    }
  }

  lemma SlotBound(seqNo: nat, n: nat)
    requires n > 0
    ensures SlotOf(seqNo, n) < n
  {
  }

  /** It does: slot 0 is booted, the factory application is asked for, and slot 1 is booted. */
  lemma FactoryCutCanMiss()
    ensures var t := Table(true, {0, 1}, false);
            var two := [Entry(3, Confirmed, Of(3)), Entry(2, Confirmed, Of(2))];
            var c := [BLANK, Entry(2, Confirmed, Of(2))];
            && FactoryCut(two, c) && SecondTakesOver(t, two)
            && Boot(t, two) == Some(Ota(0)) && Boot(t, c) == Some(Ota(1))
  {
    var t := Table(true, {0, 1}, false);
    assert t.Count(2) == 2 && t.Count(1) == 2;
    assert SlotOf(3, 2) == 0 && SlotOf(2, 2) == 1;
    assert t.Find(Ota(0)) == Some(Ota(0)) && t.Find(Ota(1)) == Some(Ota(1));
  }

  // ---- Rolling back ----

  datatype Status = Ok | InvalidArg | NotFound | Fail | FlashError | RollbackFailed | Restart

  /** esp_ota_check_rollback_is_possible, without anti-rollback. */
  function RollbackIsPossible(t: Table, two: Otadata, imageOk: App -> bool): bool {
    var n, a := t.Count(), Active(two);
    if n == 0 || a == None then false
    else
      var last := two[1 - a.value];
      if SelectValid(last) then
        var p := t.Find(Ota(SlotOf(last.seqNo, n)));
        p.Some? && imageOk(p.value)
      else
        t.factory && imageOk(Factory)
  }

  /** A rollback is possible if and only if, once the active entry is marked invalid, an application is booted
      whose image verifies, and that is the one of the other entry or the factory application. */
  lemma RollbackIsSound(t: Table, two: Otadata, imageOk: App -> bool)
    ensures RollbackIsPossible(t, two, imageOk) <==>
              && t.Count() > 0 && Active(two).Some?
              && var a := Active(two).value;
                 var p := Boot(t, two[a := two[a].(state := Invalid)]);
                 && p.Some? && imageOk(p.value)
                 && (SelectValid(two[1 - a]) || p == Some(Factory))
    ensures RollbackIsPossible(t, two, imageOk) ==>
              var a := Active(two).value;
              var p := Boot(t, two[a := two[a].(state := Invalid)]);
              && p.Some? && t.Has(p.value) && imageOk(p.value)
              && p.value == if SelectValid(two[1 - a]) then Ota(SlotOf(two[1 - a].seqNo, t.Count())) else Factory
  {
    if t.Count() > 0 && Active(two).Some? {
      RolledBackBoots(t, two);
      SlotBound(two[1 - Active(two).value].seqNo, t.Count());
    }
    hide Active, Boot, SelectValid, SlotOf;
  }

  lemma RolledBackBoots(t: Table, two: Otadata)
    requires t.Count() > 0 && Active(two).Some?
    ensures var a := Active(two).value;
            Boot(t, two[a := two[a].(state := Invalid)])
            == if SelectValid(two[1 - a]) then t.Find(Ota(SlotOf(two[1 - a].seqNo, t.Count()))) else t.Default()
  {
    hide SlotOf;
  }

  lemma ConfirmedBoots(t: Table, two: Otadata)
    requires Active(two).Some?
    ensures var a := Active(two).value;
            Boot(t, two[a := two[a].(state := Confirmed)]) == Boot(t, two)
  {
    hide SlotOf;
  }

  /** Confirming an application rewrites its own entry: a power cut after the erase rolls it back. */
  lemma CutWhileConfirmingRollsBack(t: Table, two: Otadata)
    requires Active(two).Some?
    ensures var a := Active(two).value;
            Boot(t, two[a := BLANK]) == Boot(t, two[a := two[a].(state := Invalid)])
  {
  }

  // ---- The device ----

  /** How the next flash operation goes. One that breaks off leaves the given record, unless that has a matching
      checksum: then the operation has not begun. */
  datatype Fault = Works | Breaks(leaves: Entry)

  class OtaDevice {
    const table: Table
    const rollbackEnabled: bool
    /** The two sectors as they are in flash; None if there is no otadata partition. */
    var flash: Option<Otadata>
    /** How flash operations are going to go. Behind the end of it all of them work. */
    var faults: seq<Fault>

    method NextFault() returns (f: Fault)
      modifies `faults
      ensures old(faults) == [] ==> f == Works && faults == []
      ensures old(faults) != [] ==> f == old(faults)[0] && faults == old(faults)[1..]
    {
      if faults == [] {
        return Works;
      }
      f, faults := faults[0], faults[1..];
    }

    /** Puts a record, or nothing, into a sector; the operation can break off. */
    method Change(sec: nat, e: Entry) returns (ok: bool)
      requires flash.Some? && sec < 2
      modifies `faults, `flash
      ensures flash.Some? && (old(faults) == [] ==> ok && faults == [])
      ensures ok <==> old(faults) == [] || old(faults)[0].Works?
      ensures ok ==> flash.value == old(flash.value)[sec := e]
      ensures !ok ==> var left := old(faults)[0].leaves;
                      flash.value == if Wiped(left) then old(flash.value)[sec := left] else old(flash.value)
      ensures !ok ==> flash.value == old(flash.value)
                      || (Wiped(flash.value[sec]) && flash.value == old(flash.value)[sec := flash.value[sec]])
    {
      var f := NextFault();
      match f
      case Works =>
        flash := Some(flash.value[sec := e]);
        return true;
      case Breaks(left) =>
        if Wiped(left) {
          flash := Some(flash.value[sec := left]);
        }
        return false;
    }

    /** rewrite_ota_seq; `e` is the entry with its state set. */
    method RewriteOtaSeq(e: Entry, seqNo: nat, sec: nat) returns (r: Status)
      requires flash.Some?
      modifies this
      ensures r == InvalidArg <==> sec > 1
      ensures r == InvalidArg ==> flash == old(flash)
      ensures sec <= 1 ==>
                && flash.Some?
                && CutPoint(old(flash.value), sec, Entry(seqNo, e.state, Of(seqNo)), flash.value)
                && (r == Ok ==> flash.value == old(flash.value)[sec := Entry(seqNo, e.state, Of(seqNo))])
      ensures r == Ok || r == InvalidArg || r == FlashError
      ensures old(faults) == [] ==> r != FlashError && faults == []
    {
      if sec > 1 {
        return InvalidArg;
      }
      ghost var two := flash.value;
      var ok := Change(sec, BLANK);
      if !ok {
        return FlashError;
      }
      ok := Change(sec, Entry(seqNo, e.state, Of(seqNo)));
      assert two[sec := BLANK][sec := flash.value[sec]] == two[sec := flash.value[sec]];
      if !ok {
        assert Wiped(flash.value[sec]);
        return FlashError;
      }
      return Ok;
    }

    function NewState(): ImgState {
      if rollbackEnabled then New else Undefined
    }

    /** What a call that switches to slot `id` does to the sectors `before`. */
    ghost predicate Switched(before: Option<Otadata>, id: nat, r: Status)
      reads this
    {
      && (r == NotFound <==> before == None)
      && (before.Some? ==> (r == InvalidArg <==> id >= table.Count()))
      && (r == NotFound || r == InvalidArg ==> flash == before)
      && (r == Ok || r == NotFound || r == InvalidArg || r == FlashError)
      && (before.Some? && id < table.Count() ==> flash.Some? && exists e: Entry :: Rewritten(before.value, id, r, e))
    }

    /** Flash is at a cut point of writing the record `e` for slot `id`, at the last one if all went well. */
    ghost predicate Rewritten(two: Otadata, id: nat, r: Status, e: Entry)
      requires flash.Some? && id < table.Count()
      reads this
    {
      && SwitchRecord(table, two, id, if rollbackEnabled then New else Undefined, e)
      && CutPoint(two, Target(two), e, flash.value)
      && (r == Ok ==> flash.value == two[Target(two) := e])
      && (e.seqNo < SEQ_MAX ==> Boot(table, flash.value) in {Boot(table, two), Some(Ota(id))})
      && (e.seqNo < SEQ_MAX && r == Ok ==> (Boot(table, flash.value) == Some(Ota(id)) <==> !ZeroTrap(table, two, id)))
    }

    /** esp_rewrite_ota_data: switches to slot `id`, the low four bits of the partition's subtype. */
    method EspRewriteOtaData(id: nat) returns (r: Status)
      modifies this
      ensures Switched(old(flash), id, r)
      ensures old(faults) == [] ==> r != FlashError
    {
      if flash == None {
        return NotFound;
      }
      var two := flash.value;
      var n := table.Count();
      if id >= n {
        return InvalidArg;
      }
      var active := Active(two);
      var seqNo;
      var next;
      if active.Some? {
        seqNo := NextSequence(two[active.value].seqNo, id, n);
        next := 1 - active.value;
      } else {
        seqNo := id + 1;
        next := 0;
      }
      ghost var e := Entry(seqNo, NewState(), Of(seqNo));
      assert SwitchRecord(table, two, id, NewState(), e);
      r := RewriteOtaSeq(two[next].(state := NewState()), seqNo, next);
      if seqNo < SEQ_MAX {
        SwitchIsBootedIff(table, two, id, NewState(), e);
        CutIsSafe(table, two, id, NewState(), e, flash.value);
      }
      assert Rewritten(two, id, r, e);
    }

    /** esp_ota_set_boot_partition, without anti-rollback. The factory application is chosen by
        erasing the sectors one after the other; the test application has the low four bits of slot 0 and
        is switched to as that. `Fail` stands for an image that does not verify. */
    method EspOtaSetBootPartition(p: App, imageOk: App -> bool) returns (r: Status)
      modifies this
      ensures !imageOk(p) <==> r == Fail
      ensures !imageOk(p) ==> flash == old(flash)
      ensures imageOk(p) && p == Factory ==>
                && (r == NotFound <==> old(flash) == None)
                && (r == NotFound ==> flash == None)
                && (r == NotFound || r == Ok || r == FlashError)
                && (old(flash).Some? ==> flash.Some? && FactoryCut(old(flash.value), flash.value))
      ensures r == Ok && p == Factory ==> flash == Some([BLANK, BLANK])
      ensures r == Ok && p == Factory && table.factory ==> Boot(table, flash.value) == Some(Factory)
      ensures imageOk(p) && p != Factory ==> Switched(old(flash), if p.Ota? then p.id else 0, r)
      ensures old(faults) == [] ==> r != FlashError
    {
      if !imageOk(p) {
        return Fail;
      }
      match p
      case Factory =>
        if flash == None {
          return NotFound;
        }
        var ok := Change(0, BLANK);
        if !ok {
          return FlashError;
        }
        ok := Change(1, BLANK);
        if !ok {
          return FlashError;
        }
        assert flash.value == [BLANK, BLANK];
        return Ok;
      case Ota(id) =>
        r := EspRewriteOtaData(id);
      case Test =>
        r := EspRewriteOtaData(0);
    }

    /** There is an application whose entry can be marked. */
    ghost predicate Marks(before: Option<Otadata>) {
      before.Some? && Active(before.value).Some? && table.Count() > 0
    }

    /** Otadata with the active entry in another state. */
    ghost function Marked(two: Otadata, state: ImgState): Otadata
      requires Active(two).Some?
    {
      var a := Active(two).value;
      two[a := two[a].(state := state)]
    }

    /** esp_ota_current_ota_is_workable; Restart stands for the reboot at its end. */
    method CurrentOtaIsWorkable(valid: bool, imageOk: App -> bool) returns (r: Status)
      modifies this
      ensures r in {Ok, NotFound, Fail, RollbackFailed, Restart, FlashError}
      ensures r == NotFound <==> old(flash) == None
      ensures r == Fail <==> old(flash).Some? && (Active(old(flash).value) == None || table.Count() == 0)
      ensures r == RollbackFailed <==>
                !valid && Marks(old(flash)) && !RollbackIsPossible(table, old(flash).value, imageOk)
      ensures r in {NotFound, Fail, RollbackFailed} ==> flash == old(flash)
      ensures r == Ok ==> valid && Marks(old(flash)) && flash == Some(Marked(old(flash).value, Confirmed))
      ensures r == Ok ==> Boot(table, flash.value) == Boot(table, old(flash).value)
      ensures valid && Marks(old(flash)) && old(flash).value[Active(old(flash).value).value].state == Confirmed ==>
                r == Ok && flash == old(flash) && faults == old(faults)
      ensures r == Restart ==> !valid && Marks(old(flash)) && flash == Some(Marked(old(flash).value, Invalid))
      ensures r == Restart ==>
                var p := Boot(table, flash.value);
                p.Some? && table.Has(p.value) && imageOk(p.value)
      ensures r == FlashError ==>
                && Marks(old(flash)) && flash.Some?
                && var two, a := old(flash).value, Active(old(flash).value).value;
                   CutPoint(two, a, two[a].(state := if valid then Confirmed else Invalid), flash.value)
      ensures old(faults) == [] ==> r != FlashError
    {
      hide Active, Boot, CutPoint, RollbackIsPossible, SelectInvalid;
      if flash == None {
        return NotFound;
      }
      var two := flash.value;
      var active := Active(two);
      if active.Some? && table.Count() != 0 {
        var a := active.value;
        assert two[a := two[a]] == two;
        ConfirmedBoots(table, two);
        if valid && two[a].state != Confirmed {
          r := RewriteOtaSeq(two[a].(state := Confirmed), two[a].seqNo, a);
          return r;
        } else if !valid {
          if !RollbackIsPossible(table, two, imageOk) {
            return RollbackFailed;
          }
          RollbackIsSound(table, two, imageOk);
          r := RewriteOtaSeq(two[a].(state := Invalid), two[a].seqNo, a);
          if r != Ok {
            return r;
          }
          return Restart;
        }
      } else {
        return Fail;
      }
      return Ok;
    }
  }

  // ---- The host tool ----

  /** The tool's notion of a valid entry. It does not look at the state. */
  predicate ToolValid(e: Entry) {
    e.seqNo < SEQ_MAX && e.crc == Of(e.seqNo)
  }

  /** The entry the tool counts on from. */
  function ToolBase(two: Otadata): (a: Option<nat>)
    ensures a.Some? ==> a.value < 2 && ToolValid(two[a.value])
  {
    if ToolValid(two[0]) && ToolValid(two[1]) then
      if two[0].seqNo >= two[1].seqNo then Some(0) else Some(1)
    else if ToolValid(two[0]) then Some(0)
    else if ToolValid(two[1]) then Some(1)
    else None
  }

  function ToolTarget(two: Otadata): (sec: nat)
    ensures sec < 2 && ToolBase(two) != Some(sec)
  {
    if ToolBase(two) == Some(0) then 1 else 0
  }

  /** switch_ota_partition: patches number and checksum, and leaves the state as it is. A slot that
      is not there is an error, and nothing is written. */
  method SwitchOtaPartition(t: Table, two: Otadata, id: nat) returns (after: Option<Otadata>, seqNo: nat)
    ensures after == None <==> id >= t.Count()
    ensures after.Some? ==>
              && (var sec := ToolTarget(two); after.value == two[sec := Entry(seqNo, two[sec].state, Of(seqNo))])
              && var a := ToolBase(two);
                 if a.Some? then IsNext(seqNo, two[a.value].seqNo, id, t.Count()) else seqNo == id + 1
  {
    var n := t.Count();
    if id >= n {
      return None, 0;
    }
    var base := ToolBase(two);
    seqNo := id + 1;
    if base.Some? {
      seqNo := NextSequence(two[base.value].seqNo, id, n);
    }
    var sec := ToolTarget(two);
    after := Some(two[sec := Entry(seqNo, two[sec].state, Of(seqNo))]);
  }

  /** Stored numbers are 32 bits wide. */
  ghost predicate Stored(two: Otadata) {
    two[0].seqNo < U32 && two[1].seqNo < U32
  }

  /** Tool and device count on from the same entry, and so write the same number to the same sector,
      as long as no entry is marked invalid or aborted. */
  lemma ToolAgreesWithDevice(two: Otadata)
    requires Stored(two) && forall i | 0 <= i < 2 :: two[i].state != Invalid && two[i].state != Aborted
    ensures ToolBase(two) == Active(two) && ToolTarget(two) == Target(two)
  {
  }

  /** The least number is the only one. */
  lemma NextIsUnique(v: nat, w: nat, seqNo: nat, id: nat, n: nat)
    requires n > 0 && IsNext(v, seqNo, id, n) && IsNext(w, seqNo, id, n)
    ensures v == w
  {
  }

  lemma PatchWins(two: Otadata, seqNo: nat)
    requires Stored(two) && seqNo < SEQ_MAX
    requires ToolBase(two).Some? ==> two[ToolBase(two).value].seqNo <= seqNo
    ensures var sec := ToolTarget(two);
            var after := two[sec := Entry(seqNo, two[sec].state, Of(seqNo))];
            SelectValid(after[sec]) ==> Active(after).Some? && after[Active(after).value].seqNo == seqNo
  {
  }

  /** The entry is live again only if its state allows it; otherwise the sector counts as erased. */
  lemma PatchBoots(t: Table, two: Otadata, id: nat, seqNo: nat)
    requires Stored(two) && id < t.Count() && seqNo < SEQ_MAX && SlotOf(seqNo, t.Count()) == id
    requires ToolBase(two).Some? ==> two[ToolBase(two).value].seqNo <= seqNo
    ensures var sec := ToolTarget(two);
            var after := two[sec := Entry(seqNo, two[sec].state, Of(seqNo))];
            if two[sec].state == Invalid || two[sec].state == Aborted
            then Active(after) != Some(sec) && Boot(t, after) == Boot(t, two[sec := BLANK])
            else Boot(t, after) == Some(Ota(id))
  {
    hide SlotOf;
    PatchWins(two, seqNo);
    assert t.Has(Ota(id));
  }

  /** With a sector that is not marked invalid or aborted, the slot asked for is booted except in the trap
      of a stored zero. With a marked one nothing changes, so it is booted exactly if it was before. */
  lemma ToolSwitchIsBootedIff(t: Table, two: Otadata, id: nat, seqNo: nat)
    requires Stored(two) && id < t.Count() && seqNo < SEQ_MAX
    requires var a := ToolBase(two);
             if a.Some? then IsNext(seqNo, two[a.value].seqNo, id, t.Count()) else seqNo == id + 1
    ensures var sec, a, n := ToolTarget(two), ToolBase(two), t.Count();
            var after := two[sec := Entry(seqNo, two[sec].state, Of(seqNo))];
            var marked := two[sec].state == Invalid || two[sec].state == Aborted;
            && (Boot(t, after) == Some(Ota(id)) <==>
                  if marked then Boot(t, two) == Some(Ota(id))
                  else !(a.Some? && two[a.value].seqNo == 0 && id + 1 == n && SlotOf(0, n) != id))
            && (marked ==> Boot(t, after) == Boot(t, two))
  {
    var sec, n := ToolTarget(two), t.Count();
    if two[sec].state == Invalid || two[sec].state == Aborted {
      UnusableIsIgnored(t, two, sec, BLANK);
    }
    hide ToolTarget, Active, Boot;
    var a := ToolBase(two);
    if a.Some? {
      NextStandsFor(seqNo, two[a.value].seqNo, id, n);
    } else {
      Quotient(0, id, n);
    }
    SlotBound(seqNo, n);
    PatchBoots(t, two, SlotOf(seqNo, n), seqNo);
  }

  /** After a rollback the tool can fail to switch: it patches the sector marked invalid. */
  lemma ToolCanFailToSwitch()
    ensures var t := Table(false, {0, 1}, false);
            var two := [Entry(3, Confirmed, Of(3)), Entry(2, Invalid, Of(2))];
            var after := [Entry(3, Confirmed, Of(3)), Entry(4, Invalid, Of(4))];
            && ToolTarget(two) == 1 && IsNext(4, 3, 1, t.Count())
            && Boot(t, after) == Some(Ota(0))
  {
    var t := Table(false, {0, 1}, false);
    assert t.Count(2) == 2 && t.Count(1) == 2;
    assert forall w | 3 <= w < 4 :: w % 2 == 1;
    assert t.Find(Ota(0)) == Some(Ota(0)) && SlotOf(3, 2) == 0;
  }
}
