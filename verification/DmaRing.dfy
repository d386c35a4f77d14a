/** The circular DMA: the firmware's pointer and cycle bit, the software's pointer and cycle
    bit, and what `wupper-dma-stat` computes from them.  Addresses are byte addresses. */
module DmaRing {
  import opened Arithmetic
  import opened Wrappers

  /** The buffer, the transfer unit, and PC_PTR_GAP: the firmware flips the software cycle
      bit only when the written pointer is more than `gap` below the previous one. */
  datatype Config = Config(start: nat, size: nat, unit: nat, gap: nat)

  predicate ValidConfig(c: Config) {
    c.start > 0 && c.unit > 0 && c.size > 0 && c.size % c.unit == 0
  }

  /** The channel's pointers and cycle bits, as they can be read, and `pending`, which cannot: the
      firmware has flipped its bit and set its next address to the start, while its pointer is
      still one unit before the end. */
  datatype Regs = Regs(current: nat, readPtr: nat, evenDma: bool, evenPc: bool, pending: bool)

  /** To host the firmware writes and the software reads; from host it is the other way round. */
  datatype Direction = HostBound | DeviceBound

  /** Address and cycle bit of a pointer that has moved `total` bytes. */
  function PtrAt(c: Config, total: nat): nat
    requires ValidConfig(c)
  {
    c.start + total % c.size
  }

  predicate CycleAt(c: Config, total: nat)
    requires ValidConfig(c)
  {
    (total / c.size) % 2 == 1
  }

  // ---------------------------------------------------------------- steps

  /** Enabling a channel: both pointers at the start, both cycle bits 0. */
  function Started(c: Config): Regs {
    Regs(c.start, c.start, false, false, false)
  }

  /** The waiting rule: the firmware compares the pointers for equality and the cycle bits, with
      its own inverted from host. */
  predicate MayMove(dir: Direction, r: Regs) {
    !(r.current == r.readPtr && (r.evenDma != r.evenPc) == dir.HostBound?)
  }

  predicate AtLastUnit(c: Config, r: Regs) {
    r.current + c.unit == c.start + c.size
  }

  /** As soon as the next address is the end address, and unless it waits, the firmware sets the
      next address to the start and flips its cycle bit. */
  predicate CanFlip(dir: Direction, c: Config, r: Regs) {
    AtLastUnit(c, r) && !r.pending && MayMove(dir, r)
  }

  function Flip(r: Regs): Regs {
    r.(evenDma := !r.evenDma, pending := true)
  }

  /** A unit is transferred, in front of the end only after the flip. */
  predicate CanMove(dir: Direction, c: Config, r: Regs) {
    MayMove(dir, r) && (AtLastUnit(c, r) ==> r.pending)
  }

  function MoveDma(c: Config, r: Regs): Regs {
    if r.pending then r.(current := c.start, pending := false) else r.(current := r.current + c.unit)
  }

  /** The register write as the firmware sees it. */
  function WritePtr(c: Config, r: Regs, ptr: nat): Regs {
    r.(readPtr := ptr, evenPc := if r.readPtr > ptr + c.gap then !r.evenPc else r.evenPc)
  }

  /** dma_advance_ptr */
  function Advance(c: Config, r: Regs, bytes: nat): Regs {
    var tmp := r.readPtr + bytes;
    WritePtr(c, r, if tmp >= c.start + c.size then tmp - c.size else tmp)
  }

  /** Whether an advance passes the end of the buffer. */
  predicate Wraps(c: Config, r: Regs, bytes: nat) {
    r.readPtr + bytes >= c.start + c.size
  }

  // ---------------------------------------------------------------- the invariant

  /** One pointer leads by at most the buffer size, and both stand where their totals say. */
  ghost predicate Tracks(c: Config, lead: nat, lag: nat) {
    && ValidConfig(c) && lag <= lead <= lag + c.size
    && lead % c.unit == 0 && lag % c.unit == 0
  }

  /** A flip is pending only at the last unit. */
  ghost predicate FirmwareAt(c: Config, r: Regs, total: nat)
    requires ValidConfig(c)
  {
    && r.current == PtrAt(c, total) && r.evenDma == (CycleAt(c, total) != r.pending)
    && (r.pending ==> AtLastUnit(c, r))
  }

  ghost predicate SoftwareAt(c: Config, r: Regs, total: nat)
    requires ValidConfig(c)
  {
    r.readPtr == PtrAt(c, total) && r.evenPc == CycleAt(c, total)
  }

  /** To host: the firmware has produced `produced` bytes, the software consumed `consumed`; a
      flip is not pending at a full ring. */
  ghost predicate ToHost(c: Config, r: Regs, produced: nat, consumed: nat) {
    && Tracks(c, produced, consumed) && FirmwareAt(c, r, produced) && SoftwareAt(c, r, consumed)
    && (r.pending ==> produced < consumed + c.size)
  }

  /** From host: the software has filled `filled` bytes, the firmware taken `taken`; a flip is
      not pending at an empty ring. */
  ghost predicate FromHost(c: Config, r: Regs, filled: nat, taken: nat) {
    && Tracks(c, filled, taken) && FirmwareAt(c, r, taken) && SoftwareAt(c, r, filled)
    && (r.pending ==> taken < filled)
  }

  // ---------------------------------------------------------------- arithmetic

  /** Moving `n` bytes, at most the buffer size, passes the end at most once. */
  lemma MoveBy(c: Config, total: nat, n: nat)
    requires ValidConfig(c) && n <= c.size
    ensures var off := total % c.size;
      if off + n >= c.size
      then (total + n) % c.size == off + n - c.size && (total + n) / c.size == total / c.size + 1
      else (total + n) % c.size == off + n && (total + n) / c.size == total / c.size
  {
    var q, off := total / c.size, total % c.size;
    assert total == q * c.size + off;
    if off + n >= c.size {
      assert (q + 1) * c.size == q * c.size + c.size;
      DivModIs(total + n, c.size, q + 1, off + n - c.size);
    } else {
      DivModIs(total + n, c.size, q, off + n);
    }
  }

  lemma OffsetMultiple(c: Config, total: nat)
    requires ValidConfig(c) && total % c.unit == 0
    ensures (total % c.size) % c.unit == 0
  {
    var q := total / c.size;
    TimesMultiple(q, c.size, c.unit);
    SubMultiple(total, q * c.size, c.unit);
  }

  /** A positive multiple of the unit is at least the unit. */
  lemma AtLeastUnit(x: nat, d: nat)
    requires d > 0 && x % d == 0 && x > 0
    ensures x >= d
  {
  }

  lemma UnitFitsSize(c: Config)
    requires ValidConfig(c)
    ensures c.unit <= c.size
  {
    AtLeastUnit(c.size, c.unit);
  }

  // ---------------------------------------------------------------- the pointers

  /** The pointers coincide at an empty and at a full ring, whose rounds differ by one. */
  lemma PointersMeet(c: Config, lead: nat, lag: nat)
    requires Tracks(c, lead, lag)
    ensures PtrAt(c, lead) == PtrAt(c, lag) <==> lead == lag || lead == lag + c.size
    ensures lead == lag + c.size ==> CycleAt(c, lead) != CycleAt(c, lag)
  {
    MoveBy(c, lag, lead - lag);
  }

  /** To host, the firmware waits at a full ring; while a flip is pending it waits at an empty
      one instead. */
  lemma ToHostWaitsIff(c: Config, r: Regs, produced: nat, consumed: nat)
    requires ToHost(c, r, produced, consumed)
    ensures !MayMove(HostBound, r) <==> if r.pending then produced == consumed else produced == consumed + c.size
  {
    PointersMeet(c, produced, consumed);
  }

  /** From host, the firmware waits at an empty ring; while a flip is pending it waits at a full
      one instead. */
  lemma FromHostWaitsIff(c: Config, r: Regs, filled: nat, taken: nat)
    requires FromHost(c, r, filled, taken)
    ensures !MayMove(DeviceBound, r) <==> if r.pending then filled == taken + c.size else filled == taken
  {
    PointersMeet(c, filled, taken);
  }

  lemma DmaMoves(c: Config, r: Regs, total: nat)
    requires ValidConfig(c) && total % c.unit == 0
    requires FirmwareAt(c, r, total) && (AtLastUnit(c, r) ==> r.pending)
    ensures (total + c.unit) % c.unit == 0
    ensures FirmwareAt(c, MoveDma(c, r), total + c.unit) && !MoveDma(c, r).pending
  {
    UnitFitsSize(c);
    MoveBy(c, total, c.unit);
    OffsetMultiple(c, total);
    SubMultiple(c.size, total % c.size, c.unit);
    AtLeastUnit(c.size - total % c.size, c.unit);
    DivModIs(c.unit, c.unit, 1, 0);
    AddMultiple(total, c.unit, c.unit);
  }

  /** The distance between the pointers is a number of units, so below the limit there is
      room for one more, and above zero there is one to take. */
  lemma UnitSteps(c: Config, lead: nat, lag: nat)
    requires Tracks(c, lead, lag)
    ensures lead < lag + c.size ==> lead + c.unit <= lag + c.size
    ensures lag < lead ==> lag + c.unit <= lead
  {
    SubMultiple(lead, lag, c.unit);
    SubMultiple(c.size, lead - lag, c.unit);
    if lag < lead { AtLeastUnit(lead - lag, c.unit); }
    if lead < lag + c.size { AtLeastUnit(c.size - (lead - lag), c.unit); }
  }

  /** To host, a flip or a move of the firmware never overruns unread data: the waiting rule
      suffices. */
  lemma ToHostMove(c: Config, r: Regs, produced: nat, consumed: nat)
    requires ToHost(c, r, produced, consumed)
    ensures CanFlip(HostBound, c, r) ==> ToHost(c, Flip(r), produced, consumed)
    ensures CanMove(HostBound, c, r) ==> ToHost(c, MoveDma(c, r), produced + c.unit, consumed)
  {
    ToHostWaitsIff(c, r, produced, consumed);
    if CanMove(HostBound, c, r) {
      UnitSteps(c, produced, consumed);
      DmaMoves(c, r, produced);
    }
  }

  /** From host, a flip or a move of the firmware never takes bytes that have not been filled. */
  lemma FromHostMove(c: Config, r: Regs, filled: nat, taken: nat)
    requires FromHost(c, r, filled, taken)
    ensures CanFlip(DeviceBound, c, r) ==> FromHost(c, Flip(r), filled, taken)
    ensures CanMove(DeviceBound, c, r) ==> FromHost(c, MoveDma(c, r), filled, taken + c.unit)
  {
    FromHostWaitsIff(c, r, filled, taken);
    if CanMove(DeviceBound, c, r) {
      UnitSteps(c, filled, taken);
      DmaMoves(c, r, taken);
    }
  }

  /** The software pointer after an advance is where the new total says. */
  lemma AdvanceMoves(c: Config, r: Regs, total: nat, bytes: nat)
    requires ValidConfig(c) && bytes <= c.size && r.readPtr == PtrAt(c, total)
    ensures Advance(c, r, bytes).readPtr == PtrAt(c, total + bytes)
  {
    MoveBy(c, total, bytes);
  }

  /** Its cycle bit is right exactly when a wrapping write drops the pointer by more than the gap. */
  lemma AdvanceWrites(c: Config, r: Regs, total: nat, bytes: nat)
    requires ValidConfig(c) && bytes <= c.size && SoftwareAt(c, r, total)
    ensures SoftwareAt(c, Advance(c, r, bytes), total + bytes) <==> (Wraps(c, r, bytes) ==> c.size - bytes > c.gap)
  {
    AdvanceMoves(c, r, total, bytes);
    MoveBy(c, total, bytes);
  }

  lemma UnitsAdvance(total: nat, bytes: nat, unit: nat)
    requires unit > 0 && total % unit == 0
    ensures (total + bytes) % unit == 0 <==> bytes % unit == 0
  {
    if bytes % unit == 0 {
      AddMultiple(total, bytes, unit);
    }
    if (total + bytes) % unit == 0 {
      SubMultiple(total + bytes, total, unit);
    }
  }

  /** What an advance has to keep to: whole transfer units, since the firmware compares its
      pointer for equality only, and a wrapping advance short of the buffer size by more than
      the gap. */
  predicate Orderly(c: Config, r: Regs, bytes: nat)
    requires c.unit > 0
  {
    bytes % c.unit == 0 && (Wraps(c, r, bytes) ==> c.size - bytes > c.gap)
  }

  /** To host: consuming what is there keeps the ring in order if and only if the advance is
      orderly.  In particular a whole buffer can never be consumed at once, and with the
      firmware's default gap of 16 MB no buffer of 16 MB or less ever works. */
  lemma ConsumeIff(c: Config, r: Regs, produced: nat, consumed: nat, bytes: nat)
    requires ToHost(c, r, produced, consumed)
    requires bytes <= produced - consumed
    ensures ToHost(c, Advance(c, r, bytes), produced, consumed + bytes) <==> Orderly(c, r, bytes)
  {
    AdvanceWrites(c, r, consumed, bytes);
    UnitsAdvance(consumed, bytes, c.unit);
  }

  /** From host: the same condition for filling free space. */
  lemma FillIff(c: Config, r: Regs, filled: nat, taken: nat, bytes: nat)
    requires FromHost(c, r, filled, taken)
    requires bytes <= c.size - (filled - taken)
    ensures FromHost(c, Advance(c, r, bytes), filled + bytes, taken) <==> Orderly(c, r, bytes)
  {
    AdvanceWrites(c, r, filled, bytes);
    UnitsAdvance(filled, bytes, c.unit);
  }

  // ---------------------------------------------------------------- stalls

  /** Nothing can happen any more: the firmware waits, and the software has nothing to do. */
  ghost predicate Stuck(dir: Direction, c: Config, r: Regs, firmware: nat, software: nat) {
    && !CanFlip(dir, c, r) && !CanMove(dir, c, r)
    && software == firmware + if dir.HostBound? then 0 else c.size
  }

  /** A to-host ring is stuck for ever exactly when it is empty while a flip is pending. */
  lemma ToHostStuckIff(c: Config, r: Regs, produced: nat, consumed: nat)
    requires ToHost(c, r, produced, consumed)
    ensures Stuck(HostBound, c, r, produced, consumed) <==> r.pending && produced == consumed
  {
    ToHostWaitsIff(c, r, produced, consumed);
  }

  /** A from-host ring is stuck for ever exactly when it is full while a flip is pending. */
  lemma FromHostStuckIff(c: Config, r: Regs, filled: nat, taken: nat)
    requires FromHost(c, r, filled, taken)
    ensures Stuck(DeviceBound, c, r, taken, filled) <==> r.pending && filled == taken + c.size
  {
    FromHostWaitsIff(c, r, filled, taken);
  }

  /** A ring of two units, to host: the firmware writes the first unit and flips; the software
      reads what there is; the firmware waits at an empty ring. */
  lemma ToHostStalls(c: Config)
    requires ValidConfig(c) && c.size == 2 * c.unit
    ensures var r1 := MoveDma(c, Started(c));
      var r2 := Advance(c, Flip(r1), c.unit);
      && CanMove(HostBound, c, Started(c)) && CanFlip(HostBound, c, r1)
      && r2 == Regs(c.start + c.unit, c.start + c.unit, true, false, true)
      && !CanFlip(HostBound, c, r2) && !CanMove(HostBound, c, r2)
      && Percent(c.start, c.start + c.size, r2) == Some(0)
  {
  }

  /** A ring of two units, from host: one unit is filled and taken, one filled, the firmware
      flips, one more is filled; the firmware waits at a full ring that is reported all free. */
  lemma FromHostStalls(c: Config)
    requires ValidConfig(c) && c.size == 2 * c.unit && c.gap < c.unit
    ensures var r1 := Advance(c, Started(c), c.unit);
      var r2 := Advance(c, MoveDma(c, r1), c.unit);
      var r3 := Advance(c, Flip(r2), c.unit);
      && CanMove(DeviceBound, c, r1) && CanFlip(DeviceBound, c, r2)
      && r3 == Regs(c.start + c.unit, c.start + c.unit, true, true, true)
      && !CanFlip(DeviceBound, c, r3) && !CanMove(DeviceBound, c, r3)
      && Percent(c.start, c.start + c.size, r3) == Some(100)
  {
  }

  // ---------------------------------------------------------------- what goes past the pointers

  /** A misaligned advance defeats the wait: at a full ring, consuming a part of a unit lets the
      firmware write the whole unit, the unread rest included, and it does not wait behind it
      either, because it never meets the pointer. */
  lemma MisalignedOverruns(c: Config, r: Regs, bytes: nat)
    requires c.start <= r.current == r.readPtr && r.current + c.unit < c.start + c.size
    requires r.evenDma != r.evenPc && 0 < bytes < c.unit && !r.pending
    ensures var a := Advance(c, r, bytes);
      && !MayMove(HostBound, r) && CanMove(HostBound, c, a) && MayMove(HostBound, MoveDma(c, a))
      && r.current < a.readPtr < r.current + c.unit && a.current == r.current
  {
  }

  function Moves(c: Config, r: Regs, n: nat): Regs {
    if n == 0 then r else MoveDma(c, Moves(c, r, n - 1))
  }

  lemma NeverAtLastUnit(c: Config, j: nat)
    requires c.unit > 0 && c.size % c.unit != 0
    ensures j * c.unit + c.unit != c.size
  {
    assert (j + 1) * c.unit == j * c.unit + c.unit;
    if j * c.unit + c.unit == c.size {
      DivModIs(c.size, c.unit, j + 1, 0);
    }
  }

  lemma BeyondLastUnit(c: Config, j: nat, n: nat)
    requires c.unit > 0 && c.size % c.unit != 0 && j * c.unit <= c.size < j * c.unit + c.unit
    ensures (j + n) * c.unit + c.unit != c.size
    ensures n > 0 ==> (j + n) * c.unit > c.size && (j + n) * c.unit == (j + (n - 1)) * c.unit + c.unit
  {
    NeverAtLastUnit(c, j + n);
    if n > 0 {
      MulMono(j + 1, j + n, c.unit);
      assert (j + 1) * c.unit == j * c.unit + c.unit;
    }
  }

  /** The firmware wraps only on the exact end address.  With a transfer unit that does not divide
      the buffer it never flips, and once it may go on from the last unit that fits, every further
      move is allowed and leads past the end. */
  lemma {:induction false} RunsPastEnd(dir: Direction, c: Config, r: Regs, j: nat, n: nat)
    requires c.unit > 0 && c.size % c.unit != 0 && j * c.unit <= c.size < j * c.unit + c.unit
    requires r.current == c.start + j * c.unit && !r.pending && MayMove(dir, r)
    requires c.start <= r.readPtr < c.start + c.size
    ensures var m := Moves(c, r, n);
      && m == r.(current := c.start + (j + n) * c.unit)
      && CanMove(dir, c, m) && !CanFlip(dir, c, m) && (n > 0 ==> m.current > c.start + c.size)
  {
    BeyondLastUnit(c, j, n);
    if n > 0 {
      RunsPastEnd(dir, c, r, j, n - 1);
    }
  }

  /** The firmware takes the `j` units that have been filled in the first round, one by one. */
  lemma {:induction false} TakesFilled(c: Config, r: Regs, j: nat, i: nat)
    requires c.unit > 0 && c.size % c.unit != 0 && i <= j
    requires r == Started(c).(readPtr := c.start + j * c.unit)
    ensures Moves(c, r, i) == r.(current := c.start + i * c.unit)
    ensures CanMove(DeviceBound, c, Moves(c, r, i)) <==> i < j
  {
    NeverAtLastUnit(c, i);
    if i > 0 {
      TakesFilled(c, r, j, i - 1);
      assert i * c.unit == (i - 1) * c.unit + c.unit;
    }
    if i < j {
      MulMono(i + 1, j, c.unit);
      assert (i + 1) * c.unit == i * c.unit + c.unit;
    }
  }

  /** From host this happens as soon as the software, in whole units, has filled all units that
      fit, the firmware has taken them, and the software has filled one more. */
  lemma FilledRunsPastEnd(c: Config, j: nat, n: nat)
    requires 0 < c.unit < c.size && c.size % c.unit != 0 && j * c.unit <= c.size < j * c.unit + c.unit
    ensures var waiting := Moves(c, Advance(c, Started(c), j * c.unit), j);
      var r := Advance(c, waiting, c.unit);
      && waiting.current == waiting.readPtr && !CanMove(DeviceBound, c, waiting)
      && CanMove(DeviceBound, c, Moves(c, r, n)) && Moves(c, r, n).current == c.start + (j + n) * c.unit
  {
    if j * c.unit == c.size {
      DivModIs(c.size, c.unit, j, 0);
    }
    TakesFilled(c, Advance(c, Started(c), j * c.unit), j, j);
    RunsPastEnd(DeviceBound, c, Advance(c, Moves(c, Advance(c, Started(c), j * c.unit), j), c.unit), j, n);
  }

  // ---------------------------------------------------------------- whole runs

  datatype Event = FirmwareFlips | FirmwareMoves | SoftwareAdvances(bytes: nat)

  /** The invariant of a direction; `firmware` and `software` count the bytes that each side's
      pointer has moved. */
  ghost predicate Tracked(dir: Direction, c: Config, r: Regs, firmware: nat, software: nat) {
    if dir.HostBound? then ToHost(c, r, firmware, software) else FromHost(c, r, software, firmware)
  }

  /** A run in which the firmware obeys its waiting rule, the software advances by no more than
      what is unread or free, in orderly advances. */
  ghost predicate Run(dir: Direction, c: Config, r: Regs, firmware: nat, software: nat, events: seq<Event>,
                      r': Regs, firmware': nat, software': nat)
    requires ValidConfig(c)
    decreases |events|
  {
    if events == [] then r' == r && firmware' == firmware && software' == software
    else
      match events[0]
      case FirmwareFlips =>
        CanFlip(dir, c, r) && Run(dir, c, Flip(r), firmware, software, events[1..], r', firmware', software')
      case FirmwareMoves =>
        && CanMove(dir, c, r)
        && Run(dir, c, MoveDma(c, r), firmware + c.unit, software, events[1..], r', firmware', software')
      case SoftwareAdvances(bytes) =>
        && software + bytes <= firmware + (if dir.HostBound? then 0 else c.size) && Orderly(c, r, bytes)
        && Run(dir, c, Advance(c, r, bytes), firmware, software + bytes, events[1..], r', firmware', software')
  }

  /** In every such run both pointers are the start plus their side's total modulo the size, the
      cycle bits count the rounds except that the firmware's is one ahead while a flip is pending,
      and neither unread nor unsent data exceeds the buffer. */
  lemma {:induction false} RunTracks(dir: Direction, c: Config, r: Regs, firmware: nat, software: nat,
                                     events: seq<Event>,
                                     r': Regs, firmware': nat, software': nat)
    requires Tracked(dir, c, r, firmware, software)
    requires Run(dir, c, r, firmware, software, events, r', firmware', software')
    ensures Tracked(dir, c, r', firmware', software')
    decreases |events|
  {
    if events != [] {
      match events[0]
      case FirmwareFlips =>
        MoveTracks(dir, c, r, firmware, software);
        RunTracks(dir, c, Flip(r), firmware, software, events[1..], r', firmware', software');
      case FirmwareMoves =>
        MoveTracks(dir, c, r, firmware, software);
        RunTracks(dir, c, MoveDma(c, r), firmware + c.unit, software, events[1..], r', firmware', software');
      case SoftwareAdvances(bytes) =>
        AdvanceTracks(dir, c, r, firmware, software, bytes);
        RunTracks(dir, c, Advance(c, r, bytes), firmware, software + bytes, events[1..], r', firmware', software');
    }
  }

  lemma MoveTracks(dir: Direction, c: Config, r: Regs, firmware: nat, software: nat)
    requires Tracked(dir, c, r, firmware, software)
    ensures CanFlip(dir, c, r) ==> Tracked(dir, c, Flip(r), firmware, software)
    ensures CanMove(dir, c, r) ==> Tracked(dir, c, MoveDma(c, r), firmware + c.unit, software)
  {
    if dir.HostBound? {
      ToHostMove(c, r, firmware, software);
    } else {
      FromHostMove(c, r, software, firmware);
    }
  }

  lemma AdvanceTracks(dir: Direction, c: Config, r: Regs, firmware: nat, software: nat, bytes: nat)
    requires Tracked(dir, c, r, firmware, software)
    requires software + bytes <= firmware + if dir.HostBound? then 0 else c.size
    ensures c.unit > 0
    ensures Tracked(dir, c, Advance(c, r, bytes), firmware, software + bytes) <==> Orderly(c, r, bytes)
  {
    if dir.HostBound? {
      ConsumeIff(c, r, firmware, software, bytes);
    } else {
      FillIff(c, r, software, firmware, bytes);
    }
  }

  lemma StartedTracks(c: Config)
    requires ValidConfig(c)
    ensures ToHost(c, Started(c), 0, 0) && FromHost(c, Started(c), 0, 0)
  {
    DivModIs(0, c.size, 0, 0);
    DivModIs(0, c.unit, 0, 0);
  }

  // ---------------------------------------------------------------- the reported percentage

  /** The fill level that wupper-dma-stat prints; nothing if the pointers make no sense. */
  function Percent(start: nat, end: nat, r: Regs): Option<nat> {
    if end > start && start <= r.current <= end && start <= r.readPtr <= end then
      Some(if r.readPtr == r.current then (if r.evenDma == r.evenPc then 100 else 0)
           else if r.readPtr < r.current then (100 * (r.current - r.readPtr)) / (end - start)
           else (100 * ((end - r.readPtr) + (r.current - start))) / (end - start))
    else None
  }

  /** A percentage is printed exactly when both pointers lie in the buffer or at its end. */
  lemma PercentDefinedIff(start: nat, end: nat, r: Regs)
    ensures Percent(start, end, r).Some? <==>
      start < end && start <= r.current <= end && start <= r.readPtr <= end
  {
  }

  lemma FullPercent(size: nat)
    requires size > 0
    ensures (100 * size) / size == 100 && (100 * 0) / size == 0
  {
    DivModIs(100 * size, size, 100, 0);
    DivModIs(0, size, 0, 0);
  }

  /** To host, the reported percentage is the unread share exactly when the ring is neither empty
      nor full, or is empty while a flip is pending; an empty ring is otherwise reported full,
      and a full one empty. */
  lemma ToHostPercentIff(c: Config, r: Regs, produced: nat, consumed: nat)
    requires ToHost(c, r, produced, consumed)
    ensures var unread, report := produced - consumed, Percent(c.start, c.start + c.size, r);
      && (report == Some((100 * unread) / c.size) <==> 0 < unread < c.size || (unread == 0 && r.pending))
      && (unread == 0 && !r.pending ==> report == Some(100))
      && (unread == c.size ==> report == Some(0))
  {
    PointersMeet(c, produced, consumed);
    MoveBy(c, consumed, produced - consumed);
    FullPercent(c.size);
  }

  /** From host, the same number is the free share exactly when the ring is not full while a flip
      is pending; such a ring is reported all free. */
  lemma FromHostPercentIff(c: Config, r: Regs, filled: nat, taken: nat)
    requires FromHost(c, r, filled, taken)
    ensures var free, report := c.size - (filled - taken), Percent(c.start, c.start + c.size, r);
      && (report == Some((100 * free) / c.size) <==> !(r.pending && free == 0))
      && (r.pending && free == 0 ==> report == Some(100))
  {
    PointersMeet(c, filled, taken);
    MoveBy(c, taken, filled - taken);
    FullPercent(c.size);
  }
}
