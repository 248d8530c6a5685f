/**
 Scheduling the PDUs to send, and the two ways to compute their raw values: by scanning a range of
 columns, and by following the list of active columns that the schedule leaves behind.
 */
module TxSchedule {
  import opened Arithmetic
  import opened Container
  import opened Matrix
  import opened PduObjects

  /** The linear map of a signal: its bounds, and the raw value of a physical value. */
  datatype LinearMap = LinearMap(min: real, max: real, toRaw: real -> nat)

  // ---------------------------------------------------------------------------------------------
  // When a PDU is due
  // ---------------------------------------------------------------------------------------------

  /** Due at step `t`, as computed: not before the base, and then every `interval` steps. */
  predicate Due(interval: nat, phase: nat, epoch: int, t: nat) {
    var base := epoch + phase;
    interval == 0 || !(base < 0 || t < base || (t - base) % interval != 0)
  }

  /** The steps at which a PDU is due are its base and every interval after it. */
  lemma DueIff(interval: nat, phase: nat, epoch: int, t: nat)
    requires interval > 0
    ensures Due(interval, phase, epoch, t) <==>
            epoch + phase >= 0 && exists n: nat :: t == epoch + phase + n * interval
  {
    var base := epoch + phase;
    if Due(interval, phase, epoch, t) {
      var n := (t - base) / interval;
      assert t == base + n * interval;
    }
    if base >= 0 {
      forall n: nat | t == base + n * interval ensures Due(interval, phase, epoch, t) {
        MulMono(0, n, interval);
        DivisionIsUnique(t - base, interval, n, 0);
      }
    }
  }

  /** The C cast of a floating point number to an integer: towards zero. */
  function Truncate(x: real): int {
    if x >= 0.0 then x.Floor else -(-x).Floor
  }

  /** The whole part: what is cut off is less than one and has the sign of the number. */
  lemma TruncateIs(x: real)
    ensures x >= 0.0 ==> 0.0 <= x - Truncate(x) as real < 1.0 && Truncate(x) >= 0
    ensures x < 0.0 ==> -1.0 < x - Truncate(x) as real <= 0.0 && Truncate(x) <= 0
    ensures Truncate(-x) == -Truncate(x)
  {
  }

  /** A stored interval is the whole number of steps that fit the configured one. */
  lemma IntervalIsStored(interval: real, stepSize: real)
    requires interval > 0.0 && stepSize > 0.0
    ensures var n := StoredInterval(interval, stepSize) as real;
            n <= interval / stepSize < n + 1.0
  {
    DivPositive(interval, stepSize);
    TruncateIs(interval / stepSize);
  }

  /** The interval in steps; 0 stands for no schedule. */
  function StoredInterval(interval: real, stepSize: real): nat
    requires stepSize > 0.0
  {
    if interval > 0.0 then DivPositive(interval, stepSize); Truncate(interval / stepSize) else 0
  }

  /** An interval that is shorter than a step is no schedule at all: the PDU is due in every step. */
  lemma ShortIntervalIsUnscheduled(interval: real, stepSize: real)
    requires stepSize > 0.0
    ensures StoredInterval(interval, stepSize) == 0 <==> interval < stepSize
  {
    if interval > 0.0 {
      var q := interval / stepSize;
      assert q * stepSize == interval;
      if q < 1.0 {
        ProductOf(1.0 - q, stepSize);
        assert (1.0 - q) * stepSize == stepSize - interval;
      } else {
        ProductOf(q - 1.0, stepSize);
        assert (q - 1.0) * stepSize == interval - stepSize;
      }
    }
  }

  lemma ProductOf(x: real, y: real)
    requires x >= 0.0 && y > 0.0
    ensures x * y >= 0.0 && (x > 0.0 ==> x * y > 0.0)
  {
  }

  lemma DivPositive(x: real, y: real)
    requires x > 0.0 && y > 0.0
    ensures x / y > 0.0
  {
  }

  /** The phase in steps; a configured phase of 0.0 is kept as 0, any other is made absolute to the epoch. */
  function StoredPhase(interval: nat, phase: real, stepSize: real): int
    requires stepSize > 0.0
  {
    if phase != 0.0 && interval != 0 then
      var steps := Truncate(phase / stepSize);
      if steps > 0 then interval + steps % interval else interval - (-steps) % interval
    else 0
  }

  /**
   The stored phase keeps the residue of the configured one and stays below two intervals. It is 0
   exactly for a configured 0.0: even a phase shorter than half a step is moved on by one interval.
   */
  lemma PhaseIsStored(interval: nat, phase: real, stepSize: real)
    requires interval > 0 && stepSize > 0.0
    ensures 0 <= StoredPhase(interval, phase, stepSize) < 2 * interval
    ensures StoredPhase(interval, phase, stepSize) % interval == Truncate(phase / stepSize) % interval
    ensures StoredPhase(interval, phase, stepSize) == 0 <==> phase == 0.0
  {
    var steps := Truncate(phase / stepSize);
    if phase == 0.0 {
      assert phase / stepSize == 0.0;
    } else {
      StepsToPhase(interval, steps);
    }
  }

  lemma StepsToPhase(interval: nat, steps: int)
    requires interval > 0
    ensures var stored := if steps > 0 then interval + steps % interval else interval - (-steps) % interval;
            0 < stored < 2 * interval && stored % interval == steps % interval
  {
    var q, r := steps / interval, steps % interval;
    var m, k := (-steps) / interval, (-steps) % interval;
    if steps > 0 {
      DivisionIsUnique(interval + r, interval, 1, r);
    } else if k == 0 {
      DivisionIsUnique(interval, interval, 1, 0);
      DivisionIsUnique(steps, interval, -m, 0);
    } else {
      DivisionIsUnique(interval - k, interval, 0, interval - k);
      assert steps == (-m - 1) * interval + (interval - k) by {
        assert -steps == m * interval + k;
        assert (-m - 1) * interval == -(m * interval) - interval;
      }
      DivisionIsUnique(steps, interval, -m - 1, interval - k);
    }
  }

  /**
   Without an epoch, a scheduled PDU is due in step 0 exactly if its configured phase is 0.0; a phase
   that is too small to make a step, or a whole number of intervals, is due an interval later.
   */
  lemma DueAtStartIff(interval: nat, phase: real, stepSize: real)
    requires interval > 0 && stepSize > 0.0
    ensures StoredPhase(interval, phase, stepSize) >= 0
    ensures Due(interval, StoredPhase(interval, phase, stepSize), 0, 0) <==> phase == 0.0
    ensures phase != 0.0 && Truncate(phase / stepSize) % interval == 0 ==>
              Due(interval, StoredPhase(interval, phase, stepSize), 0, interval)
  {
    PhaseIsStored(interval, phase, stepSize);
    var stored := StoredPhase(interval, phase, stepSize);
    if phase != 0.0 && Truncate(phase / stepSize) % interval == 0 {
      var q := stored / interval;
      assert stored == q * interval + stored % interval;
      if q != 1 {
        if q >= 2 { MulMono(2, q, interval); }
        assert false;
      }
    }
  }

  // ---------------------------------------------------------------------------------------------
  // Columns
  // ---------------------------------------------------------------------------------------------

  predicate Holds(c: PduConfig, i: nat) {
    c.offset <= i < c.offset + c.count
  }

  /** The PDUs have columns of their own, in the order of the rows. */
  predicate Tiled(pdus: seq<PduObject>, count: nat) {
    && (forall k :: 0 <= k < |pdus| ==> pdus[k].config.offset + pdus[k].config.count <= count)
    && (forall j, k :: 0 <= j < k < |pdus| ==>
          pdus[j] != pdus[k] && pdus[j].config.offset + pdus[j].config.count <= pdus[k].config.offset)
  }

  /** The signals of the PDU are to be computed in this step. */
  predicate Fires(c: PduConfig, epoch: int, t: nat) {
    c.dir == DirTx && c.header == HeaderNone && Due(c.interval, c.phase, epoch, t)
  }

  /** Column `i` belongs to one of the first `n` PDUs that fire. */
  predicate Fired(pdus: seq<PduObject>, n: nat, epoch: int, t: nat, i: nat)
    requires n <= |pdus|
  {
    exists k :: 0 <= k < n && Fires(pdus[k].config, epoch, t) && Holds(pdus[k].config, i)
  }

  /** What the schedule does to the flags: containers are raised, periodic PDUs are forced. */
  function FlagsAfter(c: PduConfig, epoch: int, t: nat, flags: (bool, nat)): (bool, nat) {
    if c.dir != DirTx || !Due(c.interval, c.phase, epoch, t) then flags
    else if c.header != HeaderNone then (true, flags.1)
    else if c.interval != 0 && c.trigger == Periodic then (flags.0, 0)
    else flags
  }

  /** The strictly increasing list of the columns that are neither skipped nor invalid. */
  ghost predicate IsActiveList(active: seq<nat>, skip: seq<bool>, invalid: seq<bool>)
    requires |skip| == |invalid|
  {
    && (forall a, b :: 0 <= a < b < |active| ==> active[a] < active[b])
    && (forall i: nat :: i in active <==> i < |skip| && !skip[i] && !invalid[i])
  }

  lemma Activated(active: seq<nat>, skip: seq<bool>, invalid: seq<bool>, i: nat)
    requires |skip| == |invalid| && IsActiveList(active, skip, invalid)
    requires i < |skip| && forall j :: i <= j < |skip| ==> skip[j]
    ensures IsActiveList(if invalid[i] then active else active + [i], skip[i := false], invalid)
  {
    assert forall a :: 0 <= a < |active| ==> active[a] in active;
  }

  predicate InTxRange(ranges: seq<Range>, i: nat) {
    exists r :: r in ranges && r.dir == DirTx && InRange(r, i)
  }

  /** The schedule comes round in step `t`: always without an interval, else at the base and then every interval. */
  ghost predicate IsStep(c: PduConfig, epoch: int, t: nat) {
    c.interval == 0 || (epoch + c.phase >= 0 && exists n: nat :: IsNth(c, epoch, t, n))
  }

  predicate IsNth(c: PduConfig, epoch: int, t: nat, n: nat) {
    t == epoch + c.phase + n * c.interval
  }

  lemma DueIsStep(c: PduConfig, epoch: int, t: nat)
    ensures Due(c.interval, c.phase, epoch, t) <==> IsStep(c, epoch, t)
  {
    if c.interval > 0 {
      DueIff(c.interval, c.phase, epoch, t);
      if n: nat :| t == epoch + c.phase + n * c.interval {
        assert IsNth(c, epoch, t, n);
      }
      if n: nat :| IsNth(c, epoch, t, n) {
        assert t == epoch + c.phase + n * c.interval;
      }
    }
  }

  /** A container to send is raised whenever its schedule comes round; nothing else is, and nothing is lowered. */
  ghost predicate IsRaised(c: PduConfig, epoch: int, t: nat, before: bool, after: bool) {
    after == (before || (c.dir == DirTx && c.header != HeaderNone && IsStep(c, epoch, t)))
  }

  /** A PDU to send by a periodic schedule loses its checksum whenever that comes round; no other does. */
  ghost predicate IsForced(c: PduConfig, epoch: int, t: nat, before: nat, after: nat) {
    after == if c.dir == DirTx && c.header == HeaderNone && c.interval > 0 && c.trigger == Periodic
                && IsStep(c, epoch, t) then 0 else before
  }

  lemma FlagsMean(c: PduConfig, epoch: int, t: nat, flags: (bool, nat))
    ensures var after := FlagsAfter(c, epoch, t, flags);
            IsRaised(c, epoch, t, flags.0, after.0) && IsForced(c, epoch, t, flags.1, after.1)
  {
    DueIsStep(c, epoch, t);
  }

  /** A column fires with the PDU that it belongs to. */
  lemma FiredMeans(pdus: seq<PduObject>, epoch: int, t: nat, k: nat, i: nat, count: nat)
    requires Tiled(pdus, count) && k < |pdus|
    requires pdus[k].config.offset <= i < pdus[k].config.offset + pdus[k].config.count
    ensures i < count
    ensures Fired(pdus, |pdus|, epoch, t, i) <==>
            pdus[k].config.dir == DirTx && pdus[k].config.header == HeaderNone && IsStep(pdus[k].config, epoch, t)
  {
    DueIsStep(pdus[k].config, epoch, t);
    if Fired(pdus, |pdus|, epoch, t, i) {
      var j :| 0 <= j < |pdus| && Fires(pdus[j].config, epoch, t) && Holds(pdus[j].config, i);
      assert j == k;
    }
  }

  lemma ActiveIsAscending(active: seq<nat>, skip: seq<bool>, invalid: seq<bool>)
    requires |skip| == |invalid| && IsActiveList(active, skip, invalid)
    ensures forall a, b :: 0 <= a < b < |active| ==> active[a] < active[b]
    ensures forall a :: 0 <= a < |active| ==> active[a] < |skip|
  {
    assert forall a :: 0 <= a < |active| ==> active[a] in active;
  }

  lemma ActiveMeans(active: seq<nat>, skip: seq<bool>, invalid: seq<bool>, i: nat)
    requires |skip| == |invalid| && IsActiveList(active, skip, invalid) && i < |skip|
    ensures i in active <==> !skip[i] && !invalid[i]
  {
  }

  class SignalColumns {
    const skip: array<bool>
    const invalid: seq<bool>
    const phys: array<real>
    const linear: seq<LinearMap>
    const raw: array<nat>
    var activeIdx: seq<nat>

    predicate Valid() {
      && |invalid| == |linear| == skip.Length == phys.Length == raw.Length
    }

    method SetSkipClearActive()
      modifies this, skip
      ensures activeIdx == [] && forall i :: 0 <= i < skip.Length ==> skip[i]
    {
      for i := 0 to skip.Length
        invariant forall j :: 0 <= j < i ==> skip[j]
      {
        skip[i] := true;
      }
      activeIdx := [];
    }

    /** Activate the columns of one PDU, all of them behind those activated before. */
    method ClearSkip(offset: nat, count: nat)
      requires Valid() && offset + count <= skip.Length
      requires IsActiveList(activeIdx, skip[..], invalid)
      requires forall i :: offset <= i < skip.Length ==> skip[i]
      modifies this, skip
      ensures forall i :: 0 <= i < skip.Length ==> skip[i] == (old(skip[i]) && !(offset <= i < offset + count))
      ensures IsActiveList(activeIdx, skip[..], invalid)
    {
      for i := 0 to count
        invariant forall j :: 0 <= j < skip.Length ==> skip[j] == (old(skip[j]) && !(offset <= j < offset + i))
        invariant IsActiveList(activeIdx, skip[..], invalid)
      {
        if !skip[offset + i] {
          continue;
        }
        Activated(activeIdx, skip[..], invalid, offset + i);
        ghost var was := skip[..];
        skip[offset + i] := false;
        assert skip[..] == was[offset + i := false];
        if !invalid[offset + i] {
          activeIdx := activeIdx + [offset + i];
        }
      }
    }

    /** Decide what one PDU does at step `t`. */
    method ScheduleOne(o: PduObject, epoch: int, t: nat)
      requires Valid() && o.config.offset + o.config.count <= skip.Length
      requires IsActiveList(activeIdx, skip[..], invalid)
      requires forall i :: o.config.offset <= i < skip.Length ==> skip[i]
      modifies this, skip, o`needsTx, o`checksum
      ensures forall i :: 0 <= i < skip.Length ==>
                skip[i] == (old(skip[i]) && !(Fires(o.config, epoch, t) && Holds(o.config, i)))
      ensures IsActiveList(activeIdx, skip[..], invalid)
      ensures o.Flags() == FlagsAfter(o.config, epoch, t, old(o.Flags()))
    {
      if o.config.dir != DirTx {
        return;
      }
      if o.config.interval == 0 {
        if o.config.header != HeaderNone {
          o.needsTx := true;
          return;
        } else {
          ClearSkip(o.config.offset, o.config.count);
          return;
        }
      }
      var base := epoch + o.config.phase;
      if base < 0 || t < base {
        return;
      }
      if (t - base) % o.config.interval != 0 {
        return;
      }
      if o.config.header != HeaderNone {
        o.needsTx := true;
        return;
      }
      ClearSkip(o.config.offset, o.config.count);
      if o.config.trigger == Periodic {
        o.checksum := 0;
      }
    }

    /** Decide which PDUs are due at step `t`. */
    method Schedule(pdus: seq<PduObject>, epoch: int, t: nat)
      requires Valid() && Tiled(pdus, skip.Length)
      modifies this, skip, pdus
      ensures forall i :: 0 <= i < skip.Length ==> skip[i] == !Fired(pdus, |pdus|, epoch, t, i)
      ensures IsActiveList(activeIdx, skip[..], invalid)
      ensures forall a, b :: 0 <= a < b < |activeIdx| ==> activeIdx[a] < activeIdx[b] < skip.Length
      ensures forall k :: 0 <= k < |pdus| ==>
                pdus[k].Flags() == FlagsAfter(pdus[k].config, epoch, t, old(pdus[k].Flags()))
      ensures forall k, i :: 0 <= k < |pdus|
                             && pdus[k].config.offset <= i < pdus[k].config.offset + pdus[k].config.count ==>
                (i in activeIdx <==> pdus[k].config.dir == DirTx && pdus[k].config.header == HeaderNone
                                     && IsStep(pdus[k].config, epoch, t) && !invalid[i])
      ensures forall k, i :: 0 <= k < |pdus| && pdus[k].config.interval == 0
                             && pdus[k].config.offset <= i < pdus[k].config.offset + pdus[k].config.count ==>
                (i in activeIdx <==> pdus[k].config.dir == DirTx && pdus[k].config.header == HeaderNone && !invalid[i])
      ensures forall k :: 0 <= k < |pdus| && pdus[k].config.interval == 0 && pdus[k].config.dir == DirTx ==>
                (pdus[k].needsTx <==> old(pdus[k].needsTx) || pdus[k].config.header != HeaderNone)
      ensures forall k :: 0 <= k < |pdus| ==>
                IsRaised(pdus[k].config, epoch, t, old(pdus[k].needsTx), pdus[k].needsTx)
      ensures forall k :: 0 <= k < |pdus| ==>
                IsForced(pdus[k].config, epoch, t, old(pdus[k].checksum), pdus[k].checksum)
    {
      hide Fires, FlagsAfter, IsActiveList;
      SetSkipClearActive();
      NoneActive();
      for k := 0 to |pdus|
        invariant forall i :: 0 <= i < skip.Length ==> skip[i] == !Fired(pdus, k, epoch, t, i)
        invariant k < |pdus| ==> forall i :: pdus[k].config.offset <= i < skip.Length ==> skip[i]
        invariant IsActiveList(activeIdx, skip[..], invalid)
        invariant forall j :: 0 <= j < k ==>
                    pdus[j].Flags() == FlagsAfter(pdus[j].config, epoch, t, old(pdus[j].Flags()))
        invariant forall j :: k <= j < |pdus| ==> pdus[j].Flags() == old(pdus[j].Flags())
      {
        ScheduleOne(pdus[k], epoch, t);
      }
      ActiveIsAscending(activeIdx, skip[..], invalid);
      forall k | 0 <= k < |pdus|
        ensures IsRaised(pdus[k].config, epoch, t, old(pdus[k].needsTx), pdus[k].needsTx)
        ensures IsForced(pdus[k].config, epoch, t, old(pdus[k].checksum), pdus[k].checksum)
      {
        FlagsMean(pdus[k].config, epoch, t, old(pdus[k].Flags()));
      }
      forall k, i | 0 <= k < |pdus| && pdus[k].config.offset <= i < pdus[k].config.offset + pdus[k].config.count
        ensures i in activeIdx <==>
                pdus[k].config.dir == DirTx && pdus[k].config.header == HeaderNone
                && IsStep(pdus[k].config, epoch, t) && !invalid[i]
      {
        FiredMeans(pdus, epoch, t, k, i, skip.Length);
        ActiveMeans(activeIdx, skip[..], invalid, i);
      }
    }

    lemma NoneActive()
      requires Valid() && activeIdx == [] && forall i :: 0 <= i < skip.Length ==> skip[i]
      ensures IsActiveList(activeIdx, skip[..], invalid)
    {
      assert forall i :: 0 <= i < |skip[..]| ==> skip[..][i];
    }

    predicate InBounds(i: nat)
      requires Valid() && i < raw.Length
      reads phys
    {
      linear[i].min <= phys[i] <= linear[i].max
    }

    /** The raw value of column `i` after a computation that covers it. */
    function Computed(i: nat, before: nat): nat
      requires Valid() && i < raw.Length
      reads phys
    {
      if InBounds(i) then linear[i].toRaw(phys[i]) else before
    }

    predicate Active(i: nat)
      requires Valid() && i < raw.Length
      reads skip
    {
      !skip[i] && !invalid[i]
    }

    /** Exactly the active columns have been computed from their physical values. */
    ghost predicate Encoded(before: seq<nat>)
      requires Valid() && |before| == raw.Length
      reads skip, phys, raw
    {
      forall i :: 0 <= i < raw.Length ==> raw[i] == if Active(i) then Computed(i, before[i]) else before[i]
    }

    /** Compute the columns on the active list. */
    method CalculateActive()
      requires Valid() && IsActiveList(activeIdx, skip[..], invalid)
      modifies raw
      ensures Encoded(old(raw[..]))
    {
      for k := 0 to |activeIdx|
        invariant forall i :: 0 <= i < raw.Length ==>
                    raw[i] == if i in activeIdx[..k] then Computed(i, old(raw[i])) else old(raw[i])
      {
        var i := activeIdx[k];
        assert i in activeIdx;
        assert activeIdx[..k + 1] == activeIdx[..k] + [i];
        if phys[i] > linear[i].max || phys[i] < linear[i].min {
          continue;
        }
        raw[i] := linear[i].toRaw(phys[i]);
      }
      assert activeIdx[..|activeIdx|] == activeIdx;
      assert forall i :: 0 <= i < raw.Length ==> (i in activeIdx <==> Active(i));
    }

    /** Compute the columns of a range, leaving out the skipped and the invalid ones. */
    method CalculateRange(r: Range)
      requires Valid() && r.offset + r.length <= raw.Length
      modifies raw
      ensures forall i :: 0 <= i < raw.Length ==>
                raw[i] == if InRange(r, i) && Active(i) then Computed(i, old(raw[i])) else old(raw[i])
    {
      for k := 0 to r.length
        invariant forall i :: 0 <= i < raw.Length ==>
                    raw[i] == if r.offset <= i < r.offset + k && Active(i)
                              then Computed(i, old(raw[i])) else old(raw[i])
      {
        var i := r.offset + k;
        if skip[i] || invalid[i] || phys[i] > linear[i].max || phys[i] < linear[i].min {
          continue;
        }
        raw[i] := linear[i].toRaw(phys[i]);
      }
    }

    /** Compute every Tx range. */
    method CalculateTxRanges(ranges: seq<Range>)
      requires Valid() && forall r :: r in ranges ==> r.offset + r.length <= raw.Length
      requires forall i :: 0 <= i < raw.Length && !skip[i] ==> InTxRange(ranges, i)
      modifies raw
      ensures Encoded(old(raw[..]))
    {
      for k := 0 to |ranges|
        invariant forall i :: 0 <= i < raw.Length ==>
                    raw[i] == if InTxRange(ranges[..k], i) && Active(i) then Computed(i, old(raw[i])) else old(raw[i])
      {
        var r := ranges[k];
        assert ranges[..k + 1] == ranges[..k] + [r];
        if r.dir == DirTx {
          CalculateRange(r);
        }
      }
      assert ranges[..|ranges|] == ranges;
    }

    /**
     Schedule, then compute the raw values: by the active list, or by scanning the ranges. Either way
     exactly the valid columns of the PDUs that fire are computed.
     */
    method ScheduleAndEncode(
        pdus: seq<PduObject>, ranges: seq<Range>, epoch: int, t: nat, scan: bool, ghost items: seq<PduItem>)
      requires Valid() && LaidOut(pdus, items) && SortedByDirection(items)
      requires skip.Length == Offset(items, |items|) && ranges == Ranges(items)
      modifies this, skip, raw, pdus
      ensures IsActiveList(activeIdx, skip[..], invalid)
      ensures forall i :: 0 <= i < raw.Length ==>
                raw[i] == if Fired(pdus, |pdus|, epoch, t, i) && !invalid[i]
                          then Computed(i, old(raw[i])) else old(raw[i])
      ensures forall k, i :: 0 <= k < |pdus| && pdus[k].config.interval == 0
                             && pdus[k].config.offset <= i < pdus[k].config.offset + pdus[k].config.count ==>
                i < raw.Length &&
                raw[i] == if pdus[k].config.dir == DirTx && pdus[k].config.header == HeaderNone
                             && !invalid[i] && linear[i].min <= phys[i] <= linear[i].max
                          then linear[i].toRaw(phys[i]) else old(raw[i])
      ensures forall k, i :: 0 <= k < |pdus|
                             && pdus[k].config.offset <= i < pdus[k].config.offset + pdus[k].config.count ==>
                i < raw.Length &&
                raw[i] == if pdus[k].config.dir == DirTx && pdus[k].config.header == HeaderNone
                             && IsStep(pdus[k].config, epoch, t) && !invalid[i]
                             && linear[i].min <= phys[i] <= linear[i].max
                          then linear[i].toRaw(phys[i]) else old(raw[i])
      ensures forall k :: 0 <= k < |pdus| ==>
                IsRaised(pdus[k].config, epoch, t, old(pdus[k].needsTx), pdus[k].needsTx)
      ensures forall k :: 0 <= k < |pdus| ==>
                IsForced(pdus[k].config, epoch, t, old(pdus[k].checksum), pdus[k].checksum)
    {
      hide Ranges, Fired, LaidOut, Offset, IsActiveList;
      LaidOutIsTiled(pdus, items);
      Schedule(pdus, epoch, t);
      forall i | 0 <= i < raw.Length && !skip[i] ensures InTxRange(ranges, i) {
        FiredIsInTxRange(pdus, items, epoch, t, i);
      }
      RangesFit(items);
      if scan {
        CalculateTxRanges(ranges);
      } else {
        CalculateActive();
      }
      forall k, i | 0 <= k < |pdus| && pdus[k].config.offset <= i < pdus[k].config.offset + pdus[k].config.count
        ensures i < raw.Length
        ensures Fired(pdus, |pdus|, epoch, t, i) <==>
                pdus[k].config.dir == DirTx && pdus[k].config.header == HeaderNone && IsStep(pdus[k].config, epoch, t)
      {
        FiredMeans(pdus, epoch, t, k, i, raw.Length);
      }
    }
  }

  // ---------------------------------------------------------------------------------------------
  // The layout under the schedule
  // ---------------------------------------------------------------------------------------------

  /** The PDU objects have the columns that the layout gives to the rows. */
  predicate LaidOut(pdus: seq<PduObject>, items: seq<PduItem>) {
    && |pdus| == |items|
    && (forall k :: 0 <= k < |pdus| ==>
          && pdus[k].config.dir == items[k].dir
          && pdus[k].config.offset == Offset(items, k)
          && pdus[k].config.count == |items[k].signals|)
    && (forall j, k :: 0 <= j < k < |pdus| ==> pdus[j] != pdus[k])
  }

  lemma LaidOutIsTiled(pdus: seq<PduObject>, items: seq<PduItem>)
    requires LaidOut(pdus, items)
    ensures Tiled(pdus, Offset(items, |items|))
  {
    hide Offset;
    forall k | 0 <= k < |pdus| ensures pdus[k].config.offset + pdus[k].config.count <= Offset(items, |items|) {
      OffsetNext(items, k);
      OffsetGrows(items, k + 1, |items|);
    }
    forall j, k | 0 <= j < k < |pdus| ensures pdus[j].config.offset + pdus[j].config.count <= pdus[k].config.offset {
      OffsetNext(items, j);
      OffsetGrows(items, j + 1, k);
    }
  }

  /** What the schedule activates lies in the Tx range, so both computations see it. */
  lemma FiredIsInTxRange(pdus: seq<PduObject>, items: seq<PduItem>, epoch: int, t: nat, i: nat)
    requires LaidOut(pdus, items) && SortedByDirection(items) && Fired(pdus, |pdus|, epoch, t, i)
    ensures InTxRange(Ranges(items), i)
  {
    hide Offset, Ranges, Due, SortedByDirection;
    var k :| 0 <= k < |pdus| && Fires(pdus[k].config, epoch, t) && Holds(pdus[k].config, i);
    assert items[k].dir == DirTx;
    RangesCover(items, k, i - Offset(items, k));
  }

  lemma RangesFit(items: seq<PduItem>)
    ensures forall r :: r in Ranges(items) ==> r.offset + r.length <= Offset(items, |items|)
  {
    hide Offset, Below;
    OffsetGrows(items, Below(items, 2), |items|);
    OffsetGrows(items, Below(items, 3), |items|);
  }
}
