/** The XDP attach point's operations on the kernel (felix/bpf/xdp/attach.go):
    configuring and pinning the preamble object's maps, the idempotency
    check, the attach and detach mode loops, and the jump-map update. */
module XdpAttach {
  import opened Base
  import opened TcDefs
  import opened Seqs
  import opened Libbpf
  import opened Xdp

  /** ProgramID: the ID of the XDP program on the attach point's interface. */
  method ProgramID(ap: AttachPoint, k: Kernel) returns (r: Result<int>)
    modifies k`calls
    ensures k.calls == old(k.calls) + [IdQuery(ap.iface, ValueOf(r))]
    ensures r.Ok? ==> r.value == k.ProgramOn(ap.iface)
    ensures r.Err? ==> r.error == ProgramIDUnavailable(ap.iface, Sys)
  {
    var q := k.GetXDPProgramID(ap.iface);
    if q.Err? {
      return Err(ProgramIDUnavailable(ap.iface, q.error));
    }
    return Ok(q.value);
  }

  /** IsAttached reports whether the ID query succeeded, not whether a
      program is attached: it answers true even when the ID is DetachedID.
      The ghost result is the query's reply. */
  method IsAttached(ap: AttachPoint, k: Kernel) returns (r: Result<bool>, ghost id: Option<int>)
    modifies k`calls
    ensures k.calls == old(k.calls) + [IdQuery(ap.iface, id)]
    ensures id.Some? ==> id.value == k.ProgramOn(ap.iface)
    ensures r.Ok? <==> id.Some?
    ensures r.Ok? ==> r.value
    ensures r.Err? ==> r.error == ProgramIDUnavailable(ap.iface, Sys)
  {
    var q := ProgramID(ap, k);
    id := ValueOf(q);
    if q.Err? {
      return Err(q.error), id;
    }
    return Ok(true), id;
  }

  /** The queries AlreadyAttached makes, with their replies: each one only
      after the earlier ones succeeded. */
  ghost function ProbeLog(iface: Iface, objectFile: string, p: Probe): seq<Call>
  {
    [IdQuery(iface, p.id)] +
    if p.id.None? then []
    else
      [IdQuery(iface, p.again)] +
      if p.again.None? then [] else [OwnerQuery(iface, objectFile, p.id.value, p.owned)]
  }

  /** AlreadyAttached: the three queries in order, stopping at the first
      error. The ghost result is the replies, as logged. */
  method AlreadyAttached(ap: AttachPoint, k: Kernel, objectFile: string)
    returns (id: int, attached: bool, ghost p: Probe)
    modifies k`calls
    ensures k.calls == old(k.calls) + ProbeLog(ap.iface, objectFile, p)
    ensures ProbeAnswers(p, k.ProgramOn(ap.iface), k.IsOurs(ap.iface, objectFile, k.ProgramOn(ap.iface)))
    ensures (id, attached) == AlreadyAttachedOf(p)
    ensures attached <==> p.id.Some? && p.again.Some? && p.owned.Some? &&
                          k.IsOurs(ap.iface, objectFile, k.ProgramOn(ap.iface))
    ensures attached ==> id == k.ProgramOn(ap.iface)
  {
    var q := ProgramID(ap, k);
    p := Probe(ValueOf(q), None, None);
    if q.Err? {
      return -1, false, p;
    }
    var progID := q.value;
    var s;
    ghost var again;
    s, again := IsAttached(ap, k);
    p := p.(again := again);
    if s.Err? {
      return -1, false, p;
    }
    var somethingAttached := s.value;
    var o := k.AlreadyAttachedProg(ap.iface, objectFile, progID);
    p := p.(owned := ValueOf(o));
    AlreadyAttachedRecognises(p, k.ProgramOn(ap.iface), k.IsOurs(ap.iface, objectFile, progID));
    if o.Err? {
      return -1, false, p;
    }
    var isAttached := o.value;
    if isAttached && somethingAttached {
      return progID, true, p;
    }
    return -1, false, p;
  }

  /** ConfigureProgram: puts the padded interface name into the global data
      and writes the whole record to the internal map at index `i`. */
  method ConfigureProgram(obj: Obj, i: nat, iface: Iface, g: GlobalData) returns (r: Outcome)
    modifies g`ifaceName, obj`globals, obj`ops
    ensures obj.ops == old(obj.ops) + [GlobalsCall(i, r.Pass?)]
    ensures g.ifaceName == IfaceField(iface) && g.jumps == old(g.jumps)
    ensures r.Pass? ==> obj.globals == old(obj.globals)[i := GlobalRecord(IfaceField(iface), g.jumps)]
    ensures r.Fail? ==> r.error == ConfigureFailed(Sys) && obj.globals == old(obj.globals)
  {
    var name := PadIfaceName(iface);
    g.ifaceName := name;
    var w := obj.SetGlobals(i, g);
    if w.Fail? {
      return Fail(ConfigureFailed(w.error));
    }
    return Pass;
  }

  /** The map at index `j` of `maps` is set up for the attach point, given
      the pin paths and global data written so far: an internal map holds the
      interface name and the default jump table, any other map is pinned at
      its path for this interface. */
  predicate ConfiguredAt(maps: seq<BpfMap>, pins: map<nat, PinPath>,
                         globals: map<nat, GlobalRecord>, j: nat, ap: AttachPoint)
  {
    j < |maps| &&
    if maps[j].internal then
      j in globals && globals[j].ifaceName == IfaceField(ap.iface) &&
      IsDefaultJumpTable(globals[j].jumps, ap.policyIdx)
    else
      j in pins && pins[j] == PinPath(maps[j].mapType, maps[j].name, ap.iface)
  }

  predicate Configured(obj: Obj, j: nat, ap: AttachPoint)
    reads obj`pins, obj`globals
  {
    ConfiguredAt(obj.maps, obj.pins, obj.globals, j, ap)
  }

  predicate AllConfigured(obj: Obj, ap: AttachPoint)
    reads obj`pins, obj`globals
  {
    forall j :: 0 <= j < |obj.maps| ==> Configured(obj, j, ap)
  }

  /** The call that sets up map `m`, at index `j`, for the attach point:
      global data for an internal map, its pin path for any other. */
  function MapCall(ap: AttachPoint, m: BpfMap, j: nat, ok: bool): ObjCall
  {
    if m.internal then GlobalsCall(j, ok) else PinCall(j, PinPath(m.mapType, m.name, ap.iface), ok)
  }

  /** The calls that set up the first `n` maps, each one succeeding. */
  ghost function SetupDone(ap: AttachPoint, maps: seq<BpfMap>, n: nat): seq<ObjCall>
    requires n <= |maps|
  {
    if n == 0 then [] else SetupDone(ap, maps, n - 1) + [MapCall(ap, maps[n - 1], n - 1, true)]
  }

  /** The calls of a map walk that set up the first `n` maps and, when `n`
      is short of the end, failed on map `n`. */
  ghost function SetupLog(ap: AttachPoint, maps: seq<BpfMap>, n: nat): seq<ObjCall>
    requires n <= |maps|
  {
    SetupDone(ap, maps, n) + if n < |maps| then [MapCall(ap, maps[n], n, false)] else []
  }

  /** The attach calls the mode loop makes for the given replies: one per
      mode, in order, each a forced replace of `oldID`. */
  ghost function AttachLog(ap: AttachPoint, oldID: int, replies: seq<Result<int>>): seq<Call>
    requires |replies| <= |ap.modes|
  {
    if replies == [] then []
    else
      var n := |replies| - 1;
      AttachLog(ap, oldID, replies[..n]) +
        [AttachCall(ap.iface, ProgramName, oldID, XdpFlagsReplace | ModeFlags(ap.modes[n]), replies[n])]
  }

  /** The map walk of AttachProgram: every internal map gets the global data
      (interface name and default jump table), every other map its pin path;
      the walk stops at the first failure. The ghost result is the number of
      maps set up, which on failure is the index of the failing map. */
  method ConfigureMaps(ap: AttachPoint, o: Obj) returns (r: Outcome, ghost done: nat)
    modifies o`pins, o`globals, o`ops
    ensures done <= |o.maps|
    ensures o.ops == old(o.ops) + SetupLog(ap, o.maps, done)
    ensures r.Pass? <==> done == |o.maps|
    ensures forall j :: 0 <= j < done ==> Configured(o, j, ap)
    ensures r.Pass? ==> AllConfigured(o, ap)
    ensures r.Fail? ==>
              r.error == if o.maps[done].internal then ConfigureFailed(Sys)
                         else PinFailed(o.maps[done].name, Sys)
    // pin paths go only to maps that are not internal, global data only to
    // internal maps, and only to maps before the failing one
    ensures forall j :: j in old(o.pins) ==> j in o.pins
    ensures forall j :: j in o.pins && !(j < done && !o.maps[j].internal) ==>
              j in old(o.pins) && o.pins[j] == old(o.pins)[j]
    ensures forall j :: j in old(o.globals) ==> j in o.globals
    ensures forall j :: j in o.globals && !(j < done && o.maps[j].internal) ==>
              j in old(o.globals) && o.globals[j] == old(o.globals)[j]
  {
    var i := 0;
    while i < |o.maps|
      invariant 0 <= i <= |o.maps|
      invariant o.ops == old(o.ops) + SetupDone(ap, o.maps, i)
      invariant forall j :: 0 <= j < i ==> ConfiguredAt(o.maps, o.pins, o.globals, j, ap)
      invariant forall j :: j in old(o.pins) ==> j in o.pins
      invariant forall j :: j in o.pins && !(j < i && !o.maps[j].internal) ==>
                  j in old(o.pins) && o.pins[j] == old(o.pins)[j]
      invariant forall j :: j in old(o.globals) ==> j in o.globals
      invariant forall j :: j in o.globals && !(j < i && o.maps[j].internal) ==>
                  j in old(o.globals) && o.globals[j] == old(o.globals)[j]
    {
      ghost var pins0, globals0 := o.pins, o.globals;
      var c := ConfigureMap(ap, o, i);
      if c.Fail? {
        return c, i;
      }
      forall j | 0 <= j < i ensures ConfiguredAt(o.maps, o.pins, o.globals, j, ap) {
        assert ConfiguredAt(o.maps, pins0, globals0, j, ap);
      }
      i := i + 1;
    }
    return Pass, i;
  }

  /** One map of the walk: an internal map gets the global data, any other
      map its pin path. Only that map's entry changes. */
  method ConfigureMap(ap: AttachPoint, o: Obj, i: nat) returns (r: Outcome)
    requires i < |o.maps|
    modifies o`pins, o`globals, o`ops
    ensures o.ops == old(o.ops) + [MapCall(ap, o.maps[i], i, r.Pass?)]
    ensures r.Pass? ==> ConfiguredAt(o.maps, o.pins, o.globals, i, ap)
    ensures r.Fail? ==>
              r.error == if o.maps[i].internal then ConfigureFailed(Sys) else PinFailed(o.maps[i].name, Sys)
    ensures o.maps[i].internal || r.Fail? ==> o.pins == old(o.pins)
    ensures !o.maps[i].internal || r.Fail? ==> o.globals == old(o.globals)
    ensures r.Pass? && !o.maps[i].internal ==> o.pins == old(o.pins)[i := o.pins[i]]
    ensures r.Pass? && o.maps[i].internal ==> o.globals == old(o.globals)[i := o.globals[i]]
  {
    var m := o.maps[i];
    if m.internal {
      var jumps := DefaultJumps(ap.policyIdx);
      var globals := new GlobalData(jumps);
      r := ConfigureProgram(o, i, ap.iface, globals);
    } else {
      var p := o.SetPinPath(i, PinPath(m.mapType, m.name, ap.iface));
      r := if p.Fail? then Fail(PinFailed(m.name, p.error)) else Pass;
    }
  }

  /** The mode loop of AttachProgram: a forced replace of `oldID` in each mode
      in turn, until one is accepted. The ghost result is the replies of the
      calls made. */
  method AttachModes(ap: AttachPoint, k: Kernel, o: Obj, oldID: int)
    returns (r: Result<int>, ghost replies: seq<Result<int>>)
    requires o.loaded
    modifies k`progs, k`calls
    ensures forall x :: x != ap.iface ==> k.ProgramOn(x) == old(k.ProgramOn(x))
    // when every mode is refused, the interface runs what it ran before, or
    // a no-op reply's 0 or old ID
    ensures r.Err? ==>
              k.ProgramOn(ap.iface) == old(k.ProgramOn(ap.iface)) ||
              k.ProgramOn(ap.iface) == DetachedID || k.ProgramOn(ap.iface) == oldID
    ensures |replies| <= |ap.modes|
    ensures k.calls == old(k.calls) + AttachLog(ap, oldID, replies)
    ensures r.Ok? ==>
              replies != [] && AttachWinner(oldID, replies) == Some(|replies| - 1) &&
              r == replies[|replies| - 1] && r.value == k.ProgramOn(ap.iface)
    ensures r.Err? ==>
              r.error == AttachFailed(ProgramName, ap.iface) &&
              |replies| == |ap.modes| && AttachWinner(oldID, replies) == None
  {
    replies := [];
    var m := 0;
    while m < |ap.modes|
      invariant 0 <= m <= |ap.modes| && |replies| == m
      invariant k.calls == old(k.calls) + AttachLog(ap, oldID, replies)
      invariant AttachWinner(oldID, replies) == None
      invariant forall x :: x != ap.iface ==> k.ProgramOn(x) == old(k.ProgramOn(x))
      invariant k.ProgramOn(ap.iface) == old(k.ProgramOn(ap.iface)) ||
                k.ProgramOn(ap.iface) == DetachedID || k.ProgramOn(ap.iface) == oldID
    {
      var progID := AttachInMode(ap, k, o, oldID, m, replies, old(k.calls));
      replies := replies + [progID];
      if AttachAccepted(oldID, progID) {
        return progID, replies;
      }
      m := m + 1;
    }
    return Err(AttachFailed(ProgramName, ap.iface)), replies;
  }

  /** One turn of the attach mode loop, after the replies `replies`: a
      forced replace of `oldID` in mode `m`, the next one, logged after `calls0`'s
      earlier turns. Its reply wins exactly when it is accepted. */
  method AttachInMode(ap: AttachPoint, k: Kernel, o: Obj, oldID: int, m: nat,
                      ghost replies: seq<Result<int>>, ghost calls0: seq<Call>)
    returns (progID: Result<int>)
    requires o.loaded && m == |replies| < |ap.modes|
    requires k.calls == calls0 + AttachLog(ap, oldID, replies)
    requires AttachWinner(oldID, replies) == None
    modifies k`progs, k`calls
    ensures k.calls == calls0 + AttachLog(ap, oldID, replies + [progID])
    ensures AttachWinner(oldID, replies + [progID]) ==
              if AttachAccepted(oldID, progID) then Some(|replies|) else None
    ensures progID.Ok? ==> k.progs == old(k.progs)[ap.iface := progID.value]
    ensures progID.Err? ==> k.progs == old(k.progs)
  {
    progID := k.AttachXDP(o, ap.iface, ProgramName, oldID,
                          XdpFlagsReplace | ModeFlags(ap.modes[m]));
    FirstIndexSnoc(replies, progID, AcceptedAgainst(oldID));
    AttachLogSnoc(ap, oldID, replies, progID);
  }

  lemma AttachLogSnoc(ap: AttachPoint, oldID: int, replies: seq<Result<int>>, x: Result<int>)
    requires |replies| < |ap.modes|
    ensures AttachLog(ap, oldID, replies + [x]) ==
              AttachLog(ap, oldID, replies) +
              [AttachCall(ap.iface, ProgramName, oldID, XdpFlagsReplace | ModeFlags(ap.modes[|replies|]), x)]
  {
    assert (replies + [x])[..|replies|] == replies;
  }

  /** The calls AttachProgram makes after loading: the ID query, then, when
      it succeeded, the mode loop's forced replaces of that ID. */
  ghost function ReplaceLog(ap: AttachPoint, oldRead: Option<int>, replies: seq<Result<int>>): seq<Call>
    requires |replies| <= |ap.modes|
  {
    [IdQuery(ap.iface, oldRead)] + if oldRead.Some? then AttachLog(ap, oldRead.value, replies) else []
  }

  /** The part of AttachProgram after the idempotency check: load the
      programs, read the ID to replace, and run the mode loop. The ghost
      results are the ID query's reply and the replies of the attach calls. */
  method LoadAndAttach(ap: AttachPoint, k: Kernel, o: Obj)
    returns (r: Result<int>, ghost oldRead: Option<int>, ghost replies: seq<Result<int>>)
    requires !o.loaded
    modifies o`loaded, o`ops, k`progs, k`calls
    ensures o.ops == old(o.ops) + [LoadCall(o.loaded)]
    ensures forall x :: x != ap.iface ==> k.ProgramOn(x) == old(k.ProgramOn(x))
    ensures r.Ok? ==> r.value == k.ProgramOn(ap.iface)
    // a failure never leaves a new program on the interface
    ensures r.Err? ==> k.ProgramOn(ap.iface) in {old(k.ProgramOn(ap.iface)), DetachedID}
    ensures |replies| <= |ap.modes|
    ensures oldRead.None? ==> replies == []
    // a failed load: no query and no attach
    ensures !o.loaded ==>
              r == Err(LoadFailed(Sys)) && oldRead.None? &&
              k.calls == old(k.calls) && k.progs == old(k.progs)
    ensures o.loaded ==> k.calls == old(k.calls) + ReplaceLog(ap, oldRead, replies)
    ensures oldRead.Some? ==> oldRead.value == old(k.ProgramOn(ap.iface))
    ensures o.loaded && oldRead.None? ==>
              r == Err(GetAttachedIDFailed(ProgramIDUnavailable(ap.iface, Sys))) && k.progs == old(k.progs)
    ensures oldRead.Some? && r.Ok? ==>
              AttachWinner(oldRead.value, replies) == Some(|replies| - 1) && r == replies[|replies| - 1]
    ensures oldRead.Some? && r.Err? ==>
              r.error == AttachFailed(ProgramName, ap.iface) &&
              |replies| == |ap.modes| && AttachWinner(oldRead.value, replies) == None
  {
    oldRead, replies := None, [];
    var l := o.Load();
    if l.Fail? {
      return Err(LoadFailed(l.error)), oldRead, replies;
    }
    var q := ProgramID(ap, k);
    oldRead := ValueOf(q);
    if q.Err? {
      return Err(GetAttachedIDFailed(q.error)), oldRead, replies;
    }
    r, replies := AttachModes(ap, k, o, q.value);
  }

  /** AttachProgram. The ghost results are the opened object (null when
      opening failed), the number of maps set up, the replies of the
      idempotency check (None when the maps could not be set up and no check
      was made), the reply of the ID query before the mode loop, and the
      replies of the attach calls. */
  method AttachProgram(ap: AttachPoint, k: Kernel)
    returns (r: Result<int>, ghost obj: Obj?, ghost mapsSet: nat, ghost probe: Option<Probe>,
             ghost oldRead: Option<int>, ghost replies: seq<Result<int>>)
    modifies k`progs, k`calls
    // only this interface's hook can change, and on success it runs the
    // returned program
    ensures forall x :: x != ap.iface ==> k.ProgramOn(x) == old(k.ProgramOn(x))
    ensures r.Ok? ==> r.value == k.ProgramOn(ap.iface)
    // a failure never leaves a new program on the interface
    ensures r.Err? ==> k.ProgramOn(ap.iface) in {old(k.ProgramOn(ap.iface)), DetachedID}
    // the open is logged; its failure is returned and ends the operation
    ensures obj == null ==> r == Err(Sys) && probe.None?
    ensures obj != null ==> fresh(obj) && obj.path == ObjectPath(PreambleFile)
    ensures |replies| <= |ap.modes|
    // the maps are set up in order up to the first failure, which is
    // returned; the idempotency check follows only when all are set up, and
    // loading only when it does not recognise the program
    ensures obj != null ==>
              mapsSet <= |obj.maps| && (probe.None? <==> mapsSet < |obj.maps|) &&
              obj.ops == SetupLog(ap, obj.maps, mapsSet) +
                           (if probe.Some? && !AlreadyAttachedOf(probe.value).1 then [LoadCall(obj.loaded)] else [])
    ensures obj != null && probe.None? ==>
              mapsSet < |obj.maps| && !obj.loaded &&
              r == Err(if obj.maps[mapsSet].internal then ConfigureFailed(Sys)
                       else PinFailed(obj.maps[mapsSet].name, Sys))
    ensures probe.None? ==>
              k.calls == old(k.calls) + [OpenCall(ObjectPath(PreambleFile), obj != null)] &&
              k.progs == old(k.progs)
    ensures probe.Some? ==> obj != null && AllConfigured(obj, ap)
    ensures obj != null && obj.loaded ==> probe.Some?
    // the check sees the kernel and the store as they were
    ensures probe.Some? ==>
              ProbeAnswers(probe.value, old(k.ProgramOn(ap.iface)),
                           k.IsOurs(ap.iface, ObjectPath(PreambleFile), old(k.ProgramOn(ap.iface))))
    // a recognised program is returned as it is: nothing loaded or attached
    ensures probe.Some? && AlreadyAttachedOf(probe.value).1 ==>
              r == Ok(AlreadyAttachedOf(probe.value).0) && !obj.loaded &&
              k.calls == old(k.calls) + [OpenCall(ObjectPath(PreambleFile), true)] +
                           ProbeLog(ap.iface, ObjectPath(PreambleFile), probe.value) &&
              k.progs == old(k.progs)
    // otherwise the programs are loaded, the ID is read and the modes tried
    ensures probe.Some? && !AlreadyAttachedOf(probe.value).1 ==>
              (obj.loaded || (r == Err(LoadFailed(Sys)) && k.progs == old(k.progs))) &&
              k.calls == old(k.calls) + [OpenCall(ObjectPath(PreambleFile), true)] +
                           ProbeLog(ap.iface, ObjectPath(PreambleFile), probe.value) +
                           (if obj.loaded then ReplaceLog(ap, oldRead, replies) else [])
    ensures oldRead.None? ==> replies == []
    ensures oldRead.Some? ==> obj != null && obj.loaded && oldRead.value == old(k.ProgramOn(ap.iface))
    ensures obj != null && obj.loaded && oldRead.None? ==>
              r == Err(GetAttachedIDFailed(ProgramIDUnavailable(ap.iface, Sys))) && k.progs == old(k.progs)
    ensures oldRead.Some? && r.Ok? ==>
              AttachWinner(oldRead.value, replies) == Some(|replies| - 1) && r == replies[|replies| - 1]
    ensures oldRead.Some? && r.Err? ==>
              r.error == AttachFailed(ProgramName, ap.iface) &&
              |replies| == |ap.modes| && AttachWinner(oldRead.value, replies) == None
  {
    obj, mapsSet, probe, oldRead, replies := null, 0, None, None, [];
    var binaryToLoad := ObjectPath(PreambleFile);
    var handle := OpenObject(k, binaryToLoad);
    obj := handle;
    if handle == null {
      return Err(Sys), obj, mapsSet, probe, oldRead, replies;
    }

    var c;
    c, mapsSet := ConfigureMaps(ap, handle);
    if c.Fail? {
      return Err(c.error), obj, mapsSet, probe, oldRead, replies;
    }

    var progID, isAttached;
    ghost var p;
    progID, isAttached, p := AlreadyAttached(ap, k, binaryToLoad);
    probe := Some(p);
    if isAttached {
      return Ok(progID), obj, mapsSet, probe, oldRead, replies;
    }

    r, oldRead, replies := LoadAndAttach(ap, k, handle);
  }

  /** The calls of one step of the detach loop: the detach call and, after a
      call with no error, the re-read of the ID. */
  ghost function StepLog(iface: Iface, flags: bv32, step: DetachStep): seq<Call>
  {
    [DetachCall(iface, flags, step.Reread?)] + if step.Reread? then [IdQuery(iface, step.id)] else []
  }

  /** The calls the detach loop makes for the given steps: one step per
      mode, in order. */
  ghost function DetachLog(ap: AttachPoint, steps: seq<DetachStep>): seq<Call>
    requires |steps| <= |ap.modes|
  {
    if steps == [] then []
    else
      var n := |steps| - 1;
      DetachLog(ap, steps[..n]) + StepLog(ap.iface, ModeFlags(ap.modes[n]), steps[n])
  }

  lemma DetachLogSnoc(ap: AttachPoint, steps: seq<DetachStep>, x: DetachStep)
    requires |steps| < |ap.modes|
    ensures DetachLog(ap, steps + [x]) ==
              DetachLog(ap, steps) + StepLog(ap.iface, ModeFlags(ap.modes[|steps|]), x)
  {
    assert (steps + [x])[..|steps|] == steps;
  }

  /** One turn of the detach loop: detach in `mode` and, when the call
      reports no error, re-read the ID. */
  method DetachOnce(ap: AttachPoint, k: Kernel, mode: XdpMode) returns (step: DetachStep)
    modifies k`progs, k`calls
    ensures k.calls == old(k.calls) + StepLog(ap.iface, ModeFlags(mode), step)
    ensures forall x :: x != ap.iface ==> k.ProgramOn(x) == old(k.ProgramOn(x))
    ensures step == DetachErr ==> k.progs == old(k.progs)
    // a detach call with no error removed the program or left it in place
    ensures k.progs == old(k.progs) || k.progs == old(k.progs)[ap.iface := DetachedID]
    ensures step.Reread? && step.id.Some? ==> step.id.value == k.ProgramOn(ap.iface)
  {
    var d := k.DetachXDP(ap.iface, ModeFlags(mode));
    step := DetachErr;
    if d.Pass? {
      var cur := ProgramID(ap, k);
      step := Reread(ValueOf(cur));
    }
  }

  /** The mode loop of DetachProgram: a detach in each mode in turn, each
      successful call followed by a re-read of the ID, until a re-read fails
      or finds no program. The ghost result is the steps taken, as logged. */
  method DetachModes(ap: AttachPoint, k: Kernel, progID: int)
    returns (r: Outcome, ghost steps: seq<DetachStep>)
    modifies k`progs, k`calls
    ensures forall x :: x != ap.iface ==> k.ProgramOn(x) == old(k.ProgramOn(x))
    ensures |steps| <= |ap.modes|
    ensures k.calls == old(k.calls) + DetachLog(ap, steps)
    ensures FirstIndex(steps, DetachDecisive).None? ==>
              |steps| == |ap.modes| && r == Fail(RemoveFailed(progID))
    ensures FirstIndex(steps, DetachDecisive).Some? ==>
              FirstIndex(steps, DetachDecisive) == Some(|steps| - 1) &&
              (r.Pass? || r == Fail(GetAttachedIDFailed(ProgramIDUnavailable(ap.iface, Sys))))
    ensures r.Pass? <==> Removed(steps)
    ensures r.Pass? ==> k.ProgramOn(ap.iface) == DetachedID
    // the program is removed or left in place; when no re-read settles the
    // loop, it is still there
    ensures k.progs == old(k.progs) || k.progs == old(k.progs)[ap.iface := DetachedID]
    ensures FirstIndex(steps, DetachDecisive).None? ==> k.progs == old(k.progs)
  {
    steps := [];
    var m := 0;
    while m < |ap.modes|
      invariant 0 <= m <= |ap.modes| && |steps| == m
      invariant k.calls == old(k.calls) + DetachLog(ap, steps)
      invariant FirstIndex(steps, DetachDecisive) == None
      invariant k.progs == old(k.progs)
    {
      var step := DetachOnce(ap, k, ap.modes[m]);
      FirstIndexSnoc(steps, step, DetachDecisive);
      DetachLogSnoc(ap, steps, step);
      steps := steps + [step];
      if step.Reread? {
        if step.id.None? {
          assert FirstIndex(steps, DetachDecisive) == Some(m);
          return Fail(GetAttachedIDFailed(ProgramIDUnavailable(ap.iface, Sys))), steps;
        }
        if step.id.value == DetachedID {
          assert FirstIndex(steps, DetachDecisive) == Some(m);
          return Pass, steps;
        }
      }
      m := m + 1;
    }
    return Fail(RemoveFailed(progID)), steps;
  }

  /** The calls the removal of our program makes: the detach loop and, after
      a confirmed removal, exactly one attempt to forget the record, which
      succeeded when `forgot` holds. */
  ghost function RemovalLog(ap: AttachPoint, steps: seq<DetachStep>, forgot: bool): seq<Call>
    requires |steps| <= |ap.modes|
  {
    DetachLog(ap, steps) + if Removed(steps) then [ForgetCall(ap.iface, forgot)] else []
  }

  /** How the removal of our program `progID` ends, given the steps of the
      mode loop, the record store before and after, and the ID the kernel
      reports afterwards: if no re-read settles the loop every mode was tried
      and the program ID is reported; a failed re-read is reported; a re-read
      of DetachedID is followed by forgetting the record, whose failure is
      reported. The store changes only by that deletion. RemovalLog ties
      that outcome to the logged forget call. */
  ghost predicate RemovalEnds(ap: AttachPoint, progID: int, steps: seq<DetachStep>, r: Outcome,
                              before: map<Iface, AttachRecord>, after: map<Iface, AttachRecord>,
                              progOn: int)
  {
    |steps| <= |ap.modes| &&
    (FirstIndex(steps, DetachDecisive).None? ==>
       |steps| == |ap.modes| && r == Fail(RemoveFailed(progID)) && after == before) &&
    (FirstIndex(steps, DetachDecisive).Some? ==>
       FirstIndex(steps, DetachDecisive) == Some(|steps| - 1)) &&
    (FirstIndex(steps, DetachDecisive).Some? && !Removed(steps) ==>
       r == Fail(GetAttachedIDFailed(ProgramIDUnavailable(ap.iface, Sys))) && after == before) &&
    (Removed(steps) ==>
       progOn == DetachedID &&
       ((r.Pass? && after == before - {ap.iface}) || (r == Fail(ForgetFailed(Sys)) && after == before)))
  }

  /** The part of DetachProgram after ownership is confirmed: the mode loop
      and, after a confirmed removal, forgetting the record. The ghost result
      is the steps of the mode loop. */
  method RemoveOurs(ap: AttachPoint, k: Kernel, progID: int)
    returns (r: Outcome, ghost steps: seq<DetachStep>)
    modifies k`progs, k`calls, k`records
    ensures forall x :: x != ap.iface ==> k.ProgramOn(x) == old(k.ProgramOn(x))
    // the program is removed or left in place, and left in place when every
    // mode was tried without removing it
    ensures k.progs == old(k.progs) || k.progs == old(k.progs)[ap.iface := DetachedID]
    ensures r.Fail? && r.error.RemoveFailed? ==> k.progs == old(k.progs)
    ensures |steps| <= |ap.modes|
    ensures k.calls == old(k.calls) + RemovalLog(ap, steps, r.Pass?)
    ensures RemovalEnds(ap, progID, steps, r, old(k.records), k.records, k.ProgramOn(ap.iface))
    ensures r.Pass? ==> Removed(steps) && k.ProgramOn(ap.iface) == DetachedID &&
                        k.records == old(k.records) - {ap.iface}
    ensures r.Fail? ==> k.records == old(k.records)
  {
    var removal;
    removal, steps := DetachModes(ap, k, progID);
    if removal.Fail? {
      assert !Removed(steps);
      return removal, steps;
    }
    var f := k.ForgetAttachedProg(ap.iface);
    if f.Fail? {
      return Fail(ForgetFailed(f.error)), steps;
    }
    return Pass, steps;
  }

  /** The calls DetachProgram makes once a program is found: the ownership
      query and, when the program is ours, the removal. */
  ghost function OwnerLog(ap: AttachPoint, objectFile: string, progID: int,
                          owned: Option<bool>, steps: seq<DetachStep>, forgot: bool): seq<Call>
    requires |steps| <= |ap.modes|
  {
    [OwnerQuery(ap.iface, objectFile, progID, owned)] +
    if owned == Some(true) then RemovalLog(ap, steps, forgot) else []
  }

  /** The part of DetachProgram once program `progID` is found: check that it
      was attached from `objectFile` and remove it. The ghost results are the
      ownership query's reply and the steps of the mode loop. */
  method DetachIfOurs(ap: AttachPoint, k: Kernel, objectFile: string, progID: int)
    returns (r: Outcome, ghost owned: Option<bool>, ghost steps: seq<DetachStep>)
    modifies k`progs, k`calls, k`records
    ensures forall x :: x != ap.iface ==> k.ProgramOn(x) == old(k.ProgramOn(x))
    // the program is removed or left in place, and left in place when every
    // mode was tried without removing it
    ensures k.progs == old(k.progs) || k.progs == old(k.progs)[ap.iface := DetachedID]
    ensures r.Fail? && r.error.RemoveFailed? ==> k.progs == old(k.progs)
    ensures |steps| <= |ap.modes|
    ensures k.calls == old(k.calls) + OwnerLog(ap, objectFile, progID, owned, steps, r.Pass?)
    ensures owned.Some? ==> (owned.value <==> old(k.IsOurs(ap.iface, objectFile, progID)))
    // a program not confirmed as ours is left alone
    ensures owned != Some(true) ==>
              steps == [] && k.progs == old(k.progs) && k.records == old(k.records) &&
              r == Fail(ProgramMismatch(if owned.None? then Some(Sys) else None))
    ensures owned == Some(true) ==>
              RemovalEnds(ap, progID, steps, r, old(k.records), k.records, k.ProgramOn(ap.iface))
    ensures r.Pass? ==> Removed(steps) && k.ProgramOn(ap.iface) == DetachedID &&
                        k.records == old(k.records) - {ap.iface}
  {
    var ours := k.AlreadyAttachedProg(ap.iface, objectFile, progID);
    owned := ValueOf(ours);
    steps := [];
    if ours.Err? || !ours.value {
      return Fail(ProgramMismatch(if ours.Err? then Some(ours.error) else None)), owned, steps;
    }
    ghost var queried := k.calls;
    r, steps := RemoveOurs(ap, k, progID);
    assert k.calls == queried + RemovalLog(ap, steps, r.Pass?);
  }

  /** The calls DetachProgram makes: the ID query and, when a program is
      found, the ownership query and, for our program, the removal. */
  ghost function DetachProgramLog(ap: AttachPoint, objectFile: string, idRead: Option<int>,
                                  owned: Option<bool>, steps: seq<DetachStep>, forgot: bool): seq<Call>
    requires |steps| <= |ap.modes|
  {
    [IdQuery(ap.iface, idRead)] +
    if idRead.None? || idRead.value == DetachedID then []
    else OwnerLog(ap, objectFile, idRead.value, owned, steps, forgot)
  }

  /** DetachProgram. The ghost results are the replies of the ID query and
      of the ownership query (None for a failed query or one not made) and
      the steps of the mode loop. */
  method DetachProgram(ap: AttachPoint, k: Kernel)
    returns (r: Outcome, ghost objectFile: string, ghost idRead: Option<int>, ghost owned: Option<bool>,
             ghost steps: seq<DetachStep>)
    modifies k`progs, k`calls, k`records
    ensures objectFile == ObjectPath(FileName(ap.logLevel))
    ensures forall x :: x != ap.iface ==> k.ProgramOn(x) == old(k.ProgramOn(x))
    // the program is removed or left in place, and left in place when every
    // mode was tried without removing it
    ensures k.progs == old(k.progs) || k.progs == old(k.progs)[ap.iface := DetachedID]
    ensures r.Fail? && r.error.RemoveFailed? ==> k.progs == old(k.progs)
    ensures |steps| <= |ap.modes|
    ensures k.calls == old(k.calls) + DetachProgramLog(ap, objectFile, idRead, owned, steps, r.Pass?)
    // the queries see the kernel and the store as they were
    ensures idRead.Some? ==> idRead.value == old(k.ProgramOn(ap.iface))
    ensures owned.Some? ==>
              idRead.Some? && idRead.value != DetachedID &&
              (owned.value <==> old(k.IsOurs(ap.iface, objectFile, idRead.value)))
    ensures idRead.None? ==> r == Fail(GetAttachedIDFailed(ProgramIDUnavailable(ap.iface, Sys)))
    // nothing attached: nothing to do
    ensures idRead == Some(DetachedID) ==> r.Pass?
    // a program not confirmed as ours is left alone
    ensures owned != Some(true) ==> steps == [] && k.progs == old(k.progs) && k.records == old(k.records)
    ensures idRead.Some? && idRead.value != DetachedID && owned != Some(true) ==>
              r == Fail(ProgramMismatch(if owned.None? then Some(Sys) else None))
    // our program: the mode loop, then the record is forgotten
    ensures owned == Some(true) ==>
              RemovalEnds(ap, idRead.value, steps, r, old(k.records), k.records, k.ProgramOn(ap.iface))
    ensures r.Pass? ==> k.ProgramOn(ap.iface) == DetachedID
    ensures r.Pass? && steps != [] ==> k.records == old(k.records) - {ap.iface}
  {
    var file := ObjectPath(FileName(ap.logLevel));
    objectFile := file;
    idRead, owned, steps := None, None, [];
    var q := ProgramID(ap, k);
    idRead := ValueOf(q);
    if q.Err? {
      return Fail(GetAttachedIDFailed(q.error)), objectFile, idRead, owned, steps;
    }
    var progID := q.value;
    if progID == DetachedID {
      return Pass, objectFile, idRead, owned, steps;
    }
    r, owned, steps := DetachIfOurs(ap, k, file, progID);
  }

  /** UpdateJumpMap: binds each (index, program) pair in the XDP programs
      map, in the order given, and stops at the first failure; the bindings
      made before it stay. The ghost result is the number of bindings made. */
  method UpdateJumpMap(obj: Obj, progs: seq<(int, string)>) returns (r: Outcome, ghost done: nat)
    modifies obj`jumps, obj`jumpUpdates
    ensures done <= |progs|
    ensures r.Pass? <==> done == |progs|
    ensures obj.jumps == ApplyBindings(old(obj.jumps), progs[..done])
    ensures r.Pass? ==> obj.jumpUpdates == old(obj.jumpUpdates) + progs
    ensures r.Fail? ==>
              obj.jumpUpdates == old(obj.jumpUpdates) + progs[..done + 1] &&
              r.error == JumpMapUpdateFailed(progs[done].1, progs[done].0, Sys)
  {
    done := 0;
    var i := 0;
    while i < |progs|
      invariant 0 <= i <= |progs| && done == i
      invariant obj.jumps == ApplyBindings(old(obj.jumps), progs[..i])
      invariant obj.jumpUpdates == old(obj.jumpUpdates) + progs[..i]
    {
      var (idx, name) := progs[i];
      var u := obj.UpdateJumpMap(name, idx);
      if u.Fail? {
        return Fail(JumpMapUpdateFailed(name, idx, u.error)), done;
      }
      ApplyBindingsSnoc(old(obj.jumps), progs, i);
      i := i + 1;
      done := i;
    }
    assert progs[..i] == progs;
    return Pass, done;
  }
}
