/** The primitives attach.go calls but does not implement: the object loader
    (libbpf), the kernel's XDP hook, and the attachment-record store of the
    bpf package. Each primitive is an oracle: it may fail, and where it
    returns an ID the kernel picks it. What the model fixes is only how each
    reply relates to the abstract state below. */
module Libbpf {
  import opened Base

  /** An XDP attach mode (bpf.XDPMode), given by its kernel flag bit. */
  datatype XdpMode = XdpGeneric | XdpDriver | XdpOffload

  /** The mode's bit among the kernel's XDP_FLAGS_* (linux/if_link.h). */
  function ModeFlags(mode: XdpMode): (f: bv32)
    ensures f != 0 && f & XdpFlagsReplace == 0
  {
    match mode
    case XdpGeneric => 2   // XDP_FLAGS_SKB_MODE
    case XdpDriver => 4    // XDP_FLAGS_DRV_MODE
    case XdpOffload => 8   // XDP_FLAGS_HW_MODE
  }

  /** XDP_FLAGS_REPLACE: replace the program whose ID is given as old ID. */
  const XdpFlagsReplace: bv32 := 16

  /** A map of an opened object, as the FirstMap/NextMap walk yields it. */
  datatype BpfMap = BpfMap(name: string, mapType: int, internal: bool)

  /** Where a map is pinned: bpf.MapPinDir(type, name, iface, hook.XDP)
      joined with the map name. The directory layout belongs to the bpf
      package; what matters here is that the path is a function of these
      three values, so repeated attaches reuse the same pins. */
  datatype PinPath = PinPath(mapType: int, mapName: string, iface: Iface)

  /** The contents of libbpf.XDPGlobalData as written to the object's
      global-data map. */
  datatype GlobalRecord = GlobalRecord(ifaceName: seq<byte>, jumps: seq<u32>)

  /** What the attachment-record store holds for one interface's XDP hook:
      the object (standing for its content hash) and the program ID. */
  datatype AttachRecord = AttachRecord(objectFile: string, progID: int)

  /** A call on the loader, the XDP hook or the record store, with its reply
      (None for a query that failed, `ok` for whether a call succeeded). */
  datatype Call =
    | OpenCall(path: string, ok: bool)
    | IdQuery(iface: Iface, id: Option<int>)
    | OwnerQuery(iface: Iface, objectFile: string, progID: int, owned: Option<bool>)
    | AttachCall(iface: Iface, program: string, oldID: int, flags: bv32, reply: Result<int>)
    | DetachCall(iface: Iface, flags: bv32, ok: bool)
    | ForgetCall(iface: Iface, ok: bool)

  /** A call on an opened object, with whether it succeeded. */
  datatype ObjCall =
    | PinCall(index: nat, pin: PinPath, ok: bool)
    | GlobalsCall(index: nat, ok: bool)
    | LoadCall(ok: bool)

  /** libbpf.XDPGlobalData: the interface name and the jump array. */
  class GlobalData {
    var ifaceName: seq<byte>
    var jumps: seq<u32>

    constructor (jumps: seq<u32>)
      ensures this.ifaceName == [] && this.jumps == jumps
    {
      this.ifaceName := [];
      this.jumps := jumps;
    }
  }

  /** An opened object file (libbpf.Obj). */
  class Obj {
    const path: string
    /** The maps the FirstMap/NextMap walk yields, in order. The walk stops at
        the end or at its first error, and attach.go cannot tell the two
        apart, so an error is modelled as an earlier end. */
    const maps: seq<BpfMap>
    /** Pin path set on the map at each index. */
    var pins: map<nat, PinPath>
    /** Global data written to the internal map at each index. */
    var globals: map<nat, GlobalRecord>
    /** Whether Load has put the programs into the kernel. */
    var loaded: bool
    /** The XDP programs (tail-call) map: program name bound at each index. */
    var jumps: map<int, string>
    /** Every binding attempted on the programs map, in order. */
    ghost var jumpUpdates: seq<(int, string)>
    /** Every pin, global-data and load call made on the object, in order. */
    ghost var ops: seq<ObjCall>

    constructor (path: string, maps: seq<BpfMap>)
      ensures this.path == path && this.maps == maps
      ensures pins == map[] && globals == map[] && !loaded
      ensures jumps == map[] && jumpUpdates == [] && ops == []
    {
      this.path := path;
      this.maps := maps;
      pins := map[];
      globals := map[];
      loaded := false;
      jumps := map[];
      jumpUpdates := [];
      ops := [];
    }

    /** m.SetPinPath(path) on the map at index `i`. */
    method SetPinPath(i: nat, p: PinPath) returns (r: Outcome)
      modifies this`pins, this`ops
      ensures ops == old(ops) + [PinCall(i, p, r.Pass?)]
      ensures r.Pass? ==> pins == old(pins)[i := p]
      ensures r.Fail? ==> r.error == Sys && pins == old(pins)
    {
      var fails: bool :| true;
      if fails {
        r := Fail(Sys);
      } else {
        pins := pins[i := p];
        r := Pass;
      }
      ops := ops + [PinCall(i, p, r.Pass?)];
    }

    /** libbpf.XDPSetGlobals on the internal map at index `i`: one update
        that writes the whole record. */
    method SetGlobals(i: nat, g: GlobalData) returns (r: Outcome)
      modifies this`globals, this`ops
      ensures ops == old(ops) + [GlobalsCall(i, r.Pass?)]
      ensures r.Pass? ==> globals == old(globals)[i := GlobalRecord(g.ifaceName, g.jumps)]
      ensures r.Fail? ==> r.error == Sys && globals == old(globals)
    {
      var fails: bool :| true;
      if fails {
        r := Fail(Sys);
      } else {
        globals := globals[i := GlobalRecord(g.ifaceName, g.jumps)];
        r := Pass;
      }
      ops := ops + [GlobalsCall(i, r.Pass?)];
    }

    /** obj.Load(): verifies and loads the programs into the kernel. */
    method Load() returns (r: Outcome)
      modifies this`loaded, this`ops
      ensures ops == old(ops) + [LoadCall(r.Pass?)]
      ensures r.Pass? ==> loaded
      ensures r.Fail? ==> r.error == Sys && loaded == old(loaded)
    {
      var fails: bool :| true;
      if fails {
        r := Fail(Sys);
      } else {
        loaded := true;
        r := Pass;
      }
      ops := ops + [LoadCall(r.Pass?)];
    }

    /** obj.UpdateJumpMap(<XDP programs map>, name, idx). */
    method UpdateJumpMap(name: string, idx: int) returns (r: Outcome)
      modifies this`jumps, this`jumpUpdates
      ensures jumpUpdates == old(jumpUpdates) + [(idx, name)]
      ensures r.Pass? ==> jumps == old(jumps)[idx := name]
      ensures r.Fail? ==> r.error == Sys && jumps == old(jumps)
    {
      jumpUpdates := jumpUpdates + [(idx, name)];
      var fails: bool :| true;
      if fails {
        r := Fail(Sys);
      } else {
        jumps := jumps[idx := name];
        r := Pass;
      }
    }
  }

  /** libbpf.OpenObject: `null` stands for the error return. The call is
      logged, with its success, among the calls `k` records. */
  method OpenObject(k: Kernel, path: string) returns (obj: Obj?)
    modifies k`calls
    ensures k.calls == old(k.calls) + [OpenCall(path, obj != null)]
    ensures obj != null ==> fresh(obj) && obj.path == path
    ensures obj != null ==> obj.pins == map[] && obj.globals == map[] && !obj.loaded && obj.ops == []
  {
    var fails: bool :| true;
    if fails {
      obj := null;
    } else {
      var maps: seq<BpfMap> :| true;
      obj := new Obj(path, maps);
    }
    k.calls := k.calls + [OpenCall(path, obj != null)];
  }

  /** The kernel's XDP hooks and the attachment-record store, with the log of
      the calls made on them and on the loader. */
  class Kernel {
    /** The ID of the XDP program on each interface; a missing interface has
        none. */
    var progs: map<Iface, int>
    /** The attachment-record store, per interface (for the XDP hook). */
    var records: map<Iface, AttachRecord>
    /** Every open, query, attach, detach and forget made, in order, with its
        reply. */
    ghost var calls: seq<Call>

    constructor (progs: map<Iface, int>, records: map<Iface, AttachRecord>)
      ensures this.progs == progs && this.records == records && calls == []
    {
      this.progs := progs;
      this.records := records;
      calls := [];
    }

    /** The program ID the kernel reports for `iface`; 0 means none. */
    function ProgramOn(iface: Iface): int
      reads this`progs
    {
      if iface in progs then progs[iface] else 0
    }

    /** The record store recognises program `id` on `iface` as the one built
        from `objectFile`. */
    predicate IsOurs(iface: Iface, objectFile: string, id: int)
      reads this`records
    {
      iface in records && records[iface] == AttachRecord(objectFile, id)
    }

    /** libbpf.GetXDPProgramID: a read that may fail. */
    method GetXDPProgramID(iface: Iface) returns (r: Result<int>)
      modifies this`calls
      ensures calls == old(calls) + [IdQuery(iface, ValueOf(r))]
      ensures r.Ok? ==> r.value == ProgramOn(iface)
      ensures r.Err? ==> r.error == Sys
    {
      var fails: bool :| true;
      r := if fails then Err(Sys) else Ok(ProgramOn(iface));
      calls := calls + [IdQuery(iface, ValueOf(r))];
    }

    /** bpf.AlreadyAttachedProg for the XDP hook: a read that may fail. */
    method AlreadyAttachedProg(iface: Iface, objectFile: string, id: int) returns (r: Result<bool>)
      modifies this`calls
      ensures calls == old(calls) + [OwnerQuery(iface, objectFile, id, ValueOf(r))]
      ensures r.Ok? ==> (r.value <==> IsOurs(iface, objectFile, id))
      ensures r.Err? ==> r.error == Sys
    {
      var fails: bool :| true;
      r := if fails then Err(Sys) else Ok(IsOurs(iface, objectFile, id));
      calls := calls + [OwnerQuery(iface, objectFile, id, ValueOf(r))];
    }

    /** obj.AttachXDP(iface, program, oldID, flags). On success the kernel
        reports the returned ID for `iface`; that ID may be 0 or `oldID`
        when the kernel silently did nothing. Only a loaded object's
        programs can be attached. */
    method AttachXDP(obj: Obj, iface: Iface, program: string, oldID: int, flags: bv32)
      returns (r: Result<int>)
      requires obj.loaded
      modifies this`progs, this`calls
      ensures calls == old(calls) + [AttachCall(iface, program, oldID, flags, r)]
      ensures r.Ok? ==> progs == old(progs)[iface := r.value]
      ensures r.Err? ==> r.error == Sys && progs == old(progs)
    {
      var fails: bool :| true;
      if fails {
        r := Err(Sys);
      } else {
        var id: int :| true;
        progs := progs[iface := id];
        r := Ok(id);
      }
      calls := calls + [AttachCall(iface, program, oldID, flags, r)];
    }

    /** libbpf.DetachXDP(iface, flags). A call that returns no error may
        still leave the program in place when the mode does not match. */
    method DetachXDP(iface: Iface, flags: bv32) returns (r: Outcome)
      modifies this`progs, this`calls
      ensures calls == old(calls) + [DetachCall(iface, flags, r.Pass?)]
      ensures r.Pass? ==> progs == old(progs) || progs == old(progs)[iface := 0]
      ensures r.Fail? ==> r.error == Sys && progs == old(progs)
    {
      var fails: bool :| true;
      if fails {
        r := Fail(Sys);
      } else {
        var removed: bool :| true;
        if removed {
          progs := progs[iface := 0];
        }
        r := Pass;
      }
      calls := calls + [DetachCall(iface, flags, r.Pass?)];
    }

    /** bpf.ForgetAttachedProg for the XDP hook: deletes the record. */
    method ForgetAttachedProg(iface: Iface) returns (r: Outcome)
      modifies this`records, this`calls
      ensures calls == old(calls) + [ForgetCall(iface, r.Pass?)]
      ensures r.Pass? ==> records == old(records) - {iface}
      ensures r.Fail? ==> r.error == Sys && records == old(records)
    {
      var fails: bool :| true;
      if fails {
        r := Fail(Sys);
      } else {
        records := records - {iface};
        r := Pass;
      }
      calls := calls + [ForgetCall(iface, r.Pass?)];
    }
  }
}
