/** The pure part of the XDP attach point (felix/bpf/xdp/attach.go): its
    constants, the object-file name, the jump-table defaults, the layout of
    the interface name in the global data, and the decisions the attach,
    detach and jump-map loops take on the replies they get. */
module Xdp {
  import opened Base
  import opened TcDefs
  import opened Seqs
  import opened Libbpf

  /** The program ID that means "no XDP program attached". */
  const DetachedID := 0

  /** The entry program of the preamble object. */
  const ProgramName := "cali_xdp_preamble"

  /** The object AttachProgram loads, relative to the object directory. */
  const PreambleFile := "xdp_preamble.o"

  /** The directory the compiled objects are installed in (bpfdefs.ObjectDir). */
  const ObjectDir := "/usr/lib/calico/bpf"

  /** path.Join(ObjectDir, file) for a plain file name: one with no `/`, `.`
      or `..` component, which path.Join's cleaning leaves as it is. */
  function ObjectPath(file: string): string
  {
    ObjectDir + "/" + file
  }

  /** Distinct object files have distinct paths, so a path names one object
      variant. */
  lemma ObjectPathInjective(a: string, b: string)
    ensures ObjectPath(a) == ObjectPath(b) <==> a == b
  {
    var n := |ObjectDir| + 1;
    assert ObjectPath(a)[n..] == a;
    assert ObjectPath(b)[n..] == b;
  }

  /** The state attach.go reads from an attach point: the interface, the log
      level that picks the object variant, the modes to try in order, and the
      value `PolicyIdx(4)` of the embedded generic attach point. */
  datatype AttachPoint = AttachPoint(
    iface: Iface,
    logLevel: string,
    modes: seq<XdpMode>,
    policyIdx: int)

  /** JumpMapIndexes: the programs bound in the XDP jump map, per family. */
  const JumpMapIndexes: map<string, map<int, string>> :=
    map["IPv4" := map[
      ProgIndexMain := "calico_xdp_main",
      ProgIndexPolicy := "calico_xdp_norm_pol_tail",
      ProgIndexAllowed := "calico_xdp_accepted_entrypoint",
      ProgIndexDrop := "calico_xdp_drop"]]

  /** PolicyAllowJumpIdx: the slot a policy jumps to on allow. */
  function PolicyAllowJumpIdx(family: int): (idx: nat)
    ensures idx < ProgIndexEnd && idx != ProgIndexPolicy && idx in JumpMapIndexes["IPv4"]
  {
    ProgIndexAllowed
  }

  /** PolicyDenyJumpIdx: the slot a policy jumps to on deny. */
  function PolicyDenyJumpIdx(family: int): (idx: nat)
    ensures idx < ProgIndexEnd && idx != ProgIndexPolicy && idx in JumpMapIndexes["IPv4"]
  {
    ProgIndexDrop
  }

  /** The allow and deny slots do not depend on the family, are distinct
      slots of the jump range, and the IPv4 jump map binds a program at
      each: the accepted entry point and the drop program. */
  lemma PolicyJumpIdxs(family: int)
    ensures PolicyAllowJumpIdx(family) != PolicyDenyJumpIdx(family)
    ensures PolicyAllowJumpIdx(family) < ProgIndexEnd && PolicyDenyJumpIdx(family) < ProgIndexEnd
    ensures PolicyAllowJumpIdx(family) in JumpMapIndexes["IPv4"]
    ensures JumpMapIndexes["IPv4"][PolicyAllowJumpIdx(family)] == "calico_xdp_accepted_entrypoint"
    ensures PolicyDenyJumpIdx(family) in JumpMapIndexes["IPv4"]
    ensures JumpMapIndexes["IPv4"][PolicyDenyJumpIdx(family)] == "calico_xdp_drop"
  {
  }

  // ---------------------------------------------------------------------
  // Object file name

  /** strings.ToLower on one character (ASCII letters only). */
  function LowerChar(c: char): char
  {
    if 'A' <= c <= 'Z' then (c as int + 32) as char else c
  }

  function ToLower(s: string): (r: string)
    ensures |r| == |s|
    ensures forall i :: 0 <= i < |s| ==> r[i] == LowerChar(s[i])
  {
    if s == [] then [] else [LowerChar(s[0])] + ToLower(s[1..])
  }

  /** The variant name FileName puts in the object name: the lower-cased
      log level, with "off" renamed "no_log". */
  function LevelName(logLevel: string): string
  {
    var l := ToLower(logLevel);
    if l == "off" then "no_log" else l
  }

  /** FileName: the object compiled for the attach point's log level. */
  function FileName(logLevel: string): string
  {
    "xdp_" + LevelName(logLevel) + ".o"
  }

  /** Every object name has the form `xdp_<level>.o`. */
  lemma FileNameShape(logLevel: string)
    ensures |FileName(logLevel)| >= 6
    ensures FileName(logLevel)[..4] == "xdp_"
    ensures FileName(logLevel)[|FileName(logLevel)| - 2..] == ".o"
  {
  }

  /** Reads the variant name back out of an object name. */
  function LevelOfFileName(f: string): string
    requires |f| >= 6
  {
    f[4..|f| - 2]
  }

  lemma LevelOfFileNameRoundTrip(logLevel: string)
    ensures LevelOfFileName(FileName(logLevel)) == LevelName(logLevel)
  {
    var f := FileName(logLevel);
    FileNameShape(logLevel);
    assert f[4..|f| - 2] == LevelName(logLevel);
  }

  /** Two log levels select the same object exactly when they have the same
      variant name. */
  lemma FileNameInjective(a: string, b: string)
    ensures FileName(a) == FileName(b) <==> LevelName(a) == LevelName(b)
  {
    if FileName(a) == FileName(b) {
      LevelOfFileNameRoundTrip(a);
      LevelOfFileNameRoundTrip(b);
    }
  }

  /** "off" in any case, and only "off" or "no_log" in any case, selects the
      no_log object. */
  lemma FileNameNoLog(logLevel: string)
    ensures FileName(logLevel) == "xdp_no_log.o" <==>
              ToLower(logLevel) == "off" || ToLower(logLevel) == "no_log"
  {
    FileNameInjective(logLevel, "off");
    assert ToLower("off") == "off";
    assert FileName("off") == "xdp_no_log.o";
  }

  lemma {:induction false} ToLowerIdempotent(s: string)
    ensures ToLower(ToLower(s)) == ToLower(s)
  {
    if s != [] {
      ToLowerIdempotent(s[1..]);
      assert ToLower(s)[1..] == ToLower(s[1..]);
    }
  }

  /** The object name does not depend on the case of the log level. */
  lemma FileNameIgnoresCase(logLevel: string)
    ensures FileName(ToLower(logLevel)) == FileName(logLevel)
  {
    ToLowerIdempotent(logLevel);
  }

  // ---------------------------------------------------------------------
  // Interface name in the global data

  /** Width of the interface-name field of the global data. */
  const IfaceNameLen := 15

  /** The fill byte '-'. */
  const Dash: byte := 45

  function Dashes(n: nat): (d: seq<byte>)
    ensures |d| == n && forall i :: 0 <= i < n ==> d[i] == Dash
  {
    if n == 0 then [] else Dashes(n - 1) + [Dash]
  }

  /** The interface-name field: the name cut to 15 bytes, or the name
      followed by dashes up to 15 bytes. */
  function IfaceField(iface: Iface): (f: seq<byte>)
    ensures |f| == IfaceNameLen
    ensures forall i :: 0 <= i < IfaceNameLen ==>
              f[i] == if i < |iface| then iface[i] else Dash
  {
    if |iface| >= IfaceNameLen then iface[..IfaceNameLen]
    else iface + Dashes(IfaceNameLen - |iface|)
  }

  /** What a reader of the field recovers: the field without its trailing
      dashes. */
  function TrimDashes(f: seq<byte>): (s: seq<byte>)
    ensures |s| <= |f| && s == f[..|s|]
    ensures s == [] || s[|s| - 1] != Dash
    ensures forall i :: |s| <= i < |f| ==> f[i] == Dash
  {
    if f != [] && f[|f| - 1] == Dash then TrimDashes(f[..|f| - 1]) else f
  }

  lemma {:induction false} TrimPadding(s: seq<byte>, n: nat)
    requires s == [] || s[|s| - 1] != Dash
    ensures TrimDashes(s + Dashes(n)) == s
  {
    if n > 0 {
      assert (s + Dashes(n))[..|s| + n - 1] == s + Dashes(n - 1);
      TrimPadding(s, n - 1);
    }
  }

  /** A name of at most 15 bytes that does not end in '-' reads back
      unchanged from its field; a name of exactly 15 bytes is its own field. */
  lemma IfaceFieldRoundTrip(iface: Iface)
    requires |iface| <= IfaceNameLen
    requires iface == [] || iface[|iface| - 1] != Dash
    ensures TrimDashes(IfaceField(iface)) == iface
    ensures |iface| == IfaceNameLen ==> IfaceField(iface) == iface
  {
    if |iface| < IfaceNameLen {
      TrimPadding(iface, IfaceNameLen - |iface|);
    } else {
      assert iface[..IfaceNameLen] == iface;
    }
  }

  /** A longer name is cut, not refused: all names that share their first
      15 bytes get the same field. */
  lemma IfaceFieldTruncates(a: Iface, b: Iface)
    requires |a| >= IfaceNameLen && |b| >= IfaceNameLen
    ensures IfaceField(a) == IfaceField(b) <==> a[..IfaceNameLen] == b[..IfaceNameLen]
  {
  }

  /** ConfigureProgram's buffer: `[]byte("---------------")` with the name
      copied over its start (Go's `copy` stops at the shorter of the two). */
  method PadIfaceName(iface: Iface) returns (buf: seq<byte>)
    ensures buf == IfaceField(iface)
  {
    var b := new byte[IfaceNameLen](_ => Dash);
    var n := if |iface| < IfaceNameLen then |iface| else IfaceNameLen;
    var i := 0;
    while i < n
      invariant 0 <= i <= n
      invariant forall j :: 0 <= j < i ==> b[j] == iface[j]
      invariant forall j :: i <= j < IfaceNameLen ==> b[j] == Dash
    {
      b[i] := iface[i];
      i := i + 1;
    }
    buf := b[..];
  }

  // ---------------------------------------------------------------------
  // Jump table defaults

  /** The jump array AttachProgram writes: every slot of [0, ProgIndexEnd)
      jumps to itself except the policy slot, which holds the attach point's
      policy index as a uint32; the rest of the array keeps its zero value. */
  predicate IsDefaultJumpTable(jumps: seq<u32>, policyIdx: int)
  {
    |jumps| == JumpSlots &&
    (forall i :: 0 <= i < ProgIndexEnd && i != ProgIndexPolicy ==> jumps[i] as int == i) &&
    jumps[ProgIndexPolicy] == ToU32(policyIdx) &&
    (forall i :: ProgIndexEnd <= i < JumpSlots ==> jumps[i] == 0)
  }

  /** The default table is one table: the predicate fixes every slot. */
  lemma DefaultJumpTableUnique(a: seq<u32>, b: seq<u32>, policyIdx: int)
    requires IsDefaultJumpTable(a, policyIdx) && IsDefaultJumpTable(b, policyIdx)
    ensures a == b
  {
    forall i | 0 <= i < JumpSlots ensures a[i] == b[i] {
      if i == ProgIndexPolicy {
      } else if i < ProgIndexEnd {
        assert a[i] as int == i == b[i] as int;
      }
    }
  }

  /** The roles bound in the IPv4 jump map other than the policy program
      are their own default jump target. */
  lemma DefaultJumpsSelfBound(jumps: seq<u32>, policyIdx: int, idx: int)
    requires IsDefaultJumpTable(jumps, policyIdx)
    requires idx in JumpMapIndexes["IPv4"] && idx != ProgIndexPolicy
    ensures 0 <= idx < |jumps| && jumps[idx] as int == idx
  {
  }

  /** The `globals.Jumps` loop of AttachProgram, on a zeroed array. */
  method DefaultJumps(policyIdx: int) returns (jumps: seq<u32>)
    ensures IsDefaultJumpTable(jumps, policyIdx)
  {
    var a := new u32[JumpSlots](_ => 0);
    var i := 0;
    while i < ProgIndexEnd
      invariant 0 <= i <= ProgIndexEnd
      invariant forall j :: 0 <= j < i ==> a[j] as int == j
      invariant forall j :: ProgIndexEnd <= j < JumpSlots ==> a[j] == 0
    {
      a[i] := i as u32;
      i := i + 1;
    }
    a[ProgIndexPolicy] := ToU32(policyIdx);
    jumps := a[..];
  }

  // ---------------------------------------------------------------------
  // Decisions on query and call replies

  /** The replies of AlreadyAttached's three queries, in order: the program
      ID, the ID read again by IsAttached, and bpf.AlreadyAttachedProg's
      answer. None stands for a query that failed or was not made. */
  datatype Probe = Probe(id: Option<int>, again: Option<int>, owned: Option<bool>)

  /** A query is made only after the earlier ones succeeded. */
  predicate ProbeOrdered(p: Probe)
  {
    (p.id.None? ==> p.again.None?) && (p.again.None? ==> p.owned.None?)
  }

  /** The replies are the answers of a kernel that runs `progID` on the
      interface, for a record store that does (`ours`) or does not recognise
      that ID as the object's. */
  predicate ProbeAnswers(p: Probe, progID: int, ours: bool)
  {
    ProbeOrdered(p) &&
    (p.id.Some? ==> p.id.value == progID) &&
    (p.again.Some? ==> p.again.value == progID) &&
    (p.owned.Some? ==> p.owned.value == ours)
  }

  /** AlreadyAttached on the replies of its queries. IsAttached reports
      only whether its query succeeded, so "something attached" is
      `p.again.Some?`, whatever the ID. */
  function AlreadyAttachedOf(p: Probe): (r: (int, bool))
    ensures r.1 <==> p.id.Some? && p.again.Some? && p.owned == Some(true)
    ensures r.1 ==> r.0 == p.id.value
    ensures !r.1 ==> r.0 == -1
  {
    if p.id.None? then (-1, false)
    else
      var somethingAttached := p.again.Some?;
      if !somethingAttached then (-1, false)
      else if p.owned.None? then (-1, false)
      else if p.owned.value && somethingAttached then (p.id.value, true)
      else (-1, false)
  }

  /** Against a kernel's true answers, AlreadyAttached recognises the
      program exactly when every query succeeds and the store recognises the
      running ID, and then it returns that ID. */
  lemma AlreadyAttachedRecognises(p: Probe, progID: int, ours: bool)
    requires ProbeAnswers(p, progID, ours)
    ensures AlreadyAttachedOf(p).1 <==> p.id.Some? && p.again.Some? && p.owned.Some? && ours
    ensures AlreadyAttachedOf(p).1 ==> AlreadyAttachedOf(p).0 == progID
    ensures p.owned.Some? ==> p.id.Some? && p.again.Some?
  {
  }

  /** An attach reply that counts as success: no error, and an ID that is
      neither "detached" nor the ID that was there before. */
  predicate AttachAccepted(oldID: int, reply: Result<int>)
  {
    reply.Ok? && reply.value != DetachedID && reply.value != oldID
  }

  /** The mode the attach loop settles on, given the replies of the modes
      tried: the first accepted one. */
  function AttachWinner(oldID: int, replies: seq<Result<int>>): (w: Option<nat>)
  {
    FirstIndex(replies, AcceptedAgainst(oldID))
  }

  function AcceptedAgainst(oldID: int): Result<int> -> bool
  {
    reply => AttachAccepted(oldID, reply)
  }

  /** A silent no-op of the kernel (the old ID back, or no ID) is never
      taken for success, and the loop goes on past it. */
  lemma AttachIgnoresNoOp(oldID: int, replies: seq<Result<int>>, k: nat)
    requires k < |replies| && replies[k].Ok?
    requires replies[k].value == oldID || replies[k].value == DetachedID
    ensures AttachWinner(oldID, replies) != Some(k)
  {
  }

  /** With modes [A, B] where A is refused and B accepted, B wins; with
      [A] alone, nothing does. */
  lemma AttachFallback(oldID: int, a: Result<int>, b: Result<int>)
    requires !AttachAccepted(oldID, a) && AttachAccepted(oldID, b)
    ensures AttachWinner(oldID, [a, b]) == Some(1)
    ensures AttachWinner(oldID, [a]) == None
  {
    assert [a, b][1..] == [b];
    assert FirstIndex([b], AcceptedAgainst(oldID)) == Some(0);
  }

  /** One mode of the detach loop: the detach call failed, or it returned
      and the program ID was read again. */
  datatype DetachStep = DetachErr | Reread(id: Option<int>)

  /** A step that ends the detach loop: the re-read failed (an error is
      returned at once) or found no program (the removal succeeded). */
  predicate DetachDecisive(step: DetachStep)
  {
    step.Reread? && (step.id.None? || step.id.value == DetachedID)
  }

  /** The removal succeeded: some mode's re-read found no program, and every
      earlier mode either failed to detach or left a program in place. */
  predicate Removed(steps: seq<DetachStep>)
  {
    match FirstIndex(steps, DetachDecisive)
    case None => false
    case Some(k) => steps[k].id.Some?
  }

  /** Removal counts only on a re-read that returns "detached"; a detach
      call that returns no error is not enough. */
  lemma RemovedIff(steps: seq<DetachStep>)
    ensures Removed(steps) <==>
      exists k :: 0 <= k < |steps| && steps[k] == Reread(Some(DetachedID)) &&
        forall j :: 0 <= j < k ==>
          steps[j] == DetachErr || (steps[j].Reread? && steps[j].id.Some? && steps[j].id.value != DetachedID)
  {
    var w := FirstIndex(steps, DetachDecisive);
    if Removed(steps) {
      var k := w.value;
      assert steps[k] == Reread(Some(DetachedID));
      forall j | 0 <= j < k
        ensures steps[j] == DetachErr || (steps[j].Reread? && steps[j].id.Some? && steps[j].id.value != DetachedID)
      {
        assert !DetachDecisive(steps[j]);
      }
    } else {
      forall k | 0 <= k < |steps| && steps[k] == Reread(Some(DetachedID))
        ensures exists j :: 0 <= j < k && !(steps[j] == DetachErr ||
                  (steps[j].Reread? && steps[j].id.Some? && steps[j].id.value != DetachedID))
      {
        assert DetachDecisive(steps[k]);
        var j := w.value;
        assert steps[j].id.None?;
        assert j < k;
      }
    }
  }

  // ---------------------------------------------------------------------
  // Jump map updates

  /** The programs map after the given bindings are applied in order. */
  function ApplyBindings(m: map<int, string>, ps: seq<(int, string)>): (r: map<int, string>)
  {
    if ps == [] then m
    else
      var p := ps[|ps| - 1];
      ApplyBindings(m, ps[..|ps| - 1])[p.0 := p.1]
  }

  /** No index is bound twice. */
  predicate DistinctIndexes(ps: seq<(int, string)>)
  {
    forall i, j :: 0 <= i < j < |ps| ==> ps[i].0 != ps[j].0
  }

  /** `ps` lists the entries of `progs`, each once, in some order. */
  predicate Enumerates(ps: seq<(int, string)>, progs: map<int, string>)
  {
    DistinctIndexes(ps) &&
    (forall p :: p in ps ==> p.0 in progs && progs[p.0] == p.1) &&
    (forall k :: k in progs ==> (k, progs[k]) in ps)
  }

  /** Go's map iteration order does not matter: applying every entry of
      `progs`, in any order, binds exactly `progs` over the old map. */
  lemma {:induction false} ApplyBindingsAnyOrder(m: map<int, string>, ps: seq<(int, string)>,
                                                 progs: map<int, string>)
    requires Enumerates(ps, progs)
    ensures ApplyBindings(m, ps) == m + progs
  {
    if ps == [] {
      assert forall k :: k !in progs;
      assert progs.Keys == {};
    } else {
      var p := ps[|ps| - 1];
      var init := ps[..|ps| - 1];
      var rest := progs - {p.0};
      EnumeratesInit(ps, progs);
      ApplyBindingsAnyOrder(m, init, rest);
      assert p.0 in progs && progs[p.0] == p.1;
      assert ApplyBindings(m, ps) == (m + rest)[p.0 := p.1];
    }
  }

  /** Without its last pair, an enumeration of `progs` enumerates `progs`
      without that pair's index. */
  lemma EnumeratesInit(ps: seq<(int, string)>, progs: map<int, string>)
    requires Enumerates(ps, progs) && ps != []
    ensures Enumerates(ps[..|ps| - 1], progs - {ps[|ps| - 1].0})
  {
    var p := ps[|ps| - 1];
    var init := ps[..|ps| - 1];
    var rest := progs - {p.0};
    forall q | q in init ensures q.0 in rest && rest[q.0] == q.1 {
      var i :| 0 <= i < |init| && init[i] == q;
      assert ps[i] == q;
    }
    forall k | k in rest ensures (k, rest[k]) in init {
      var i :| 0 <= i < |ps| && ps[i] == (k, progs[k]);
      assert i != |ps| - 1;
      assert init[i] == ps[i];
    }
  }

  /** Bindings made before a failure stay in place: the map after a prefix
      of the bindings, then one more. */
  lemma ApplyBindingsSnoc(m: map<int, string>, ps: seq<(int, string)>, i: nat)
    requires i < |ps|
    ensures ApplyBindings(m, ps[..i + 1]) == ApplyBindings(m, ps[..i])[ps[i].0 := ps[i].1]
  {
    assert ps[..i + 1][..i] == ps[..i];
  }
}
