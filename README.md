# XDP attach point of the Felix BPF dataplane, in Dafny

This project models `felix/bpf/xdp/attach.go`. That file loads the XDP
preamble object, configures it, attaches it to a network interface and later
detaches it.

- The kernel, the object loader (libbpf) and the attachment-record store of
  the `bpf` package are abstract. The `Libbpf` module holds them.
- `Libbpf.Kernel` is a class. Its fields are the XDP program ID per interface
  (0 means none) and the record store. A ghost log records every object open, ID
  query, ownership query, attach call, detach call and forget call, in order,
  with its reply.
  The contracts of the operations state the log they leave, so the replies
  the operations act on are the replies the kernel gave.
- `Libbpf.Obj` is an opened object. Its fields are its maps, the pin paths and
  global data written to them, whether it is loaded, and its programs (jump)
  map. A ghost log on the object records every pin, global-data and load
  call, with whether it succeeded.
- Every primitive is an oracle method. It may fail. Where it returns an ID, the
  kernel picks it. A successful attach makes the returned ID the interface's
  program, even when that ID is 0 or the old ID. A detach that returns no
  error may leave the program in place.
- `Xdp` holds the pure part of attach.go: constants, `FileName`, the
  interface-name field, the default jump table, and the decisions the loops
  take on replies.
- `XdpAttach` holds the operations as methods over `Kernel` and `Obj`.
  Long operations are cut into consecutive parts so that each proof stays
  small. `AttachProgram` is `ConfigureMaps` (the map walk, one map at a time
  in `ConfigureMap`), `AlreadyAttached`, then `LoadAndAttach` (load, ID query
  and the mode loop `AttachModes`, one mode at a time in `AttachInMode`). `DetachProgram` is the ID query, then
  `DetachIfOurs` (ownership query), then `RemoveOurs` (the mode loop
  `DetachModes`, one mode at a time in `DetachOnce`, then forgetting the
  record).
- `Seqs.FirstIndex` is the "first reply that settles the loop" search. The
  attach mode loop and the detach mode loop both use it.

Behaviours of the code that a reader may not expect. The model keeps each one
as written:

- `AttachProgram` does not record the attachment after a successful attach.
  It returns the new ID.
- An interface name longer than 15 bytes is cut to 15 bytes by `copy`. It is
  not rejected.
- `UpdateJumpMap` stops at the first failing binding. The bindings made before
  it stay, so it is not all-or-nothing.
- `IsAttached` returns true whenever the ID query succeeds, even when the ID is
  `DetachedID`. So the "something attached" part of `AlreadyAttached` only
  checks that the query worked.
- `DetachProgram` checks ownership against the object named by `FileName()`
  (for example `xdp_debug.o`). `AttachProgram` checks it against
  `xdp_preamble.o`. The model keeps both paths as written.

## Model

| member | source | states |
|---|---|---|
| `Base.ToU32` | felix/bpf/xdp/attach.go:139 | `uint32(x)` keeps a value in range unchanged and otherwise agrees with `x` modulo 2^32 |
| `Seqs.FirstIndex` | felix/bpf/xdp/attach.go:172-184 | the index of the first reply that meets the loop's test, with no earlier reply meeting it; none exactly when no reply meets it |
| `Seqs.FirstIndexSnoc` | felix/bpf/xdp/attach.go:172-184 | one more mode tried after only failures: it is the winner exactly when its reply is accepted |
| `Libbpf.ModeFlags` | felix/bpf/xdp/attach.go:176 | each mode flag is a nonzero bit separate from XDP_FLAGS_REPLACE, so `REPLACE\|mode` keeps both |
| `Libbpf.OpenObject` | felix/bpf/xdp/attach.go:124 | the call is logged with whether it succeeded; opening may fail; on success the object is new, has the requested path, has no pins, no global data and no calls made on it, and is not loaded |
| `Libbpf.Obj.SetPinPath` | felix/bpf/xdp/attach.go:148 | the call is logged on the object with the pin path and whether it succeeded; on success the map's pin path is set; on failure nothing else changes |
| `Libbpf.Obj.SetGlobals` | felix/bpf/xdp/attach.go:111 | the call is logged on the object with whether it succeeded; on success the whole global-data record is written in one update; on failure nothing else changes |
| `Libbpf.Obj.Load` | felix/bpf/xdp/attach.go:161 | the call is logged on the object with whether it succeeded; on success the programs are loaded; on failure nothing else changes |
| `Libbpf.Obj.UpdateJumpMap` | felix/bpf/xdp/attach.go:258 | every attempt is logged; on success the index is bound to the program; on failure the map is unchanged |
| `Libbpf.Kernel.GetXDPProgramID` | felix/bpf/xdp/attach.go:249 | the query is logged with its reply; a successful query returns the program ID the kernel holds for the interface |
| `Libbpf.Kernel.AlreadyAttachedProg` | felix/bpf/xdp/attach.go:94 | the check is logged with its reply; a successful check answers whether the record store holds this object and this ID for the interface |
| `Libbpf.Kernel.AttachXDP` | felix/bpf/xdp/attach.go:176 | only a loaded object's program can be attached; the call is logged; on success the interface's program becomes the returned ID (possibly 0 or the old ID); on failure nothing changes |
| `Libbpf.Kernel.DetachXDP` | felix/bpf/xdp/attach.go:213 | the call is logged; on success the program is removed or silently left in place; on failure nothing changes |
| `Libbpf.Kernel.ForgetAttachedProg` | felix/bpf/xdp/attach.go:237 | the call is logged with whether it succeeded; on success the interface's record is deleted; on failure the store is unchanged |
| `Xdp.PolicyAllowJumpIdx` | felix/bpf/xdp/attach.go:49-51 | the allow slot is a program index in the jump range, not the policy slot, and the IPv4 jump map binds a program there |
| `Xdp.PolicyDenyJumpIdx` | felix/bpf/xdp/attach.go:53-55 | the deny slot is a program index in the jump range, not the policy slot, and the IPv4 jump map binds a program there |
| `Xdp.PolicyJumpIdxs` | felix/bpf/xdp/attach.go:49-55 | the allow and deny jump slots do not depend on the family, are distinct and in range, and the IPv4 jump map binds the accepted entry point and the drop program there |
| `Xdp.DefaultJumpsSelfBound` | felix/bpf/xdp/attach.go:32-39 | every role in the IPv4 jump map except the policy program jumps to its own slot by default |
| `Xdp.ToLower` | felix/bpf/xdp/attach.go:62 | lower-casing keeps the length and lower-cases each character |
| `Xdp.ToLowerIdempotent` | felix/bpf/xdp/attach.go:62 | lower-casing twice is lower-casing once |
| `Xdp.FileName` | felix/bpf/xdp/attach.go:61-67 | the object name is `xdp_`, the variant name (`LevelName`: the lower-cased level, with "off" renamed "no_log"), and `.o`; its properties are the lemmas below |
| `Xdp.FileNameShape` | felix/bpf/xdp/attach.go:61-67 | the object name always has the form `xdp_<level>.o` |
| `Xdp.LevelOfFileNameRoundTrip` | felix/bpf/xdp/attach.go:61-67 | the level read back from the object name is the lower-cased log level, with "off" read as "no_log" |
| `Xdp.FileNameInjective` | felix/bpf/xdp/attach.go:61-67 | two log levels select the same object if and only if they have the same variant name |
| `Xdp.FileNameNoLog` | felix/bpf/xdp/attach.go:62-65 | the object is `xdp_no_log.o` if and only if the level is "off" or "no_log" in any case |
| `Xdp.FileNameIgnoresCase` | felix/bpf/xdp/attach.go:62 | the object name does not depend on the case of the log level |
| `Xdp.Dashes` | felix/bpf/xdp/attach.go:107 | the fill is `n` bytes, all `'-'` |
| `Xdp.IfaceField` | felix/bpf/xdp/attach.go:107-109 | the interface-name field is exactly 15 bytes: the first min(15, len) bytes of the name, then `'-'` fill |
| `Xdp.TrimDashes` | felix/bpf/xdp/attach.go:107-109 | stripping the fill gives a prefix of the field that does not end in `'-'`, and everything after it is `'-'` |
| `Xdp.TrimPadding` | felix/bpf/xdp/attach.go:107-109 | stripping the fill from a name that does not end in `'-'` plus any number of dashes gives back the name |
| `Xdp.IfaceFieldRoundTrip` | felix/bpf/xdp/attach.go:107-109 | a name of at most 15 bytes that does not end in `'-'` reads back unchanged from its field; a 15-byte name is its own field |
| `Xdp.IfaceFieldTruncates` | felix/bpf/xdp/attach.go:107-108 | names of 15 bytes or more get the same field if and only if their first 15 bytes agree, so longer names are cut and not refused |
| `Xdp.PadIfaceName` | felix/bpf/xdp/attach.go:107-108 | the dash-filled 15-byte buffer with the name copied over its start is the interface-name field |
| `Xdp.DefaultJumps` | felix/bpf/xdp/attach.go:136-139 | the jump array has every slot of [0, ProgIndexEnd) jumping to itself, except the policy slot, which holds `uint32(PolicyIdx(4))`; later slots stay 0 |
| `Xdp.DefaultJumpTableUnique` | felix/bpf/xdp/attach.go:136-139 | the default jump table is fully determined by the policy index |
| `Xdp.ObjectPath` | felix/bpf/xdp/attach.go:122 | the object's path is the object directory, a `/`, and the file name, as `path.Join` gives it for a file name with no `/`, `.` or `..` component |
| `Xdp.ObjectPathInjective` | felix/bpf/xdp/attach.go:205 | two object files have the same path if and only if they are the same file, so the ownership query names one object variant |
| `Xdp.AlreadyAttachedOf` | felix/bpf/xdp/attach.go:81-104 | the answer is true if and only if the ID query and IsAttached's query succeed and the store answers "ours"; then the ID is the queried one, otherwise it is -1 |
| `Xdp.AlreadyAttachedRecognises` | felix/bpf/xdp/attach.go:81-104 | against the kernel's true answers, the program is recognised if and only if every query succeeds and the store recognises the running ID, and then that ID is returned; the ownership query is made only after both ID queries succeeded |
| `Xdp.AttachAccepted` | felix/bpf/xdp/attach.go:177 | an attach reply is a success exactly when it has no error and its ID is neither `DetachedID` nor the old ID |
| `Xdp.AttachIgnoresNoOp` | felix/bpf/xdp/attach.go:177 | a reply carrying the old ID or `DetachedID` is never the winning mode |
| `Xdp.AttachFallback` | felix/bpf/xdp/attach.go:172-184 | with modes [A, B] where A is refused and B is accepted, B wins; with [A] alone, no mode wins |
| `Xdp.RemovedIff` | felix/bpf/xdp/attach.go:210-229 | removal succeeds if and only if some mode's re-read gives `DetachedID`, and every earlier mode either failed to detach or re-read a nonzero ID |
| `Xdp.EnumeratesInit` | felix/bpf/xdp/attach.go:257 | an enumeration of a Go map without its last pair enumerates the map without that pair's index |
| `Xdp.ApplyBindingsAnyOrder` | felix/bpf/xdp/attach.go:256-264 | applying every entry of a map, in any iteration order, binds exactly that map over the old jump map |
| `Xdp.ApplyBindingsSnoc` | felix/bpf/xdp/attach.go:257-263 | each successful binding extends the map built by the earlier ones |
| `XdpAttach.ProgramID` | felix/bpf/xdp/attach.go:248-254 | one ID query is made and logged; a successful result is the kernel's program ID for the interface; a failure names the interface and wraps the query's error |
| `XdpAttach.IsAttached` | felix/bpf/xdp/attach.go:243-246 | one ID query is made and logged; the answer is true whenever that query succeeds, whatever the ID; otherwise it is the query's error |
| `XdpAttach.AlreadyAttached` | felix/bpf/xdp/attach.go:81-104 | the queries are made in order, each only after the earlier ones succeeded, and logged with their replies; those replies are the kernel's and the store's answers; the result is `AlreadyAttachedOf` of them, so it is true exactly when every query succeeds and the store recognises the running ID |
| `XdpAttach.ConfigureProgram` | felix/bpf/xdp/attach.go:106-116 | the global data gets the padded interface name, the jump array is untouched, and exactly one write of the whole record is made and logged; the record is in place when that write succeeded, and a configure error is returned when it failed |
| `XdpAttach.ConfigureMap` | felix/bpf/xdp/attach.go:131-150 | exactly one call is made and logged for the map: global data for an internal map, its pin path for any other; the map is set up when that call succeeded; when it failed nothing changes and the error is a configure error or a pin error naming the map |
| `XdpAttach.ConfigureMaps` | felix/bpf/xdp/attach.go:130-151 | the logged calls are one successful set-up call per map, in order, up to the first failed call, which ends the walk; the failing map's index is reported with a configure error (internal map) or a pin error naming the map; every map before it is set up; pin paths go only to maps that are not internal and global data only to internal maps, and only to maps before the failing one |
| `XdpAttach.AttachModes` | felix/bpf/xdp/attach.go:171-191 | modes are tried in order with forced replace of the old ID, each call logged; the loop stops at the first accepted reply and returns its ID, which is now on the interface; if none is accepted every mode was tried, the error names the program and interface, and the interface runs what it ran before or a refused reply's 0 or old ID; no other interface changes |
| `XdpAttach.AttachInMode` | felix/bpf/xdp/attach.go:172-184 | one turn of the mode loop: one forced replace in the next mode, logged after the earlier turns; after only refused replies, its reply wins exactly when it is accepted; on success the interface runs the reply's ID, on failure nothing changes |
| `XdpAttach.LoadAndAttach` | felix/bpf/xdp/attach.go:161-191 | exactly one load is made and logged; a failed load makes no query and no attach call, changes no program and returns a load error; after a load, the ID is queried and, if that succeeds, the mode loop replaces that ID; the log holds exactly these calls; on success the interface runs the winning reply's ID; on any failure it runs its old program or none, never a new one |
| `XdpAttach.AttachProgram` | felix/bpf/xdp/attach.go:118-192 | the open is logged and its failure is returned with no further call; the maps are set up in order and the first failed set-up call is returned, with no query; only when every map is set up does the idempotency check run, whose replies are the kernel's and store's answers; a recognised program is returned as it is, with no load, no attach call and nothing else logged; otherwise exactly one load is logged, a failed load is returned with no program changed, and after a load the ID query and mode loop follow; on success the interface runs the returned ID; on any failure it runs its old program or none, never a new one; only this interface changes; the record store is untouched |
| `XdpAttach.DetachOnce` | felix/bpf/xdp/attach.go:213-222 | one detach call in the given mode is made and logged; the call removes the program or leaves it in place; only a call that reports no error is followed by a re-read, which is logged with its reply; a successful re-read gives the interface's current ID; a failed call changes nothing; no other interface changes |
| `XdpAttach.DetachModes` | felix/bpf/xdp/attach.go:212-232 | modes are tried in order, and the steps are the logged calls and re-reads; the program is removed or left in place; the loop ends at the first re-read that fails or finds no program, and succeeds exactly when that re-read found none (`Removed`), leaving `DetachedID` on the interface; if no re-read settles it every mode was tried, the program is still attached and the error names the original program ID |
| `XdpAttach.RemoveOurs` | felix/bpf/xdp/attach.go:210-240 | the mode loop, then, after a confirmed removal, exactly one logged attempt to forget the record, whose success decides between success and a forget error; success means the program is gone and the interface's record is deleted; the program is removed or left in place, and left in place when the error is that it could not be removed; any failure leaves the store unchanged |
| `XdpAttach.DetachIfOurs` | felix/bpf/xdp/attach.go:205-240 | the ownership query is logged with the store's answer; a failed query or a "not ours" answer leaves kernel and store alone and reports a mismatch carrying the query's error, if any; a program confirmed as ours goes through `RemoveOurs`, whose detach loop and single forget attempt are in the log; the program is removed or left in place, and left in place when it could not be removed |
| `XdpAttach.DetachProgram` | felix/bpf/xdp/attach.go:194-241 | the log is the ID query, then, for a nonzero ID, the ownership query, then, for our program, the detach loop and, after a confirmed removal, exactly one forget attempt whose success is the result; with no program attached it succeeds; a program not confirmed as ours is left alone with a mismatch error; for our program the removal ends as `RemovalEnds` states, and the error that it could not be removed leaves it attached; success after the detach loop deletes the interface's record and leaves no program on the interface |
| `XdpAttach.UpdateJumpMap` | felix/bpf/xdp/attach.go:256-266 | bindings are made in the given order up to the first failure; earlier ones stay, later ones are not attempted, and the error names the failing program and index |

## Left out

- Logging (`Log()`, logrus calls) and `Config()`'s `%+v` formatting produce no state and are not modelled.
- `defer obj.Close()` releases the object handle. Handles are not modelled as resources.
- `ProgramName` is the constant `Xdp.ProgramName`. It needs no contract.
- Go error strings are modelled as `Base.Error` constructors that carry the cause wrapped with `%w` (`None` for a nil cause) and the values the message prints. The text itself is not modelled.
- `AttachProgram`, `ProgramID`, `IsAttached`: the value that accompanies every error return (`-1` in `AttachProgram` and `ProgramID`, `false` in `IsAttached`) is folded into `Err`.
- `Xdp.ToLower`: only ASCII letters are lower-cased. Go's `strings.ToLower` also maps other Unicode letters.
- The program-index constants and the size of `libbpf.XDPGlobalData.Jumps` come from files outside attach.go. `TcDefs` fixes values for them. The proofs only use that the indexes are distinct and below `ProgIndexEnd <= JumpSlots`.
- `PolicyIdx(4)` comes from the embedded generic attach point, which is not part of this model. It is a field of `Xdp.AttachPoint`.
- `Xdp.ObjectPath`, `Xdp.ObjectPathInjective`: `path.Join` also cleans the joined path (it collapses `//` and resolves `.` and `..`). The model only concatenates the directory, a `/` and the file name. The two agree for file names with no `/`, `.` or `..` component, which covers `xdp_preamble.o` and the names `FileName` gives for the log levels Felix uses (`off`, `info`, `debug`). For other names the injectivity lemma holds of the model's path but not of `path.Join`.
- `bpfdefs.ObjectDir` and `bpf.MapPinDir` are outside attach.go. The object directory is a constant. A pin path is the triple (map type, map name, interface) that determines it.
- `bpf.AlreadyAttachedProg` compares a stored hash of the object file. The model compares the record's object path and program ID instead.
- An error from `FirstMap`/`NextMap` ends the map walk silently, the same as the end of the list. The model's map list is what the walk yields before it stops.
- The kernel changes only through the calls modelled here. Another process changing the hook between two calls is not modelled.
- `UpdateJumpMap` takes a Go map, whose iteration order is unspecified. The model takes any sequence of (index, name) pairs.
- The call logs (on the kernel and on each object) are ghost state written by the primitives. A body that assigned the log directly could forge it; every body here only appends through the primitives.
- The calicoctl diagnostics command and its argument parsing are not part of this model.
