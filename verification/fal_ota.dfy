/** The RoutineControl (0x31) service of the can_uds package that erases the
    OTA partition: a fixed chain of checks, each with its own negative response
    code, then an optional erase, then the status record. What the FAL layer
    answers to the erase is an input (`eraseRet`); the dispatcher's
    `copyStatusRecord` callback, when present, is a function of the bytes it is
    handed. */
module FalOta {
  import opened UdsTypes
  import opened Registry

  const RID_REMOTE_FAL_ERASE: u16 := 0xF000
  const RID_REMOTE_FAL_WRITE: u16 := 0xF100
  const RID_REMOTE_FAL_READ: u16 := 0xF200
  const REQUIRED_SEC_LEVEL: u8 := 0x01

  /** Routine control type "startRoutine" of ISO 14229-1. */
  const ROUTINE_START: u8 := 0x01

  /** The partition used when the service record names none. */
  const DEFAULT_PARTITION_NAME: string := "ota"

  /** `uds_fal_service_t`: the configured partition name (may be NULL) and
      the partition resolved at mount. `id` stands for the record's address. */
  datatype FalService = FalService(id: nat, devName: Option<string>, partition: Option<Partition>)

  /** `UDSRoutineCtrlArgs_t`: control type, routine id, option record length
      and the optional status-record callback. */
  datatype RoutineCtrlArgs = RoutineCtrlArgs(
    ctrlType: u8,
    id: u16,
    len: u16,
    copyStatusRecord: Option<seq<bv8> -> UdsResult>)

  /** What the handler did: the code returned, the storage call issued and the
      bytes handed to `copyStatusRecord`, if it was called. */
  datatype Outcome = Outcome(result: UdsResult, storage: StorageCall, statusRecord: Option<seq<bv8>>)

  /** One precondition of the request and the code it fails with. */
  datatype Check = Check(passes: bool, failure: UdsResult)

  predicate KnownRoutine(id: u16) {
    id == RID_REMOTE_FAL_ERASE || id == RID_REMOTE_FAL_WRITE || id == RID_REMOTE_FAL_READ
  }

  /** The checks of a request, in the order the handler makes them. */
  function RoutineChecks(srv: Server, args: RoutineCtrlArgs): seq<Check> {
    [ Check(srv.sessionType == SESSION_EXTENDED || srv.sessionType == SESSION_PROGRAMMING,
            ServiceNotSupportedInActiveSession),
      Check(srv.securityLevel >= REQUIRED_SEC_LEVEL, SecurityAccessDenied),
      Check(args.ctrlType == ROUTINE_START, SubFunctionNotSupported),
      Check(KnownRoutine(args.id), RequestOutOfRange),
      Check(args.len != 0, IncorrectMessageLengthOrInvalidFormat) ]
  }

  /** The code of the first failing check, if any check fails. */
  function FirstFailure(checks: seq<Check>): (r: Option<UdsResult>)
    ensures r.None? <==> forall i :: 0 <= i < |checks| ==> checks[i].passes
    decreases |checks|
  {
    if |checks| == 0 then None
    else if !checks[0].passes then Some(checks[0].failure)
    else FirstFailure(checks[1..])
  }

  /** The code `FirstFailure` reports is that of a failing check before which
      every check passed. */
  lemma {:induction false} FirstFailureIsFirst(checks: seq<Check>)
    ensures FirstFailure(checks).Some? ==>
      exists i :: && 0 <= i < |checks|
                  && !checks[i].passes
                  && FirstFailure(checks).value == checks[i].failure
                  && forall j :: 0 <= j < i ==> checks[j].passes
    decreases |checks|
  {
    if |checks| > 0 && checks[0].passes && FirstFailure(checks[1..]).Some? {
      FirstFailureIsFirst(checks[1..]);
      var k :| && 0 <= k < |checks| - 1
               && !checks[1..][k].passes
               && FirstFailure(checks[1..]).value == checks[1..][k].failure
               && forall j :: 0 <= j < k ==> checks[1..][j].passes;
      assert !checks[k + 1].passes && forall j :: 0 <= j < k + 1 ==> checks[j].passes;
    }
  }

  /** The first failing check of a request, spelled out check by check. */
  lemma FirstFailureOfRoutineChecks(srv: Server, args: RoutineCtrlArgs)
    ensures FirstFailure(RoutineChecks(srv, args)) ==
      if !(srv.sessionType == SESSION_EXTENDED || srv.sessionType == SESSION_PROGRAMMING) then Some(ServiceNotSupportedInActiveSession)
      else if srv.securityLevel < REQUIRED_SEC_LEVEL then Some(SecurityAccessDenied)
      else if args.ctrlType != ROUTINE_START then Some(SubFunctionNotSupported)
      else if !KnownRoutine(args.id) then Some(RequestOutOfRange)
      else if args.len == 0 then Some(IncorrectMessageLengthOrInvalidFormat)
      else None
  {
    var cs := RoutineChecks(srv, args);
    assert cs[4..][1..] == [];
    assert FirstFailure(cs[4..]) == if cs[4].passes then None else Some(cs[4].failure);
    assert cs[3..][1..] == cs[4..];
    assert FirstFailure(cs[3..]) == if cs[3].passes then FirstFailure(cs[4..]) else Some(cs[3].failure);
    assert cs[2..][1..] == cs[3..];
    assert FirstFailure(cs[2..]) == if cs[2].passes then FirstFailure(cs[3..]) else Some(cs[2].failure);
    assert cs[1..][1..] == cs[2..];
    assert FirstFailure(cs[1..]) == if cs[1].passes then FirstFailure(cs[2..]) else Some(cs[1].failure);
  }

  /** `handle_remote_fal`. */
  function HandleRemoteFal(srv: Server, args: RoutineCtrlArgs, ctx: Option<FalService>, eraseRet: int): (o: Outcome)
    ensures ctx.None? ==> o == Outcome(ConditionsNotCorrect, NoStorage, None)
    ensures ctx.Some? && FirstFailure(RoutineChecks(srv, args)).Some? ==>
      o == Outcome(FirstFailure(RoutineChecks(srv, args)).value, NoStorage, None)
    ensures ctx.Some? ==>
      (o.storage != NoStorage <==> FirstFailure(RoutineChecks(srv, args)).None? && args.id == RID_REMOTE_FAL_ERASE)
    ensures o.storage != NoStorage ==> o.storage == EraseAll(ctx.value.partition)
    ensures o.storage != NoStorage && FalFailed(eraseRet) ==> o == Outcome(GeneralReject, o.storage, None)
    ensures ctx.Some? && FirstFailure(RoutineChecks(srv, args)).None? && !(o.storage != NoStorage && FalFailed(eraseRet)) ==>
      match args.copyStatusRecord
      case Some(copy) => o.statusRecord == Some(LittleEndian16(args.id)) && o.result == copy(LittleEndian16(args.id))
      case None => o.statusRecord.None? && o.result == PositiveResponse
  {
    FirstFailureOfRoutineChecks(srv, args);
    if ctx.None? then Outcome(ConditionsNotCorrect, NoStorage, None)
    else if srv.sessionType != SESSION_EXTENDED && srv.sessionType != SESSION_PROGRAMMING then
      Outcome(ServiceNotSupportedInActiveSession, NoStorage, None)
    else if srv.securityLevel < REQUIRED_SEC_LEVEL then
      Outcome(SecurityAccessDenied, NoStorage, None)
    else if args.ctrlType != ROUTINE_START then
      Outcome(SubFunctionNotSupported, NoStorage, None)
    else if args.id != RID_REMOTE_FAL_ERASE && args.id != RID_REMOTE_FAL_WRITE && args.id != RID_REMOTE_FAL_READ then
      Outcome(RequestOutOfRange, NoStorage, None)
    else if args.len == 0 then
      Outcome(IncorrectMessageLengthOrInvalidFormat, NoStorage, None)
    else
      var call := if args.id == RID_REMOTE_FAL_ERASE then EraseAll(ctx.value.partition) else NoStorage;
      if call.EraseAll? && FalFailed(eraseRet) then
        Outcome(GeneralReject, call, None)
      else
        match args.copyStatusRecord
        case Some(copy) => Outcome(copy(LittleEndian16(args.id)), call, Some(LittleEndian16(args.id)))
        case None => Outcome(PositiveResponse, call, None)
  }

  /** The order of the checks: a wrong session is reported whatever else is
      wrong; then security; then the control type; then the routine id; then
      the length. */
  lemma CheckOrder(srv: Server, args: RoutineCtrlArgs, ctx: FalService, eraseRet: int)
    ensures var o := HandleRemoteFal(srv, args, Some(ctx), eraseRet);
      && (srv.sessionType != SESSION_EXTENDED && srv.sessionType != SESSION_PROGRAMMING ==>
            o.result == ServiceNotSupportedInActiveSession)
      && (srv.sessionType in {SESSION_EXTENDED, SESSION_PROGRAMMING} && srv.securityLevel == 0 ==>
            o.result == SecurityAccessDenied)
      && (srv.sessionType in {SESSION_EXTENDED, SESSION_PROGRAMMING} && srv.securityLevel > 0
          && args.ctrlType != ROUTINE_START ==>
            o.result == SubFunctionNotSupported)
      && (srv.sessionType in {SESSION_EXTENDED, SESSION_PROGRAMMING} && srv.securityLevel > 0
          && args.ctrlType == ROUTINE_START && !KnownRoutine(args.id) ==>
            o.result == RequestOutOfRange)
      && (srv.sessionType in {SESSION_EXTENDED, SESSION_PROGRAMMING} && srv.securityLevel > 0
          && args.ctrlType == ROUTINE_START && KnownRoutine(args.id) && args.len == 0 ==>
            o.result == IncorrectMessageLengthOrInvalidFormat)
  {
  }

  /** Storage is touched only by an accepted erase request: the write and read
      routine ids pass every check but do nothing. */
  lemma EraseOnlyWhenAccepted(srv: Server, args: RoutineCtrlArgs, ctx: FalService, eraseRet: int)
    ensures var o := HandleRemoteFal(srv, args, Some(ctx), eraseRet);
      o.storage.EraseAll? <==> FirstFailure(RoutineChecks(srv, args)).None? && args.id == RID_REMOTE_FAL_ERASE
    ensures args.id == RID_REMOTE_FAL_WRITE || args.id == RID_REMOTE_FAL_READ ==>
      HandleRemoteFal(srv, args, Some(ctx), eraseRet).storage == NoStorage
  {
  }

  // ---------------------------------------------------------------------------
  // Mount and unmount (`rtt_uds_fal_service_mount` / `_unmount`)
  // ---------------------------------------------------------------------------

  /** The single node of a routine-control service. */
  function FalNode(svc: FalService): Node {
    Node("fal_exec", RoutineCtrl, RemoteFalHandler, svc.id, PrioNormal)
  }

  /** The registry and record after a mount, and the `rt_err_t` it returned. */
  datatype Mounted = Mounted(status: RtErr, nodes: Option<seq<Node>>, svc: Option<FalService>)

  /** `rtt_uds_fal_service_mount`: reject a NULL registry or record; otherwise
      resolve the configured partition name, or "ota" when none is set, and
      register one RoutineCtrl node at normal priority. `find` is
      `fal_partition_find`. */
  function MountFal(env: Option<seq<Node>>, svc: Option<FalService>, find: string -> Option<Partition>): (m: Mounted)
    ensures env.None? || svc.None? ==> m == Mounted(EInval, env, svc)
    ensures env.Some? && svc.Some? ==>
      && m.status == EOk
      && m.svc.Some?
      && m.svc.value == svc.value.(partition := m.svc.value.partition)
      && (svc.value.devName.Some? ==> m.svc.value.partition == find(svc.value.devName.value))
      && (svc.value.devName.None? ==> m.svc.value.partition == find(DEFAULT_PARTITION_NAME))
      && m.nodes.Some?
      && |m.nodes.value| == |env.value| + 1
      && m.nodes.value[..|env.value|] == env.value
      && m.nodes.value[|env.value|] == FalNode(m.svc.value)
      && m.nodes.value[|env.value|].event == RoutineCtrl
      && m.nodes.value[|env.value|].handler == RemoteFalHandler
      && m.nodes.value[|env.value|].priority == PrioNormal
      && m.nodes.value[|env.value|].context == svc.value.id
  {
    if env.None? || svc.None? then Mounted(EInval, env, svc)
    else
      var name := svc.value.devName.GetOr(DEFAULT_PARTITION_NAME);
      var bound := svc.value.(partition := find(name));
      Mounted(EOk, Some(Register(env.value, FalNode(bound))), Some(bound))
  }

  /** `rtt_uds_fal_service_unmount`: a NULL record is ignored; otherwise its
      node is unregistered. */
  function UnmountFal(nodes: seq<Node>, svc: Option<FalService>): (r: seq<Node>)
    ensures svc.None? ==> r == nodes
    ensures svc.Some? ==> forall n :: n in r <==> n in nodes && n != FalNode(svc.value)
  {
    if svc.None? then nodes else Unregister(nodes, FalNode(svc.value))
  }

  /** Mounting and then unmounting a record that had no node registered gives
      back the registry it started from. */
  lemma MountUnmountRoundTrip(env: seq<Node>, svc: FalService, find: string -> Option<Partition>)
    requires !BoundTo(env, svc.id)
    ensures var m := MountFal(Some(env), Some(svc), find);
      m.nodes.Some? && UnmountFal(m.nodes.value, m.svc) == env
  {
    var m := MountFal(Some(env), Some(svc), find);
    var n := FalNode(m.svc.value);
    UnregisterAbsent(env, n);
    UnregisterAppend(env, [n], n);
    assert env + [] == env;
  }
}
