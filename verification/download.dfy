/** The download service of the can_uds package: RequestDownload (0x34),
    TransferData (0x36) and RequestTransferExit (0x37) over one service record,
    plus the session-timeout handler and the mount/unmount of its four nodes.

    Each handler is a pure function from the (possibly NULL) service record and
    the request arguments to a `Step`: the result code, the record afterwards,
    and the storage call it issued. What the FAL layer answers to a write is an
    input (`writeRet`). */
module Download {
  import opened UdsTypes
  import opened Crc32
  import opened Registry

  /** `DOWNLOAD_MODE_IDLE` and `DOWNLOAD_MODE_SYNC`. */
  datatype Mode = Idle | Sync

  /** `uds_download_service_t`: the partition bound at mount, the declared
      image size, the write offset, the running CRC-32 and the mode. `id`
      stands for the record's address, which the registered nodes carry. */
  datatype DownloadService = DownloadService(
    id: nat,
    partition: Option<Partition>,
    totalSize: u32,
    currentPos: u32,
    currentCrc: bv32,
    mode: Mode)

  /** `UDSRequestDownloadArgs_t` (the handler reads only `size`). */
  datatype RequestDownloadArgs = RequestDownloadArgs(addr: u32, size: u32, dataFormatIdentifier: u8)

  /** One handler call: the code returned, the record afterwards (a NULL
      record stays NULL) and the storage call issued. */
  datatype Step = Step(result: UdsResult, ctx: Option<DownloadService>, storage: StorageCall)

  /** The record describes `image` as the bytes written since the last
      RequestDownload: the offset is its length (as a `uint32_t`) and the CRC
      is its checksum from 0. */
  predicate Tracks(svc: DownloadService, image: seq<bv8>) {
    svc.currentPos == |image| % U32_MODULUS && svc.currentCrc == Crc32Calc(0, image)
  }

  /** No handler rebinds a record: its identity and partition stay. */
  predicate SameBinding(a: DownloadService, b: DownloadService) {
    a.id == b.id && a.partition == b.partition
  }

  /** `handle_request_download`: from any mode, no session, security or size
      check, start a fresh download of `args.size` bytes. */
  function HandleRequestDownload(ctx: Option<DownloadService>, args: RequestDownloadArgs): (s: Step)
    ensures s.storage == NoStorage
    ensures ctx.None? ==> s.result == ConditionsNotCorrect && s.ctx.None?
    ensures ctx.Some? ==>
      && s.result == PositiveResponse
      && s.ctx.Some?
      && SameBinding(ctx.value, s.ctx.value)
      && s.ctx.value.mode == Sync
      && s.ctx.value.totalSize == args.size
      && Tracks(s.ctx.value, [])
  {
    if ctx.None? then Step(ConditionsNotCorrect, None, NoStorage)
    else
      var svc := ctx.value.(totalSize := args.size, currentPos := 0, mode := Sync, currentCrc := 0);
      Step(PositiveResponse, Some(svc), NoStorage)
  }

  /** `handle_transfer_data`: in SYNC mode write the block at the current
      offset; on success advance the offset (wrapping as a `uint32_t`) and fold
      the block into the CRC. No bound against `totalSize` is checked. */
  function HandleTransferData(ctx: Option<DownloadService>, data: seq<bv8>, writeRet: int): (s: Step)
    ensures ctx.None? ==> s == Step(ConditionsNotCorrect, None, NoStorage)
    ensures ctx.Some? && ctx.value.mode != Sync ==> s == Step(ConditionsNotCorrect, ctx, NoStorage)
    ensures ctx.Some? && ctx.value.mode == Sync ==>
      s.storage == Write(ctx.value.partition, ctx.value.currentPos, data)
    ensures ctx.Some? && ctx.value.mode == Sync && FalFailed(writeRet) ==>
      s.result == ResourceTemporarilyNotAvailable && s.ctx == ctx
    ensures ctx.Some? && ctx.value.mode == Sync && !FalFailed(writeRet) ==>
      && s.result == PositiveResponse
      && s.ctx.Some?
      && s.ctx == Some(ctx.value.(currentPos := AddU32(ctx.value.currentPos, |data|),
                                  currentCrc := Crc32Calc(ctx.value.currentCrc, data)))
  {
    if ctx.None? then Step(ConditionsNotCorrect, None, NoStorage)
    else
      var svc := ctx.value;
      if svc.mode == Sync then
        var call := Write(svc.partition, svc.currentPos, data);
        if FalFailed(writeRet) then Step(ResourceTemporarilyNotAvailable, ctx, call)
        else
          var next := svc.(currentPos := AddU32(svc.currentPos, |data|),
                           currentCrc := Crc32Calc(svc.currentCrc, data));
          Step(PositiveResponse, Some(next), call)
      else
        Step(ConditionsNotCorrect, ctx, NoStorage)
  }

  /** `handle_transfer_exit`: whatever the mode, end the download and answer
      positively. The trailer's checksum is neither read nor compared. */
  function HandleTransferExit(ctx: Option<DownloadService>, trailer: seq<bv8>): (s: Step)
    ensures s.storage == NoStorage
    ensures ctx.None? ==> s.result == ConditionsNotCorrect && s.ctx.None?
    ensures ctx.Some? ==> s.result == PositiveResponse && s.ctx == Some(ctx.value.(mode := Idle))
  {
    if ctx.None? then Step(ConditionsNotCorrect, None, NoStorage)
    else if ctx.value.mode == Sync then Step(PositiveResponse, Some(ctx.value.(mode := Idle)), NoStorage)
    else
      assert ctx.value.mode == Idle;
      Step(PositiveResponse, ctx, NoStorage)
  }

  /** `handle_session_timeout`: drop back to IDLE and let the dispatcher
      continue, with or without a record. */
  function HandleSessionTimeout(ctx: Option<DownloadService>): (s: Step)
    ensures s.result == Continue && s.storage == NoStorage
    ensures s.ctx.Some? <==> ctx.Some?
    ensures ctx.Some? ==> s.ctx.value.mode == Idle && s.ctx.value == ctx.value.(mode := s.ctx.value.mode)
  {
    if ctx.Some? then Step(Continue, Some(ctx.value.(mode := Idle)), NoStorage)
    else Step(Continue, None, NoStorage)
  }

  /** A timeout after a timeout changes nothing more. */
  lemma SessionTimeoutIdempotent(ctx: Option<DownloadService>)
    ensures HandleSessionTimeout(HandleSessionTimeout(ctx).ctx) == HandleSessionTimeout(ctx)
  {
  }

  /** A rejected write leaves the record exactly as it was, so resending the
      same block has the effect a first successful attempt would have had. */
  lemma TransferDataRetry(ctx: Option<DownloadService>, data: seq<bv8>, failedRet: int, retryRet: int)
    requires FalFailed(failedRet)
    ensures HandleTransferData(HandleTransferData(ctx, data, failedRet).ctx, data, retryRet)
         == HandleTransferData(ctx, data, retryRet)
  {
  }

  /** A successful block extends the image the record tracks by that block. */
  lemma {:induction false} TransferDataExtendsImage(svc: DownloadService, image: seq<bv8>, data: seq<bv8>, writeRet: int)
    requires svc.mode == Sync && Tracks(svc, image) && !FalFailed(writeRet)
    ensures var s := HandleTransferData(Some(svc), data, writeRet);
      s.ctx.Some? && s.ctx.value.mode == Sync && Tracks(s.ctx.value, image + data)
  {
    OffsetAdvances(svc.currentPos, image, data);
    Crc32Chunks(0, image, data);
  }

  /** An offset that is the image's length as a `uint32_t`, advanced by a
      block's length, is the extended image's length as a `uint32_t`. */
  lemma OffsetAdvances(pos: u32, image: seq<bv8>, data: seq<bv8>)
    requires pos == |image| % U32_MODULUS
    ensures AddU32(pos, |data|) == |image + data| % U32_MODULUS
  {
  }

  // ---------------------------------------------------------------------------
  // Mount and unmount (`rtt_uds_download_service_mount` / `_unmount`)
  // ---------------------------------------------------------------------------

  /** The partition the download service always binds. */
  const OTA_PARTITION_NAME: string := "ota"

  /** The four nodes of one download service, in registration order; the
      timeout node runs at the highest priority, the others at normal. */
  function DownloadNodes(svc: DownloadService): seq<Node> {
    [ Node("down_req", RequestDownload, RequestDownloadHandler, svc.id, PrioNormal),
      Node("down_data", TransferData, TransferDataHandler, svc.id, PrioNormal),
      Node("down_exit", RequestTransferExit, TransferExitHandler, svc.id, PrioNormal),
      Node("down_tmo", SessionTimeout, SessionTimeoutHandler, svc.id, PrioHighest) ]
  }

  /** The registry and record after a mount, and the `rt_err_t` it returned. */
  datatype Mounted = Mounted(status: RtErr, nodes: Option<seq<Node>>, svc: Option<DownloadService>)

  /** `rtt_uds_download_service_mount`: reject a NULL registry or record;
      otherwise bind the "ota" partition (NULL if it is not found) and register
      the four nodes. `find` is `fal_partition_find`. */
  function MountDownload(env: Option<seq<Node>>, svc: Option<DownloadService>, find: string -> Option<Partition>): (m: Mounted)
    ensures env.None? || svc.None? ==> m == Mounted(EInval, env, svc)
    ensures env.Some? && svc.Some? ==>
      && m.status == EOk
      && m.svc == Some(svc.value.(partition := find(OTA_PARTITION_NAME)))
      && m.nodes == Some(env.value + DownloadNodes(svc.value))
  {
    if env.None? || svc.None? then Mounted(EInval, env, svc)
    else
      var bound := svc.value.(partition := find(OTA_PARTITION_NAME));
      var ns := DownloadNodes(bound);
      var r := Register(Register(Register(Register(env.value, ns[0]), ns[1]), ns[2]), ns[3]);
      assert r == env.value + ns;
      Mounted(EOk, Some(r), Some(bound))
  }

  /** `rtt_uds_download_service_unmount`: a NULL record is ignored; otherwise
      its four nodes are unregistered. */
  function UnmountDownload(nodes: seq<Node>, svc: Option<DownloadService>): (r: seq<Node>)
    ensures svc.None? ==> r == nodes
    ensures svc.Some? ==> forall n :: n in r <==> n in nodes && n !in DownloadNodes(svc.value)
  {
    if svc.None? then nodes
    else
      var ns := DownloadNodes(svc.value);
      Unregister(Unregister(Unregister(Unregister(nodes, ns[0]), ns[1]), ns[2]), ns[3])
  }

  /** Unmounting a record whose four nodes were appended to a registry not
      otherwise bound to it gives that registry back. */
  lemma UnmountAppended(env: seq<Node>, svc: DownloadService)
    requires !BoundTo(env, svc.id)
    ensures UnmountDownload(env + DownloadNodes(svc), Some(svc)) == env
  {
    var ns := DownloadNodes(svc);
    UnregisterFirstAppended(env, ns);
    assert ns[1..][1..] == ns[2..];
    UnregisterFirstAppended(env, ns[1..]);
    assert ns[2..][1..] == ns[3..];
    UnregisterFirstAppended(env, ns[2..]);
    assert ns[3..][1..] == [];
    UnregisterFirstAppended(env, ns[3..]);
    assert env + [] == env;
  }

  /** Mounting and then unmounting a record that had no nodes registered gives
      back the registry it started from. */
  lemma MountUnmountRoundTrip(env: seq<Node>, svc: DownloadService, find: string -> Option<Partition>)
    requires !BoundTo(env, svc.id)
    ensures var m := MountDownload(Some(env), Some(svc), find);
      m.nodes.Some? && UnmountDownload(m.nodes.value, m.svc) == env
  {
    var m := MountDownload(Some(env), Some(svc), find);
    assert DownloadNodes(m.svc.value) == DownloadNodes(svc);
    UnmountAppended(env, m.svc.value);
  }
}
