# UDS reprogramming services of `can_uds`, modelled in Dafny

This project models the reprogramming path of the `can_uds` package for
RT-Thread. It covers three services that the UDS dispatcher calls with a
context record bound at mount time:

- **Download** (`service_0x34_0x36_0x37_down.c`): RequestDownload (0x34),
  TransferData (0x36), RequestTransferExit (0x37) and a session-timeout
  handler. They work over one record holding the declared size, the write
  offset, the running CRC-32 and a mode (IDLE or SYNC). The file also holds
  the table-free CRC-32 `crc32_calc` and the mount/unmount of the four
  service nodes.
- **Routine control** (`service_0x31_fal_ota.c`): a RoutineControl (0x31)
  handler. It runs a fixed chain of checks (session, security level,
  sub-function, routine id, length), may erase the `ota` partition, and
  answers with the routine id as the status record. The file also has the
  mount/unmount of its node.
- **Parameters** (`service_0x22_0x2E_param.c`): ReadDataByIdentifier (0x22)
  and WriteDataByIdentifier (0x2E) over a four-entry table of (DID, length,
  32-byte buffer).

Every handler is a pure function. It takes the record (`None` for a NULL
context), the request arguments and what the FAL layer answers. It returns
the result code, the record afterwards and the storage call it made. The
modules are:

| module | file | contents |
|---|---|---|
| `UdsTypes` | `uds_types.dfy` | fixed-width integers, `uint32_t` addition, result codes, the server's session and security level, storage calls |
| `Crc32` | `crc32.dfy` | CRC-32 as a fold of a per-byte update, the chunking law, the check value, the C loop as a method |
| `Registry` | `registry.dfy` | the dispatcher's node list: register appends, unregister removes |
| `Download` | `download.dfy` | the four download handlers, mount and unmount |
| `DownloadSpec` | `download_spec.dfy` | an abstract session that keeps the whole image, and the proof that the handlers refine it over any run of requests |
| `FalOta` | `fal_ota.dfy` | the RoutineControl check chain, erase and status record, mount and unmount |
| `Param` | `param.dfy` | the parameter table, its read and write helpers, the RDBI and WDBI handlers |

The model follows the code as written, including where it is permissive:

- RequestTransferExit answers PositiveResponse for any non-NULL record, IDLE
  or SYNC. It never compares the trailer's checksum with the running CRC.
- The offset is never bounded by the declared size. The offset is a `uint32_t`
  and wraps modulo 2^32.
- RequestDownload has no session or security gate and no size check.
- Only a FAL answer of exactly -1 counts as a failure.
- `handle_rdbi` passes a `uint16_t *` where `helper_param_read` writes
  through a `uint8_t *`, so the read length is a byte.
- `handle_wdbi` passes the `uint16_t` request length to a `uint8_t`
  parameter, so only the length modulo 256 is written.

The status record handed to `copyStatusRecord` is the two bytes of the
`uint16_t` routine id in memory. It is modelled as little-endian, the byte
order of the Cortex-M target. The UDS constants the library header defines
follow ISO 14229-1: the programming session is 0x02, the extended session is
0x03, and startRoutine is 0x01.

## Model

| member | source | states |
|---|---|---|
| UdsTypes.AddU32 | packages/can_uds-v1.0.0/service/service_0x34_0x36_0x37_down.c:93 | `current_pos += len` as `uint32_t` arithmetic: it is the exact sum when that fits in 32 bits, and otherwise differs from it by a multiple of 2^32 |
| UdsTypes.LittleEndian16 | packages/can_uds-v1.0.0/service/service_0x31_fal_ota.c:65 | the two bytes of the routine id handed to `copyStatusRecord`, low byte first, recombine to the id |
| Crc32.Crc32Calc | packages/can_uds-v1.0.0/service/service_0x34_0x36_0x37_down.c:38-50 | continuing a checksum over no bytes returns it unchanged |
| Crc32.Crc32Chunks | packages/can_uds-v1.0.0/service/service_0x34_0x36_0x37_down.c:38-50 | chunking law: the checksum of `a` continued over `b` is the checksum of `a + b`, for every split |
| Crc32.CheckValue | packages/can_uds-v1.0.0/service/service_0x34_0x36_0x37_down.c:38-50 | the CRC-32 of "123456789" from 0 is 0xCBF43926, the IEEE 802.3 check value |
| Crc32.ShiftInByte | packages/can_uds-v1.0.0/service/service_0x34_0x36_0x37_down.c:43-47 | XOR-ing a byte into the register and running eight shift-and-conditional-XOR steps is one byte absorbed |
| Crc32.Crc32Loop | packages/can_uds-v1.0.0/service/service_0x34_0x36_0x37_down.c:38-50 | the C loop, which complements once on entry and once on exit, computes the same checksum as complementing around every byte |
| Registry.Register | packages/can_uds-v1.0.0/service/service_0x34_0x36_0x37_down.c:151-154 | a registered node joins the end of the list, and every earlier node keeps its place |
| Registry.Unregister | packages/can_uds-v1.0.0/service/service_0x34_0x36_0x37_down.c:163-166 | the unregistered node is gone, and exactly the other nodes remain |
| Download.HandleRequestDownload | packages/can_uds-v1.0.0/service/service_0x34_0x36_0x37_down.c:56-72 | a NULL record gives ConditionsNotCorrect; otherwise, from any mode, the record enters SYNC with the declared size and tracks an empty image (offset 0, CRC 0), keeps its binding, issues no storage call and answers PositiveResponse |
| Download.HandleTransferData | packages/can_uds-v1.0.0/service/service_0x34_0x36_0x37_down.c:74-99 | a NULL record or IDLE mode gives ConditionsNotCorrect with no write and no change; in SYNC the block is written at the current offset; a -1 answer gives ResourceTemporarilyNotAvailable and leaves the record as it was; any other answer advances the offset by the block length (mod 2^32), continues the CRC over the block and answers PositiveResponse; nothing is checked against the declared size |
| Download.HandleTransferExit | packages/can_uds-v1.0.0/service/service_0x34_0x36_0x37_down.c:101-119 | a NULL record gives ConditionsNotCorrect; any other record ends IDLE with size, offset and CRC untouched, and the answer is PositiveResponse whatever the prior mode and whatever the trailer |
| Download.HandleSessionTimeout | packages/can_uds-v1.0.0/service/service_0x34_0x36_0x37_down.c:121-130 | answers CONTINUE with or without a record, and only the mode changes, to IDLE |
| Download.SessionTimeoutIdempotent | packages/can_uds-v1.0.0/service/service_0x34_0x36_0x37_down.c:121-130 | a second timeout changes nothing more |
| Download.TransferDataRetry | packages/can_uds-v1.0.0/service/service_0x34_0x36_0x37_down.c:87-92 | after a rejected write, resending the same block has exactly the effect of sending it the first time |
| Download.TransferDataExtendsImage | packages/can_uds-v1.0.0/service/service_0x34_0x36_0x37_down.c:87-95 | a successful block turns a record tracking `image` into one tracking `image + block`: the offset is the new length mod 2^32 and the CRC is the checksum of the joined bytes |
| Download.OffsetAdvances | packages/can_uds-v1.0.0/service/service_0x34_0x36_0x37_down.c:93 | the wrapped offset, advanced by the block length, is the extended image's length mod 2^32 |
| Download.MountDownload | packages/can_uds-v1.0.0/service/service_0x34_0x36_0x37_down.c:136-157 | a NULL registry or record gives -RT_EINVAL and changes nothing; otherwise the record binds the partition found under "ota" and the four nodes (request, data and exit at normal priority, timeout at highest) are appended in order |
| Download.UnmountDownload | packages/can_uds-v1.0.0/service/service_0x34_0x36_0x37_down.c:159-167 | a NULL record changes nothing; otherwise exactly the record's four nodes leave the registry |
| Download.UnmountAppended | packages/can_uds-v1.0.0/service/service_0x34_0x36_0x37_down.c:159-167 | unmounting removes the four appended nodes and returns the registry that preceded them, in order |
| Download.MountUnmountRoundTrip | packages/can_uds-v1.0.0/service/service_0x34_0x36_0x37_down.c:136-167 | mount then unmount of a record not yet registered gives back the original registry |
| DownloadSpec.Dispatch | packages/can_uds-v1.0.0/service/service_0x34_0x36_0x37_down.c:145-148 | whichever of the four bound handlers runs, the record keeps its identity and its partition |
| DownloadSpec.StartRepresents | packages/can_uds-v1.0.0/service/service_0x34_0x36_0x37_down.c:66-71 | after RequestDownload the record represents a fresh SYNC session with the declared size and an empty image |
| DownloadSpec.StepRepresents | packages/can_uds-v1.0.0/service/service_0x34_0x36_0x37_down.c:56-130 | for any request, the handler answers what the abstract session answers, and the record keeps representing the session |
| DownloadSpec.RunRepresents | packages/can_uds-v1.0.0/service/service_0x34_0x36_0x37_down.c:56-130 | over any sequence of requests, the handlers give the abstract session's codes, and the record ends holding the image's length mod 2^32 and its CRC-32 |
| DownloadSpec.DownloadThenBlocks | packages/can_uds-v1.0.0/service/service_0x34_0x36_0x37_down.c:56-99 | after RequestDownload and n successful blocks, the offset is the sum of the block lengths mod 2^32, the CRC is the CRC-32 of all the blocks joined, the mode is SYNC, and every step answered PositiveResponse |
| DownloadSpec.IdleRefusesBlocks | packages/can_uds-v1.0.0/service/service_0x34_0x36_0x37_down.c:85-130 | after TransferExit or a timeout, a data block is refused with ConditionsNotCorrect and nothing is written |
| DownloadSpec.EndToEndScenario | packages/can_uds-v1.0.0/service/service_0x34_0x36_0x37_down.c:56-119 | RequestDownload, two blocks, TransferExit: four positive answers, the offset is the total length, the CRC is that of both blocks joined, and the mode is IDLE |
| DownloadSpec.FailedWriteScenario | packages/can_uds-v1.0.0/service/service_0x34_0x36_0x37_down.c:56-99 | the same download with the second write failing: that block answers ResourceTemporarilyNotAvailable, and the offset and CRC stay at the first block's |
| FalOta.FirstFailure | packages/can_uds-v1.0.0/service/service_0x31_fal_ota.c:37-52 | the reference reading of a check chain: no code exactly when every check passes |
| FalOta.FirstFailureIsFirst | packages/can_uds-v1.0.0/service/service_0x31_fal_ota.c:37-52 | a reported code is that of a failing check before which every check passed |
| FalOta.FirstFailureOfRoutineChecks | packages/can_uds-v1.0.0/service/service_0x31_fal_ota.c:37-52 | the first failure of the five checks, spelled out: session, then security level, then control type, then routine id, then length |
| FalOta.HandleRemoteFal | packages/can_uds-v1.0.0/service/service_0x31_fal_ota.c:27-69 | a NULL record gives ConditionsNotCorrect; a failing check gives the first failure's code with no storage call; storage is touched exactly when all checks pass and the id is 0xF000, and then it is an erase of the bound partition; an erase answering -1 gives GeneralReject; otherwise the callback's result for the little-endian id is returned, or PositiveResponse when there is no callback |
| FalOta.CheckOrder | packages/can_uds-v1.0.0/service/service_0x31_fal_ota.c:37-52 | a wrong session is reported whatever else is wrong, then security level 0, then a control type other than start, then an unknown id, then a zero length |
| FalOta.EraseOnlyWhenAccepted | packages/can_uds-v1.0.0/service/service_0x31_fal_ota.c:48-59 | an erase happens if and only if every check passes and the id is 0xF000; ids 0xF100 and 0xF200 never touch storage |
| FalOta.MountFal | packages/can_uds-v1.0.0/service/service_0x31_fal_ota.c:75-95 | a NULL registry or record gives -RT_EINVAL and changes nothing; otherwise the partition is looked up under the configured name, or "ota" when none is set, and exactly one node is appended, "fal_exec" binding RoutineCtrl to the remote-FAL handler with the record as context at normal priority |
| FalOta.UnmountFal | packages/can_uds-v1.0.0/service/service_0x31_fal_ota.c:97-106 | a NULL record changes nothing; otherwise exactly the record's node leaves the registry |
| FalOta.MountUnmountRoundTrip | packages/can_uds-v1.0.0/service/service_0x31_fal_ota.c:75-106 | mount then unmount of a record not yet registered gives back the original registry |
| Param.InitialTableContents | packages/can_uds-v1.0.0/service/service_0x22_0x2E_param.c:63-68 | the initial table is valid; 0xF190 holds the 17 bytes "UDS_RTTHREAD_TEST"; 0xF191 to 0xF193 have length 0 |
| Param.IndexFrom | packages/can_uds-v1.0.0/service/service_0x22_0x2E_param.c:72-80 | the search finds nothing exactly when no entry from the start point holds the DID; otherwise it finds the first entry that does |
| Param.ParamRead | packages/can_uds-v1.0.0/service/service_0x22_0x2E_param.c:70-82 | PositiveResponse exactly when the DID is in the table, with the first matching entry's length and first `len` bytes; otherwise RequestOutOfRange and nothing copied |
| Param.ParamWrite | packages/can_uds-v1.0.0/service/service_0x22_0x2E_param.c:84-96 | an absent DID gives RequestOutOfRange and the same table, whatever the length; otherwise the first matching entry gets the new length and its first `len` bytes, the rest of its buffer and every other entry stay, and the table stays valid |
| Param.WriteKeepsLookup | packages/can_uds-v1.0.0/service/service_0x22_0x2E_param.c:84-96 | a write moves no DID, so every lookup finds the same entry afterwards |
| Param.ReadAfterWrite | packages/can_uds-v1.0.0/service/service_0x22_0x2E_param.c:70-96 | after writing `b` (at most 32 bytes) to a present DID, reading it gives exactly `b` with length `|b|` |
| Param.HandleRdbi | packages/can_uds-v1.0.0/service/service_0x22_0x2E_param.c:113-135 | when the read succeeds, the value's bytes go to `copy` and its answer is returned; otherwise the helper's code is returned and `copy` is not called |
| Param.HandleWdbi | packages/can_uds-v1.0.0/service/service_0x22_0x2E_param.c:147-158 | the helper's answer is returned unchanged: PositiveResponse exactly when the DID is present, and then a read gives back the first (length mod 256) bytes of the request; otherwise RequestOutOfRange and the same table, whatever the length; entries holding other DIDs stay as they were |
| Param.WdbiKeepsOtherReads | packages/can_uds-v1.0.0/service/service_0x22_0x2E_param.c:147-158 | a WDBI leaves the RDBI answer of every other DID unchanged |
| Param.WdbiAbsentDidAnyLength | packages/can_uds-v1.0.0/service/service_0x22_0x2E_param.c:84-96 | a 40-byte WDBI to a DID the initial table lacks is refused with RequestOutOfRange and leaves the table as it was |
| Param.WriteThenReadByIdentifier | packages/can_uds-v1.0.0/service/service_0x22_0x2E_param.c:113-158 | WDBI of at most 32 bytes to a present DID, then RDBI of it, hands exactly those bytes to `copy` |
| Param.ReadInitialTestValue | packages/can_uds-v1.0.0/service/service_0x22_0x2E_param.c:63-135 | RDBI of 0xF190 on the initial table hands "UDS_RTTHREAD_TEST" to `copy` |

## Left out

- Logging (`rt_kprintf`, `LOG_*`) is not modelled. This includes the read of `*(uint32_t *)args->data` at `service_0x34_0x36_0x37_down.c:108`, which is unguarded and only feeds a log line.
- The FAL driver (`fal_partition_find`, `fal_partition_write`, `fal_partition_erase_all`) is not part of this model. Lookup is a function parameter. Write and erase results are integer inputs, and the storage call is recorded as data.
- The dispatcher is not part of this model: event lookup, priority ordering, transport framing, and turning codes into responses. Registration is modelled as appending to an ordered node list, and unregistration as removing a node.
- FalOta.MountFal: the code returns what `rtt_uds_service_register` returns. That function is not part of this model, so the model assumes it succeeds with RT_EOK. The download mount ignores those results in the code as well.
- The parameter service's registration (`RTT_UDS_SERVICE_DEFINE_OPS` at `service_0x22_0x2E_param.c:169-170`) is a macro whose definition is not part of this model.
- Param.ParamWrite and Param.HandleWdbi require the written length to be at most 32 when the DID is in the table. Only then does the code copy, and it copies without checking against the 32-byte buffer, so a longer write overruns it. That memory corruption is not modelled, and the precondition is an unchecked assumption of the code.
- Param.HandleWdbi requires the request length to fit in a `uint16_t`, which is the width of the request field.
- Server state other than session type and security level is not modelled, and none of the handlers read it.
- Records are values. The C code mutates them in place through the context pointer, and the model returns the new record instead.
- The `ota` partition's size in the FAL configuration is not modelled, because no handler checks against it.
