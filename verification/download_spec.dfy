/** An independent description of a download session and the proof that the
    download handlers implement it. The description keeps the image itself, the
    bytes accepted since the last RequestDownload, where the service record
    keeps only an offset and a CRC. Running the same requests through both
    gives the same result codes, and the record always holds the image's length
    (as a `uint32_t`) and its CRC-32. */
module DownloadSpec {
  import opened UdsTypes
  import opened Crc32
  import opened Download

  /** A request to the download service, with the FAL layer's answer to the
      write a TransferData may cause. */
  datatype Request =
    | StartDownload(args: RequestDownloadArgs)
    | Block(data: seq<bv8>, writeRet: int)
    | Finish(trailer: seq<bv8>)
    | Timeout

  /** The handler the dispatcher calls for a request, on a bound record. */
  function Dispatch(svc: DownloadService, r: Request): (s: Step)
    ensures s.ctx.Some? && SameBinding(svc, s.ctx.value)
  {
    match r
    case StartDownload(args) => HandleRequestDownload(Some(svc), args)
    case Block(data, ret) => HandleTransferData(Some(svc), data, ret)
    case Finish(trailer) => HandleTransferExit(Some(svc), trailer)
    case Timeout => HandleSessionTimeout(Some(svc))
  }

  /** The abstract session: mode, declared size, and the image so far. */
  datatype Session = Session(mode: Mode, declared: u32, image: seq<bv8>)

  /** What a request does to the abstract session, and the code it answers. */
  function SessionStep(a: Session, r: Request): (UdsResult, Session) {
    match r
    case StartDownload(args) => (PositiveResponse, Session(Sync, args.size, []))
    case Block(data, ret) =>
      if a.mode != Sync then (ConditionsNotCorrect, a)
      else if ret == -1 then (ResourceTemporarilyNotAvailable, a)
      else (PositiveResponse, a.(image := a.image + data))
    case Finish(_) => (PositiveResponse, a.(mode := Idle))
    case Timeout => (Continue, a.(mode := Idle))
  }

  /** The record represents the abstract session. */
  predicate Represents(svc: DownloadService, a: Session) {
    svc.mode == a.mode && svc.totalSize == a.declared && Tracks(svc, a.image)
  }

  /** A record fresh from RequestDownload represents an empty image. */
  lemma StartRepresents(svc: DownloadService, args: RequestDownloadArgs, a: Session)
    ensures Represents(Dispatch(svc, StartDownload(args)).ctx.value, SessionStep(a, StartDownload(args)).1)
  {
  }

  /** One request: same code, and the representation is kept. */
  lemma {:induction false} StepRepresents(svc: DownloadService, a: Session, r: Request)
    requires Represents(svc, a)
    ensures Dispatch(svc, r).result == SessionStep(a, r).0
    ensures Represents(Dispatch(svc, r).ctx.value, SessionStep(a, r).1)
  {
    match r
    case Block(data, ret) =>
      if a.mode == Sync && ret != -1 {
        TransferDataExtendsImage(svc, a.image, data, ret);
      }
    case _ =>
  }

  /** The codes answered and the record left by a run of requests. */
  function Run(svc: DownloadService, rs: seq<Request>): (DownloadService, seq<UdsResult>)
    decreases |rs|
  {
    if |rs| == 0 then (svc, [])
    else
      var s := Dispatch(svc, rs[0]);
      var rest := Run(s.ctx.value, rs[1..]);
      (rest.0, [s.result] + rest.1)
  }

  /** The codes answered and the session left by the abstract run. */
  function SessionRun(a: Session, rs: seq<Request>): (Session, seq<UdsResult>)
    decreases |rs|
  {
    if |rs| == 0 then (a, [])
    else
      var st := SessionStep(a, rs[0]);
      var rest := SessionRun(st.1, rs[1..]);
      (rest.0, [st.0] + rest.1)
  }

  /** Refinement: over any run, the handlers answer exactly what the abstract
      session answers and end in a record that represents its final state. */
  lemma {:induction false} RunRepresents(svc: DownloadService, a: Session, rs: seq<Request>)
    requires Represents(svc, a)
    ensures Run(svc, rs).1 == SessionRun(a, rs).1
    ensures Represents(Run(svc, rs).0, SessionRun(a, rs).0)
    decreases |rs|
  {
    if |rs| > 0 {
      StepRepresents(svc, a, rs[0]);
      RunRepresents(Dispatch(svc, rs[0]).ctx.value, SessionStep(a, rs[0]).1, rs[1..]);
    }
  }

  /** The blocks of a download, each written successfully. */
  function Blocks(blocks: seq<seq<bv8>>): (rs: seq<Request>)
    ensures |rs| == |blocks|
    ensures forall i :: 0 <= i < |rs| ==> rs[i] == Block(blocks[i], 0)
  {
    seq(|blocks|, i requires 0 <= i < |blocks| => Block(blocks[i], 0))
  }

  /** All blocks joined in order. */
  function Concat(blocks: seq<seq<bv8>>): seq<bv8>
    decreases |blocks|
  {
    if |blocks| == 0 then [] else blocks[0] + Concat(blocks[1..])
  }

  /** The sum of the block lengths. */
  function TotalLength(blocks: seq<seq<bv8>>): nat
    decreases |blocks|
  {
    if |blocks| == 0 then 0 else |blocks[0]| + TotalLength(blocks[1..])
  }

  lemma {:induction false} ConcatLength(blocks: seq<seq<bv8>>)
    ensures |Concat(blocks)| == TotalLength(blocks)
    decreases |blocks|
  {
    if |blocks| > 0 {
      ConcatLength(blocks[1..]);
    }
  }

  /** In SYNC mode, successful blocks append to the abstract image, each
      answered positively. */
  lemma {:induction false} SessionBlocks(a: Session, blocks: seq<seq<bv8>>)
    requires a.mode == Sync
    ensures SessionRun(a, Blocks(blocks)).0 == a.(image := a.image + Concat(blocks))
    ensures |SessionRun(a, Blocks(blocks)).1| == |blocks|
    ensures forall i :: 0 <= i < |blocks| ==> SessionRun(a, Blocks(blocks)).1[i] == PositiveResponse
    decreases |blocks|
  {
    var rs := Blocks(blocks);
    if |blocks| == 0 {
      assert a.image + [] == a.image;
    } else {
      var a1 := a.(image := a.image + blocks[0]);
      assert rs[1..] == Blocks(blocks[1..]);
      SessionBlocks(a1, blocks[1..]);
      assert a1.image + Concat(blocks[1..]) == a.image + Concat(blocks);
    }
  }

  /** After RequestDownload and n successful TransferData blocks, the offset
      is the sum of the block lengths (as a `uint32_t`), the CRC is the CRC-32
      of all blocks joined, the mode is still SYNC and every request was
      answered positively. */
  lemma DownloadThenBlocks(svc: DownloadService, args: RequestDownloadArgs, blocks: seq<seq<bv8>>)
    ensures var run := Run(svc, [StartDownload(args)] + Blocks(blocks));
      && run.0.currentPos == TotalLength(blocks) % U32_MODULUS
      && run.0.currentCrc == Crc32Calc(0, Concat(blocks))
      && run.0.mode == Sync
      && run.0.totalSize == args.size
      && |run.1| == |blocks| + 1
      && forall i :: 0 <= i < |run.1| ==> run.1[i] == PositiveResponse
  {
    var rs := [StartDownload(args)] + Blocks(blocks);
    var a0 := Session(Idle, 0, []);
    var svc1 := Dispatch(svc, StartDownload(args)).ctx.value;
    var a1 := SessionStep(a0, StartDownload(args)).1;
    StartRepresents(svc, args, a0);
    RunRepresents(svc1, a1, Blocks(blocks));
    SessionBlocks(a1, blocks);
    ConcatLength(blocks);
    assert rs[1..] == Blocks(blocks);
    assert [] + Concat(blocks) == Concat(blocks);
  }

  /** Data blocks transferred after TransferExit or a timeout are refused
      with ConditionsNotCorrect and write nothing, until the next
      RequestDownload. */
  lemma IdleRefusesBlocks(svc: DownloadService, end: Request, data: seq<bv8>, writeRet: int)
    requires end.Finish? || end.Timeout?
    ensures var s := Dispatch(Dispatch(svc, end).ctx.value, Block(data, writeRet));
      s.result == ConditionsNotCorrect && s.storage == NoStorage
  {
  }

  /** A run is its first request followed by the rest. */
  lemma RunCons(svc: DownloadService, r: Request, rest: seq<Request>)
    ensures var s := Dispatch(svc, r);
      Run(svc, [r] + rest) == (Run(s.ctx.value, rest).0, [s.result] + Run(s.ctx.value, rest).1)
  {
    assert ([r] + rest)[0] == r;
    assert ([r] + rest)[1..] == rest;
  }

  /** A run followed by one more request. */
  lemma {:induction false} RunSnoc(svc: DownloadService, rs: seq<Request>, r: Request)
    ensures var s := Dispatch(Run(svc, rs).0, r);
      Run(svc, rs + [r]) == (s.ctx.value, Run(svc, rs).1 + [s.result])
    decreases |rs|
  {
    if |rs| == 0 {
      var s := Dispatch(svc, r);
      assert rs + [r] == [r] + [];
      RunCons(svc, r, []);
      assert Run(s.ctx.value, []) == (s.ctx.value, []);
      assert [s.result] + [] == [] + [s.result];
    } else {
      var next := Dispatch(svc, rs[0]);
      assert (rs + [r])[0] == rs[0];
      assert (rs + [r])[1..] == rs[1..] + [r];
      RunSnoc(next.ctx.value, rs[1..], r);
      var tail := Run(next.ctx.value, rs[1..]);
      var s := Dispatch(tail.0, r);
      assert [next.result] + (tail.1 + [s.result]) == ([next.result] + tail.1) + [s.result];
    }
  }

  /** RequestDownload, TransferData of one block, TransferData of another,
      RequestTransferExit: every step answers positively and the record ends
      IDLE at the summed offset with the CRC-32 of both blocks joined. */
  lemma EndToEndScenario(svc: DownloadService, size: u32, first: seq<bv8>, second: seq<bv8>)
    requires |first| + |second| < U32_MODULUS
    ensures var run := Run(svc, [StartDownload(RequestDownloadArgs(0, size, 0))] + Blocks([first, second]) + [Finish([])]);
      && run.1 == [PositiveResponse, PositiveResponse, PositiveResponse, PositiveResponse]
      && run.0.currentPos == |first| + |second|
      && run.0.currentCrc == Crc32Calc(0, first + second)
      && run.0.mode == Idle
  {
    var args := RequestDownloadArgs(0, size, 0);
    var blocks := [first, second];
    var rs := [StartDownload(args)] + Blocks(blocks);
    assert blocks[1..] == [second] && blocks[1..][1..] == [];
    assert Concat(blocks) == first + second by {
      assert Concat([second]) == second + [];
    }
    assert TotalLength(blocks) == |first| + |second| by {
      assert TotalLength([second]) == |second| + TotalLength([]);
    }
    DownloadThenBlocks(svc, args, blocks);
    RunSnoc(svc, rs, Finish([]));
    var codes := Run(svc, rs).1;
    assert codes == [PositiveResponse, PositiveResponse, PositiveResponse];
  }

  /** The same download with the second write failing: that block answers
      ResourceTemporarilyNotAvailable and the offset stays after the first
      block. */
  lemma FailedWriteScenario(svc: DownloadService, size: u32, first: seq<bv8>, second: seq<bv8>)
    requires |first| < U32_MODULUS
    ensures var run := Run(svc, [StartDownload(RequestDownloadArgs(0, size, 0)), Block(first, 0), Block(second, -1)]);
      && run.1 == [PositiveResponse, PositiveResponse, ResourceTemporarilyNotAvailable]
      && run.0.currentPos == |first|
      && run.0.currentCrc == Crc32Calc(0, first)
      && run.0.mode == Sync
  {
    var r0, r1, r2 := StartDownload(RequestDownloadArgs(0, size, 0)), Block(first, 0), Block(second, -1);
    var s1 := Dispatch(svc, r0).ctx.value;
    var s2 := Dispatch(s1, r1).ctx.value;
    var s3 := Dispatch(s2, r2).ctx.value;
    assert s3 == s2;
    RunCons(s2, r2, []);
    RunCons(s1, r1, [r2]);
    RunCons(svc, r0, [r1, r2]);
  }
}
