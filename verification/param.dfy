/** The parameter service of the can_uds package: ReadDataByIdentifier (0x22)
    and WriteDataByIdentifier (0x2E) over a fixed table of four entries, each a
    data identifier (DID), a length and a 32-byte buffer. The table is a value
    here: a write returns the new table. */
module Param {
  import opened UdsTypes

  /** `UDS_PARAM_RDBI_BUF_SIZE`: the buffer of each entry and the read buffer. */
  const PARAM_BUF_SIZE: nat := 32

  /** `sUdsRDBIArgs_t`: one DID, the length of its value, and its buffer. */
  datatype Entry = Entry(did: u16, len: u16, data: seq<bv8>)

  /** Every buffer is 32 bytes and every length fits in it. The code keeps
      this only as long as no write is longer than the buffer. */
  predicate ValidTable(t: seq<Entry>) {
    forall i :: 0 <= i < |t| ==> |t[i].data| == PARAM_BUF_SIZE && t[i].len <= PARAM_BUF_SIZE
  }

  function Zeros(n: nat): (z: seq<bv8>)
    ensures |z| == n && forall i :: 0 <= i < n ==> z[i] == 0
  {
    seq(n, _ => 0)
  }

  /** The ASCII text "UDS_RTTHREAD_TEST". */
  const TEST_VALUE: seq<bv8> :=
    [0x55, 0x44, 0x53, 0x5F, 0x52, 0x54, 0x54, 0x48, 0x52, 0x45, 0x41, 0x44, 0x5F, 0x54, 0x45, 0x53, 0x54]

  /** `g_uds_param_rdbi_args` as initialised. */
  const INITIAL_TABLE: seq<Entry> := [
    Entry(0xF190, 17, TEST_VALUE + Zeros(15)),
    Entry(0xF191, 0, Zeros(32)),
    Entry(0xF192, 0, Zeros(32)),
    Entry(0xF193, 0, Zeros(32))
  ]

  /** The initial table: 0xF190 holds the 17-byte test text, 0xF191 to
      0xF193 are empty, and the table is valid. */
  lemma InitialTableContents()
    ensures ValidTable(INITIAL_TABLE) && |INITIAL_TABLE| == 4
    ensures INITIAL_TABLE[0].did == 0xF190 && INITIAL_TABLE[0].len == 17
    ensures INITIAL_TABLE[0].data[..17] == TEST_VALUE
    ensures forall i :: 1 <= i < 4 ==> INITIAL_TABLE[i].did == 0xF190 + i && INITIAL_TABLE[i].len == 0
  {
    assert (TEST_VALUE + Zeros(15))[..17] == TEST_VALUE;
  }

  /** The index the search loop stops at: the first entry holding `did`,
      looking from `from` on. */
  function IndexFrom(t: seq<Entry>, did: u16, from: nat): (r: Option<nat>)
    requires from <= |t|
    ensures r.None? <==> forall i :: from <= i < |t| ==> t[i].did != did
    ensures r.Some? ==> && from <= r.value < |t|
                        && t[r.value].did == did
                        && forall j :: from <= j < r.value ==> t[j].did != did
    decreases |t| - from
  {
    if from == |t| then None
    else if t[from].did == did then Some(from)
    else IndexFrom(t, did, from + 1)
  }

  /** The first entry holding `did`, if any. */
  function IndexOf(t: seq<Entry>, did: u16): Option<nat> {
    IndexFrom(t, did, 0)
  }

  /** What the read helper hands back: the read length (a byte, since the
      helper writes through a `uint8_t *`) and the bytes copied out. */
  datatype ParamValue = ParamValue(readLen: u8, bytes: seq<bv8>)

  datatype ReadResult = ReadResult(result: UdsResult, value: Option<ParamValue>)

  /** `helper_param_read`: copy out the first `len` bytes of the entry for
      `did`, or answer RequestOutOfRange and copy nothing. */
  function ParamRead(t: seq<Entry>, did: u16): (r: ReadResult)
    requires ValidTable(t)
    ensures (exists i :: 0 <= i < |t| && t[i].did == did) <==> r.result == PositiveResponse
    ensures r.result != PositiveResponse ==> r == ReadResult(RequestOutOfRange, None)
    ensures r.result == PositiveResponse ==>
      exists i :: && 0 <= i < |t| && t[i].did == did
                  && (forall j :: 0 <= j < i ==> t[j].did != did)
                  && r.value == Some(ParamValue(t[i].len, t[i].data[..t[i].len]))
  {
    match IndexOf(t, did)
    case None => ReadResult(RequestOutOfRange, None)
    case Some(i) =>
      var e := t[i];
      var r := ReadResult(PositiveResponse, Some(ParamValue(e.len % 256, e.data[..e.len])));
      assert r.value == Some(ParamValue(t[i].len, t[i].data[..t[i].len]));
      r
  }

  datatype WriteResult = WriteResult(result: UdsResult, table: seq<Entry>)

  /** `helper_param_write`: overwrite the first `len` bytes of the entry for
      `did` and set its length, or answer RequestOutOfRange. The code copies
      without checking `len` against the 32-byte buffer: that is a
      precondition here. */
  function ParamWrite(t: seq<Entry>, did: u16, buf: seq<bv8>, len: u8): (w: WriteResult)
    requires ValidTable(t)
    requires IndexOf(t, did).Some? ==> len <= PARAM_BUF_SIZE && len <= |buf|
    ensures ValidTable(w.table) && |w.table| == |t|
    ensures IndexOf(t, did).None? ==> w == WriteResult(RequestOutOfRange, t)
    ensures IndexOf(t, did).Some? ==>
      var i := IndexOf(t, did).value;
      && w.result == PositiveResponse
      && w.table[i].did == did
      && w.table[i].len == len
      && w.table[i].data[..len] == buf[..len]
      && w.table[i].data[len..] == t[i].data[len..]
      && forall j :: 0 <= j < |t| && j != i ==> w.table[j] == t[j]
  {
    match IndexOf(t, did)
    case None => WriteResult(RequestOutOfRange, t)
    case Some(i) =>
      var e := t[i];
      var updated := e.(data := buf[..len] + e.data[len..], len := len);
      assert updated.data[..len] == buf[..len];
      assert updated.data[len..] == e.data[len..];
      WriteResult(PositiveResponse, t[i := updated])
  }

  /** A write keeps every DID where it was, so every lookup finds the same
      entry afterwards. */
  lemma {:induction false} WriteKeepsLookup(t: seq<Entry>, did: u16, buf: seq<bv8>, len: u8, other: u16)
    requires ValidTable(t)
    requires IndexOf(t, did).Some? ==> len <= PARAM_BUF_SIZE && len <= |buf|
    ensures IndexOf(ParamWrite(t, did, buf, len).table, other) == IndexOf(t, other)
  {
    var t' := ParamWrite(t, did, buf, len).table;
    assert forall i :: 0 <= i < |t| ==> t'[i].did == t[i].did;
    IndexFromSameDids(t, t', other, 0);
  }

  /** Two tables with the same DIDs in the same places answer every lookup
      alike. */
  lemma {:induction false} IndexFromSameDids(t: seq<Entry>, t': seq<Entry>, did: u16, from: nat)
    requires |t| == |t'| && from <= |t|
    requires forall i :: 0 <= i < |t| ==> t'[i].did == t[i].did
    ensures IndexFrom(t', did, from) == IndexFrom(t, did, from)
    decreases |t| - from
  {
    if from < |t| {
      IndexFromSameDids(t, t', did, from + 1);
    }
  }

  /** Read after write: once `b` (at most 32 bytes) is written to a DID of
      the table, reading that DID gives back exactly `b`, with length |b|. */
  lemma ReadAfterWrite(t: seq<Entry>, did: u16, b: seq<bv8>)
    requires ValidTable(t) && |b| <= PARAM_BUF_SIZE
    requires exists i :: 0 <= i < |t| && t[i].did == did
    ensures var w := ParamWrite(t, did, b, |b|);
      w.result == PositiveResponse && ParamRead(w.table, did) == ReadResult(PositiveResponse, Some(ParamValue(|b|, b)))
  {
    var w := ParamWrite(t, did, b, |b|);
    WriteKeepsLookup(t, did, b, |b|, did);
    assert b[..|b|] == b;
  }

  // ---------------------------------------------------------------------------
  // Service handlers
  // ---------------------------------------------------------------------------

  /** What `handle_rdbi` did: the code returned and the bytes handed to the
      dispatcher's `copy` callback, if it was called. */
  datatype RdbiOutcome = RdbiOutcome(result: UdsResult, staged: Option<seq<bv8>>)

  /** `handle_rdbi`: look the DID up; when found, hand its value to `copy`
      and return what `copy` returns, otherwise return the helper's code. */
  function HandleRdbi(t: seq<Entry>, dataId: u16, copy: seq<bv8> -> UdsResult): (o: RdbiOutcome)
    requires ValidTable(t)
    ensures ParamRead(t, dataId).result == PositiveResponse ==>
      var v := ParamRead(t, dataId).value.value;
      o.staged == Some(v.bytes) && |v.bytes| == v.readLen && o.result == copy(v.bytes)
    ensures ParamRead(t, dataId).result != PositiveResponse ==>
      o == RdbiOutcome(ParamRead(t, dataId).result, None)
  {
    var r := ParamRead(t, dataId);
    if r.result == PositiveResponse then
      var v := r.value.value;
      var staged := v.bytes[..v.readLen];
      assert staged == v.bytes;
      RdbiOutcome(copy(staged), Some(staged))
    else
      RdbiOutcome(r.result, None)
  }

  /** `handle_wdbi`: pass the request to the write helper and return its
      code. The request length is a `uint16_t` but the helper takes a
      `uint8_t`, so only the length modulo 256 is written; the code relies on
      that being at most 32. */
  function HandleWdbi(t: seq<Entry>, dataId: u16, data: seq<bv8>): (w: WriteResult)
    requires ValidTable(t)
    requires |data| < 0x1_0000
    requires IndexOf(t, dataId).Some? ==> |data| % 256 <= PARAM_BUF_SIZE
    ensures ValidTable(w.table) && |w.table| == |t|
    ensures forall j :: 0 <= j < |t| && t[j].did != dataId ==> w.table[j] == t[j]
    ensures w.result == PositiveResponse || w == WriteResult(RequestOutOfRange, t)
    ensures w.result == PositiveResponse <==> exists i :: 0 <= i < |t| && t[i].did == dataId
    ensures w.result == PositiveResponse ==>
      ParamRead(w.table, dataId) ==
        ReadResult(PositiveResponse, Some(ParamValue(|data| % 256, data[..|data| % 256])))
  {
    var len: u8 := |data| % 256;
    var w := ParamWrite(t, dataId, data, len);
    WriteKeepsLookup(t, dataId, data, len, dataId);
    assert data[..len][..len] == data[..len];
    w
  }

  /** WriteDataByIdentifier leaves the reads of every other DID as they were. */
  lemma WdbiKeepsOtherReads(t: seq<Entry>, dataId: u16, data: seq<bv8>, other: u16)
    requires ValidTable(t)
    requires |data| < 0x1_0000
    requires IndexOf(t, dataId).Some? ==> |data| % 256 <= PARAM_BUF_SIZE
    requires other != dataId
    ensures ParamRead(HandleWdbi(t, dataId, data).table, other) == ParamRead(t, other)
  {
    WriteKeepsLookup(t, dataId, data, |data| % 256, other);
  }

  /** A write of any length to a DID the table lacks is refused with
      RequestOutOfRange and copies nothing: 40 bytes to 0xF1A0, say. */
  lemma WdbiAbsentDidAnyLength()
    ensures HandleWdbi(INITIAL_TABLE, 0xF1A0, Zeros(40)) == WriteResult(RequestOutOfRange, INITIAL_TABLE)
  {
    InitialTableContents();
    assert IndexOf(INITIAL_TABLE, 0xF1A0).None?;
  }

  /** WriteDataByIdentifier then ReadDataByIdentifier of the same DID hands
      the written bytes to the response callback. */
  lemma WriteThenReadByIdentifier(t: seq<Entry>, dataId: u16, data: seq<bv8>, copy: seq<bv8> -> UdsResult)
    requires ValidTable(t) && |data| <= PARAM_BUF_SIZE
    requires exists i :: 0 <= i < |t| && t[i].did == dataId
    ensures var w := HandleWdbi(t, dataId, data);
      w.result == PositiveResponse && HandleRdbi(w.table, dataId, copy) == RdbiOutcome(copy(data), Some(data))
  {
    assert data[..|data|] == data;
  }

  /** Reading 0xF190 from the initial table hands "UDS_RTTHREAD_TEST" to the
      response callback. */
  lemma ReadInitialTestValue(copy: seq<bv8> -> UdsResult)
    ensures ValidTable(INITIAL_TABLE)
    ensures HandleRdbi(INITIAL_TABLE, 0xF190, copy) == RdbiOutcome(copy(TEST_VALUE), Some(TEST_VALUE))
  {
    InitialTableContents();
    assert IndexOf(INITIAL_TABLE, 0xF190) == Some(0);
  }
}
