/** Vocabulary shared by the UDS (ISO 14229-1) services of the can_uds package:
    the C integer widths the services use, the result codes a handler hands back
    to the dispatcher, the server's session view, and the calls a handler issues
    to the flash-abstraction (FAL) storage layer. */
module UdsTypes {

  /** C `uint8_t`, `uint16_t` and `uint32_t` as bounded integers. */
  type u8 = x: int | 0 <= x < 0x100
  type u16 = x: int | 0 <= x < 0x1_0000
  type u32 = x: int | 0 <= x < 0x1_0000_0000

  const U32_MODULUS: int := 0x1_0000_0000

  /** C `uint32_t` addition: the sum wraps around modulo 2^32. */
  function AddU32(a: u32, b: nat): (r: u32)
    ensures a + b < U32_MODULUS ==> r == a + b
    ensures (a + b - r) % U32_MODULUS == 0
  {
    (a + b) % U32_MODULUS
  }

  /** A nullable reference: a C pointer that may be NULL. */
  datatype Option<+T> = None | Some(value: T) {
    function GetOr(default: T): T {
      match this
      case Some(v) => v
      case None => default
    }
  }

  /** `UDSErr_t` as the handlers of this package return it. `Continue` is
      `RTT_UDS_CONTINUE` (let the dispatcher go on to the next handler);
      `OtherCode` is any further value a dispatcher callback may answer. */
  datatype UdsResult =
    | PositiveResponse
    | GeneralReject
    | SubFunctionNotSupported
    | IncorrectMessageLengthOrInvalidFormat
    | ConditionsNotCorrect
    | RequestOutOfRange
    | SecurityAccessDenied
    | ServiceNotSupportedInActiveSession
    | ResourceTemporarilyNotAvailable
    | Continue
    | OtherCode(code: int)

  /** The part of the UDS server state the handlers read. */
  datatype Server = Server(sessionType: u8, securityLevel: u8)

  /** Diagnostic session levels of ISO 14229-1. */
  const SESSION_PROGRAMMING: u8 := 0x02
  const SESSION_EXTENDED: u8 := 0x03

  /** An opaque handle returned by `fal_partition_find`. */
  datatype Partition = Partition(handle: nat)

  /** The storage operation a handler issues, if any. The partition is the
      handle resolved at mount time, which may be NULL. */
  datatype StorageCall =
    | NoStorage
    | EraseAll(part: Option<Partition>)
    | Write(part: Option<Partition>, offset: u32, data: seq<bv8>)

  /** The FAL layer reports failure as exactly -1; every other value is success. */
  predicate FalFailed(ret: int) {
    ret == -1
  }

  /** Little-endian bytes of a 16-bit value, as the target stores a `uint16_t`. */
  function LittleEndian16(x: u16): (b: seq<bv8>)
    ensures |b| == 2
    ensures ((b[1] as bv16) << 8) | (b[0] as bv16) == x as bv16
  {
    var v := x as bv16;
    [(v & 0xFF) as bv8, (v >> 8) as bv8]
  }
}
