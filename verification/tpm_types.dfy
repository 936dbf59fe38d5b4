/**
 * Wire-level vocabulary of the TPM 1.2 command library: fixed-width
 * integers, the 20-byte nonces and digests, the response tags and result
 * codes used by the authorization-session HMAC logic, and the big-endian
 * ("TPM-endian") integer codec.
 */
module TpmTypes {

  newtype uint8 = x: int | 0 <= x < 0x100
  newtype uint16 = x: int | 0 <= x < 0x1_0000
  newtype uint32 = x: int | 0 <= x < 0x1_0000_0000

  datatype Option<+T> = None | Some(value: T)

  const TPM_U16_SIZE: nat := 2
  const TPM_U32_SIZE: nat := 4
  const TPM_NONCE_SIZE: nat := 20
  const TPM_HASH_SIZE: nat := 20

  /** A TPM nonce (TPM_NONCE): exactly 20 bytes. */
  type Nonce = s: seq<uint8> | |s| == TPM_NONCE_SIZE witness seq(TPM_NONCE_SIZE, _ => 0)

  /** A SHA-1 or HMAC-SHA-1 output (TPM_DIGEST): exactly 20 bytes. */
  type Digest = s: seq<uint8> | |s| == TPM_HASH_SIZE witness seq(TPM_HASH_SIZE, _ => 0)

  /** Response tags of TPM 1.2 (Part 2, TPM_TAG values). */
  const TPM_TAG_RSP_COMMAND: uint16 := 0x00C4
  const TPM_TAG_RSP_AUTH1_COMMAND: uint16 := 0x00C5
  const TPM_TAG_RSP_AUTH2_COMMAND: uint16 := 0x00C6

  /**
   * The result codes TSS_CheckHMAC and TSS_AuthHMAC return: TPM_SUCCESS, TPM_E_NULL_ARG and
   * TPM_E_HMAC_FAIL. Only their distinctness matters here.
   */
  datatype Status = Success | NullArg | HmacFail

  /** FromTpmUint16: the big-endian 16-bit value held in the first two bytes. */
  function FromTpmUint16(s: seq<uint8>): (x: uint16)
    requires |s| >= TPM_U16_SIZE
  {
    (s[0] as int * 0x100 + s[1] as int) as uint16
  }

  /** FromTpmUint32: the big-endian 32-bit value held in the first four bytes. */
  function FromTpmUint32(s: seq<uint8>): (x: uint32)
    requires |s| >= TPM_U32_SIZE
  {
    (((s[0] as int * 0x100 + s[1] as int) * 0x100 + s[2] as int) * 0x100 + s[3] as int) as uint32
  }

  /**
   * ToTpmUint32: the four big-endian bytes of a 32-bit value; decoding them
   * gives the value back.
   */
  function ToTpmUint32(x: uint32): (s: seq<uint8>)
    ensures |s| == TPM_U32_SIZE
    ensures FromTpmUint32(s) == x
  {
    var n := x as int;
    var q1, b3 := n / 0x100, n % 0x100;
    var q2, b2 := q1 / 0x100, q1 % 0x100;
    var b0, b1 := q2 / 0x100, q2 % 0x100;
    assert n == q1 * 0x100 + b3 && q1 == q2 * 0x100 + b2 && q2 == b0 * 0x100 + b1;
    [b0 as uint8, b1 as uint8, b2 as uint8, b3 as uint8]
  }
}
