# TPM 1.2 authorization-session HMACs, modelled in Dafny

This project models `lib/tlcl/tlcl_hmac.c` of the tlcl TPM command library.
The file holds the HMAC logic of the TPM 1.2 authorization sessions (OIAP
and OSAP, TCG TPM Main Specification 1.2, Part 1). The caller and the TPM
prove to each other that they share an AuthData secret by keyed hashes over
a parameter digest and a pair of rolling nonces: the odd nonce comes from
the caller, the even nonce from the TPM.

- `TSS_CheckHMAC` verifies the authorization blocks that trail a response.
  Each block is 41 bytes: a 20-byte even nonce, a continue-session flag and
  a 20-byte HMAC. A response tagged `TPM_TAG_RSP_COMMAND` has no block,
  `TPM_TAG_RSP_AUTH1_COMMAND` one, `TPM_TAG_RSP_AUTH2_COMMAND` two.
- `TSS_AuthHMAC` computes the HMAC that an authorized command carries.

Both build a parameter digest from a list of (size, source) descriptors
that ends at the first zero size.

Files:

- `tpm_types.dfy` (module `TpmTypes`): byte and word types, 20-byte nonces
  and digests, the response tags, the result codes and the big-endian
  integer codec.
- `param_descriptors.dfy` (module `ParamDescriptors`): the descriptor list
  and its terminator, and the concatenation of the ranges it selects.
- `tlcl_hmac.dfy` (module `TlclHmac`): the two operations as methods. The
  SHA-1 context is a message that grows with each update and is hashed
  once when finished. Each method is proved equal to a specification
  function, `CheckHmacOutcome` or `AuthHmacOutcome`. That function gives
  the result code and a ghost trace of every SHA-1 and HMAC computation,
  with its key and message.
- `tlcl_hmac_properties.dfy` (module `TlclHmacProperties`): what the two
  operations guarantee.

SHA-1 and HMAC-SHA-1 are a parameter `Crypto(sha1, hmac)` of function type.
Nothing is assumed about them except that their results are 20 bytes long.
So every property here holds for any pair of primitives.

Two behaviours of the code to note:

- An unsupported response tag returns `TPM_E_HMAC_FAIL` (line 57), and so
  does the model.
- The code does not bounds-check the header's size field or the descriptor
  offsets (lines 65, 73, 91-112). It does not reject bad values with an
  error either. Here these are preconditions (`CheckHmacReadable`,
  `DataReadable`), stated only on the paths that read those bytes.

## Model

| member | source | states |
|---|---|---|
| `TpmTypes.ToTpmUint32` | lib/tlcl/tlcl_hmac.c:47 | the ordinal is serialized as four bytes, and decoding them gives the ordinal back |
| `ParamDescriptors.Terminator` | lib/tlcl/tlcl_hmac.c:69-74 | the descriptor loop consumes exactly the entries before the first zero size: all of them have a nonzero size, and the entry it stops at has size zero |
| `ParamDescriptors.ResponseRangesFrame` | lib/tlcl/tlcl_hmac.c:73 | the digested ranges depend only on the response bytes the descriptors cover |
| `ParamDescriptors.ResponseRangesAppend` | lib/tlcl/tlcl_hmac.c:69-74 | ranges are digested in list order: splitting the list splits the bytes, in the same order |
| `TlclHmac.EncodeBlock` | lib/tlcl/tlcl_hmac.c:78-81 | the trailing block is 41 bytes (even nonce, flag, HMAC), and parsing the bytes gives the block back |
| `TlclHmac.ParamDigestMessage` | lib/tlcl/tlcl_hmac.c:63-75 | the loop feeds the SHA-1 context the return-code bytes, the serialized ordinal, then each descriptor's range in order until the terminator |
| `TlclHmac.CheckBlock` | lib/tlcl/tlcl_hmac.c:87-98 | one block check: the HMAC under the key of paramDigest, the block's even nonce, the odd nonce and the block's flag is compared with the block's HMAC |
| `TlclHmac.CheckTrailer` | lib/tlcl/tlcl_hmac.c:76-116 | offset 41 (or 82 for AUTH2), first block under `key`, the AUTH2 second block under `key2` only if the first matched, result and primitive calls as `TrailerOutcome` |
| `TlclHmac.CheckHmac` | lib/tlcl/tlcl_hmac.c:30-117 | the result code and the primitive computations are exactly those of `CheckHmacOutcome` |
| `TlclHmac.AuthHmac` | lib/tlcl/tlcl_hmac.c:119-157 | result code and computations as `AuthHmacOutcome`; on success `digest` holds the HMAC; on error `digest` is unchanged |
| `TlclHmacProperties.PlainResponseSucceeds` | lib/tlcl/tlcl_hmac.c:45-50 | a `TPM_TAG_RSP_COMMAND` response gives TPM_SUCCESS whatever the keys, nonce, descriptors and primitives, and nothing is hashed |
| `TlclHmacProperties.ArgumentCheckOrder` | lib/tlcl/tlcl_hmac.c:52-67 | a missing odd nonce or key gives TPM_E_NULL_ARG; then an unsupported tag gives TPM_E_HMAC_FAIL; then AUTH2 without `key2` gives TPM_E_NULL_ARG. Each returns with no hashing. Past these checks the first computation is the SHA-1 of the parameter digest input |
| `TlclHmacProperties.ParamDigestInputOfList` | lib/tlcl/tlcl_hmac.c:63-76 | the list stops at the first zero size and whatever follows it is ignored; the digest input is response[6..10] ++ BE32(ordinal) ++ the earlier ranges in order |
| `TlclHmacProperties.Auth1Verification` | lib/tlcl/tlcl_hmac.c:83-98 | AUTH1 succeeds if and only if the block at size-41 verifies under `key`, and fails with TPM_E_HMAC_FAIL otherwise; exactly one SHA-1 and one HMAC are computed |
| `TlclHmacProperties.Auth2Verification` | lib/tlcl/tlcl_hmac.c:83-116 | AUTH2 checks the block at size-82 under `key` and the one at size-41 under `key2`, both with the same paramDigest and odd nonce. It succeeds if and only if both verify. If the first fails, the second HMAC is never computed |
| `TlclHmacProperties.OutcomeDependsOnlyOnReadBytes` | lib/tlcl/tlcl_hmac.c:45-112 | the outcome depends only on the header, the descriptor ranges and the window response[size-offset..size] that holds the trailing blocks |
| `TlclHmacProperties.TamperedBlockFails` | lib/tlcl/tlcl_hmac.c:97-98 | a verifying block with one byte of its HMAC changed no longer verifies |
| `TlclHmacProperties.TamperedHmacRejected` | lib/tlcl/tlcl_hmac.c:97-113 | changing one byte of either embedded HMAC of a verifying response makes it fail with TPM_E_HMAC_FAIL, when no parameter range covers that byte |
| `TlclHmacProperties.AuthHmacArgumentChecks` | lib/tlcl/tlcl_hmac.c:130-145 | TSS_AuthHMAC succeeds if and only if both nonces are present and no source before the terminator is null; otherwise TPM_E_NULL_ARG with no digest and no hashing |
| `TlclHmacProperties.AuthHmacVerifiesAuth1` | lib/tlcl/tlcl_hmac.c:146-156 | round trip: take the HMAC from TSS_AuthHMAC (nonce1 = even nonce, nonce2 = the caller's odd nonce) over the bytes the verifier digests. Put it in an AUTH1 trailer with that nonce and flag, and TSS_CheckHMAC succeeds |
| `TlclHmacProperties.AuthHmacVerifiesAuth2` | lib/tlcl/tlcl_hmac.c:146-156 | round trip for two sessions: two HMACs from TSS_AuthHMAC under `key` and `key2` with the same odd nonce, placed in that order in an AUTH2 trailer, make TSS_CheckHMAC succeed |

## Left out

- SHA-1 (FIPS 180-4) and HMAC (RFC 2104) come from `sha1.h`, which is not part of this model. Here they are any functions with 20-byte results.
- `FromTpmUint16`, `FromTpmUint32` and `ToTpmUint32` come from `tlcl_internal.h`, which is not part of this model. Here they are big-endian (TPM wire order) codecs. The ordinal's byte order has an open doubt in the code (line 66). It lives in the single function `ToTpmUint32`.
- The numeric values of `TPM_E_NULL_ARG` and `TPM_E_HMAC_FAIL` come from `tlcl.h`, which is not part of this model. Here the result codes are the distinct constructors of `Status`.
- The NULL test on `response` (line 52) comes after lines 45-46 have already dereferenced it. A null response is therefore undefined behaviour, not TPM_E_NULL_ARG. In the model `response` is a byte sequence that is never null.
- The variadic argument lists are explicit sequences of descriptors. A list without a zero-size entry ends where the sequence ends. The undefined behaviour of a missing terminator is not modelled.
- Memory safety is a set of preconditions. The buffer must hold the 6 header bytes. When the digest is computed, the header size must satisfy offset <= size <= buffer length, and every range must lie in the buffer. Every source that `TSS_AuthHMAC` reads once both nonces are present must hold `size` bytes, and `digest` is a 20-byte buffer.
- Keys are byte sequences: `keySize` is their length. `TSS_AuthHMAC` does not test its `key` for NULL, so the model gives it no null case.
- `memcmp` is sequence equality. Its timing behaviour, a side channel, is not modelled.
- `TamperedHmacRejected`: it covers only a change to an embedded HMAC. A change to a nonce, a flag or a parameter byte also fails only if the primitives have no collision on the two messages. Primitives that are merely functions do not promise that.
- The SHA-1 context is reused for the HMAC in the code. Its intermediate states and the partial updates made before `TSS_AuthHMAC` meets a null source are not modelled. A `Call` records only a finished digest.
- Nonce rotation, session handles and key storage live outside this file.
