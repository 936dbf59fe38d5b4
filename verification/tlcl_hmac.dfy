/**
 * Authorization-session HMACs of TPM 1.2 (OIAP/OSAP, TCG TPM Main
 * Specification 1.2, Part 1): the caller and the TPM prove to each other
 * that they share an AuthData secret by keyed hashes over a parameter
 * digest and a pair of rolling nonces.
 *
 * CheckHmac verifies the one or two authorization blocks that trail a
 * response; AuthHmac computes the HMAC an outgoing command carries. Each
 * method is specified by a function (CheckHmacOutcome, AuthHmacOutcome)
 * that also records, as a ghost trace, which primitive computations were
 * made and on which bytes.
 */
module TlclHmac {
  import opened TpmTypes
  import opened ParamDescriptors

  /**
   * The hash capability: SHA-1 and keyed HMAC-SHA-1. Nothing is assumed of
   * them beyond being functions with 20-byte results, so every property
   * proved here holds whatever the primitives are.
   */
  datatype Crypto = Crypto(sha1: seq<uint8> -> Digest, hmac: (seq<uint8>, seq<uint8>) -> Digest)

  /**
   * One completed primitive computation: a SHA-1 digest of `msg`, or an HMAC
   * of `msg` under `key`. A streaming context that is fed updates and then
   * finished is one such call on the concatenation of its updates.
   */
  datatype Call = Sha1Call(msg: seq<uint8>) | HmacCall(key: seq<uint8>, msg: seq<uint8>)

  /** An authorization block: even nonce, continue-session flag, HMAC. */
  const AUTH_BLOCK_SIZE: nat := TPM_NONCE_SIZE + 1 + TPM_HASH_SIZE

  datatype AuthBlock = AuthBlock(evenNonce: Nonce, continueAuth: uint8, hmac: Digest)

  /** The fields of a 41-byte authorization block. */
  function ParseBlock(s: seq<uint8>): AuthBlock
    requires |s| == AUTH_BLOCK_SIZE
  {
    AuthBlock(s[..TPM_NONCE_SIZE], s[TPM_NONCE_SIZE], s[TPM_NONCE_SIZE + 1..])
  }

  /** The wire form of an authorization block; parsing it gives the block back. */
  function EncodeBlock(b: AuthBlock): (s: seq<uint8>)
    ensures |s| == AUTH_BLOCK_SIZE
    ensures ParseBlock(s) == b
  {
    b.evenNonce + [b.continueAuth] + b.hmac
  }

  /** The HMAC input of one session: paramDigest ++ even nonce ++ odd nonce ++ flag. */
  function AuthMessage(paramDigest: Digest, nonceEven: Nonce, nonceOdd: Nonce, continueAuth: uint8): seq<uint8> {
    paramDigest + nonceEven + nonceOdd + [continueAuth]
  }

  /** The block's HMAC is the keyed hash of its session's HMAC input. */
  predicate BlockVerifies(c: Crypto, key: seq<uint8>, paramDigest: Digest, nonceOdd: Nonce, b: AuthBlock) {
    c.hmac(key, AuthMessage(paramDigest, b.evenNonce, nonceOdd, b.continueAuth)) == b.hmac
  }

  /** The HMAC computation that checks a block. */
  function BlockCall(key: seq<uint8>, paramDigest: Digest, nonceOdd: Nonce, b: AuthBlock): Call {
    HmacCall(key, AuthMessage(paramDigest, b.evenNonce, nonceOdd, b.continueAuth))
  }

  /** Response header: tag (2 bytes), paramSize (4 bytes), return code (4 bytes). */
  const HEADER_RC_POS: nat := TPM_U16_SIZE + TPM_U32_SIZE

  function ResponseTag(response: seq<uint8>): uint16
    requires |response| >= HEADER_RC_POS
  {
    FromTpmUint16(response[..TPM_U16_SIZE])
  }

  function ResponseSize(response: seq<uint8>): uint32
    requires |response| >= HEADER_RC_POS
  {
    FromTpmUint32(response[TPM_U16_SIZE..HEADER_RC_POS])
  }

  /** How far before the end of the response the first trailing block starts. */
  function TrailerOffset(tag: uint16): nat {
    if tag == TPM_TAG_RSP_AUTH2_COMMAND then 2 * AUTH_BLOCK_SIZE else AUTH_BLOCK_SIZE
  }

  /** The authorization block starting at byte `at` of the response. */
  function BlockAt(response: seq<uint8>, at: int): AuthBlock
    requires 0 <= at && at + AUTH_BLOCK_SIZE <= |response|
  {
    ParseBlock(response[at..at + AUTH_BLOCK_SIZE])
  }

  /** All argument checks of CheckHmac pass, so the parameter digest is computed. */
  predicate ReachesDigest(response: seq<uint8>, nonceOdd: Option<Nonce>, key: Option<seq<uint8>>, key2: Option<seq<uint8>>)
    requires |response| >= HEADER_RC_POS
  {
    var tag := ResponseTag(response);
    && tag != TPM_TAG_RSP_COMMAND
    && nonceOdd.Some? && key.Some?
    && (tag == TPM_TAG_RSP_AUTH1_COMMAND || tag == TPM_TAG_RSP_AUTH2_COMMAND)
    && (tag == TPM_TAG_RSP_AUTH2_COMMAND ==> key2.Some?)
  }

  /**
   * The bytes CheckHmac reads are there: the tag and size are always read;
   * once the digest is computed, the descriptor ranges and the trailing
   * blocks, located by the header's size field, must lie in the buffer.
   */
  predicate CheckHmacReadable(response: seq<uint8>, nonceOdd: Option<Nonce>, key: Option<seq<uint8>>,
                              key2: Option<seq<uint8>>, params: seq<ResponseDesc>)
  {
    && |response| >= HEADER_RC_POS
    && (ReachesDigest(response, nonceOdd, key, key2) ==>
          && TrailerOffset(ResponseTag(response)) <= ResponseSize(response) as int <= |response|
          && RangesInBounds(response, Active(params)))
  }

  /** The SHA-1 input of the parameter digest: return code ++ ordinal ++ ranges. */
  function ParamDigestInput(response: seq<uint8>, command: uint32, params: seq<ResponseDesc>): seq<uint8>
    requires |response| >= HEADER_RC_POS + TPM_U32_SIZE
    requires RangesInBounds(response, Active(params))
  {
    response[HEADER_RC_POS..HEADER_RC_POS + TPM_U32_SIZE] + ToTpmUint32(command) + ResponseRanges(response, Active(params))
  }

  datatype Verification = Verification(status: Status, calls: seq<Call>)

  /** What TSS_CheckHMAC returns, and the primitive computations it makes. */
  function CheckHmacOutcome(c: Crypto, response: seq<uint8>, command: uint32, nonceOdd: Option<Nonce>,
                            key: Option<seq<uint8>>, key2: Option<seq<uint8>>, params: seq<ResponseDesc>): Verification
    requires CheckHmacReadable(response, nonceOdd, key, key2, params)
  {
    var tag := ResponseTag(response);
    if tag == TPM_TAG_RSP_COMMAND then Verification(Success, [])
    else if nonceOdd.None? || key.None? then Verification(NullArg, [])
    else if tag != TPM_TAG_RSP_AUTH1_COMMAND && tag != TPM_TAG_RSP_AUTH2_COMMAND then Verification(HmacFail, [])
    else if tag == TPM_TAG_RSP_AUTH2_COMMAND && key2.None? then Verification(NullArg, [])
    else
      var size := ResponseSize(response) as int;
      TrailerOutcome(c, tag, key.value, key2, nonceOdd.value, ParamDigestInput(response, command, params),
                     BlockAt(response, size - TrailerOffset(tag)), BlockAt(response, size - AUTH_BLOCK_SIZE))
  }

  /**
   * The trailing-block checks of TSS_CheckHMAC, given the parameter digest
   * input, the block TrailerOffset(tag) bytes before the end (checked under
   * `key`) and the last block (checked under `key2`, for AUTH2 only).
   */
  function TrailerOutcome(c: Crypto, tag: uint16, key: seq<uint8>, key2: Option<seq<uint8>>, nonceOdd: Nonce,
                          input: seq<uint8>, first: AuthBlock, last: AuthBlock): Verification
    requires tag == TPM_TAG_RSP_AUTH2_COMMAND ==> key2.Some?
  {
    var paramDigest := c.sha1(input);
    var calls1 := [Sha1Call(input), BlockCall(key, paramDigest, nonceOdd, first)];
    if !BlockVerifies(c, key, paramDigest, nonceOdd, first) then Verification(HmacFail, calls1)
    else if tag != TPM_TAG_RSP_AUTH2_COMMAND then Verification(Success, calls1)
    else
      var calls2 := calls1 + [BlockCall(key2.value, paramDigest, nonceOdd, last)];
      if !BlockVerifies(c, key2.value, paramDigest, nonceOdd, last) then Verification(HmacFail, calls2)
      else Verification(Success, calls2)
  }

  /**
   * The message TSS_CheckHMAC feeds its SHA-1 context: the return code, the
   * serialized ordinal, then each descriptor's response range until the
   * terminator.
   */
  method ParamDigestMessage(response: seq<uint8>, ordinal: seq<uint8>, params: seq<ResponseDesc>)
    returns (ctx: seq<uint8>)
    requires |response| >= HEADER_RC_POS + TPM_U32_SIZE
    requires RangesInBounds(response, Active(params))
    ensures ctx == response[HEADER_RC_POS..HEADER_RC_POS + TPM_U32_SIZE] + ordinal + ResponseRanges(response, Active(params))
  {
    // The streaming hash context is the message fed to it so far.
    ctx := response[TPM_U16_SIZE + TPM_U32_SIZE..TPM_U16_SIZE + 2 * TPM_U32_SIZE];
    ctx := ctx + ordinal;
    ghost var act := Active(params);
    var i := 0;
    while i < |params| && params[i].size != 0
      invariant i <= Terminator(params)
      invariant ctx == response[HEADER_RC_POS..HEADER_RC_POS + TPM_U32_SIZE] + ordinal + ResponseRanges(response, act[..i])
    {
      var argSize, argPos := params[i].size, params[i].src;
      assert act[..i + 1][..i] == act[..i] && act[i] == params[i];
      ctx := ctx + response[argPos..argPos as int + argSize as int];
      i := i + 1;
    }
    assert act[..i] == act;
  }

  /**
   * One trailing-block check of TSS_CheckHMAC: HMAC the parameter digest,
   * the block's even nonce, the caller's odd nonce and the block's flag
   * under `key`, and compare with the block's HMAC.
   */
  method CheckBlock(c: Crypto, key: seq<uint8>, paramDigest: Digest, nonceOdd: Nonce, response: seq<uint8>, at: int)
    returns (ok: bool, ghost call: Call)
    requires 0 <= at && at + AUTH_BLOCK_SIZE <= |response|
    ensures ok == BlockVerifies(c, key, paramDigest, nonceOdd, BlockAt(response, at))
    ensures call == BlockCall(key, paramDigest, nonceOdd, BlockAt(response, at))
  {
    var ctx := paramDigest + response[at..at + TPM_NONCE_SIZE] + nonceOdd + response[at + TPM_NONCE_SIZE..at + TPM_NONCE_SIZE + 1];
    ghost var b := BlockAt(response, at);
    assert ctx == AuthMessage(paramDigest, b.evenNonce, nonceOdd, b.continueAuth);
    var authHmac := c.hmac(key, ctx);
    call := HmacCall(key, ctx);
    ok := authHmac == response[at + TPM_NONCE_SIZE + 1..at + TPM_NONCE_SIZE + 1 + TPM_HASH_SIZE];
  }

  /**
   * TSS_CheckHMAC: verify the authorization block(s) trailing a response.
   * `params` lists the response ranges that go into the parameter digest.
   */
  method CheckHmac(c: Crypto, response: seq<uint8>, command: uint32, nonceOdd: Option<Nonce>,
                   key: Option<seq<uint8>>, key2: Option<seq<uint8>>, params: seq<ResponseDesc>)
    returns (status: Status, ghost calls: seq<Call>)
    requires CheckHmacReadable(response, nonceOdd, key, key2, params)
    ensures status == CheckHmacOutcome(c, response, command, nonceOdd, key, key2, params).status
    ensures calls == CheckHmacOutcome(c, response, command, nonceOdd, key, key2, params).calls
  {
    var tag := FromTpmUint16(response[..TPM_U16_SIZE]);
    var size := FromTpmUint32(response[TPM_U16_SIZE..TPM_U16_SIZE + TPM_U32_SIZE]);
    var ordinal := ToTpmUint32(command);
    calls := [];

    if tag == TPM_TAG_RSP_COMMAND {
      return Success, calls;
    }
    if nonceOdd.None? || key.None? {
      return NullArg, calls;
    }
    if tag != TPM_TAG_RSP_AUTH1_COMMAND && tag != TPM_TAG_RSP_AUTH2_COMMAND {
      return HmacFail, calls;
    }
    if tag == TPM_TAG_RSP_AUTH2_COMMAND && key2.None? {
      return NullArg, calls;
    }

    var ctx := ParamDigestMessage(response, ordinal, params);
    status, calls := CheckTrailer(c, response, size as int, tag, key.value, key2, nonceOdd.value, ctx);
  }

  /**
   * The second half of TSS_CheckHMAC: finish the parameter digest over
   * `input`, then check the block TrailerOffset(tag) bytes before `size`
   * under `key` and, for AUTH2, the last block under `key2`.
   */
  method CheckTrailer(c: Crypto, response: seq<uint8>, size: int, tag: uint16, key: seq<uint8>,
                      key2: Option<seq<uint8>>, nonceOdd: Nonce, input: seq<uint8>)
    returns (status: Status, ghost calls: seq<Call>)
    requires TrailerOffset(tag) <= size <= |response|
    requires tag == TPM_TAG_RSP_AUTH2_COMMAND ==> key2.Some?
    ensures status == TrailerOutcome(c, tag, key, key2, nonceOdd, input,
                                     BlockAt(response, size - TrailerOffset(tag)),
                                     BlockAt(response, size - AUTH_BLOCK_SIZE)).status
    ensures calls == TrailerOutcome(c, tag, key, key2, nonceOdd, input,
                                    BlockAt(response, size - TrailerOffset(tag)),
                                    BlockAt(response, size - AUTH_BLOCK_SIZE)).calls
  {
    var paramDigest := c.sha1(input);
    calls := [Sha1Call(input)];

    var offset := TPM_NONCE_SIZE + 1 + TPM_HASH_SIZE;
    if tag == TPM_TAG_RSP_AUTH2_COMMAND {
      offset := offset * 2;
    }

    // first block: key
    var ok, call := CheckBlock(c, key, paramDigest, nonceOdd, response, size - offset);
    calls := calls + [call];
    if !ok {
      return HmacFail, calls;
    }

    // second block: key2
    if tag == TPM_TAG_RSP_AUTH2_COMMAND {
      offset := offset / 2;
      ok, call := CheckBlock(c, key2.value, paramDigest, nonceOdd, response, size - offset);
      calls := calls + [call];
      if !ok {
        return HmacFail, calls;
      }
    }

    return Success, calls;
  }

  datatype Generation = Generation(status: Status, digest: Option<Digest>, calls: seq<Call>)

  /** What TSS_AuthHMAC returns and writes, and the primitive computations it makes. */
  function AuthHmacOutcome(c: Crypto, key: seq<uint8>, nonce1: Option<Nonce>, nonce2: Option<Nonce>,
                           authBool: uint8, args: seq<DataDesc>): Generation
    requires nonce1.Some? && nonce2.Some? ==> DataReadable(args)
  {
    if nonce1.None? || nonce2.None? || HasNullData(args) then Generation(NullArg, None, [])
    else
      var data := CommandData(args);
      var paramDigest := c.sha1(data);
      var m := AuthMessage(paramDigest, nonce1.value, nonce2.value, authBool);
      Generation(Success, Some(c.hmac(key, m)), [Sha1Call(data), HmacCall(key, m)])
  }

  /**
   * TSS_AuthHMAC: compute the HMAC an authorized command carries and write
   * it into `digest`. `args` lists the command ranges that go into the
   * parameter digest.
   */
  method AuthHmac(c: Crypto, digest: array<uint8>, key: seq<uint8>, nonce1: Option<Nonce>, nonce2: Option<Nonce>,
                  authBool: uint8, args: seq<DataDesc>)
    returns (status: Status, ghost calls: seq<Call>)
    requires digest.Length == TPM_HASH_SIZE
    requires nonce1.Some? && nonce2.Some? ==> DataReadable(args)
    modifies digest
    ensures AuthHmacOutcome(c, key, nonce1, nonce2, authBool, args)
            == Generation(status, if status == Success then Some(digest[..]) else None, calls)
    ensures status != Success ==> digest[..] == old(digest[..])
  {
    if nonce1.None? || nonce2.None? {
      return NullArg, [];
    }

    // The streaming hash context is the message fed to it so far.
    var ctx: seq<uint8> := [];
    ghost var act := Active(args);
    var i := 0;
    while i < |args| && args[i].size != 0
      invariant i <= Terminator(args)
      invariant forall j :: 0 <= j < i ==> Holds(args[j])
      invariant ctx == DataRanges(act[..i])
    {
      var argSize, argData := args[i].size, args[i].src;
      if argData.None? {
        assert 0 <= i < Terminator(args) && args[i].src.None?;
        return NullArg, [];
      }
      assert act[..i + 1][..i] == act[..i] && act[i] == args[i];
      ctx := ctx + argData.value[..argSize];
      i := i + 1;
    }
    assert act[..i] == act;
    var paramDigest := c.sha1(ctx);
    calls := [Sha1Call(ctx)];

    ctx := paramDigest + nonce1.value + nonce2.value + [authBool];
    var mac := c.hmac(key, ctx);
    calls := calls + [HmacCall(key, ctx)];
    forall k | 0 <= k < TPM_HASH_SIZE {
      digest[k] := mac[k];
    }
    assert digest[..] == mac;
    return Success, calls;
  }
}
