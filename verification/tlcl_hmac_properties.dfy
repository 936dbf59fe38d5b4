/**
 * What the authorization-session HMAC logic guarantees, for any SHA-1 and
 * HMAC primitives: the order of the argument checks, which bytes feed the
 * parameter digest, which block is checked under which key, that a
 * tampered HMAC is rejected, and that an HMAC computed for a command
 * verifies when the TPM echoes it back in a response trailer.
 */
module TlclHmacProperties {
  import opened TpmTypes
  import opened ParamDescriptors
  import opened TlclHmac

  /** A plain (unauthorized) response succeeds whatever else is given, and nothing is hashed. */
  lemma PlainResponseSucceeds(c: Crypto, response: seq<uint8>, command: uint32, nonceOdd: Option<Nonce>,
                              key: Option<seq<uint8>>, key2: Option<seq<uint8>>, params: seq<ResponseDesc>)
    requires CheckHmacReadable(response, nonceOdd, key, key2, params)
    requires ResponseTag(response) == TPM_TAG_RSP_COMMAND
    ensures CheckHmacOutcome(c, response, command, nonceOdd, key, key2, params) == Verification(Success, [])
  {
  }

  /**
   * The argument checks run in a fixed order, each before any hashing:
   * missing odd nonce or key, then an unsupported tag, then a missing
   * second key for a two-session response. Past them, the first
   * computation is the SHA-1 of the parameter digest input.
   */
  lemma ArgumentCheckOrder(c: Crypto, response: seq<uint8>, command: uint32, nonceOdd: Option<Nonce>,
                           key: Option<seq<uint8>>, key2: Option<seq<uint8>>, params: seq<ResponseDesc>)
    requires CheckHmacReadable(response, nonceOdd, key, key2, params)
    requires ResponseTag(response) != TPM_TAG_RSP_COMMAND
    ensures var tag, r := ResponseTag(response), CheckHmacOutcome(c, response, command, nonceOdd, key, key2, params);
      && (nonceOdd.None? || key.None? ==> r == Verification(NullArg, []))
      && (nonceOdd.Some? && key.Some? && tag != TPM_TAG_RSP_AUTH1_COMMAND && tag != TPM_TAG_RSP_AUTH2_COMMAND ==>
            r == Verification(HmacFail, []))
      && (nonceOdd.Some? && key.Some? && tag == TPM_TAG_RSP_AUTH2_COMMAND && key2.None? ==>
            r == Verification(NullArg, []))
      && (ReachesDigest(response, nonceOdd, key, key2) ==>
            2 <= |r.calls| && r.calls[0] == Sha1Call(ParamDigestInput(response, command, params)))
  {
  }

  /**
   * The descriptor list ends at its first zero-size entry: whatever follows
   * is never looked at, and the parameter digest input is the return code,
   * the big-endian ordinal and the earlier ranges in list order.
   */
  lemma {:induction false} ParamDigestInputOfList(response: seq<uint8>, command: uint32, ps: seq<ResponseDesc>,
                                                 terminator: ResponseDesc, rest: seq<ResponseDesc>)
    requires |response| >= HEADER_RC_POS + TPM_U32_SIZE
    requires forall i :: 0 <= i < |ps| ==> ps[i].size != 0
    requires terminator.size == 0
    requires RangesInBounds(response, ps)
    ensures Active(ps + [terminator] + rest) == ps
    ensures ParamDigestInput(response, command, ps + [terminator] + rest)
            == response[HEADER_RC_POS..HEADER_RC_POS + TPM_U32_SIZE] + ToTpmUint32(command) + ResponseRanges(response, ps)
  {
    var all := ps + [terminator] + rest;
    assert all[|ps|] == terminator;
    assert forall i :: 0 <= i < |ps| ==> all[i] == ps[i];
    var n := Terminator(all);
    assert n == |ps|;
    assert all[..n] == ps;
  }

  /**
   * A single-session response succeeds exactly when the block 41 bytes
   * before the end carries the HMAC of the parameter digest, its even
   * nonce, the caller's odd nonce and its flag under `key`; otherwise the
   * result is TPM_E_HMAC_FAIL. One SHA-1 and one HMAC are computed.
   */
  lemma Auth1Verification(c: Crypto, response: seq<uint8>, command: uint32, nonceOdd: Nonce,
                          key: seq<uint8>, key2: Option<seq<uint8>>, params: seq<ResponseDesc>)
    requires CheckHmacReadable(response, Some(nonceOdd), Some(key), key2, params)
    requires ResponseTag(response) == TPM_TAG_RSP_AUTH1_COMMAND
    ensures var size := ResponseSize(response) as int;
      && AUTH_BLOCK_SIZE <= size <= |response|
      && var input := ParamDigestInput(response, command, params);
         var block := BlockAt(response, size - AUTH_BLOCK_SIZE);
         var r := CheckHmacOutcome(c, response, command, Some(nonceOdd), Some(key), key2, params);
         && (r.status == Success <==> BlockVerifies(c, key, c.sha1(input), nonceOdd, block))
         && (r.status != Success ==> r.status == HmacFail)
         && r.calls == [Sha1Call(input), BlockCall(key, c.sha1(input), nonceOdd, block)]
  {
  }

  /**
   * A two-session response: the block 82 bytes before the end is checked
   * under `key`, the one 41 bytes before the end under `key2`, both with the
   * same parameter digest and odd nonce. It succeeds exactly when both
   * verify; when the first does not, the second is never computed.
   */
  lemma Auth2Verification(c: Crypto, response: seq<uint8>, command: uint32, nonceOdd: Nonce,
                          key: seq<uint8>, key2: seq<uint8>, params: seq<ResponseDesc>)
    requires CheckHmacReadable(response, Some(nonceOdd), Some(key), Some(key2), params)
    requires ResponseTag(response) == TPM_TAG_RSP_AUTH2_COMMAND
    ensures var size := ResponseSize(response) as int;
      && 2 * AUTH_BLOCK_SIZE <= size <= |response|
      && var input := ParamDigestInput(response, command, params);
         var pd := c.sha1(input);
         var first := BlockAt(response, size - 2 * AUTH_BLOCK_SIZE);
         var second := BlockAt(response, size - AUTH_BLOCK_SIZE);
         var r := CheckHmacOutcome(c, response, command, Some(nonceOdd), Some(key), Some(key2), params);
         && (r.status == Success <==> BlockVerifies(c, key, pd, nonceOdd, first) && BlockVerifies(c, key2, pd, nonceOdd, second))
         && (r.status != Success ==> r.status == HmacFail)
         && (!BlockVerifies(c, key, pd, nonceOdd, first) ==> r.calls == [Sha1Call(input), BlockCall(key, pd, nonceOdd, first)])
         && (BlockVerifies(c, key, pd, nonceOdd, first) ==>
               r.calls == [Sha1Call(input), BlockCall(key, pd, nonceOdd, first), BlockCall(key2, pd, nonceOdd, second)])
  {
  }

  /**
   * The outcome depends only on the bytes that are read: the header, the
   * descriptor ranges, and the trailing blocks, which all lie in the last
   * TrailerOffset(tag) bytes before the header's size.
   */
  lemma OutcomeDependsOnlyOnReadBytes(c: Crypto, r1: seq<uint8>, r2: seq<uint8>, command: uint32, nonceOdd: Option<Nonce>,
                                      key: Option<seq<uint8>>, key2: Option<seq<uint8>>, params: seq<ResponseDesc>)
    requires CheckHmacReadable(r1, nonceOdd, key, key2, params)
    requires |r2| >= HEADER_RC_POS && r2[..HEADER_RC_POS] == r1[..HEADER_RC_POS]
    requires ReachesDigest(r1, nonceOdd, key, key2) ==>
      var size, offset := ResponseSize(r1) as int, TrailerOffset(ResponseTag(r1));
      && size <= |r2|
      && r2[HEADER_RC_POS..HEADER_RC_POS + TPM_U32_SIZE] == r1[HEADER_RC_POS..HEADER_RC_POS + TPM_U32_SIZE]
      && RangesInBounds(r2, Active(params))
      && (forall k :: 0 <= k < |r1| && 0 <= k < |r2| && Covers(Active(params), k) ==> r1[k] == r2[k])
      && r2[size - offset..size] == r1[size - offset..size]
    ensures CheckHmacReadable(r2, nonceOdd, key, key2, params)
    ensures CheckHmacOutcome(c, r2, command, nonceOdd, key, key2, params)
         == CheckHmacOutcome(c, r1, command, nonceOdd, key, key2, params)
  {
    SubSliceAgree(r1, r2, 0, HEADER_RC_POS, 0, TPM_U16_SIZE);
    SubSliceAgree(r1, r2, 0, HEADER_RC_POS, TPM_U16_SIZE, HEADER_RC_POS);
    assert ResponseTag(r2) == ResponseTag(r1) && ResponseSize(r2) == ResponseSize(r1);
    if ReachesDigest(r1, nonceOdd, key, key2) {
      var tag, size := ResponseTag(r1), ResponseSize(r1) as int;
      var first, last := size - TrailerOffset(tag), size - AUTH_BLOCK_SIZE;
      ResponseRangesFrame(r1, r2, Active(params));
      assert ParamDigestInput(r2, command, params) == ParamDigestInput(r1, command, params);
      SubSliceAgree(r2, r1, first, size, first, first + AUTH_BLOCK_SIZE);
      SubSliceAgree(r2, r1, first, size, last, size);
      assert BlockAt(r2, first) == BlockAt(r1, first) && BlockAt(r2, last) == BlockAt(r1, last);
      OutcomeOfTrailer(c, r1, command, nonceOdd.value, key.value, key2, params);
      OutcomeOfTrailer(c, r2, command, nonceOdd.value, key.value, key2, params);
    }
  }

  /** Past the argument checks, the outcome is that of the trailer checks. */
  lemma OutcomeOfTrailer(c: Crypto, response: seq<uint8>, command: uint32, nonceOdd: Nonce,
                         key: seq<uint8>, key2: Option<seq<uint8>>, params: seq<ResponseDesc>)
    requires CheckHmacReadable(response, Some(nonceOdd), Some(key), key2, params)
    requires ReachesDigest(response, Some(nonceOdd), Some(key), key2)
    ensures var tag, size := ResponseTag(response), ResponseSize(response) as int;
      CheckHmacOutcome(c, response, command, Some(nonceOdd), Some(key), key2, params)
        == TrailerOutcome(c, tag, key, key2, nonceOdd, ParamDigestInput(response, command, params),
                          BlockAt(response, size - TrailerOffset(tag)), BlockAt(response, size - AUTH_BLOCK_SIZE))
  {
  }

  /** Equal slices have equal sub-slices. */
  lemma SubSliceAgree(s1: seq<uint8>, s2: seq<uint8>, lo: int, hi: int, lo': int, hi': int)
    requires 0 <= lo <= lo' <= hi' <= hi <= |s1| && hi <= |s2|
    requires s1[lo..hi] == s2[lo..hi]
    ensures s1[lo'..hi'] == s2[lo'..hi']
  {
    forall j | lo' <= j < hi'
      ensures s1[j] == s2[j]
    {
      assert s1[lo..hi][j - lo] == s2[lo..hi][j - lo];
    }
  }

  /** A verifying block whose HMAC field has one byte changed no longer verifies. */
  lemma TamperedBlockFails(c: Crypto, key: seq<uint8>, pd: Digest, nonceOdd: Nonce, response: seq<uint8>, at: int, k: nat, v: uint8)
    requires 0 <= at && at + AUTH_BLOCK_SIZE <= |response|
    requires at + TPM_NONCE_SIZE + 1 <= k < at + AUTH_BLOCK_SIZE
    requires v != response[k]
    requires BlockVerifies(c, key, pd, nonceOdd, BlockAt(response, at))
    ensures !BlockVerifies(c, key, pd, nonceOdd, BlockAt(response[k := v], at))
  {
    var b, b' := BlockAt(response, at), BlockAt(response[k := v], at);
    assert b'.evenNonce == b.evenNonce && b'.continueAuth == b.continueAuth;
    assert b'.hmac[k - at - TPM_NONCE_SIZE - 1] != b.hmac[k - at - TPM_NONCE_SIZE - 1];
  }

  /**
   * Changing a response byte past the return code that no parameter range
   * covers leaves the header and the parameter digest input as they were.
   */
  lemma TamperKeepsDigestInput(response: seq<uint8>, command: uint32, params: seq<ResponseDesc>, k: nat, v: uint8)
    requires HEADER_RC_POS + TPM_U32_SIZE <= k < |response|
    requires RangesInBounds(response, Active(params))
    requires !Covers(Active(params), k)
    ensures ResponseTag(response[k := v]) == ResponseTag(response)
    ensures ResponseSize(response[k := v]) == ResponseSize(response)
    ensures RangesInBounds(response[k := v], Active(params))
    ensures ParamDigestInput(response[k := v], command, params) == ParamDigestInput(response, command, params)
  {
    var tampered := response[k := v];
    assert tampered[..TPM_U16_SIZE] == response[..TPM_U16_SIZE];
    assert tampered[TPM_U16_SIZE..HEADER_RC_POS] == response[TPM_U16_SIZE..HEADER_RC_POS];
    assert tampered[HEADER_RC_POS..HEADER_RC_POS + TPM_U32_SIZE] == response[HEADER_RC_POS..HEADER_RC_POS + TPM_U32_SIZE];
    ResponseRangesFrame(response, tampered, Active(params));
  }

  /**
   * Changing one byte of an embedded HMAC of a response that verifies makes
   * it fail with TPM_E_HMAC_FAIL, for either block of a two-session
   * response, provided no parameter range covers that byte.
   */
  lemma TamperedHmacRejected(c: Crypto, response: seq<uint8>, command: uint32, nonceOdd: Nonce,
                             key: seq<uint8>, key2: Option<seq<uint8>>, params: seq<ResponseDesc>, k: nat, v: uint8)
    requires CheckHmacReadable(response, Some(nonceOdd), Some(key), key2, params)
    requires ReachesDigest(response, Some(nonceOdd), Some(key), key2)
    requires CheckHmacOutcome(c, response, command, Some(nonceOdd), Some(key), key2, params).status == Success
    requires var size, tag := ResponseSize(response) as int, ResponseTag(response);
      || size - TPM_HASH_SIZE <= k < size
      || (tag == TPM_TAG_RSP_AUTH2_COMMAND && size - AUTH_BLOCK_SIZE - TPM_HASH_SIZE <= k < size - AUTH_BLOCK_SIZE)
    requires !Covers(Active(params), k)
    requires v != response[k]
    ensures CheckHmacReadable(response[k := v], Some(nonceOdd), Some(key), key2, params)
    ensures CheckHmacOutcome(c, response[k := v], command, Some(nonceOdd), Some(key), key2, params).status == HmacFail
  {
    var tampered := response[k := v];
    var size, tag := ResponseSize(response) as int, ResponseTag(response);
    TamperKeepsDigestInput(response, command, params, k, v);
    var input := ParamDigestInput(response, command, params);
    var pd := c.sha1(input);
    var first, last := size - TrailerOffset(tag), size - AUTH_BLOCK_SIZE;
    OutcomeOfTrailer(c, response, command, nonceOdd, key, key2, params);
    OutcomeOfTrailer(c, tampered, command, nonceOdd, key, key2, params);
    if k < last {
      TamperedBlockFails(c, key, pd, nonceOdd, response, first, k, v);
    } else if tag == TPM_TAG_RSP_AUTH2_COMMAND {
      assert tampered[first..first + AUTH_BLOCK_SIZE] == response[first..first + AUTH_BLOCK_SIZE];
      TamperedBlockFails(c, key2.value, pd, nonceOdd, response, last, k, v);
    } else {
      TamperedBlockFails(c, key, pd, nonceOdd, response, first, k, v);
    }
  }

  /** TSS_AuthHMAC fails with TPM_E_NULL_ARG, writing and hashing nothing, exactly when a nonce or a source is null. */
  lemma AuthHmacArgumentChecks(c: Crypto, key: seq<uint8>, nonce1: Option<Nonce>, nonce2: Option<Nonce>,
                               authBool: uint8, args: seq<DataDesc>)
    requires nonce1.Some? && nonce2.Some? ==> DataReadable(args)
    ensures var g := AuthHmacOutcome(c, key, nonce1, nonce2, authBool, args);
      && (g.status == Success <==> nonce1.Some? && nonce2.Some? && !HasNullData(args))
      && (g.status != Success ==> g == Generation(NullArg, None, []))
      && (g.status == Success ==> g.digest.Some? && |g.calls| == 2 && g.calls[0] == Sha1Call(CommandData(args)))
  {
  }

  /**
   * Round trip for one session: an HMAC computed by TSS_AuthHMAC over the
   * same parameter bytes, with nonce1 the even nonce and nonce2 the
   * caller's odd nonce, verifies when it is placed with that even nonce and
   * flag in the trailer of a single-session response.
   */
  lemma AuthHmacVerifiesAuth1(c: Crypto, response: seq<uint8>, command: uint32, params: seq<ResponseDesc>,
                              key: seq<uint8>, nonceEven: Nonce, nonceOdd: Nonce, authBool: uint8, args: seq<DataDesc>,
                              key2: Option<seq<uint8>>)
    requires CheckHmacReadable(response, Some(nonceOdd), Some(key), key2, params)
    requires ResponseTag(response) == TPM_TAG_RSP_AUTH1_COMMAND
    requires DataReadable(args) && !HasNullData(args)
    requires CommandData(args) == ParamDigestInput(response, command, params)
    requires var size := ResponseSize(response) as int;
      var g := AuthHmacOutcome(c, key, Some(nonceEven), Some(nonceOdd), authBool, args);
      response[size - AUTH_BLOCK_SIZE..size] == EncodeBlock(AuthBlock(nonceEven, authBool, g.digest.value))
    ensures CheckHmacOutcome(c, response, command, Some(nonceOdd), Some(key), key2, params).status == Success
  {
    var size := ResponseSize(response) as int;
    var g := AuthHmacOutcome(c, key, Some(nonceEven), Some(nonceOdd), authBool, args);
    assert BlockAt(response, size - AUTH_BLOCK_SIZE) == AuthBlock(nonceEven, authBool, g.digest.value);
  }

  /**
   * Round trip for two sessions: two HMACs computed by TSS_AuthHMAC over
   * the same parameter bytes and odd nonce, under `key` and `key2`, verify
   * when their blocks are placed, in that order, at the end of a
   * two-session response.
   */
  lemma AuthHmacVerifiesAuth2(c: Crypto, response: seq<uint8>, command: uint32, params: seq<ResponseDesc>,
                              key: seq<uint8>, key2: seq<uint8>, nonceOdd: Nonce, args: seq<DataDesc>,
                              nonceEven1: Nonce, authBool1: uint8, nonceEven2: Nonce, authBool2: uint8)
    requires CheckHmacReadable(response, Some(nonceOdd), Some(key), Some(key2), params)
    requires ResponseTag(response) == TPM_TAG_RSP_AUTH2_COMMAND
    requires DataReadable(args) && !HasNullData(args)
    requires CommandData(args) == ParamDigestInput(response, command, params)
    requires var size := ResponseSize(response) as int;
      var g1 := AuthHmacOutcome(c, key, Some(nonceEven1), Some(nonceOdd), authBool1, args);
      var g2 := AuthHmacOutcome(c, key2, Some(nonceEven2), Some(nonceOdd), authBool2, args);
      response[size - 2 * AUTH_BLOCK_SIZE..size]
        == EncodeBlock(AuthBlock(nonceEven1, authBool1, g1.digest.value)) + EncodeBlock(AuthBlock(nonceEven2, authBool2, g2.digest.value))
    ensures CheckHmacOutcome(c, response, command, Some(nonceOdd), Some(key), Some(key2), params).status == Success
  {
    var size := ResponseSize(response) as int;
    var g1 := AuthHmacOutcome(c, key, Some(nonceEven1), Some(nonceOdd), authBool1, args);
    var g2 := AuthHmacOutcome(c, key2, Some(nonceEven2), Some(nonceOdd), authBool2, args);
    var trailer := response[size - 2 * AUTH_BLOCK_SIZE..size];
    assert response[size - 2 * AUTH_BLOCK_SIZE..size - AUTH_BLOCK_SIZE] == trailer[..AUTH_BLOCK_SIZE];
    assert response[size - AUTH_BLOCK_SIZE..size] == trailer[AUTH_BLOCK_SIZE..];
    assert BlockAt(response, size - 2 * AUTH_BLOCK_SIZE) == AuthBlock(nonceEven1, authBool1, g1.digest.value);
    assert BlockAt(response, size - AUTH_BLOCK_SIZE) == AuthBlock(nonceEven2, authBool2, g2.digest.value);
  }
}
