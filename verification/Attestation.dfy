/**
 The byte format of a SAS attestation account that carries a SATI reputation
 score, and the two encoders of the repository that produce it.
 */
module AttestationFormat {
  import opened Machine
  import opened ByteOrder

  // Offsets within the account data.
  const OFF_DISCRIMINATOR := 0
  const OFF_NONCE := 1
  const OFF_CREDENTIAL := 33
  const OFF_SCHEMA := 65
  const OFF_DATA_LEN := 97
  const OFF_DATA := 101
  const HEADER_SIZE := OFF_DATA
  const TAIL_SIZE := 32 + 8 + 32
  const TAIL_OFF_EXPIRY := 32
  const ATTESTATION_DISCRIMINATOR: u8 := 2

  // Offsets within the payload.
  const PAY_OFF_LAYOUT_VERSION := 0
  const PAY_OFF_TASK_REF := 1
  const PAY_OFF_AGENT_MINT := 33
  const PAY_OFF_COUNTERPARTY := 65
  const PAY_OFF_OUTCOME := 97
  const PAYLOAD_MIN_SIZE := 135
  const CURRENT_LAYOUT_VERSION: u8 := 1

  /** Thirty-two zero bytes. */
  function Zero32(): (b: Bytes32)
    ensures forall i :: 0 <= i < 32 ==> b[i] == 0
  {
    seq(32, _ => 0)
  }

  /** A reputation score: the fields of the payload in order. */
  datatype Score = Score(
    layoutVersion: u8,
    taskRef: Bytes32,
    agentMint: Pubkey,
    counterparty: Pubkey,
    outcome: u8,
    dataHash: Bytes32,
    contentType: u8,
    contentLength: u32,
    content: Bytes)

  /** An attestation account: its fields in order. */
  datatype Attestation = Attestation(
    discriminator: u8,
    nonce: Bytes32,
    credential: Pubkey,
    schema: Pubkey,
    payload: Bytes,
    signer: Bytes32,
    expiry: i64,
    tokenAccount: Bytes32)

  /** The fixed part of a payload, up to its content. */
  function ScoreHead(s: Score): (b: Bytes)
    ensures |b| == PAYLOAD_MIN_SIZE
  {
    [s.layoutVersion] + s.taskRef + s.agentMint + s.counterparty + [s.outcome] + s.dataHash + [s.contentType]
    + U32Bytes(s.contentLength)
  }

  function ScoreBytes(s: Score): Bytes {
    ScoreHead(s) + s.content
  }

  lemma ScoreByField(s: Score)
    ensures ScoreBytes(s) == [s.layoutVersion] + s.taskRef + s.agentMint + s.counterparty + [s.outcome] + s.dataHash
                             + [s.contentType] + U32Bytes(s.contentLength) + s.content
    ensures |ScoreBytes(s)| == PAYLOAD_MIN_SIZE + |s.content|
  {
  }

  function Header(a: Attestation): (b: Bytes)
    ensures |b| == HEADER_SIZE
  {
    [a.discriminator] + a.nonce + a.credential + a.schema + U32Bytes(|a.payload|)
  }

  function Tail(a: Attestation): (b: Bytes)
    ensures |b| == TAIL_SIZE
  {
    a.signer + I64Bytes(a.expiry) + a.tokenAccount
  }

  function AttestationBytes(a: Attestation): Bytes {
    Header(a) + a.payload + Tail(a)
  }

  /** The tail may be appended field by field. */
  lemma TailByField(a: Attestation)
    ensures Header(a) + a.payload + a.signer + I64Bytes(a.expiry) + a.tokenAccount == AttestationBytes(a)
  {
  }

  /** What both payload encoders fill in by themselves: no data hash, JSON content. */
  function PlainScore(layoutVersion: u8, taskRef: Bytes32, agentMint: Pubkey, counterparty: Pubkey, outcome: u8,
                      content: Bytes): Score
  {
    Score(layoutVersion, taskRef, agentMint, counterparty, outcome, Zero32(), 1, |content| % U32_MODULUS, content)
  }

  /** What both account encoders fill in by themselves: zero signer and token account. */
  function PlainAttestation(discriminator: u8, nonce: Bytes32, credential: Pubkey, schema: Pubkey, payload: Bytes,
                            expiry: i64): Attestation
  {
    Attestation(discriminator, nonce, credential, schema, payload, Zero32(), expiry, Zero32())
  }

  // ----- the formats by position -----

  lemma ScoreByPosition(s: Score)
    ensures var b := ScoreBytes(s);
            && |b| == 135 + |s.content|
            && b[0] == s.layoutVersion && b[1..33] == s.taskRef && b[33..65] == s.agentMint
            && b[65..97] == s.counterparty && b[97] == s.outcome && b[98..130] == s.dataHash
            && b[130] == s.contentType && ReadU32(b[131..135]) == s.contentLength && b[135..] == s.content
  {
    hide U32Bytes;
    hide ReadU32;
    var b := ScoreBytes(s);
    assert b[131..135] == U32Bytes(s.contentLength);
    U32RoundTrip(s.contentLength);
  }

  lemma AttestationByPosition(a: Attestation)
    ensures var b, end := AttestationBytes(a), 101 + |a.payload|;
            && |b| == end + 72
            && b[0] == a.discriminator && b[1..33] == a.nonce && b[33..65] == a.credential && b[65..97] == a.schema
            && ReadU32(b[97..101]) == |a.payload| % 0x1_0000_0000 && b[101..end] == a.payload
            && b[end..end + 32] == a.signer && ReadI64(b[end + 32..end + 40]) == a.expiry
            && b[end + 40..] == a.tokenAccount
  {
    hide U32Bytes;
    hide ReadU32;
    hide I64Bytes;
    hide ReadI64;
    var b, end := AttestationBytes(a), 101 + |a.payload|;
    assert b[97..101] == U32Bytes(|a.payload|);
    assert b[end + 32..end + 40] == I64Bytes(a.expiry);
    LengthCut(|a.payload|);
    U32RoundTrip(|a.payload| % U32_MODULUS);
    I64RoundTrip(a.expiry);
  }

  lemma LengthCut(x: nat)
    ensures U32Bytes(x) == U32Bytes(x % U32_MODULUS)
  {
  }

  lemma PlainScoreByPosition(layoutVersion: u8, taskRef: Bytes32, agentMint: Pubkey, counterparty: Pubkey, outcome: u8,
                             content: Bytes)
    ensures var b := ScoreBytes(PlainScore(layoutVersion, taskRef, agentMint, counterparty, outcome, content));
            && |b| == 135 + |content|
            && b[0] == layoutVersion && b[1..33] == taskRef && b[33..65] == agentMint && b[65..97] == counterparty
            && b[97] == outcome && (forall i :: 98 <= i < 130 ==> b[i] == 0) && b[130] == 1
            && ReadU32(b[131..135]) == |content| % 0x1_0000_0000 && b[135..] == content
  {
    hide ScoreBytes;
    hide ReadU32;
    var s := PlainScore(layoutVersion, taskRef, agentMint, counterparty, outcome, content);
    ScoreByPosition(s);
    assert forall i :: 98 <= i < 130 ==> ScoreBytes(s)[i] == ScoreBytes(s)[98..130][i - 98];
  }

  lemma PlainAttestationByPosition(discriminator: u8, nonce: Bytes32, credential: Pubkey, schema: Pubkey,
                                   payload: Bytes, expiry: i64)
    ensures var b, end := AttestationBytes(PlainAttestation(discriminator, nonce, credential, schema, payload,
                                                            expiry)), 101 + |payload|;
            && |b| == end + 72
            && b[0] == discriminator && b[1..33] == nonce && b[33..65] == credential && b[65..97] == schema
            && ReadU32(b[97..101]) == |payload| % 0x1_0000_0000 && b[101..end] == payload
            && (forall i :: end <= i < end + 32 || end + 40 <= i < |b| ==> b[i] == 0)
            && ReadI64(b[end + 32..end + 40]) == expiry
  {
    hide AttestationBytes;
    hide ReadU32;
    hide ReadI64;
    var a := PlainAttestation(discriminator, nonce, credential, schema, payload, expiry);
    var b, end := AttestationBytes(a), 101 + |payload|;
    AttestationByPosition(a);
    assert forall i :: end <= i < end + 32 ==> b[i] == b[end..end + 32][i - end];
    assert forall i :: end + 40 <= i < |b| ==> b[i] == b[end + 40..][i - end - 40];
  }

  // ----- the appending encoders -----

  method BuildSatv3Payload(layoutVersion: u8, taskRef: Bytes32, agentMint: Pubkey, counterparty: Pubkey, outcome: u8,
                           content: Bytes) returns (buf: Bytes)
    ensures buf == ScoreBytes(PlainScore(layoutVersion, taskRef, agentMint, counterparty, outcome, content))
    ensures |buf| == 135 + |content|
    ensures buf[0] == layoutVersion && buf[1..33] == taskRef && buf[33..65] == agentMint && buf[65..97] == counterparty
    ensures buf[97] == outcome && (forall i :: 98 <= i < 130 ==> buf[i] == 0) && buf[130] == 1
    ensures ReadU32(buf[131..135]) == |content| % 0x1_0000_0000 && buf[135..] == content
  {
    hide U32Bytes;
    hide ReadU32;
    buf := [];
    buf := buf + [layoutVersion];
    buf := buf + taskRef;
    buf := buf + agentMint;
    buf := buf + counterparty;
    buf := buf + [outcome];
    buf := buf + Zero32();
    buf := buf + [1];
    buf := buf + U32Bytes(|content|);
    buf := buf + content;
    LengthCut(|content|);
    PlainScoreByPosition(layoutVersion, taskRef, agentMint, counterparty, outcome, content);
  }

  method BuildAttestationBytes(discriminator: u8, nonce: Bytes32, credential: Pubkey, schema: Pubkey, payload: Bytes,
                               expiry: i64) returns (buf: Bytes)
    ensures buf == AttestationBytes(PlainAttestation(discriminator, nonce, credential, schema, payload, expiry))
    ensures |buf| == 101 + |payload| + 72
    ensures buf[0] == discriminator && buf[1..33] == nonce && buf[33..65] == credential && buf[65..97] == schema
    ensures ReadU32(buf[97..101]) == |payload| % 0x1_0000_0000 && buf[101..101 + |payload|] == payload
    ensures forall i :: 101 + |payload| <= i < 133 + |payload| || 141 + |payload| <= i < |buf| ==> buf[i] == 0
    ensures ReadI64(buf[133 + |payload|..141 + |payload|]) == expiry
  {
    hide U32Bytes;
    hide I64Bytes;
    hide ReadU32;
    hide ReadI64;
    buf := [];
    buf := buf + [discriminator];
    buf := buf + nonce;
    buf := buf + credential;
    buf := buf + schema;
    buf := buf + U32Bytes(|payload|);
    buf := buf + payload;
    buf := buf + Zero32();
    buf := buf + I64Bytes(expiry);
    buf := buf + Zero32();
    PlainAttestationByPosition(discriminator, nonce, credential, schema, payload, expiry);
  }

  // ----- the encoders that write into a zeroed buffer at offsets -----

  /** The error a 32-bit length field raises when the length does not fit. */
  datatype EncodeError = LengthOutOfRange

  /** The buffer holds `prefix` and is still zero from there on. */
  ghost predicate WrittenUpTo(buf: array<u8>, prefix: Bytes)
    reads buf
  {
    && |prefix| <= buf.Length
    && buf[..|prefix|] == prefix
    && (forall k :: |prefix| <= k < buf.Length ==> buf[k] == 0)
  }

  /** Copies bytes into the buffer at an offset, here always where the written part ends. */
  method CopyInto(buf: array<u8>, off: nat, src: Bytes, ghost prefix: Bytes)
    requires WrittenUpTo(buf, prefix) && off == |prefix|
    requires off + |src| <= buf.Length
    modifies buf
    ensures WrittenUpTo(buf, prefix + src)
  {
    var i := 0;
    while i < |src|
      invariant 0 <= i <= |src|
      invariant WrittenUpTo(buf, prefix + src[..i])
    {
      ghost var done := prefix + src[..i];
      buf[off + i] := src[i];
      assert buf[..|done| + 1] == done + [src[i]] == prefix + src[..i + 1];
      i := i + 1;
    }
    assert src[..i] == src;
  }

  method WriteByte(buf: array<u8>, off: nat, x: u8, ghost prefix: Bytes)
    requires WrittenUpTo(buf, prefix) && off == |prefix| < buf.Length
    modifies buf
    ensures WrittenUpTo(buf, prefix + [x])
  {
    buf[off] := x;
    assert buf[..off + 1] == prefix + [x];
  }

  /** Skipping bytes of a zeroed buffer writes zeros. */
  lemma Skip32(buf: array<u8>, prefix: Bytes)
    requires WrittenUpTo(buf, prefix) && |prefix| + 32 <= buf.Length
    ensures WrittenUpTo(buf, prefix + Zero32())
  {
  }

  /** A buffer written up to its end holds exactly what was written. */
  lemma Complete(buf: array<u8>, written: Bytes)
    requires WrittenUpTo(buf, written) && |written| == buf.Length
    ensures buf[..] == written
  {
  }

  method BuildSatv3PayloadAtOffsets(taskRef: Bytes32, agentMint: Pubkey, counterparty: Pubkey, outcome: u8,
                                    content: Bytes) returns (r: Result<Bytes, EncodeError>)
    ensures r == if |content| < U32_MODULUS
                 then Ok(ScoreBytes(PlainScore(CURRENT_LAYOUT_VERSION, taskRef, agentMint, counterparty, outcome,
                                               content)))
                 else Err(LengthOutOfRange)
    ensures r.Ok? ==>
              && |r.value| == 135 + |content|
              && r.value[0] == 1 && r.value[1..33] == taskRef && r.value[33..65] == agentMint
              && r.value[65..97] == counterparty && r.value[97] == outcome
              && (forall i :: 98 <= i < 130 ==> r.value[i] == 0) && r.value[130] == 1
              && ReadU32(r.value[131..135]) == |content| && r.value[135..] == content
  {
    hide ScoreHead;
    hide ScoreBytes;
    hide U32Bytes;
    hide I64Bytes;
    hide ReadU32;
    hide Zero32;
    var buf := new u8[135 + |content|](_ => 0);
    var off := 0;
    WriteByte(buf, off, CURRENT_LAYOUT_VERSION, []);
    off := off + 1;
    ghost var done: Bytes := [CURRENT_LAYOUT_VERSION];
    assert [] + [CURRENT_LAYOUT_VERSION] == done;
    CopyInto(buf, off, taskRef, done);
    off, done := off + 32, done + taskRef;
    CopyInto(buf, off, agentMint, done);
    off, done := off + 32, done + agentMint;
    CopyInto(buf, off, counterparty, done);
    off, done := off + 32, done + counterparty;
    WriteByte(buf, off, outcome, done);
    off, done := off + 1, done + [outcome];
    Skip32(buf, done);
    off, done := off + 32, done + Zero32();
    WriteByte(buf, off, 1, done);
    off, done := off + 1, done + [1];
    if |content| >= U32_MODULUS {
      return Err(LengthOutOfRange);
    }
    CopyInto(buf, off, U32Bytes(|content|), done);
    off, done := off + 4, done + U32Bytes(|content|);
    ghost var score := PlainScore(CURRENT_LAYOUT_VERSION, taskRef, agentMint, counterparty, outcome, content);
    CopyInto(buf, off, content, done);
    assert done + content == ScoreBytes(score) by {
      ScoreByField(score);
      assert score.contentLength == |content|;
    }
    Complete(buf, ScoreBytes(score));
    PlainScoreByPosition(CURRENT_LAYOUT_VERSION, taskRef, agentMint, counterparty, outcome, content);
    r := Ok(buf[..]);
  }

  method BuildSasAttestationBytesAtOffsets(nonce: Bytes32, credential: Pubkey, schema: Pubkey, payload: Bytes,
                                           expiry: i64) returns (r: Result<Bytes, EncodeError>)
    ensures r == if |payload| < U32_MODULUS
                 then Ok(AttestationBytes(PlainAttestation(ATTESTATION_DISCRIMINATOR, nonce, credential, schema,
                                                           payload, expiry)))
                 else Err(LengthOutOfRange)
    ensures r.Ok? ==>
              && |r.value| == 101 + |payload| + 72
              && r.value[0] == 2 && r.value[1..33] == nonce && r.value[33..65] == credential
              && r.value[65..97] == schema
              && ReadU32(r.value[97..101]) == |payload| && r.value[101..101 + |payload|] == payload
              && (forall i :: 101 + |payload| <= i < 133 + |payload| || 141 + |payload| <= i < |r.value| ==>
                    r.value[i] == 0)
              && ReadI64(r.value[133 + |payload|..141 + |payload|]) == expiry
  {
    hide U32Bytes;
    hide I64Bytes;
    hide ReadU32;
    hide ReadI64;
    hide Zero32;
    var buf := new u8[OFF_DATA + |payload| + TAIL_SIZE](_ => 0);
    WriteByte(buf, OFF_DISCRIMINATOR, ATTESTATION_DISCRIMINATOR, []);
    ghost var done: Bytes := [ATTESTATION_DISCRIMINATOR];
    assert [] + [ATTESTATION_DISCRIMINATOR] == done;
    CopyInto(buf, OFF_NONCE, nonce, done);
    done := done + nonce;
    CopyInto(buf, OFF_CREDENTIAL, credential, done);
    done := done + credential;
    CopyInto(buf, OFF_SCHEMA, schema, done);
    done := done + schema;
    if |payload| >= U32_MODULUS {
      return Err(LengthOutOfRange);
    }
    CopyInto(buf, OFF_DATA_LEN, U32Bytes(|payload|), done);
    done := done + U32Bytes(|payload|);
    ghost var a := PlainAttestation(ATTESTATION_DISCRIMINATOR, nonce, credential, schema, payload, expiry);
    assert done == Header(a);
    CopyInto(buf, OFF_DATA, payload, done);
    done := done + payload;
    Skip32(buf, done);
    done := done + Zero32();
    var expiryOffset := OFF_DATA + |payload| + 32;
    CopyInto(buf, expiryOffset, I64Bytes(expiry), done);
    done := done + I64Bytes(expiry);
    Skip32(buf, done);
    done := done + Zero32();
    TailByField(a);
    Complete(buf, done);
    PlainAttestationByPosition(ATTESTATION_DISCRIMINATOR, nonce, credential, schema, payload, expiry);
    r := Ok(buf[..]);
  }
}
