/** The byte-level verifier of the reputation hook, and what it accepts over all byte strings. */
module ScoreVerifier {
  import opened Machine
  import opened ByteOrder
  import opened AttestationFormat

  datatype HookError =
    | BorrowExceedsCap
    | NoValidReputationScore
    | InvalidScoreAccount
    | ReputationScoreStale
    | ReputationScoreBelowThreshold
    | InvalidScoreLayout
    | UntrustedProvider

  datatype HookConfig = HookConfig(
    maxBorrowPerAgent: u64,
    credential: Pubkey,
    schema: Pubkey,
    allowedProviders: seq<Pubkey>,
    minOutcome: u8,
    maxScoreAgeSeconds: i64)

  /** The hash function is left open; the program uses Keccak-256. */
  type Hash = Bytes -> Bytes32

  function ReputationNonce(hash: Hash, provider: Pubkey, agent: Pubkey): Bytes32 {
    hash(provider + agent)
  }

  datatype Option<+T> = None | Some(value: T)

  function FirstMatch(hash: Hash, providers: seq<Pubkey>, agent: Pubkey, nonce: Bytes32): Option<Pubkey> {
    if providers == [] then None
    else if ReputationNonce(hash, providers[0], agent) == nonce then Some(providers[0])
    else FirstMatch(hash, providers[1..], agent, nonce)
  }

  function Slice32(data: Bytes, offset: nat): Bytes32
    requires offset + 32 <= |data|
  {
    data[offset..offset + 32]
  }

  /** The two expiry tests. */
  predicate Expired(config: HookConfig, expiry: i64, now: i64) {
    || (config.maxScoreAgeSeconds > 0 && expiry == 0)
    || (expiry > 0 && now > expiry)
  }

  /** The verifier, test by test in the program's order. */
  function Verify(hash: Hash, data: Bytes, agent: Pubkey, config: HookConfig, now: i64): Result<Pubkey, HookError> {
    if |data| < HEADER_SIZE + PAYLOAD_MIN_SIZE + TAIL_SIZE then
      Err(InvalidScoreLayout)
    else if data[OFF_DISCRIMINATOR] != ATTESTATION_DISCRIMINATOR then
      Err(InvalidScoreLayout)
    else if Slice32(data, OFF_CREDENTIAL) != config.credential || Slice32(data, OFF_SCHEMA) != config.schema then
      Err(InvalidScoreLayout)
    else
      var nonce := Slice32(data, OFF_NONCE);
      match FirstMatch(hash, config.allowedProviders, agent, nonce)
      case None => Err(UntrustedProvider)
      case Some(provider) =>
        var dataLength := ReadU32(data[OFF_DATA_LEN..OFF_DATA_LEN + 4]);
        var payloadEnd := OFF_DATA + dataLength;
        if payloadEnd + TAIL_SIZE > |data| || dataLength < PAYLOAD_MIN_SIZE then
          Err(InvalidScoreLayout)
        else
          var payload := data[OFF_DATA..payloadEnd];
          var expiry := ReadI64(data[payloadEnd + TAIL_OFF_EXPIRY..payloadEnd + TAIL_OFF_EXPIRY + 8]);
          if payload[PAY_OFF_LAYOUT_VERSION] != CURRENT_LAYOUT_VERSION then
            Err(InvalidScoreLayout)
          else if Slice32(payload, PAY_OFF_TASK_REF) != nonce
                  || Slice32(payload, PAY_OFF_AGENT_MINT) != agent
                  || Slice32(payload, PAY_OFF_COUNTERPARTY) != provider then
            Err(InvalidScoreLayout)
          else if payload[PAY_OFF_OUTCOME] < config.minOutcome then
            Err(ReputationScoreBelowThreshold)
          else if Expired(config, expiry, now) then
            Err(ReputationScoreStale)
          else
            Ok(provider)
  }

  method VerifyScoreBytes(hash: Hash, data: Bytes, agent: Pubkey, config: HookConfig, now: i64)
    returns (r: Result<Pubkey, HookError>)
    ensures r == Verify(hash, data, agent, config, now)
  {
    var minSize := HEADER_SIZE + PAYLOAD_MIN_SIZE + TAIL_SIZE;
    if |data| < minSize {
      return Err(InvalidScoreLayout);
    }
    if data[OFF_DISCRIMINATOR] != ATTESTATION_DISCRIMINATOR {
      return Err(InvalidScoreLayout);
    }
    var credential := Slice32(data, OFF_CREDENTIAL);
    var schema := Slice32(data, OFF_SCHEMA);
    if credential != config.credential || schema != config.schema {
      return Err(InvalidScoreLayout);
    }
    var nonce := Slice32(data, OFF_NONCE);
    var matched: Option<Pubkey> := None;
    var i := 0;
    while i < |config.allowedProviders|
      invariant 0 <= i <= |config.allowedProviders|
      invariant matched.None?
      invariant FirstMatch(hash, config.allowedProviders, agent, nonce)
             == FirstMatch(hash, config.allowedProviders[i..], agent, nonce)
    {
      if ReputationNonce(hash, config.allowedProviders[i], agent) == nonce {
        matched := Some(config.allowedProviders[i]);
        break;
      }
      i := i + 1;
    }
    if matched.None? {
      return Err(UntrustedProvider);
    }
    var provider := matched.value;
    var dataLength := ReadU32(data[OFF_DATA_LEN..OFF_DATA_LEN + 4]);
    var payloadEnd := OFF_DATA + dataLength;
    var tailEnd := payloadEnd + TAIL_SIZE;
    if tailEnd > |data| {
      return Err(InvalidScoreLayout);
    }
    if dataLength < PAYLOAD_MIN_SIZE {
      return Err(InvalidScoreLayout);
    }
    var payload := data[OFF_DATA..payloadEnd];
    if payload[PAY_OFF_LAYOUT_VERSION] != CURRENT_LAYOUT_VERSION {
      return Err(InvalidScoreLayout);
    }
    var taskRef := Slice32(payload, PAY_OFF_TASK_REF);
    var payloadAgent := Slice32(payload, PAY_OFF_AGENT_MINT);
    var payloadCounterparty := Slice32(payload, PAY_OFF_COUNTERPARTY);
    if taskRef != nonce || payloadAgent != agent || payloadCounterparty != provider {
      return Err(InvalidScoreLayout);
    }
    if payload[PAY_OFF_OUTCOME] < config.minOutcome {
      return Err(ReputationScoreBelowThreshold);
    }
    var expiryOffset := payloadEnd + TAIL_OFF_EXPIRY;
    var expiry := ReadI64(data[expiryOffset..expiryOffset + 8]);
    if config.maxScoreAgeSeconds > 0 && expiry == 0 {
      return Err(ReputationScoreStale);
    }
    if expiry > 0 && now > expiry {
      return Err(ReputationScoreStale);
    }
    return Ok(provider);
  }

  // ----- the decision on the fields -----

  /** The verdict on an attestation by its fields, without any bytes. */
  function Judge(hash: Hash, a: Attestation, s: Score, agent: Pubkey, config: HookConfig, now: i64)
    : Result<Pubkey, HookError>
  {
    if a.discriminator != ATTESTATION_DISCRIMINATOR
       || a.credential != config.credential || a.schema != config.schema then
      Err(InvalidScoreLayout)
    else
      match FirstMatch(hash, config.allowedProviders, agent, a.nonce)
      case None => Err(UntrustedProvider)
      case Some(provider) =>
        if s.layoutVersion != CURRENT_LAYOUT_VERSION || s.taskRef != a.nonce || s.agentMint != agent
           || s.counterparty != provider then
          Err(InvalidScoreLayout)
        else if s.outcome < config.minOutcome then
          Err(ReputationScoreBelowThreshold)
        else if Expired(config, a.expiry, now) then
          Err(ReputationScoreStale)
        else
          Ok(provider)
  }

  // ----- reading what was written -----

  lemma ScoreReads(s: Score)
    ensures var b := ScoreBytes(s);
            && |b| == PAYLOAD_MIN_SIZE + |s.content|
            && b[PAY_OFF_LAYOUT_VERSION] == s.layoutVersion
            && Slice32(b, PAY_OFF_TASK_REF) == s.taskRef
            && Slice32(b, PAY_OFF_AGENT_MINT) == s.agentMint
            && Slice32(b, PAY_OFF_COUNTERPARTY) == s.counterparty
            && b[PAY_OFF_OUTCOME] == s.outcome
  {
  }

  lemma HeaderReads(a: Attestation, rest: Bytes)
    ensures var b := Header(a) + rest;
            && b[OFF_DISCRIMINATOR] == a.discriminator
            && Slice32(b, OFF_NONCE) == a.nonce
            && Slice32(b, OFF_CREDENTIAL) == a.credential
            && Slice32(b, OFF_SCHEMA) == a.schema
            && b[OFF_DATA_LEN..OFF_DATA_LEN + 4] == U32Bytes(|a.payload|)
  {
  }

  lemma AttestationReads(a: Attestation, suffix: Bytes)
    ensures var b, end := AttestationBytes(a) + suffix, OFF_DATA + |a.payload|;
            && |b| == end + TAIL_SIZE + |suffix|
            && b == Header(a) + (a.payload + Tail(a) + suffix)
            && b[OFF_DATA..end] == a.payload
            && b[end + TAIL_OFF_EXPIRY..end + TAIL_OFF_EXPIRY + 8] == I64Bytes(a.expiry)
  {
  }

  /** Over any trailing bytes, the verifier of encoded bytes is the decision on the fields. */
  lemma EncodedIsJudged(hash: Hash, a: Attestation, s: Score, suffix: Bytes, agent: Pubkey, config: HookConfig,
                        now: i64)
    requires a.payload == ScoreBytes(s) && |a.payload| < U32_MODULUS
    ensures Verify(hash, AttestationBytes(a) + suffix, agent, config, now) == Judge(hash, a, s, agent, config, now)
  {
    AttestationReads(a, suffix);
    HeaderReads(a, a.payload + Tail(a) + suffix);
    ScoreReads(s);
    U32RoundTrip(|a.payload|);
    I64RoundTrip(a.expiry);
  }

  // ----- every accepted byte string was written that way -----

  function ScoreIn(b: Bytes): Score
    requires PAYLOAD_MIN_SIZE <= |b|
  {
    Score(b[0], Slice32(b, 1), Slice32(b, 33), Slice32(b, 65), b[97], Slice32(b, 98), b[130], ReadU32(b[131..135]),
          b[135..])
  }

  lemma ScoreIsWritten(b: Bytes)
    requires PAYLOAD_MIN_SIZE <= |b|
    ensures ScoreBytes(ScoreIn(b)) == b
  {
    U32IsOnto(b[131..135]);
    assert b == b[..1] + b[1..33] + b[33..65] + b[65..97] + b[97..98] + b[98..130] + b[130..131] + b[131..135]
                + b[135..];
    assert b[..1] == [b[0]] && b[97..98] == [b[97]] && b[130..131] == [b[130]];
  }

  /** A byte string long enough for a header, the payload its length field announces, and a tail. */
  predicate Framed(data: Bytes) {
    && HEADER_SIZE <= |data|
    && OFF_DATA + ReadU32(data[OFF_DATA_LEN..OFF_DATA_LEN + 4]) + TAIL_SIZE <= |data|
  }

  function AttestationIn(data: Bytes): Attestation
    requires Framed(data)
  {
    var end := OFF_DATA + ReadU32(data[OFF_DATA_LEN..OFF_DATA_LEN + 4]);
    Attestation(data[0], Slice32(data, OFF_NONCE), Slice32(data, OFF_CREDENTIAL), Slice32(data, OFF_SCHEMA),
                data[OFF_DATA..end], Slice32(data, end), ReadI64(data[end + 32..end + 40]), Slice32(data, end + 40))
  }

  lemma HeaderIsWritten(data: Bytes)
    requires Framed(data)
    ensures Header(AttestationIn(data)) == data[..OFF_DATA]
  {
    U32IsOnto(data[97..101]);
    assert data[..101] == data[..1] + data[1..33] + data[33..65] + data[65..97] + data[97..101];
    assert data[..1] == [data[0]];
  }

  lemma TailIsWritten(data: Bytes, end: nat)
    requires Framed(data) && end == OFF_DATA + |AttestationIn(data).payload|
    ensures Tail(AttestationIn(data)) == data[end..end + TAIL_SIZE]
  {
    I64IsOnto(data[end + 32..end + 40]);
    assert data[end..end + 72] == data[end..end + 32] + data[end + 32..end + 40] + data[end + 40..end + 72];
  }

  function Rest(data: Bytes): Bytes
    requires Framed(data)
  {
    data[OFF_DATA + |AttestationIn(data).payload| + TAIL_SIZE..]
  }

  /** A framed byte string is an encoded attestation followed by trailing bytes. */
  lemma FramedIsWritten(data: Bytes)
    requires Framed(data)
    ensures data == AttestationBytes(AttestationIn(data)) + Rest(data)
  {
    var end := OFF_DATA + |AttestationIn(data).payload|;
    HeaderIsWritten(data);
    TailIsWritten(data, end);
    assert AttestationBytes(AttestationIn(data)) == data[..OFF_DATA] + data[OFF_DATA..end] + data[end..end + TAIL_SIZE];
  }

  /** The verifier gets as far as the provider search and finds nobody. */
  predicate NobodyKnown(hash: Hash, data: Bytes, agent: Pubkey, config: HookConfig) {
    && HEADER_SIZE + PAYLOAD_MIN_SIZE + TAIL_SIZE <= |data|
    && data[OFF_DISCRIMINATOR] == ATTESTATION_DISCRIMINATOR
    && Slice32(data, OFF_CREDENTIAL) == config.credential && Slice32(data, OFF_SCHEMA) == config.schema
    && (forall i :: 0 <= i < |config.allowedProviders| ==>
          hash(config.allowedProviders[i] + agent) != Slice32(data, OFF_NONCE))
  }

  /**
   On any byte string the verifier is the decision on the fields read from
   it; on one that is not framed it complains of the provider if the search
   found nobody, and of the layout otherwise.
   */
  lemma VerdictOnAnyBytes(hash: Hash, data: Bytes, agent: Pubkey, config: HookConfig, now: i64)
    ensures Framed(data) && PAYLOAD_MIN_SIZE <= |AttestationIn(data).payload| ==>
              Verify(hash, data, agent, config, now)
              == Judge(hash, AttestationIn(data), ScoreIn(AttestationIn(data).payload), agent, config, now)
    ensures !(Framed(data) && PAYLOAD_MIN_SIZE <= |AttestationIn(data).payload|) ==>
              Verify(hash, data, agent, config, now)
              == Err(if NobodyKnown(hash, data, agent, config) then UntrustedProvider else InvalidScoreLayout)
  {
    if HEADER_SIZE + PAYLOAD_MIN_SIZE + TAIL_SIZE <= |data| {
      MatchIsAllowed(hash, config.allowedProviders, agent, Slice32(data, OFF_NONCE));
    }
  }

  /**
   The verifier accepts a byte string exactly when it is, up to trailing
   bytes, the encoding of an attestation and a score that the decision on the
   fields accepts.
   */
  lemma AcceptsExactlyEncodings(hash: Hash, data: Bytes, agent: Pubkey, config: HookConfig, now: i64, provider: Pubkey)
    ensures Verify(hash, data, agent, config, now) == Ok(provider)
       <==> exists a: Attestation, s: Score, suffix: Bytes ::
              && a.payload == ScoreBytes(s) && |a.payload| < U32_MODULUS
              && data == AttestationBytes(a) + suffix
              && Judge(hash, a, s, agent, config, now) == Ok(provider)
  {
    if Verify(hash, data, agent, config, now) == Ok(provider) {
      VerdictOnAnyBytes(hash, data, agent, config, now);
      FramedIsWritten(data);
      ScoreIsWritten(AttestationIn(data).payload);
    }
    forall a: Attestation, s: Score, suffix: Bytes |
      && a.payload == ScoreBytes(s) && |a.payload| < U32_MODULUS
      && data == AttestationBytes(a) + suffix
      && Judge(hash, a, s, agent, config, now) == Ok(provider)
      ensures Verify(hash, data, agent, config, now) == Ok(provider)
    {
      EncodedIsJudged(hash, a, s, suffix, agent, config, now);
    }
  }

  /** The provider at `i` is the first of the list whose bytes followed by the agent's hash to the nonce. */
  ghost predicate FirstMatchAt(hash: Hash, providers: seq<Pubkey>, agent: Pubkey, nonce: Bytes32, i: nat) {
    && i < |providers|
    && hash(providers[i] + agent) == nonce
    && (forall j :: 0 <= j < i ==> hash(providers[j] + agent) != nonce)
  }

  lemma {:induction false} FirstMatchIsFirst(hash: Hash, providers: seq<Pubkey>, agent: Pubkey, nonce: Bytes32,
                                             provider: Pubkey)
    ensures FirstMatch(hash, providers, agent, nonce) == Some(provider)
       <==> exists i: nat :: FirstMatchAt(hash, providers, agent, nonce, i) && providers[i] == provider
  {
    if providers == [] {
    } else {
      var rest := providers[1..];
      FirstMatchIsFirst(hash, rest, agent, nonce, provider);
      if ReputationNonce(hash, providers[0], agent) == nonce {
        assert FirstMatchAt(hash, providers, agent, nonce, 0);
      } else {
        forall i: nat | FirstMatchAt(hash, rest, agent, nonce, i)
          ensures FirstMatchAt(hash, providers, agent, nonce, i + 1) && providers[i + 1] == rest[i]
        {
          assert forall j :: 1 <= j < i + 1 ==> providers[j] == rest[j - 1];
        }
        forall i: nat | FirstMatchAt(hash, providers, agent, nonce, i)
          ensures i > 0 && FirstMatchAt(hash, rest, agent, nonce, i - 1) && rest[i - 1] == providers[i]
        {
        }
      }
    }
  }

  /**
   Round trip of the encoders: an attestation for an agent from a provider,
   encoded with the hash of the 64 bytes that hold the provider and then the
   agent, verifies exactly when the provider is the first match of the
   allowed list, the outcome reaches the threshold and the expiry tests pass.
   The errors say which of these failed.
   */
  lemma RoundTrip(hash: Hash, provider: Pubkey, agent: Pubkey, pair: Bytes, outcome: u8, content: Bytes, expiry: i64,
                  config: HookConfig, now: i64)
    requires PAYLOAD_MIN_SIZE + |content| < U32_MODULUS
    requires |pair| == 64 && pair[..32] == provider && pair[32..] == agent
    ensures var nonce := hash(pair);
            var payload := ScoreBytes(PlainScore(CURRENT_LAYOUT_VERSION, nonce, agent, provider, outcome, content));
            var data := AttestationBytes(PlainAttestation(ATTESTATION_DISCRIMINATOR, nonce, config.credential,
                                                          config.schema, payload, expiry));
            var first := exists i: nat :: FirstMatchAt(hash, config.allowedProviders, agent, nonce, i)
                                          && config.allowedProviders[i] == provider;
            && (Verify(hash, data, agent, config, now) == Ok(provider)
                <==> && first && config.minOutcome <= outcome
                     && !(config.maxScoreAgeSeconds > 0 && expiry == 0)
                     && !(expiry > 0 && now > expiry))
            && (first && outcome < config.minOutcome ==>
                  Verify(hash, data, agent, config, now) == Err(ReputationScoreBelowThreshold))
  {
    assert pair == provider + agent;
    var nonce := hash(pair);
    var s := PlainScore(CURRENT_LAYOUT_VERSION, nonce, agent, provider, outcome, content);
    var a := PlainAttestation(ATTESTATION_DISCRIMINATOR, nonce, config.credential, config.schema, ScoreBytes(s),
                              expiry);
    EncodedIsJudged(hash, a, s, [], agent, config, now);
    assert AttestationBytes(a) + [] == AttestationBytes(a);
    FirstMatchIsFirst(hash, config.allowedProviders, agent, nonce, provider);
  }

  // ----- the verdict, byte by byte -----

  /** The four bytes at an offset as an unsigned number, the first one weighing least. */
  function LengthAt(data: Bytes, off: nat): int
    requires off + 4 <= |data|
  {
    data[off] as int + 0x100 * data[off + 1] as int + 0x1_0000 * data[off + 2] as int
    + 0x100_0000 * data[off + 3] as int
  }

  /** The eight bytes at an offset as a signed number in two's complement, the first one weighing least. */
  function SignedAt(data: Bytes, off: nat): int
    requires off + 8 <= |data|
  {
    var x := LengthAt(data, off) + 0x1_0000_0000 * LengthAt(data, off + 4);
    if data[off + 7] < 0x80 then x else x - 0x1_0000_0000_0000_0000
  }

  /** An attestation account of the configured issuer, whatever follows its schema. */
  ghost predicate Issued(data: Bytes, config: HookConfig) {
    && 308 <= |data|
    && data[0] == 2 && data[33..65] == config.credential && data[65..97] == config.schema
  }

  /** A whole attestation by the provider about the agent, every field where the format puts it. */
  ghost predicate Attested(hash: Hash, data: Bytes, agent: Pubkey, config: HookConfig, provider: Pubkey) {
    && Issued(data, config)
    && 135 <= LengthAt(data, 97) && 173 + LengthAt(data, 97) <= |data|
    && (exists i: nat :: FirstMatchAt(hash, config.allowedProviders, agent, data[1..33], i)
                         && config.allowedProviders[i] == provider)
    && data[101] == 1 && data[102..134] == data[1..33] && data[134..166] == agent && data[166..198] == provider
  }

  lemma SliceInside(data: Bytes, start: nat, end: nat, off: nat)
    requires start + off + 32 <= end <= |data|
    ensures data[start..end][off..off + 32] == data[start + off..start + off + 32]
  {
    var inner, outer := data[start..end][off..off + 32], data[start + off..start + off + 32];
    assert forall i :: 0 <= i < 32 ==> inner[i] == outer[i];
  }

  lemma PayloadInside(data: Bytes, end: nat)
    requires 236 <= end <= |data|
    ensures var payload := data[OFF_DATA..end];
            && payload[PAY_OFF_LAYOUT_VERSION] == data[101]
            && Slice32(payload, PAY_OFF_TASK_REF) == data[102..134]
            && Slice32(payload, PAY_OFF_AGENT_MINT) == data[134..166]
            && Slice32(payload, PAY_OFF_COUNTERPARTY) == data[166..198]
            && payload[PAY_OFF_OUTCOME] == data[198]
  {
    SliceInside(data, OFF_DATA, end, 1);
    SliceInside(data, OFF_DATA, end, 33);
    SliceInside(data, OFF_DATA, end, 65);
  }

  lemma NumbersInside(data: Bytes, end: nat)
    requires 101 <= end && end + TAIL_SIZE <= |data|
    ensures ReadU32(data[OFF_DATA_LEN..OFF_DATA_LEN + 4]) == LengthAt(data, 97)
    ensures ReadI64(data[end + TAIL_OFF_EXPIRY..end + TAIL_OFF_EXPIRY + 8]) == SignedAt(data, end + 32)
  {
    hide ReadU32;
    hide ReadI64;
    ReadU32ByByte(data[OFF_DATA_LEN..OFF_DATA_LEN + 4]);
    ReadI64ByByte(data[end + TAIL_OFF_EXPIRY..end + TAIL_OFF_EXPIRY + 8]);
  }

  /**
   The verdict on any byte string, from the bytes themselves: accepted for a
   provider, refused for the outcome, for its expiry or for an unknown
   provider exactly on these conditions, and otherwise for the layout.
   */
  lemma VerdictByBytes(hash: Hash, data: Bytes, agent: Pubkey, config: HookConfig, now: i64, provider: Pubkey)
    ensures var r := Verify(hash, data, agent, config, now);
            && (r == Ok(provider)
                <==> && Attested(hash, data, agent, config, provider) && config.minOutcome <= data[198]
                     && var expiry := SignedAt(data, LengthAt(data, 97) + 133);
                     !(config.maxScoreAgeSeconds > 0 && expiry == 0) && !(expiry > 0 && now > expiry))
            && (Attested(hash, data, agent, config, provider) ==>
                  && (r == Err(ReputationScoreBelowThreshold) <==> data[198] < config.minOutcome)
                  && (r == Err(ReputationScoreStale)
                      <==> && config.minOutcome <= data[198]
                           && var expiry := SignedAt(data, LengthAt(data, 97) + 133);
                           (config.maxScoreAgeSeconds > 0 && expiry == 0) || (expiry > 0 && now > expiry)))
            && (r == Err(UntrustedProvider)
                <==> && Issued(data, config)
                     && (forall i :: 0 <= i < |config.allowedProviders| ==>
                           hash(config.allowedProviders[i] + agent) != data[1..33]))
            && ((forall p :: !Attested(hash, data, agent, config, p)) && r != Err(UntrustedProvider) ==>
                  r == Err(InvalidScoreLayout))
  {
    hide ReadU32;
    hide ReadI64;
    hide FirstMatch;
    if Issued(data, config) {
      var nonce := data[1..33];
      assert nonce == Slice32(data, OFF_NONCE);
      MatchIsAllowed(hash, config.allowedProviders, agent, nonce);
      var found := FirstMatch(hash, config.allowedProviders, agent, nonce);
      FirstMatchIsFirst(hash, config.allowedProviders, agent, nonce, provider);
      if found.Some? {
        FirstMatchIsFirst(hash, config.allowedProviders, agent, nonce, found.value);
        NumbersInside(data, 101);
        var end := OFF_DATA + LengthAt(data, 97);
        if 135 <= LengthAt(data, 97) && end + TAIL_SIZE <= |data| {
          NumbersInside(data, end);
          PayloadInside(data, end);
          if data[101] == 1 && data[102..134] == nonce && data[134..166] == agent && data[166..198] == found.value {
            assert Attested(hash, data, agent, config, found.value);
          }
        }
      }
    }
  }

  // ----- what acceptance does not depend on -----

  /** The same attestation and score in all fields the verifier reads. */
  predicate SameReadFields(a: Attestation, s: Score, a': Attestation, s': Score) {
    && a'.discriminator == a.discriminator && a'.nonce == a.nonce
    && a'.credential == a.credential && a'.schema == a.schema && a'.expiry == a.expiry
    && s'.layoutVersion == s.layoutVersion && s'.taskRef == s.taskRef && s'.agentMint == s.agentMint
    && s'.counterparty == s.counterparty && s'.outcome == s.outcome
  }

  /**
   An accepted byte string stays accepted, for the same provider, at any
   earlier time, with any trailing bytes, and with any other signer, data
   hash, content type, content length field, content and token account.
   */
  lemma AcceptanceIsStable(hash: Hash, a: Attestation, s: Score, suffix: Bytes, a': Attestation, s': Score,
                           suffix': Bytes, agent: Pubkey, config: HookConfig, now: i64, earlier: i64, provider: Pubkey)
    requires a.payload == ScoreBytes(s) && |a.payload| < U32_MODULUS
    requires a'.payload == ScoreBytes(s') && |a'.payload| < U32_MODULUS
    requires SameReadFields(a, s, a', s') && earlier <= now
    requires Verify(hash, AttestationBytes(a) + suffix, agent, config, now) == Ok(provider)
    ensures Verify(hash, AttestationBytes(a') + suffix', agent, config, earlier) == Ok(provider)
  {
    EncodedIsJudged(hash, a, s, suffix, agent, config, now);
    EncodedIsJudged(hash, a', s', suffix', agent, config, earlier);
  }

  /** Trailing bytes never turn an accepted byte string down. */
  lemma AcceptanceSurvivesSuffix(hash: Hash, data: Bytes, suffix: Bytes, agent: Pubkey, config: HookConfig, now: i64,
                                 provider: Pubkey)
    requires Verify(hash, data, agent, config, now) == Ok(provider)
    ensures Verify(hash, data + suffix, agent, config, now) == Ok(provider)
  {
    AcceptsExactlyEncodings(hash, data, agent, config, now, provider);
    var a: Attestation, s: Score, rest: Bytes :|
      && a.payload == ScoreBytes(s) && |a.payload| < U32_MODULUS
      && data == AttestationBytes(a) + rest
      && Judge(hash, a, s, agent, config, now) == Ok(provider);
    assert data + suffix == AttestationBytes(a) + (rest + suffix);
    EncodedIsJudged(hash, a, s, rest + suffix, agent, config, now);
  }

  /** No two different allowed providers share a nonce for the agent. */
  ghost predicate NoncesDiffer(hash: Hash, providers: seq<Pubkey>, agent: Pubkey) {
    forall i, j :: 0 <= i < |providers| && 0 <= j < |providers|
                   && ReputationNonce(hash, providers[i], agent) == ReputationNonce(hash, providers[j], agent)
                   ==> providers[i] == providers[j]
  }

  lemma {:induction false} MatchIsAllowed(hash: Hash, providers: seq<Pubkey>, agent: Pubkey, nonce: Bytes32)
    ensures FirstMatch(hash, providers, agent, nonce).None?
       <==> forall i :: 0 <= i < |providers| ==> ReputationNonce(hash, providers[i], agent) != nonce
    ensures FirstMatch(hash, providers, agent, nonce).Some? ==>
              && FirstMatch(hash, providers, agent, nonce).value in providers
              && ReputationNonce(hash, FirstMatch(hash, providers, agent, nonce).value, agent) == nonce
  {
    if providers == [] {
    } else {
      MatchIsAllowed(hash, providers[1..], agent, nonce);
      assert forall i :: 1 <= i < |providers| ==> providers[i] == providers[1..][i - 1];
    }
  }

  /** When nonces do not collide, only the set of allowed providers matters, not their order. */
  lemma ProviderOrderIrrelevant(hash: Hash, data: Bytes, agent: Pubkey, config: HookConfig, others: seq<Pubkey>,
                                now: i64)
    requires NoncesDiffer(hash, config.allowedProviders, agent)
    requires forall p :: p in config.allowedProviders <==> p in others
    ensures Verify(hash, data, agent, config.(allowedProviders := others), now)
         == Verify(hash, data, agent, config, now)
  {
    if HEADER_SIZE + PAYLOAD_MIN_SIZE + TAIL_SIZE <= |data| {
      var nonce := Slice32(data, OFF_NONCE);
      MatchIsAllowed(hash, config.allowedProviders, agent, nonce);
      MatchIsAllowed(hash, others, agent, nonce);
      assert FirstMatch(hash, others, agent, nonce) == FirstMatch(hash, config.allowedProviders, agent, nonce);
    }
  }
}
