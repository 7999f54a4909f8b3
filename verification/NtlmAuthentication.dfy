/** What the messages of the engine mean to a server, and what every run of a generator keeps. */
module NtlmAuthentication {
  import opened Bytes
  import opened Bits
  import opened NtlmBlob
  import opened NtlmMessages
  import opened NtlmGenerator

  // ---------------------------------------------------------------- runs of a generator

  /** A response is asked for with the password hash or, through the public entry point, with the password. */
  datatype Call = Request | Answering(i: Inputs) | AnsweringWith(i: Inputs, password: seq<Unichar>)

  /** The inputs of a call that gets to respond. */
  function InputsOf(p: Platform, call: Call): Option<Inputs> {
    match call
    case Request => None
    case Answering(i) => Some(i)
    case AnsweringWith(i, password) =>
      if |password| > MAX_STRING_LEN then None else Some(i.(ntlmHash := p.md4(Utf16Le(password))))
  }

  function Step(p: Platform, s: State, call: Call): State {
    if call.Request? then s.(sent := SentFlags(s.which))
    else if InputsOf(p, call).Some? then Respond(p, s, InputsOf(p, call).value).0
    else s
  }

  function Run(p: Platform, s: State, calls: seq<Call>): State {
    if calls == [] then s else Step(p, Run(p, s, calls[..|calls| - 1]), calls[|calls| - 1])
  }

  function Fresh(which: nat): State {
    State(which, 0, 0)
  }

  /** The variant chosen by the last call that got as far as choosing one. */
  function LastChoice(p: Platform, which: nat, calls: seq<Call>): nat {
    if calls == [] then 0 else
    var n := |calls| - 1;
    var i := InputsOf(p, calls[n]);
    if i.Some? && Chosen(p, which, i.value).Some? then Chosen(p, which, i.value).value
    else LastChoice(p, which, calls[..n])
  }

  function Chosen(p: Platform, which: nat, i: Inputs): Option<nat> {
    match ReadChallenge(i.serverBlob)
    case Parsed(c) =>
      var a := SelectAnswer(p, which, c, Domain(p, i), i);
      if a.Answer? then Some(a.version) else None
    case _ => None
  }

  /** A caller's calls on one generator, in order. */
  method RunCalls(g: Generator, p: Platform, calls: seq<Call>)
    modifies g
    ensures g.Current() == Run(p, old(g.Current()), calls)
  {
    hide Respond;
    for k := 0 to |calls|
      invariant g.Current() == Run(p, old(g.Current()), calls[..k])
    {
      assert calls[..k + 1][..k] == calls[..k];
      match calls[k]
      case Request =>
        var _ := g.NtlmCreateClientRequest();
      case Answering(i) =>
        var _ := g.NtlmRespond(p, i);
      case AnsweringWith(i, password) =>
        var _ := g.NtlmCreateClientResponse(p, i, password);
    }
    assert calls[..|calls|] == calls;
  }

  /** The fields of a generator are determined by its history. */
  lemma {:induction false} RunByHistory(p: Platform, which: nat, calls: seq<Call>)
    ensures Run(p, Fresh(which), calls)
         == State(which, LastChoice(p, which, calls), if Request in calls then SentFlags(which) else 0)
  {
    hide ReadChallenge, SelectAnswer, Assemble, SentFlags, Domain;
    if calls != [] {
      var n := |calls| - 1;
      RunByHistory(p, which, calls[..n]);
      assert calls == calls[..n] + [calls[n]];
    }
  }

  lemma {:induction false} ChoiceIsAllowed(p: Platform, which: nat, calls: seq<Call>)
    ensures var v := LastChoice(p, which, calls);
            || v == 0
            || (v == NW_NTLM2 && HasFlag(which, NW_NTLM2))
            || (v == NW_NTLM_V2 && HasFlag(which, NW_NTLM_V2))
  {
    if calls != [] {
      ChoiceIsAllowed(p, which, calls[..|calls| - 1]);
    }
  }

  /** The flags a generator sends: the standard set, with the NTLM2 key exactly when NTLM2 is allowed. */
  lemma SentFlagsValue(which: nat)
    ensures SentFlags(which) == if Bit(which, 1) then 0x8_8207 else 0x8207
    ensures Bit(SentFlags(which), 19) <==> Bit(which, 1)
  {
    hide BitAnd, BitOr, Bit;
    assert Pow2(1) == 2;
    FlagTest(which, 1);
    StandardFlagsValue();
  }

  lemma StandardFlagsValue()
    ensures StandardFlags() == 0x8207
    ensures BitOr(0x8207, NEGOTIATE_NTLM2_KEY) == 0x8_8207
    ensures Bit(0x8_8207, 19) && !Bit(0x8207, 19)
  {
    hide BitOr, Bit;
    assert Pow2(1) == 2 && Pow2(2) == 4 && Pow2(9) == 0x200 && Pow2(15) == 0x8000 && Pow2(19) == 0x8_0000;
    OrOfHigherFlag(0x1, 1);
    OrOfHigherFlag(0x3, 2);
    OrOfHigherFlag(0x7, 9);
    OrOfHigherFlag(0x207, 15);
    OrOfHigherFlag(0x8207, 19);
    TopBit(0x8207, 19);
  }

  /** Over every run the negotiated version and the sent flags stay within what `which` allows. */
  lemma NegotiationInvariant(p: Platform, which: nat, calls: seq<Call>)
    ensures var s := Run(p, Fresh(which), calls);
            && s.which == which
            && (|| s.negotiated == 0
                || (s.negotiated == NW_NTLM2 && Bit(which, 1))
                || (s.negotiated == NW_NTLM_V2 && Bit(which, 2)))
            && (s.sent == 0 || s.sent == if Bit(which, 1) then 0x8_8207 else 0x8207)
  {
    RunByHistory(p, which, calls);
    ChoiceIsAllowed(p, which, calls);
    SentFlagsValue(which);
    assert Pow2(1) == 2 && Pow2(2) == 4;
    FlagTest(which, 1);
    FlagTest(which, 2);
  }

  /** The fields behind a successful response. */
  function ResponseFields(p: Platform, s: State, c: Challenge, i: Inputs): Fields
    requires SelectAnswer(p, s.which, c, Domain(p, i), i).Answer?
    requires StringFlatten(p, i.user, HasFlag(c.flags, NEGOTIATE_UNICODE)).Some?
    requires i.domain.Some? ==> StringFlatten(p, Domain(p, i).value, HasFlag(c.flags, NEGOTIATE_UNICODE)).Some?
  {
    var a := SelectAnswer(p, s.which, c, Domain(p, i), i);
    var unicode := HasFlag(c.flags, NEGOTIATE_UNICODE);
    Fields(a.lm, a.nt, if i.domain.Some? then StringFlatten(p, Domain(p, i).value, unicode) else None,
           StringFlatten(p, i.user, unicode).value, HostNameBytes(unicode), BitAnd(s.sent, c.flags))
  }

  /** The message of a successful response, and nothing otherwise. */
  function MessageSent(p: Platform, s: State, i: Inputs): seq<Byte> {
    match Respond(p, s, i).1
    case Response(b) => b
    case _ => []
  }

  /** The fields with the NTLM response cut to its length modulo 2^16. */
  function Cut(f: Fields): Fields {
    f.(nt := f.nt[..|f.nt| % 0x1_0000])
  }

  lemma SuccessfulResponse(p: Platform, s: State, i: Inputs) returns (c: Challenge, f: Fields)
    requires Utf8Bounded(p) && Respond(p, s, i).1.Response?
    ensures ReadChallenge(i.serverBlob) == Parsed(c)
    ensures SelectAnswer(p, s.which, c, Domain(p, i), i).Answer?
    ensures StringFlatten(p, i.user, HasFlag(c.flags, NEGOTIATE_UNICODE)).Some?
    ensures i.domain.Some? ==> StringFlatten(p, Domain(p, i).value, HasFlag(c.flags, NEGOTIATE_UNICODE)).Some?
    ensures f == ResponseFields(p, s, c, i) && f.Fits()
    ensures MessageSent(p, s, i) == AuthMessage(f)
  {
    c := ReadChallenge(i.serverBlob).challenge;
    f := ResponseFields(p, s, c, i);
    var unicode := HasFlag(c.flags, NEGOTIATE_UNICODE);
    FlattenedFits(p, i.user, unicode);
    if i.domain.Some? {
      FlattenedFits(p, Domain(p, i).value, unicode);
    }
  }

  /**
    What a reader may rely on in message `b`, sent after `calls` in answer to challenge `c`: byte 60
    holds the flags that were sent and are offered, the security buffers lead to the fields, and the
    fields tile the message when the NTLM response fits its 16-bit length.
   */
  ghost predicate Reliable(b: seq<Byte>, which: nat, calls: seq<Call>, c: Challenge, f: Fields) {
    && ReadsAs(b, Cut(f))
    && FromLittleEndian(b[60..64]) == f.flags
    && (forall k :: Bit(f.flags, k) <==> Request in calls && Bit(SentFlags(which), k) && Bit(c.flags, k))
    && (|f.nt| < 0x1_0000 ==> Tiles(ReadSlots(b), f.domain.Some?, |b|))
  }

  /** Every successful response of every run is reliable, and the version just chosen is allowed. */
  lemma ResponsesOfRuns(p: Platform, which: nat, calls: seq<Call>, i: Inputs) returns (c: Challenge, f: Fields)
    requires Utf8Bounded(p)
    requires Respond(p, Run(p, Fresh(which), calls), i).1.Response?
    ensures ReadChallenge(i.serverBlob) == Parsed(c)
    ensures Reliable(MessageSent(p, Run(p, Fresh(which), calls), i), which, calls, c, f)
    ensures Respond(p, Run(p, Fresh(which), calls), i).0.negotiated ==
            if V2Offered(which, c) then NW_NTLM_V2 else NW_NTLM2
    ensures V2Offered(which, c) || Ntlm2Offered(which, c)
  {
    hide ReadChallenge, AuthMessage, Field, ReadSlots, Tiles, Run, BitAnd, Bit, StringFlatten, NtlmV2Blob, ReadsAs;
    var s := Run(p, Fresh(which), calls);
    c, f := SuccessfulResponse(p, s, i);
    RunByHistory(p, which, calls);
    forall k
      ensures Bit(f.flags, k) <==> Request in calls && Bit(SentFlags(which), k) && Bit(c.flags, k)
    {
      BitOfAnd(s.sent, c.flags, k);
      ZeroBits(k);
    }
    AndBound(s.sent, c.flags);
    AuthFlags(f);
    ResponseLength(p, s, c, i);
    AuthRoundTrip(f);
    if |f.nt| < 0x1_0000 {
      AuthTiles(f);
    }
  }

  lemma TargetInfoBound(blob: Option<seq<Byte>>)
    requires ReadChallenge(blob).Parsed? && ReadChallenge(blob).challenge.targetInfo.Some?
    ensures |ReadChallenge(blob).challenge.targetInfo.value| < 0x1_0000
  {
  }

  lemma BlobLength(timestamp: nat, nonce: Nonce, info: seq<Byte>)
    ensures |NtlmV2Blob(timestamp, nonce, info)| == 32 + |info|
    ensures NtlmV2Blob(timestamp, nonce, info)[16..24] == nonce
  {
    var parts := [[1, 1, 0, 0], LittleEndian(0, 4), LittleEndian(timestamp, 8), nonce, LittleEndian(0, 4), info,
                  LittleEndian(0, 4)];
    assert Start(parts, 1) == 4;
    assert Start(parts, 2) == 8;
    assert Start(parts, 3) == 16;
    assert Start(parts, 5) == 28;
    assert Start(parts, 7) == 32 + |info|;
    PartAt(parts, 3);
    FlattenLength(parts);
  }

  /** What the blob of an NTLMv2 response says: fixed bytes, the time, the client nonce and the target information. */
  predicate BlobSays(blob: seq<Byte>, timestamp: nat, nonce: seq<Byte>, info: seq<Byte>) {
    && |blob| == 32 + |info|
    && blob[..4] == [1, 1, 0, 0] && blob[4..8] == [0, 0, 0, 0]
    && FromLittleEndian(blob[8..16]) == timestamp % 0x1_0000_0000_0000_0000
    && blob[16..24] == nonce && blob[24..28] == [0, 0, 0, 0]
    && blob[28..28 + |info|] == info && blob[28 + |info|..] == [0, 0, 0, 0]
  }

  lemma BlobRead(timestamp: nat, nonce: Nonce, info: seq<Byte>)
    ensures BlobSays(NtlmV2Blob(timestamp, nonce, info), timestamp, nonce, info)
  {
    hide Flatten, LittleEndian, FromLittleEndian;
    var zero, time := LittleEndian(0, 4), LittleEndian(timestamp, 8);
    var parts := [[1, 1, 0, 0], zero, time, nonce, zero, info, zero];
    BlobParts(parts, NtlmV2Blob(timestamp, nonce, info));
    ZeroWord();
    LongWords();
    LittleEndianRoundTrip(timestamp, 8);
  }

  lemma ZeroWord()
    ensures LittleEndian(0, 4) == [0, 0, 0, 0]
  {
    assert LittleEndian(0, 1) == [0] && LittleEndian(0, 2) == [0, 0] && LittleEndian(0, 3) == [0, 0, 0];
  }

  lemma BlobParts(parts: seq<seq<Byte>>, blob: seq<Byte>)
    requires |parts| == 7 && blob == Flatten(parts)
    requires |parts[0]| == |parts[1]| == |parts[4]| == |parts[6]| == 4 && |parts[2]| == |parts[3]| == 8
    ensures |blob| == 32 + |parts[5]|
    ensures blob[..4] == parts[0] && blob[4..8] == parts[1] && blob[8..16] == parts[2] && blob[16..24] == parts[3]
    ensures blob[24..28] == parts[4] && blob[28..28 + |parts[5]|] == parts[5] && blob[28 + |parts[5]|..] == parts[6]
  {
    hide Flatten;
    assert Start(parts, 0) == 0 && Start(parts, 1) == 4 && Start(parts, 2) == 8 && Start(parts, 3) == 16;
    assert Start(parts, 4) == 24 && Start(parts, 5) == 28 && Start(parts, 6) == 28 + |parts[5]|;
    FlattenLength(parts);
    PartAt(parts, 0);
    PartAt(parts, 1);
    PartAt(parts, 2);
    PartAt(parts, 3);
    PartAt(parts, 4);
    PartAt(parts, 5);
    PartAt(parts, 6);
  }

  /** The NTLM response has 24 bytes for NTLM2 and 48 more than the target information for NTLMv2. */
  lemma ResponseLength(p: Platform, s: State, c: Challenge, i: Inputs)
    requires ReadChallenge(i.serverBlob) == Parsed(c)
    requires SelectAnswer(p, s.which, c, Domain(p, i), i).Answer?
    ensures var nt := SelectAnswer(p, s.which, c, Domain(p, i), i).nt;
            && |nt| == (if V2Offered(s.which, c) then 48 + |c.targetInfo.value| else 24)
            && |nt| < 0x2_0000
  {
    if V2Offered(s.which, c) {
      TargetInfoBound(i.serverBlob);
      BlobLength(i.timestamp, i.nonce, c.targetInfo.value);
    }
  }

  // ---------------------------------------------------------------- what every response says

  /** The names of a response: what a reader finds in the domain, user and workstation fields. */
  predicate NamesRead(p: Platform, b: seq<Byte>, unicode: bool, domain: Option<seq<Unichar>>, user: seq<Unichar>) {
    && |b| >= 64 && Field(b, 28).Some? && Field(b, 36).Some? && Field(b, 44).Some?
    && (if domain.Some? then Spells(p, p.uppercase(domain.value), unicode, Field(b, 28).value)
        else Field(b, 28).value == [])
    && Spells(p, user, unicode, Field(b, 36).value)
    && Spells(p, Workstation(), unicode, Field(b, 44).value)
  }

  /** Every response carries the upper-cased domain, the user and WORKSTATION, in Unicode when that was offered. */
  lemma ResponseNames(p: Platform, s: State, c: Challenge, i: Inputs)
    requires Utf8Bounded(p) && ReadChallenge(i.serverBlob) == Parsed(c) && Respond(p, s, i).1.Response?
    ensures NamesRead(p, MessageSent(p, s, i), Bit(c.flags, 0), i.domain, i.user)
  {
    hide Respond, ReadChallenge, Field, StringFlatten, Spells, HostNameBytes, BitAnd, Bit, MessageSent;
    var c', f := SuccessfulResponse(p, s, i);
    var unicode := HasFlag(c.flags, NEGOTIATE_UNICODE);
    assert Pow2(0) == 1;
    FlagTest(c.flags, 0);
    ResponseLength(p, s, c, i);
    AuthRoundTrip(f);
    FlattenedSpells(p, i.user, unicode);
    if i.domain.Some? {
      FlattenedSpells(p, Domain(p, i).value, unicode);
    }
    HostNameSpells(p, unicode);
  }

  /** Both sides can do NTLMv2: bits 23 of the challenge and 2 of the generator, and there is target information. */
  predicate BothV2(which: nat, c: Challenge) {
    c.targetInfo.Some? && |c.targetInfo.value| > 0 && Bit(c.flags, 23) && Bit(which, 2)
  }

  /** Both sides can do NTLM2: bits 19 of the challenge and 1 of the generator. */
  predicate BothNtlm2(which: nat, c: Challenge) {
    Bit(c.flags, 19) && Bit(which, 1)
  }

  lemma VariantBits(which: nat, c: Challenge)
    ensures V2Offered(which, c) <==> BothV2(which, c)
    ensures Ntlm2Offered(which, c) <==> BothNtlm2(which, c)
  {
    hide BitAnd, Bit;
    assert Pow2(1) == 2 && Pow2(2) == 4 && Pow2(9) == 0x200 && Pow2(15) == 0x8000;
    assert Pow2(19) == 0x8_0000 && Pow2(23) == 0x80_0000;
    FlagTest(c.flags, 23);
    FlagTest(c.flags, 19);
    FlagTest(which, 2);
    FlagTest(which, 1);
  }

  /** A name that can be written. */
  predicate Writable(p: Platform, name: seq<Unichar>, unicode: bool) {
    |name| <= 2048 && (unicode || (forall k :: 0 <= k < |name| ==> name[k] < 0x80) || p.utf8(name).Some?)
  }

  /** The domain, if any, and the user can be written. */
  predicate NamesWritable(p: Platform, i: Inputs, unicode: bool) {
    Writable(p, i.user, unicode) && (i.domain.Some? ==> Writable(p, p.uppercase(i.domain.value), unicode))
  }

  /**
    What becomes of an accepted challenge: NTLMv2 when both sides can, else NTLM2 when both can and the
    encryption works, else an error without a trace.  The choice is recorded even if the names cannot be
    written afterwards, which is a parse error.
   */
  lemma RespondVerdict(p: Platform, s: State, c: Challenge, i: Inputs)
    requires ReadChallenge(i.serverBlob) == Parsed(c)
    ensures var (after, r) := Respond(p, s, i);
            var session := LmResponse(p, i.ntlmHash[..16], p.md5(c.nonce + i.nonce));
            if !BothV2(s.which, c) && !BothNtlm2(s.which, c) then after == s && r == Failure(ProtocolMismatch)
            else if !BothV2(s.which, c) && session.None? then after == s && r == Failure(CryptoError)
            else
              && after == s.(negotiated := if BothV2(s.which, c) then 4 else 2)
              && (if NamesWritable(p, i, Bit(c.flags, 0)) then r.Response? else r == Failure(ParseError))
  {
    hide ReadChallenge, AuthMessage, NtlmV2Blob, HostNameBytes, BothV2, BothNtlm2, V2Offered, Ntlm2Offered, LmResponse,
         StringFlatten, BitAnd, Bit;
    VariantBits(s.which, c);
    assert Pow2(0) == 1;
    FlagTest(c.flags, 0);
    FlattenedSpells(p, i.user, HasFlag(c.flags, NEGOTIATE_UNICODE));
    if i.domain.Some? {
      FlattenedSpells(p, p.uppercase(i.domain.value), HasFlag(c.flags, NEGOTIATE_UNICODE));
    }
  }

  /** Without an accepted challenge nothing changes. */
  lemma RespondRejected(p: Platform, s: State, i: Inputs)
    requires !ReadChallenge(i.serverBlob).Parsed?
    ensures Respond(p, s, i) ==
            (s, if ReadChallenge(i.serverBlob).Rejected? then Failure(ParseError) else StrayAccess)
  {
    RejectedExactly(i.serverBlob);
  }

  // ---------------------------------------------------------------- the server side of NTLMv2

  /** The server's keyed hash of the names it reads in the message. */
  function ServerKey(p: Platform, hash: Digest, user: seq<Byte>, domain: seq<Byte>): Digest {
    p.hmacMd5(hash, Utf16Le(p.uppercase(FromUtf16Le(user) + FromUtf16Le(domain))))
  }

  /**
    A server that shares the password hash and remembers its challenge reads the response through its
    security buffers, splits both proofs after 16 bytes and checks them; see section 3.3.2 of [MS-NLMP].
    Both proofs must carry the same client nonce.
   */
  predicate ServerAccepts(p: Platform, hash: Digest, challenge: seq<Byte>, b: seq<Byte>) {
    && |b| >= 64
    && Field(b, 12).Some? && Field(b, 20).Some? && Field(b, 28).Some? && Field(b, 36).Some?
    && Proves(p, ServerKey(p, hash, Field(b, 36).value, Field(b, 28).value), challenge,
              Field(b, 12).value, Field(b, 20).value)
  }

  predicate Proves(p: Platform, key: Digest, challenge: seq<Byte>, lm: seq<Byte>, nt: seq<Byte>) {
    && |lm| == 24 && |nt| >= 40
    && nt[..16] == p.hmacMd5(key, challenge + nt[16..])
    && lm[..16] == p.hmacMd5(key, challenge + lm[16..])
    && lm[16..] == nt[32..40]
  }

  /** The names whose keyed hash the client computes fit the conversion limit, or its failure is harmless. */
  predicate NamesConvert(p: Platform, i: Inputs) {
    var names := UserDomain(p, Domain(p, i), i.user);
    |names| <= MAX_STRING_LEN || i.stale == Utf16Le(names)
  }

  predicate InfoFits(c: Challenge) {
    c.targetInfo.Some? && |c.targetInfo.value| <= 65487
  }

  /** An NTLMv2 response in Unicode was produced for challenge `c`. */
  predicate V2Response(p: Platform, s: State, c: Challenge, i: Inputs) {
    && ReadChallenge(i.serverBlob) == Parsed(c)
    && V2Offered(s.which, c) && HasFlag(c.flags, NEGOTIATE_UNICODE)
    && Respond(p, s, i).1.Response?
  }

  /** What the client signs with, and the names it writes. */
  ghost predicate V2Fields(p: Platform, c: Challenge, i: Inputs, f: Fields) {
    var key := NtlmV2Hash(p, PasswordDigest(i.ntlmHash), UserDomain(p, Domain(p, i), i.user), i.stale);
    && c.targetInfo.Some?
    && f.user == Utf16Le(i.user) && f.DomainBytes() == Utf16Le(Domain(p, i).GetOr([]))
    && f.lm == LmV2Response(p, key, c.nonce, i.nonce)
    && f.nt == NtlmV2Response(p, key, c.nonce, NtlmV2Blob(i.timestamp, i.nonce, c.targetInfo.value))
  }

  /** The choice of the keyed hash has no influence on whether there is a response. */
  lemma OutcomeIgnoresHash(p: Platform, s: State, c: Challenge, i: Inputs, h: (seq<Byte>, seq<Byte>) -> Digest)
    requires V2Response(p, s, c, i)
    ensures V2Response(p.(hmacMd5 := h), s, c, i)
  {
    hide ReadChallenge, AuthMessage, NtlmV2Blob, HostNameBytes;
  }

  lemma ResponseOfChallenge(p: Platform, s: State, c: Challenge, i: Inputs) returns (f: Fields)
    requires V2Response(p, s, c, i)
    ensures MessageSent(p, s, i) == AuthMessage(f) && V2Fields(p, c, i, f) && f.Fits()
  {
    hide ReadChallenge, AuthMessage, NtlmV2Blob, Utf16Le;
    f := ResponseFields(p, s, c, i);
  }

  /** The fields of such a response; a reader finds them with the NTLM response cut to 16 bits. */
  lemma V2Message(p: Platform, s: State, c: Challenge, i: Inputs) returns (f: Fields, b: seq<Byte>)
    requires V2Response(p, s, c, i)
    ensures b == MessageSent(p, s, i) && V2Fields(p, c, i, f)
    ensures |f.nt| == 48 + |c.targetInfo.value| && |c.targetInfo.value| < 0x1_0000
    ensures ReadsAs(b, Cut(f))
  {
    hide ReadChallenge, AuthMessage, NtlmV2Blob, Respond, Field, Utf16Le, ReadsAs, NtlmV2Hash, UserDomain, Domain;
    f := ResponseOfChallenge(p, s, c, i);
    TargetInfoBound(i.serverBlob);
    BlobLength(i.timestamp, i.nonce, c.targetInfo.value);
    b := AuthMessage(f);
    AuthRoundTrip(f);
  }

  /** The server's verdict depends on the fields it reads. */
  lemma VerdictOnFields(p: Platform, hash: Digest, challenge: seq<Byte>, b: seq<Byte>, f: Fields)
    requires ReadsAs(b, f)
    ensures ServerAccepts(p, hash, challenge, b)
       <==> Proves(p, ServerKey(p, hash, f.user, f.DomainBytes()), challenge, f.lm, f.nt)
  {
  }

  /** Client and server compute the same key exactly from the same names. */
  lemma SameNames(p: Platform, i: Inputs, hash: Digest)
    ensures ServerKey(p, hash, Utf16Le(i.user), Utf16Le(Domain(p, i).GetOr([])))
         == p.hmacMd5(hash, Utf16Le(UserDomain(p, Domain(p, i), i.user)))
  {
    Utf16RoundTrip(i.user);
    Utf16RoundTrip(Domain(p, i).GetOr([]));
  }

  /** After the proof of the NTLM response in message `b`, a reader finds this blob. */
  predicate BlobReads(b: seq<Byte>, timestamp: nat, nonce: seq<Byte>, info: seq<Byte>) {
    && |b| >= 64 && Field(b, 20).Some? && |Field(b, 20).value| >= 16
    && BlobSays(Field(b, 20).value[16..], timestamp, nonce, info)
  }

  /**
    End to end: whatever the keyed hash function is, the server accepts the client's response, and reads in
    it the client's time and nonce and the target information of its own challenge.
   */
  lemma V2EndToEnd(p: Platform, s: State, c: Challenge, i: Inputs)
    requires V2Response(p, s, c, i)
    requires InfoFits(c) && NamesConvert(p, i)
    ensures ServerAccepts(p, i.ntlmHash[..16], c.nonce, MessageSent(p, s, i))
    ensures BlobReads(MessageSent(p, s, i), i.timestamp, i.nonce, c.targetInfo.value)
  {
    hide Respond, ReadChallenge, Field, NtlmV2Blob, BlobSays;
    var f, b := V2Message(p, s, c, i);
    var hash := PasswordDigest(i.ntlmHash);
    assert f.nt[..|f.nt|] == f.nt;
    VerdictOnFields(p, hash, c.nonce, b, f);
    SameNames(p, i, hash);
    ProofsHold(p, ServerKey(p, hash, f.user, f.DomainBytes()), c.nonce, i.nonce, i.timestamp, c.targetInfo.value);
    BlobRead(i.timestamp, i.nonce, c.targetInfo.value);
    var blob := NtlmV2Blob(i.timestamp, i.nonce, c.targetInfo.value);
    assert f.nt[16..] == blob;
  }

  lemma ProofsHold(p: Platform, key: Digest, challenge: seq<Byte>, nonce: Nonce, timestamp: nat, info: seq<Byte>)
    ensures Proves(p, key, challenge, LmV2Response(p, key, challenge, nonce),
                   NtlmV2Response(p, key, challenge, NtlmV2Blob(timestamp, nonce, info)))
  {
    var blob := NtlmV2Blob(timestamp, nonce, info);
    BlobLength(timestamp, nonce, info);
    var mac: seq<Byte> := p.hmacMd5(key, challenge + blob);
    var nt, lm := NtlmV2Response(p, key, challenge, blob), LmV2Response(p, key, challenge, nonce);
    assert nt[..16] == mac && nt[16..] == blob;
    SubSlice(nt, 16, |nt|, 16, 24);
    assert nt[16..|nt|] == blob;
    assert lm[16..] == nonce;
  }

  function Constant(b: Byte): Digest {
    seq(16, _ => b)
  }

  lemma ConstantsDiffer()
    ensures Constant(0) != Constant(1) && Constant(0) != Constant(2) && Constant(1) != Constant(2)
  {
    assert Constant(0)[0] == 0 && Constant(1)[0] == 1 && Constant(2)[0] == 2;
  }

  /** A hash that recognizes one text. */
  function TextHash(text: seq<Byte>): (seq<Byte>, seq<Byte>) -> Digest {
    (k, d) => if d == text then Constant(0) else Constant(1)
  }

  /** A response whose length does not fit 16 bits is refused: the server hashes less than the client did. */
  lemma CutResponseRefused(p: Platform, s: State, c: Challenge, i: Inputs)
    requires V2Response(p, s, c, i) && !InfoFits(c)
    requires p.hmacMd5 == TextHash(c.nonce + NtlmV2Blob(i.timestamp, i.nonce, c.targetInfo.value))
    ensures !ServerAccepts(p, PasswordDigest(i.ntlmHash), c.nonce, MessageSent(p, s, i))
  {
    hide Respond, ReadChallenge, Field, NtlmV2Blob;
    var f, b := V2Message(p, s, c, i);
    var cut := f.nt[..|f.nt| % 0x1_0000];
    VerdictOnFields(p, PasswordDigest(i.ntlmHash), c.nonce, b, f.(nt := cut));
    var key := NtlmV2Hash(p, PasswordDigest(i.ntlmHash), UserDomain(p, Domain(p, i), i.user), i.stale);
    var blob := NtlmV2Blob(i.timestamp, i.nonce, c.targetInfo.value);
    BlobLength(i.timestamp, i.nonce, c.targetInfo.value);
    var serverKey := ServerKey(p, PasswordDigest(i.ntlmHash), f.user, f.DomainBytes());
    ShorterTextRefused(p, key, serverKey, c.nonce, blob, f.lm, cut);
  }

  lemma ShorterTextRefused(
    p: Platform, key: Digest, key': Digest, challenge: seq<Byte>, blob: seq<Byte>, lm: seq<Byte>, cut: seq<Byte>)
    requires p.hmacMd5 == TextHash(challenge + blob)
    requires |cut| < 48 && |cut| <= |NtlmV2Response(p, key, challenge, blob)| && |blob| > 32
    requires cut == NtlmV2Response(p, key, challenge, blob)[..|cut|]
    ensures !Proves(p, key', challenge, lm, cut)
  {
    ConstantsDiffer();
    if |cut| >= 40 {
      assert cut[..16] == Constant(0);
      assert |challenge + cut[16..]| < |challenge + blob|;
      assert p.hmacMd5(key', challenge + cut[16..]) == Constant(1);
    }
  }

  /** Two digests different from `hash` and from each other. */
  lemma OtherDigests(hash: Digest) returns (a: Digest, b: Digest)
    ensures a != hash && b != hash && a != b
  {
    ConstantsDiffer();
    a := if hash == Constant(0) then Constant(2) else Constant(0);
    b := if hash == Constant(1) then Constant(2) else Constant(1);
  }

  /** A hash that turns the right names into key `a`, wrong ones into key `b`, and signs with the key itself. */
  function NamesHash(hash: Digest, names: seq<Byte>, a: Digest, b: Digest): (seq<Byte>, seq<Byte>) -> Digest {
    (k, d) => if k == hash then (if d == names then a else b) else if k == a then a else b
  }

  /** A response keyed with names whose conversion failed is refused. */
  lemma WrongKeyRefused(p: Platform, s: State, c: Challenge, i: Inputs, a: Digest, b: Digest)
    requires V2Response(p, s, c, i) && InfoFits(c) && !NamesConvert(p, i)
    requires a != PasswordDigest(i.ntlmHash) && b != PasswordDigest(i.ntlmHash) && a != b
    requires p.hmacMd5 == NamesHash(PasswordDigest(i.ntlmHash), Utf16Le(UserDomain(p, Domain(p, i), i.user)), a, b)
    ensures !ServerAccepts(p, PasswordDigest(i.ntlmHash), c.nonce, MessageSent(p, s, i))
  {
    hide Respond, ReadChallenge, Field, NtlmV2Blob;
    var f, msg := V2Message(p, s, c, i);
    assert f.nt[..|f.nt|] == f.nt;
    VerdictOnFields(p, PasswordDigest(i.ntlmHash), c.nonce, msg, f);
    SameNames(p, i, PasswordDigest(i.ntlmHash));
    assert f.nt[..16] == b;
  }

  /** With keyed hash `h`, the message the client sends is accepted. */
  ghost predicate AcceptedWith(
    p: Platform, s: State, i: Inputs, challenge: seq<Byte>, h: (seq<Byte>, seq<Byte>) -> Digest)
  {
    var p' := p.(hmacMd5 := h);
    && Respond(p', s, i).1.Response?
    && ServerAccepts(p', PasswordDigest(i.ntlmHash), challenge, MessageSent(p', s, i))
  }

  /** A keyed hash for which the response is refused when it was cut or keyed with the wrong names. */
  lemma RefusingHash(p: Platform, s: State, c: Challenge, i: Inputs)
    returns (h: (seq<Byte>, seq<Byte>) -> Digest)
    requires V2Response(p, s, c, i)
    requires !(InfoFits(c) && NamesConvert(p, i))
    ensures !AcceptedWith(p, s, i, c.nonce, h)
  {
    hide Respond, ReadChallenge, Field, NtlmV2Blob, ServerAccepts;
    var hash := PasswordDigest(i.ntlmHash);
    if !InfoFits(c) {
      h := TextHash(c.nonce + NtlmV2Blob(i.timestamp, i.nonce, c.targetInfo.value));
      OutcomeIgnoresHash(p, s, c, i, h);
      CutResponseRefused(p.(hmacMd5 := h), s, c, i);
    } else {
      var a, b := OtherDigests(hash);
      h := NamesHash(hash, Utf16Le(UserDomain(p, Domain(p, i), i.user)), a, b);
      OutcomeIgnoresHash(p, s, c, i, h);
      WrongKeyRefused(p.(hmacMd5 := h), s, c, i, a, b);
    }
  }

  /** One value of what a failed conversion leaves: accepted for every keyed hash, or refused for some. */
  lemma V2AcceptedWithStale(p: Platform, s: State, c: Challenge, i: Inputs)
    requires V2Response(p, s, c, i)
    ensures (forall h :: AcceptedWith(p, s, i, c.nonce, h)) <==> InfoFits(c) && NamesConvert(p, i)
  {
    hide Respond, ReadChallenge, ServerAccepts;
    if InfoFits(c) && NamesConvert(p, i) {
      forall h
        ensures AcceptedWith(p, s, i, c.nonce, h)
      {
        OutcomeIgnoresHash(p, s, c, i, h);
        V2EndToEnd(p.(hmacMd5 := h), s, c, i);
      }
    } else {
      var h := RefusingHash(p, s, c, i);
      assert !AcceptedWith(p, s, i, c.nonce, h);
    }
  }

  /** What a failed conversion leaves has no influence on whether there is a response. */
  lemma OutcomeIgnoresStale(p: Platform, s: State, c: Challenge, i: Inputs, t: seq<Byte>)
    requires V2Response(p, s, c, i)
    ensures V2Response(p, s, c, i.(stale := t))
  {
    hide ReadChallenge, AuthMessage, NtlmV2Blob, HostNameBytes;
  }

  /** The names whose keyed hash the client computes fit the conversion limit. */
  predicate NamesFit(p: Platform, i: Inputs) {
    |UserDomain(p, Domain(p, i), i.user)| <= MAX_STRING_LEN
  }

  /**
    The exact condition: the server accepts for every keyed hash function, and whatever a failed conversion
    of the names leaves behind, if and only if the target information leaves room for the 16-bit length and
    the upper-cased names fit the conversion limit.
   */
  lemma V2AcceptedExactly(p: Platform, s: State, c: Challenge, i: Inputs)
    requires V2Response(p, s, c, i)
    ensures (forall h, t :: AcceptedWith(p, s, i.(stale := t), c.nonce, h)) <==> InfoFits(c) && NamesFit(p, i)
  {
    hide V2Response, AcceptedWith, UserDomain;
    forall t
      ensures (forall h :: AcceptedWith(p, s, i.(stale := t), c.nonce, h)) <==>
              InfoFits(c) && NamesConvert(p, i.(stale := t))
    {
      OutcomeIgnoresStale(p, s, c, i, t);
      V2AcceptedWithStale(p, s, c, i.(stale := t));
    }
    if !NamesFit(p, i) {
      var t: seq<Byte> := [0];
      assert !NamesConvert(p, i.(stale := t));
      assert !forall h :: AcceptedWith(p, s, i.(stale := t), c.nonce, h);
    }
  }

  // ---------------------------------------------------------------- the server side of the NTLM2 session response

  /**
    A server that shares the password hash takes the client's nonce from the LM response, whose rest is
    zero, and encrypts the session hash itself; see section 3.3.1 of [MS-NLMP].
   */
  predicate SessionAccepted(p: Platform, hash: Digest, challenge: seq<Byte>, b: seq<Byte>) {
    && |b| >= 64
    && Field(b, 12).Some? && Field(b, 20).Some?
    && SessionProved(p, hash, challenge, Field(b, 12).value, Field(b, 20).value)
  }

  predicate SessionProved(p: Platform, hash: Digest, challenge: seq<Byte>, lm: seq<Byte>, nt: seq<Byte>) {
    && |lm| == 24 && (forall k :: 8 <= k < 24 ==> lm[k] == 0)
    && LmResponse(p, hash, p.md5(challenge + lm[..8])) == Some(nt)
  }

  /** Whenever NTLMv2 is not chosen, a response proves the password hash under the session hash. */
  lemma SessionEndToEnd(p: Platform, s: State, c: Challenge, i: Inputs)
    requires Utf8Bounded(p) && ReadChallenge(i.serverBlob) == Parsed(c)
    requires !V2Offered(s.which, c) && Respond(p, s, i).1.Response?
    ensures SessionAccepted(p, i.ntlmHash[..16], c.nonce, MessageSent(p, s, i))
    ensures Field(MessageSent(p, s, i), 12).value[..8] == i.nonce
    ensures Respond(p, s, i).0.negotiated == NW_NTLM2
  {
    hide Respond, ReadChallenge, Field, MessageSent, StringFlatten, LmResponse;
    var c', f := SuccessfulResponse(p, s, i);
    ResponseLength(p, s, c, i);
    AuthRoundTrip(f);
    assert f.nt[..|f.nt|] == f.nt;
    SessionFields(p, s, c, i);
    ChosenSession(p, s, c, i);
  }

  lemma ChosenSession(p: Platform, s: State, c: Challenge, i: Inputs)
    requires ReadChallenge(i.serverBlob) == Parsed(c)
    requires !V2Offered(s.which, c) && Respond(p, s, i).1.Response?
    ensures Respond(p, s, i).0.negotiated == NW_NTLM2
  {
    hide ReadChallenge, LmResponse, Assemble;
  }

  lemma SessionFields(p: Platform, s: State, c: Challenge, i: Inputs)
    requires !V2Offered(s.which, c) && SelectAnswer(p, s.which, c, Domain(p, i), i).Answer?
    ensures var a := SelectAnswer(p, s.which, c, Domain(p, i), i);
            |c.nonce| == 8 ==> SessionProved(p, PasswordDigest(i.ntlmHash), c.nonce, a.lm, a.nt) && a.lm[..8] == i.nonce
  {
    hide LmResponse;
    var lm := i.nonce + seq(16, _ => 0);
    assert lm[..8] == i.nonce;
  }

  /** Upper-casing works unit by unit, as far as concatenation and repetition can tell. */
  ghost predicate UppercaseIsUniform(p: Platform) {
    && (forall a, b :: p.uppercase(a + b) == p.uppercase(a) + p.uppercase(b))
    && (forall a :: p.uppercase(p.uppercase(a)) == p.uppercase(a))
  }

  /**
    [MS-NLMP] upper-cases the user name only.  The key is the same, because the domain that is sent
    is already in upper case.
   */
  lemma StandardKeyAgrees(p: Platform, i: Inputs, hash: Digest)
    requires UppercaseIsUniform(p)
    ensures p.hmacMd5(hash, Utf16Le(UserDomain(p, Domain(p, i), i.user)))
         == p.hmacMd5(hash, Utf16Le(p.uppercase(i.user) + Domain(p, i).GetOr([])))
  {
    var d := Domain(p, i).GetOr([]);
    assert p.uppercase(i.user + d) == p.uppercase(i.user) + p.uppercase(d);
    if i.domain.None? {
      assert i.user + d == i.user;
      assert p.uppercase(i.user) + d == p.uppercase(i.user);
    }
  }
}
