/** The client-side authentication engine of ntlm/NtlmGenerator.c. */
module NtlmGenerator {
  import opened Bytes
  import opened Bits
  import opened NtlmBlob
  import opened NtlmMessages

  /** Protocol variants a generator may be restricted to. */
  const NW_NTLM2 := 2
  const NW_NTLM_V2 := 4

  type HashData = d: seq<Byte> | |d| >= 16 witness seq(16, _ => 0)
  type Nonce = d: seq<Byte> | |d| == 8 witness seq(8, _ => 0)

  /** The sixteen bytes the engine takes from the caller's hash. */
  function PasswordDigest(data: HashData): Digest {
    data[..16]
  }

  /** Everything one response depends on besides the generator. */
  datatype Inputs = Inputs(
    serverBlob: Option<seq<Byte>>, domain: Option<seq<Unichar>>, user: seq<Unichar>, ntlmHash: HashData,
    nonce: Nonce,         // random bytes drawn for this response
    timestamp: nat,       // tenths of a microsecond since 1601
    stale: seq<Byte>)     // what the hash reads when the conversion of user and domain has failed

  /** The fields of a generator. */
  datatype State = State(which: nat, negotiated: nat, sent: nat)

  datatype Outcome = Response(bytes: seq<Byte>) | Failure(error: Error) | StrayAccess

  // ---------------------------------------------------------------- NTLMv2 responses

  /** user | domain in upper case. */
  function UserDomain(p: Platform, domain: Option<seq<Unichar>>, user: seq<Unichar>): seq<Unichar> {
    p.uppercase(user + domain.GetOr([]))
  }

  /** The keyed hash of the upper-cased names; a failed conversion is not noticed. */
  function NtlmV2Hash(p: Platform, hash: Digest, names: seq<Unichar>, stale: seq<Byte>): Digest {
    p.hmacMd5(hash, StringToLe(names).GetOr(stale))
  }

  function NtlmV2Blob(timestamp: nat, nonce: seq<Byte>, info: seq<Byte>): seq<Byte> {
    Flatten([[1, 1, 0, 0], LittleEndian(0, 4), LittleEndian(timestamp, 8), nonce, LittleEndian(0, 4), info,
             LittleEndian(0, 4)])
  }

  function LmV2Response(p: Platform, key: Digest, challenge: seq<Byte>, nonce: Nonce): (r: seq<Byte>)
    ensures |r| == 24
  {
    p.hmacMd5(key, challenge + nonce) + nonce
  }

  function NtlmV2Response(p: Platform, key: Digest, challenge: seq<Byte>, blob: seq<Byte>): seq<Byte> {
    p.hmacMd5(key, challenge + blob) + blob
  }

  lemma SevenAppends(a: seq<Byte>, b: seq<Byte>, c: seq<Byte>, d: seq<Byte>, e: seq<Byte>, f: seq<Byte>, g: seq<Byte>)
    ensures Flatten([a, b, c, d, e, f, g]) == a + b + c + d + e + f + g
  {
    var p := [a, b, c, d, e, f, g];
    SevenParts(p);
    assert p[..7] == p;
  }

  method NtlmGenerateNtlmV2Response(
    p: Platform, domain: Option<seq<Unichar>>, user: seq<Unichar>, ntlmHash: HashData, serverChallenge: seq<Byte>,
    targetInfo: seq<Byte>, nonce: Nonce, timestamp: nat, stale: seq<Byte>)
    returns (lm: seq<Byte>, nt: seq<Byte>)
    ensures var key := NtlmV2Hash(p, PasswordDigest(ntlmHash), UserDomain(p, domain, user), stale);
            && lm == LmV2Response(p, key, serverChallenge, nonce)
            && nt == NtlmV2Response(p, key, serverChallenge, NtlmV2Blob(timestamp, nonce, targetInfo))
  {
    var userDomain := user;
    if domain.Some? {
      userDomain := userDomain + domain.value;
    }
    assert userDomain == user + domain.GetOr([]);
    userDomain := p.uppercase(userDomain);
    var ucode := NtlmStringToLE(userDomain);
    var ntlmV2Hash := p.hmacMd5(PasswordDigest(ntlmHash), ucode.GetOr(stale));
    var challengeMac := p.hmacMd5(ntlmV2Hash, serverChallenge + nonce);
    lm := challengeMac + nonce;

    var blob := new MutableData();
    blob.Append([1, 1, 0, 0]);
    assert blob.bytes == [1, 1, 0, 0];
    blob.AppendUint32(0);
    blob.AppendUint64(timestamp);
    blob.Append(nonce);
    blob.AppendUint32(0);
    blob.Append(targetInfo);
    blob.AppendUint32(0);
    SevenAppends([1, 1, 0, 0], LittleEndian(0, 4), LittleEndian(timestamp, 8), nonce, LittleEndian(0, 4), targetInfo,
                 LittleEndian(0, 4));
    var catBlob := new MutableData();
    catBlob.Append(serverChallenge);
    assert catBlob.bytes == serverChallenge;
    catBlob.Append(blob.bytes);
    var blobMac := p.hmacMd5(ntlmV2Hash, catBlob.bytes);
    nt := blobMac + blob.bytes;
  }

  // ---------------------------------------------------------------- choosing a variant

  datatype Answer = Answer(version: nat, lm: seq<Byte>, nt: seq<Byte>) | NoAnswer(error: Error)

  predicate HasFlag(flags: nat, flag: nat) {
    BitAnd(flags, flag) != 0
  }

  predicate V2Offered(which: nat, c: Challenge) {
    && c.targetInfo.Some? && c.targetInfo.value != []
    && HasFlag(c.flags, NEGOTIATE_TARGET_INFO) && HasFlag(which, NW_NTLM_V2)
  }

  predicate Ntlm2Offered(which: nat, c: Challenge) {
    HasFlag(c.flags, NEGOTIATE_NTLM2_KEY) && HasFlag(which, NW_NTLM2)
  }

  /** The LM and NTLM fields: NTLMv2 when both sides can, otherwise the NTLM2 session response. */
  function SelectAnswer(p: Platform, which: nat, c: Challenge, domain: Option<seq<Unichar>>, i: Inputs): (a: Answer)
    ensures a.Answer? ==> |a.lm| == 24
  {
    if V2Offered(which, c) then
      var key := NtlmV2Hash(p, PasswordDigest(i.ntlmHash), UserDomain(p, domain, i.user), i.stale);
      var blob := NtlmV2Blob(i.timestamp, i.nonce, c.targetInfo.value);
      Answer(NW_NTLM_V2, LmV2Response(p, key, c.nonce, i.nonce), NtlmV2Response(p, key, c.nonce, blob))
    else if Ntlm2Offered(which, c) then
      match LmResponse(p, PasswordDigest(i.ntlmHash), p.md5(c.nonce + i.nonce))
      case None => NoAnswer(CryptoError)
      case Some(nt) => Answer(NW_NTLM2, i.nonce + seq(16, _ => 0), nt)
    else NoAnswer(ProtocolMismatch)
  }

  // ---------------------------------------------------------------- one call, as a function of its inputs

  /** The flags that every first message has. */
  function StandardFlags(): nat {
    BitOr(BitOr(BitOr(BitOr(NEGOTIATE_UNICODE, NEGOTIATE_OEM), REQUEST_TARGET), NEGOTIATE_NTLM), ALWAYS_SIGN)
  }

  /** The header bits of the first message: the standard set, and the NTLM2 key when it is allowed. */
  function SentFlags(which: nat): nat {
    var standard := StandardFlags();
    if HasFlag(which, NW_NTLM2) then BitOr(standard, NEGOTIATE_NTLM2_KEY) else standard
  }

  function RequestMessage(flags: nat): seq<Byte> {
    SIGNATURE + LittleEndian(1, 4) + LittleEndian(flags, 4) + SecBuf(Slot(0, 0)) + SecBuf(Slot(0, 0))
  }

  /** A reader of the first message finds its type, its flags and two empty security buffers. */
  lemma RequestRead(flags: nat)
    requires flags < 0x1_0000_0000
    ensures var b := RequestMessage(flags);
            && |b| == 32 && b[..8] == SIGNATURE
            && FromLittleEndian(b[8..12]) == 1 && FromLittleEndian(b[12..16]) == flags
            && ReadSlot(b, 16) == Slot(0, 0) && ReadSlot(b, 24) == Slot(0, 0)
  {
    hide LittleEndian, FromLittleEndian, SecBuf;
    var b := RequestMessage(flags);
    assert b[..8] == SIGNATURE && b[8..12] == LittleEndian(1, 4) && b[12..16] == LittleEndian(flags, 4);
    assert b[16..24] == SecBuf(Slot(0, 0)) && b[24..32] == SecBuf(Slot(0, 0));
    SmallWords();
    LittleEndianRoundTrip(1, 4);
    LittleEndianRoundTrip(flags, 4);
    ReadSecBuf(b, 16, Slot(0, 0));
    ReadSecBuf(b, 24, Slot(0, 0));
  }

  function Domain(p: Platform, i: Inputs): Option<seq<Unichar>> {
    if i.domain.Some? then Some(p.uppercase(i.domain.value)) else None
  }

  /** The names and the message, once the LM and NTLM fields are known. */
  function Assemble(p: Platform, sent: nat, flags: nat, a: Answer, domain: Option<seq<Unichar>>, user: seq<Unichar>)
    : Outcome
    requires a.Answer?
  {
    var unicode := HasFlag(flags, NEGOTIATE_UNICODE);
    var d := if domain.Some? then StringFlatten(p, domain.value, unicode) else Some([]);
    var u := StringFlatten(p, user, unicode);
    if d.None? || u.None? then Failure(ParseError) else
    Response(AuthMessage(Fields(a.lm, a.nt, if domain.Some? then d else None, u.value, HostNameBytes(unicode),
                                BitAnd(sent, flags))))
  }

  function Respond(p: Platform, s: State, i: Inputs): (State, Outcome) {
    match ReadChallenge(i.serverBlob)
    case Rejected(e) => (s, Failure(e))
    case StrayRead => (s, StrayAccess)
    case Parsed(c) =>
      match SelectAnswer(p, s.which, c, Domain(p, i), i)
      case NoAnswer(e) => (s, Failure(e))
      case Answer(v, lm, nt) =>
        (s.(negotiated := v), Assemble(p, s.sent, c.flags, Answer(v, lm, nt), Domain(p, i), i.user))
  }

  /** The generator object: which variants it may use, what it negotiated, and the flags it sent. */
  class Generator {
    const which: nat
    var negotiatedVersion: nat
    var sentFlags: nat

    constructor (which: nat)
      ensures Current() == State(which, 0, 0)
    {
      this.which := which;
      negotiatedVersion := 0;
      sentFlags := 0;
    }

    function Current(): State
      reads this
    {
      State(which, negotiatedVersion, sentFlags)
    }

    method NtlmCreateClientRequest() returns (clientRequest: seq<Byte>)
      modifies this
      ensures Current() == old(Current()).(sent := SentFlags(which))
      ensures clientRequest == RequestMessage(sentFlags)
    {
      var req := new MutableData();
      req.Append(SIGNATURE);
      assert req.bytes == SIGNATURE;
      req.AppendUint32(1);
      sentFlags := StandardFlags();
      if BitAnd(which, NW_NTLM2) != 0 {
        sentFlags := BitOr(sentFlags, NEGOTIATE_NTLM2_KEY);
      }
      req.AppendUint32(sentFlags);
      var dex := req.AppendSecBuf(0);
      dex := req.AppendSecBuf(0);
      clientRequest := req.bytes;
    }

    /** _NtlmCreateClientResponse: parse the challenge, choose a variant, write the message. */
    method NtlmRespond(p: Platform, i: Inputs) returns (r: Outcome)
      modifies this
      ensures (Current(), r) == Respond(p, old(Current()), i)
    {
      hide ReadChallenge, BitAnd, LittleEndian, Assemble, NtlmV2Hash, NtlmV2Blob, LmV2Response, NtlmV2Response;
      hide LmResponse, DesKey, AllKeys, UserDomain, StringFlatten, HostNameBytes;
      var parsed := NtlmParseServerChallenge(i.serverBlob);
      if parsed.StrayRead? {
        return StrayAccess;
      }
      if parsed.Rejected? {
        return Failure(parsed.error);
      }
      var c := parsed.challenge;
      var lm2Key := BitAnd(c.flags, NEGOTIATE_NTLM2_KEY) != 0;
      var unicode := BitAnd(c.flags, NEGOTIATE_UNICODE) != 0;
      var clientBuf := new MutableData();
      var domain := if i.domain.Some? then Some(p.uppercase(i.domain.value)) else None;
      clientBuf.Append(SIGNATURE);
      assert clientBuf.bytes == SIGNATURE;
      clientBuf.AppendUint32(3);

      var lmResp, ntlmResp;
      if c.targetInfo.Some? && |c.targetInfo.value| != 0 && BitAnd(c.flags, NEGOTIATE_TARGET_INFO) != 0
         && BitAnd(which, NW_NTLM_V2) != 0 {
        lmResp, ntlmResp := NtlmGenerateNtlmV2Response(
          p, domain, i.user, i.ntlmHash, c.nonce, c.targetInfo.value, i.nonce, i.timestamp, i.stale);
        negotiatedVersion := NW_NTLM_V2;
      } else if lm2Key && BitAnd(which, NW_NTLM2) != 0 {
        lmResp := i.nonce + seq(16, _ => 0);
        var sessionHash := p.md5(c.nonce + i.nonce);
        var buffer := new Byte[24](_ => 0);
        var ok := Lmv2Response(p, PasswordDigest(i.ntlmHash), sessionHash, buffer);
        if !ok {
          return Failure(CryptoError);
        }
        ntlmResp := buffer[..];
        negotiatedVersion := NW_NTLM2;
      } else {
        return Failure(ProtocolMismatch);
      }
      ghost var a := Answer(negotiatedVersion, lmResp, ntlmResp);
      assert a == SelectAnswer(p, which, c, domain, i);
      r := WriteResponse(p, clientBuf, sentFlags, c.flags, unicode, a, lmResp, ntlmResp, domain, i.user);
    }

    /** The same from a password: the hash is MD4 of its UTF-16 form, which may be too long to make. */
    method NtlmCreateClientResponse(p: Platform, i: Inputs, password: seq<Unichar>) returns (r: Outcome)
      modifies this
      ensures |password| > MAX_STRING_LEN ==> r == Failure(AllocateError) && Current() == old(Current())
      ensures |password| <= MAX_STRING_LEN ==>
                (Current(), r) == Respond(p, old(Current()), i.(ntlmHash := p.md4(Utf16Le(password))))
    {
      var data := NtlmStringToLE(password);
      if data.None? {
        return Failure(AllocateError);
      }
      r := NtlmRespond(p, i.(ntlmHash := p.md4(data.value)));
    }
  }

  /** The security buffers, the flags and the payloads of a response. */
  method WriteResponse(
    p: Platform, clientBuf: MutableData, sent: nat, flags: nat, unicode: bool, ghost a: Answer,
    lmResp: seq<Byte>, ntlmResp: seq<Byte>, domain: Option<seq<Unichar>>, user: seq<Unichar>)
    returns (r: Outcome)
    requires clientBuf.bytes == SIGNATURE + LittleEndian(3, 4)
    requires unicode == HasFlag(flags, NEGOTIATE_UNICODE) && |lmResp| == 24
    requires a.Answer? && a.lm == lmResp && a.nt == ntlmResp
    modifies clientBuf
    ensures r == Assemble(p, sent, flags, a, domain, user)
  {
    hide AuthMessage, LittleEndian, SecBuf, BitAnd, HostNameBytes;
    var lmRespOffset := clientBuf.AppendSecBuf(24);
    var ntlmRespOffset := clientBuf.AppendSecBuf(|ntlmResp|);
    var d := Some([]);
    if domain.Some? {
      d := StringFlatten(p, domain.value, unicode);
      if d.None? {
        return Failure(ParseError);
      }
    }
    var domainNameOffset := clientBuf.AppendSecBuf(|d.value|);
    var u := StringFlatten(p, user, unicode);
    if u.None? {
      return Failure(ParseError);
    }
    var userNameOffset := clientBuf.AppendSecBuf(|u.value|);
    ghost var f := Fields(lmResp, ntlmResp, if domain.Some? then d else None, u.value, HostNameBytes(unicode),
                          BitAnd(sent, flags));
    FinishResponse(clientBuf, f, domain.Some?, lmResp, ntlmResp, d.value, u.value, unicode, BitAnd(sent, flags),
                   lmRespOffset, ntlmRespOffset, domainNameOffset, userNameOffset);
    r := Response(clientBuf.bytes);
  }

  /** From the host name on: the last two security buffers, the flags and the payloads. */
  method FinishResponse(
    buf: MutableData, ghost f: Fields, hasDomain: bool, lm: seq<Byte>, nt: seq<Byte>, d: seq<Byte>, user: seq<Byte>,
    unicode: bool, flags: nat, lmOffset: nat, ntOffset: nat, domainOffset: nat, userOffset: nat)
    requires f == Fields(lm, nt, if hasDomain then Some(d) else None, user, HostNameBytes(unicode), flags)
    requires |lm| == 24 && (hasDomain || d == [])
    requires buf.bytes == SIGNATURE + LittleEndian(3, 4) + SecBuf(Slot(24, 0)) + SecBuf(Slot(|nt|, 0))
                          + SecBuf(Slot(|d|, 0)) + SecBuf(Slot(|user|, 0))
    requires lmOffset == 16 && ntOffset == 24 && domainOffset == 32 && userOffset == 40
    modifies buf
    ensures buf.bytes == AuthMessage(f)
  {
    var host := HostNameBytes(unicode);
    var hostOffset := buf.AppendSecBuf(|host|);
    var nullDex := buf.AppendSecBuf(0);
    buf.AppendUint32(flags);
    ghost var parts := DraftParts(f, buf.bytes);
    WritePayloads(buf, parts, f, hasDomain, lm, nt, d, user, host,
                  lmOffset, ntOffset, domainOffset, userOffset, hostOffset);
  }

  /** The security buffers before any offset has been patched in. */
  function EmptySlots(f: Fields): seq<Slot> {
    [Slot(24, 0), Slot(|f.nt|, 0), Slot(|f.DomainBytes()|, 0), Slot(|f.user|, 0), Slot(|f.host|, 0), Slot(0, 0)]
  }

  /** The header of a response under construction. */
  lemma DraftParts(f: Fields, bytes: seq<Byte>) returns (parts: seq<seq<Byte>>)
    requires |f.lm| == 24
    requires bytes == SIGNATURE + LittleEndian(3, 4) + SecBuf(Slot(24, 0)) + SecBuf(Slot(|f.nt|, 0))
                      + SecBuf(Slot(|f.DomainBytes()|, 0)) + SecBuf(Slot(|f.user|, 0)) + SecBuf(Slot(|f.host|, 0))
                      + SecBuf(Slot(0, 0)) + LittleEndian(f.flags, 4)
    ensures IsAuth(parts, EmptySlots(f), f) && bytes == Flatten(parts[..9])
  {
    parts := AuthParts(EmptySlots(f), f);
    NineParts(parts);
  }

  lemma DraftFinished(parts: seq<seq<Byte>>, slots: seq<Slot>, f: Fields)
    requires IsAuth(parts, slots, f) && slots == AuthSlots(f)
    ensures Flatten(parts[..14]) == AuthMessage(f)
  {
    assert parts[..14] == parts == AuthParts(slots, f);
  }

  lemma NineParts(p: seq<seq<Byte>>)
    requires |p| >= 9
    ensures Flatten(p[..9]) == p[0] + p[1] + p[2] + p[3] + p[4] + p[5] + p[6] + p[7] + p[8]
  {
    SevenParts(p);
    TakeOne(p, 7);
    TakeOne(p, 8);
  }

  /** The payloads in header order, each announced by a back-patch of its security buffer. */
  method WritePayloads(
    buf: MutableData, ghost parts: seq<seq<Byte>>, ghost f: Fields, hasDomain: bool,
    lm: seq<Byte>, nt: seq<Byte>, d: seq<Byte>, user: seq<Byte>, host: seq<Byte>,
    lmOffset: nat, ntOffset: nat, domainOffset: nat, userOffset: nat, hostOffset: nat)
    requires IsAuth(parts, EmptySlots(f), f)
    requires f == Fields(lm, nt, if hasDomain then Some(d) else None, user, host, f.flags)
    requires buf.bytes == Flatten(parts[..9])
    requires lmOffset == 16 && ntOffset == 24 && domainOffset == 32 && userOffset == 40 && hostOffset == 48
    modifies buf
    ensures buf.bytes == AuthMessage(f)
  {
    hide Flatten, SecBuf, LittleEndian, AuthMessage;
    ghost var cur, slots := parts, EmptySlots(f);
    cur, slots := StartPayload(buf, cur, slots, f, 0, lmOffset, lm);
    cur, slots := StartPayload(buf, cur, slots, f, 1, ntOffset, nt);
    if hasDomain {
      cur, slots := StartPayload(buf, cur, slots, f, 2, domainOffset, d);
    } else {
      TakeOne(cur, 11);
    }
    cur, slots := StartPayload(buf, cur, slots, f, 3, userOffset, user);
    cur, slots := StartPayload(buf, cur, slots, f, 4, hostOffset, host);
    assert slots == AuthSlots(f);
    DraftFinished(cur, slots, f);
  }

  /** Where payload `k` starts. */
  function PayloadStart(f: Fields, k: nat): nat {
    match k
    case 0 => 64
    case 1 => 88
    case 2 => 88 + |f.nt|
    case 3 => 88 + |f.nt| + |f.DomainBytes()|
    case _ => 88 + |f.nt| + |f.DomainBytes()| + |f.user|
  }

  /** Points security buffer `k` at the current end and appends its payload. */
  method StartPayload(
    buf: MutableData, ghost parts: seq<seq<Byte>>, ghost slots: seq<Slot>, ghost f: Fields, ghost k: nat,
    offsetIndex: nat, data: seq<Byte>)
    returns (ghost parts': seq<seq<Byte>>, ghost slots': seq<Slot>)
    requires IsAuth(parts, slots, f) && k < 5 && parts[9 + k] == data
    requires buf.bytes == Flatten(parts[..9 + k]) && offsetIndex == 16 + 8 * k
    modifies buf
    ensures slots' == slots[k := slots[k].(off := PayloadStart(f, k))]
    ensures IsAuth(parts', slots', f)
    ensures buf.bytes == Flatten(parts'[..9 + k + 1])
  {
    ghost var n, off := 9 + k, PayloadStart(f, k);
    StartsByIndex(parts, slots, f, k);
    FlattenLength(parts[..n]);
    StartOfPrefix(parts, n, n);
    slots' := slots[k := slots[k].(off := off)];
    parts' := parts[2 + k := SecBuf(slots[k].(off := off))];
    PatchTaken(parts, n, 2 + k, slots[k], off, parts');
    buf.SecBufOffset(offsetIndex);
    buf.Append(data);
    TakeOne(parts', n);
  }

  lemma StartsByIndex(parts: seq<seq<Byte>>, slots: seq<Slot>, f: Fields, k: nat)
    requires IsAuth(parts, slots, f) && k < 5
    ensures Start(parts, 2 + k) == 12 + 8 * k && Start(parts, 9 + k) == PayloadStart(f, k)
    ensures parts[2 + k] == SecBuf(slots[k])
  {
    AuthStarts(parts, slots, f);
    match k
    case 0 =>
    case 1 =>
    case 2 =>
    case 3 =>
    case _ =>
  }
}
