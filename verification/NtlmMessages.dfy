/** The three message layouts of sections 2.2.1.1 to 2.2.1.3 of [MS-NLMP] and their readers. */
module NtlmMessages {
  import opened Bytes
  import opened Bits
  import opened NtlmBlob

  /** "NTLMSSP" and its terminator. */
  const SIGNATURE: seq<Byte> := [0x4e, 0x54, 0x4c, 0x4d, 0x53, 0x53, 0x50, 0x00]

  const NEGOTIATE_UNICODE := 0x1
  const NEGOTIATE_OEM := 0x2
  const REQUEST_TARGET := 0x4
  const NEGOTIATE_NTLM := 0x200
  const ALWAYS_SIGN := 0x8000
  const NEGOTIATE_NTLM2_KEY := 0x8_0000
  const NEGOTIATE_TARGET_INFO := 0x80_0000

  datatype Error = ParseError | ProtocolMismatch | AllocateError | CryptoError

  function Slice(b: seq<Byte>, e: Extent): seq<Byte>
    requires e.Inside(|b|)
  {
    b[e.off..e.off + e.len]
  }

  // ---------------------------------------------------------------- type 2: the challenge

  datatype Challenge = Challenge(
    flags: nat, nonce: seq<Byte>, targetName: seq<Byte>, targetInfo: Option<seq<Byte>>)

  /** StrayRead: the code copies bytes from outside the blob, so no result is defined. */
  datatype Parse = Parsed(challenge: Challenge) | Rejected(error: Error) | StrayRead

  predicate HeaderOk(b: seq<Byte>)
    requires |b| >= 12
  {
    b[..8] == SIGNATURE && FromLittleEndian(b[8..12]) == 2
  }

  /** The challenge by absolute offsets; bufLen is the length cut to an unsigned int. */
  function ReadChallenge(blob: Option<seq<Byte>>): (r: Parse)
    ensures r.Parsed? ==> |r.challenge.nonce| == 8 && r.challenge.flags < 0x1_0000_0000
  {
    if blob.None? then Rejected(ParseError) else
    var b := blob.value;
    var bufLen := |b| % 0x1_0000_0000;
    if bufLen < 32 || !HeaderOk(b) then Rejected(ParseError) else
    match ParseSecBuffer(b, 12, bufLen)
    case None => Rejected(ParseError)
    case Some(name) =>
      if !name.Inside(|b|) then StrayRead else
      SmallWords();
      FromLittleEndianBound(b[20..24]);
      var c := Challenge(FromLittleEndian(b[20..24]), b[24..32], Slice(b, name), None);
      if bufLen < 48 then Parsed(c) else
      match ParseSecBuffer(b, 40, bufLen)
      case None => Rejected(ParseError)
      case Some(info) =>
        if info.Inside(|b|) then Parsed(c.(targetInfo := Some(Slice(b, info)))) else StrayRead
  }

  /** The parser itself: a cursor that moves over the optional tail of the message. */
  method NtlmParseServerChallenge(serverBlob: Option<seq<Byte>>) returns (r: Parse)
    ensures r == ReadChallenge(serverBlob)
  {
    if serverBlob.None? {
      return Rejected(ParseError);
    }
    var cp := serverBlob.value;
    var bufLen := |cp| % 0x1_0000_0000;
    if bufLen < 8 + 4 + 8 + 4 + 8 {
      return Rejected(ParseError);
    }
    if cp[..8] != SIGNATURE {
      return Rejected(ParseError);
    }
    var curr := 8;
    if FromLittleEndian(cp[curr..curr + 4]) != 2 {
      return Rejected(ParseError);
    }
    curr := curr + 4;
    var sec := ParseSecBuffer(cp, curr, bufLen);
    if sec.None? {
      return Rejected(ParseError);
    }
    if !sec.value.Inside(|cp|) {
      return StrayRead;
    }
    var targetName := Slice(cp, sec.value);
    curr := curr + 8;
    var flags := FromLittleEndian(cp[curr..curr + 4]);
    curr := curr + 4;
    var nonce := cp[curr..curr + 8];
    curr := curr + 8;
    if bufLen == curr {
      return Parsed(Challenge(flags, nonce, targetName, None));
    }
    if bufLen < curr + 8 {
      return Parsed(Challenge(flags, nonce, targetName, None));
    }
    curr := curr + 8;
    if bufLen < curr + 8 {
      return Parsed(Challenge(flags, nonce, targetName, None));
    }
    sec := ParseSecBuffer(cp, curr, bufLen);
    if sec.None? {
      return Rejected(ParseError);
    }
    if !sec.value.Inside(|cp|) {
      return StrayRead;
    }
    r := Parsed(Challenge(flags, nonce, targetName, Some(Slice(cp, sec.value))));
  }

  /** A challenge: header, context, security buffers and two payloads. */
  function ChallengeParts(
    nameSlot: Slot, flags: nat, nonce: seq<Byte>, context: seq<Byte>, infoSlot: Slot, name: seq<Byte>, info: seq<Byte>)
    : seq<seq<Byte>>
  {
    [SIGNATURE, LittleEndian(2, 4), SecBuf(nameSlot), LittleEndian(flags, 4), nonce, context, SecBuf(infoSlot),
     name, info]
  }

  /** A challenge as a server writes it. */
  function ChallengeMessage(
    flags: nat, nonce: seq<Byte>, context: seq<Byte>, name: seq<Byte>, info: seq<Byte>): seq<Byte>
  {
    Flatten(ChallengeParts(Slot(|name|, 48), flags, nonce, context, Slot(|info|, 48 + |name|), name, info))
  }

  lemma ChallengeStarts(parts: seq<seq<Byte>>)
    requires |parts| >= 7
    requires |parts[0]| == |parts[2]| == |parts[4]| == |parts[5]| == |parts[6]| == 8
    requires |parts[1]| == |parts[3]| == 4
    ensures Start(parts, 0) == 0 && Start(parts, 1) == 8 && Start(parts, 2) == 12 && Start(parts, 3) == 20
    ensures Start(parts, 4) == 24 && Start(parts, 5) == 32 && Start(parts, 6) == 40 && Start(parts, 7) == 48
  {
  }

  /** Writing a challenge with the append and back-patch routines produces that layout. */
  method WriteChallenge(flags: nat, nonce: seq<Byte>, context: seq<Byte>, name: seq<Byte>, info: seq<Byte>)
    returns (buf: MutableData)
    requires |nonce| == 8 && |context| == 8
    ensures fresh(buf) && buf.bytes == ChallengeMessage(flags, nonce, context, name, info)
  {
    hide Flatten, Patched, LittleEndian;
    buf := new MutableData();
    buf.Append(SIGNATURE);
    assert buf.bytes == SIGNATURE;
    buf.AppendUint32(2);
    var nameOffset := buf.AppendSecBuf(|name|);
    buf.AppendUint32(flags);
    buf.Append(nonce);
    buf.Append(context);
    var infoOffset := buf.AppendSecBuf(|info|);
    ghost var n, i := Slot(|name|, 0), Slot(|info|, 0);
    ghost var parts := ChallengeParts(n, flags, nonce, context, i, name, info);
    SevenParts(parts);
    ChallengeBuilt(parts, n, i, name, info);
    buf.SecBufOffset(nameOffset);
    buf.Append(name);
    buf.SecBufOffset(infoOffset);
    buf.Append(info);
    assert parts[2 := SecBuf(Slot(|name|, 48))][6 := SecBuf(Slot(|info|, 48 + |name|))]
        == ChallengeParts(Slot(|name|, 48), flags, nonce, context, Slot(|info|, 48 + |name|), name, info);
  }

  lemma SevenParts(p: seq<seq<Byte>>)
    requires |p| >= 7
    ensures Flatten(p[..7]) == p[0] + p[1] + p[2] + p[3] + p[4] + p[5] + p[6]
  {
    TakeOne(p, 0);
    TakeOne(p, 1);
    TakeOne(p, 2);
    TakeOne(p, 3);
    TakeOne(p, 4);
    TakeOne(p, 5);
    TakeOne(p, 6);
  }

  /** The two back-patches of a challenge, each made when its payload is about to be appended. */
  lemma ChallengeBuilt(parts: seq<seq<Byte>>, n: Slot, i: Slot, name: seq<Byte>, info: seq<Byte>)
    requires |parts| == 9 && parts[2] == SecBuf(n) && parts[6] == SecBuf(i) && parts[7] == name && parts[8] == info
    requires |parts[0]| == |parts[4]| == |parts[5]| == 8 && |parts[1]| == |parts[3]| == 4
    ensures |Flatten(parts[..7])| == 48
    ensures Patched(Patched(Flatten(parts[..7]), 16, 48) + name, 44, 48 + |name|) + info
         == Flatten(parts[2 := SecBuf(n.(off := 48))][6 := SecBuf(i.(off := 48 + |name|))])
  {
    var named := parts[2 := SecBuf(n.(off := 48))];
    var done := named[6 := SecBuf(i.(off := 48 + |name|))];
    assert |Flatten(parts[..7])| == 48 && Patched(Flatten(parts[..7]), 16, 48) == Flatten(named[..7]) by {
      ChallengeStarts(parts);
      TakeOne(parts, 6);
      PatchTaken(parts, 7, 2, n, 48, named);
    }
    assert Patched(Flatten(named[..7]) + name, 44, 48 + |name|) == Flatten(done[..8]) by {
      ChallengeStarts(named);
      TakeOne(named, 7);
      PatchTaken(named, 8, 6, i, 48 + |name|, done);
    }
    TakeOne(done, 8);
    assert done[..9] == done;
  }

  /** One more part of a message under construction. */
  lemma TakeOne(parts: seq<seq<Byte>>, i: nat)
    requires i < |parts|
    ensures Flatten(parts[..i + 1]) == Flatten(parts[..i]) + parts[i]
    ensures |Flatten(parts[..i + 1])| == Start(parts, i + 1) == Start(parts, i) + |parts[i]|
    ensures i == 0 ==> Flatten(parts[..i + 1]) == parts[0]
  {
    assert parts[..i + 1][..i] == parts[..i];
    FlattenLength(parts[..i + 1]);
    StartOfPrefix(parts, i + 1, i + 1);
  }

  /** Back-patching a security buffer of a message of which `n` parts are written. */
  lemma PatchTaken(
    parts: seq<seq<Byte>>, n: nat, i: nat, slot: Slot, off: nat, after: seq<seq<Byte>>)
    requires i < n <= |parts| && parts[i] == SecBuf(slot)
    requires after == parts[i := SecBuf(slot.(off := off))]
    ensures Start(parts, i) + 8 <= |Flatten(parts[..n])|
    ensures Patched(Flatten(parts[..n]), Start(parts, i) + 4, off) == Flatten(after[..n])
  {
    hide Flatten, Patched, SecBuf;
    StartOfPrefix(parts, n, i);
    PatchSecBuf(parts[..n], i, slot, off);
    assert parts[..n][i := SecBuf(slot.(off := off))] == after[..n];
  }

  lemma FixedWords(b: seq<Byte>, flags: nat)
    requires |b| >= 32 && flags < 0x1_0000_0000
    requires b[8..12] == LittleEndian(2, 4) && b[20..24] == LittleEndian(flags, 4)
    ensures FromLittleEndian(b[8..12]) == 2 && FromLittleEndian(b[20..24]) == flags
  {
    SmallWords();
    LittleEndianRoundTrip(2, 4);
    LittleEndianRoundTrip(flags, 4);
  }

  lemma ParseWrittenSecBuf(b: seq<Byte>, at: nat, slot: Slot)
    requires at + 8 <= |b| < 0x1_0000_0000
    requires b[at..at + 8] == SecBuf(slot)
    requires slot.len < 0x1_0000 && slot.off + slot.len <= |b|
    ensures ParseSecBuffer(b, at, |b|) == Some(Extent(slot.off, slot.len))
  {
    hide SecBuf, ReadSlot;
    ReadSecBuf(b, at, slot);
  }

  /** The words and the first security buffer of `b` are where a writer puts them. */
  ghost predicate WrittenHead(b: seq<Byte>, flags: nat, name: Slot) {
    && 32 <= |b| < 0x1_0000_0000 && flags < 0x1_0000_0000
    && b[..8] == SIGNATURE && b[8..12] == LittleEndian(2, 4) && b[12..20] == SecBuf(name)
    && b[20..24] == LittleEndian(flags, 4)
    && name.len < 0x1_0000 && name.off + name.len <= |b|
  }

  lemma ReadWrittenShort(b: seq<Byte>, flags: nat, name: Slot)
    requires WrittenHead(b, flags, name) && |b| < 48
    ensures ReadChallenge(Some(b))
         == Parsed(Challenge(flags, b[24..32], b[name.off..name.off + name.len], None))
  {
    FixedWords(b, flags);
    ParseWrittenSecBuf(b, 12, name);
  }

  lemma ReadWrittenLong(b: seq<Byte>, flags: nat, name: Slot, info: Slot)
    requires WrittenHead(b, flags, name) && |b| >= 48
    requires b[40..48] == SecBuf(info) && info.len < 0x1_0000 && info.off + info.len <= |b|
    ensures ReadChallenge(Some(b))
         == Parsed(Challenge(flags, b[24..32], b[name.off..name.off + name.len],
                             Some(b[info.off..info.off + info.len])))
  {
    assert |b| % 0x1_0000_0000 == |b|;
    assert HeaderOk(b) && FromLittleEndian(b[20..24]) == flags by { FixedWords(b, flags); }
    assert ParseSecBuffer(b, 12, |b|) == Some(Extent(name.off, name.len)) by { ParseWrittenSecBuf(b, 12, name); }
    assert ParseSecBuffer(b, 40, |b|) == Some(Extent(info.off, info.len)) by { ParseWrittenSecBuf(b, 40, info); }
  }

  /** The parser recovers every field of such a message. */
  lemma ChallengeRoundTrip(flags: nat, nonce: seq<Byte>, context: seq<Byte>, name: seq<Byte>, info: seq<Byte>)
    requires flags < 0x1_0000_0000 && |nonce| == 8 && |context| == 8
    requires |name| < 0x1_0000 && |info| < 0x1_0000
    ensures ReadChallenge(Some(ChallengeMessage(flags, nonce, context, name, info)))
         == Parsed(Challenge(flags, nonce, name, Some(info)))
  {
    var nameSlot, infoSlot := Slot(|name|, 48), Slot(|info|, 48 + |name|);
    var parts := ChallengeParts(nameSlot, flags, nonce, context, infoSlot, name, info);
    ReadParts(parts, flags, nameSlot, infoSlot);
  }

  lemma ReadParts(parts: seq<seq<Byte>>, flags: nat, name: Slot, info: Slot)
    requires |parts| == 9 && flags < 0x1_0000_0000
    requires parts[0] == SIGNATURE && parts[1] == LittleEndian(2, 4) && parts[2] == SecBuf(name)
    requires parts[3] == LittleEndian(flags, 4) && |parts[4]| == |parts[5]| == 8 && parts[6] == SecBuf(info)
    requires name == Slot(|parts[7]|, 48) && info == Slot(|parts[8]|, 48 + |parts[7]|)
    requires name.len < 0x1_0000 && info.len < 0x1_0000
    ensures ReadChallenge(Some(Flatten(parts))) == Parsed(Challenge(flags, parts[4], parts[7], Some(parts[8])))
  {
    var b := Flatten(parts);
    ChallengeStarts(parts);
    FlattenLength(parts);
    assert Start(parts, 8) == 48 + |parts[7]|;
    assert |b| == 48 + |parts[7]| + |parts[8]|;
    assert WrittenHead(b, flags, name) by {
      PartAt(parts, 0);
      PartAt(parts, 1);
      PartAt(parts, 2);
      PartAt(parts, 3);
    }
    assert b[24..32] == parts[4] by { PartAt(parts, 4); }
    assert b[40..48] == SecBuf(info) by { PartAt(parts, 6); }
    assert b[48..48 + |parts[7]|] == parts[7] by { PartAt(parts, 7); }
    assert b[info.off..info.off + info.len] == parts[8] by { PartAt(parts, 8); }
    ReadWrittenLong(b, flags, name, info);
  }

  /** A challenge without context and target information. */
  function ShortChallenge(flags: nat, nonce: seq<Byte>, name: seq<Byte>): seq<Byte> {
    Flatten([SIGNATURE, LittleEndian(2, 4), SecBuf(Slot(|name|, 32)), LittleEndian(flags, 4), nonce, name])
  }

  /**
    A short challenge is read back without target information exactly when its name is shorter
    than 16 bytes: from 16 on, the name itself is taken for the context and the information buffer.
   */
  lemma ShortChallengeRoundTrip(flags: nat, nonce: seq<Byte>, name: seq<Byte>)
    requires flags < 0x1_0000_0000 && |nonce| == 8 && |name| < 0x1_0000
    ensures ReadChallenge(Some(ShortChallenge(flags, nonce, name))) == Parsed(Challenge(flags, nonce, name, None))
       <==> |name| < 16
  {
    hide Flatten, SecBuf, LittleEndian, ReadChallenge;
    var parts := [SIGNATURE, LittleEndian(2, 4), SecBuf(Slot(|name|, 32)), LittleEndian(flags, 4), nonce, name];
    var b := Flatten(parts);
    assert Start(parts, 1) == 8 && Start(parts, 2) == 12 && Start(parts, 3) == 20;
    assert Start(parts, 4) == 24 && Start(parts, 5) == 32;
    PartAt(parts, 0);
    PartAt(parts, 1);
    PartAt(parts, 2);
    PartAt(parts, 3);
    PartAt(parts, 4);
    PartAt(parts, 5);
    FlattenLength(parts);
    if |name| < 16 {
      ReadWrittenShort(b, flags, Slot(|name|, 32));
    } else {
      if ReadChallenge(Some(b)).Parsed? {
        ParsedSlices(b);
      }
    }
  }

  /**
    What an accepted blob says: both slices lie inside it where its security buffers point, and there is
    target information exactly when its 32-bit length is 48 or more, so never in a blob of 32 to 47 bytes.
   */
  lemma ParsedSlices(b: seq<Byte>)
    requires ReadChallenge(Some(b)).Parsed?
    ensures |b| >= 32
    ensures b[..8] == SIGNATURE && FromLittleEndian(b[8..12]) == 2
    ensures ReadChallenge(Some(b)).challenge.flags == FromLittleEndian(b[20..24])
    ensures ReadChallenge(Some(b)).challenge.nonce == b[24..32]
    ensures var c, name := ReadChallenge(Some(b)).challenge, ReadSlot(b, 12);
            && name.off + name.len <= |b| && c.targetName == b[name.off..name.off + name.len]
            && (c.targetInfo.Some? <==> |b| % 0x1_0000_0000 >= 48)
    ensures |b| % 0x1_0000_0000 >= 48 ==>
              var c, info := ReadChallenge(Some(b)).challenge, ReadSlot(b, 40);
              info.off + info.len <= |b| && c.targetInfo == Some(b[info.off..info.off + info.len])
  {
  }

  /** "NTLMSSP" and a zero byte. */
  lemma SignatureSpells()
    ensures |SIGNATURE| == 8 && SIGNATURE[7] == 0
    ensures forall k :: 0 <= k < 7 ==> SIGNATURE[k] == "NTLMSSP"[k] as int
  {
  }

  /** The 32-bit sum in the security buffer at `at` does not exceed the 32-bit length. */
  predicate Passes(b: seq<Byte>, at: nat)
    requires at + 8 <= |b|
  {
    (ReadSlot(b, at).off + ReadSlot(b, at).len) % 0x1_0000_0000 <= |b| % 0x1_0000_0000
  }

  /** What is rejected, always as a parse error: short blobs, other headers, security buffers that do not pass. */
  lemma RejectedExactly(blob: Option<seq<Byte>>)
    ensures ReadChallenge(blob).Rejected? ==> ReadChallenge(blob).error == ParseError
    ensures ReadChallenge(blob).Rejected? <==>
            || blob.None?
            || (var b, n := blob.value, |blob.value| % 0x1_0000_0000;
                || n < 32 || b[..8] != SIGNATURE || FromLittleEndian(b[8..12]) != 2
                || !Passes(b, 12)
                || (ReadSlot(b, 12).off + ReadSlot(b, 12).len <= |b| && n >= 48 && !Passes(b, 40)))
  {
  }

  /** The bounds check of the security buffer at `at` passes only because its sum wrapped around. */
  predicate WrappedPast(b: seq<Byte>, at: nat)
    requires at + 8 <= |b|
  {
    var slot := ReadSlot(b, at);
    0x1_0000_0000 <= slot.off + slot.len <= 0x1_0000_0000 + |b|
  }

  /**
    For every blob: the parser reads outside it exactly when a bounds check passed by wrapping around.  Blobs
    of 2^32 bytes or more, whose length is cut, are too long to be left by a 32-bit offset.
   */
  lemma StrayReadExactly(b: seq<Byte>)
    ensures ReadChallenge(Some(b)).StrayRead? <==>
            && 32 <= |b| < 0x1_0000_0000 && HeaderOk(b)
            && (|| WrappedPast(b, 12)
                || (ReadSlot(b, 12).off + ReadSlot(b, 12).len <= |b| && |b| >= 48 && WrappedPast(b, 40)))
  {
    if |b| >= 0x1_0000_0000 {
      LongBlobHoldsAll(b);
    } else if |b| >= 32 {
      SumCheck(b, 12);
      if |b| >= 48 {
        SumCheck(b, 40);
      }
    }
  }

  lemma LongBlobHoldsAll(b: seq<Byte>)
    requires |b| >= 0x1_0000_0000
    ensures !ReadChallenge(Some(b)).StrayRead?
  {
    InsideLongBlob(b, 12);
    InsideLongBlob(b, 40);
  }

  /** An offset plus a length that passes against the cut length of a long blob stays inside it. */
  lemma InsideLongBlob(b: seq<Byte>, at: nat)
    requires at + 8 <= |b| && |b| >= 0x1_0000_0000
    ensures var parsed := ParseSecBuffer(b, at, |b| % 0x1_0000_0000);
            parsed.Some? ==> parsed.value.Inside(|b|)
  {
    var slot, n := ReadSlot(b, at), |b| % 0x1_0000_0000;
    assert |b| >= 0x1_0000_0000 + n;
    if slot.off + slot.len >= 0x1_0000_0000 {
      assert (slot.off + slot.len) % 0x1_0000_0000 == slot.off + slot.len - 0x1_0000_0000;
    }
  }

  lemma SumCheck(b: seq<Byte>, at: nat)
    requires at + 8 <= |b| < 0x1_0000_0000
    ensures var slot := ReadSlot(b, at);
            && (ParseSecBuffer(b, at, |b|).Some? <==> WrappedPast(b, at) || slot.off + slot.len <= |b|)
            && (ParseSecBuffer(b, at, |b|).Some? ==>
                  (ParseSecBuffer(b, at, |b|).value.Inside(|b|) <==> !WrappedPast(b, at)))
  {
    var slot := ReadSlot(b, at);
    if slot.off + slot.len >= 0x1_0000_0000 {
      assert (slot.off + slot.len) % 0x1_0000_0000 == slot.off + slot.len - 0x1_0000_0000;
    }
  }

  // ---------------------------------------------------------------- type 3: the response

  /** The payloads and the negotiated flags of a response; the domain may be missing. */
  datatype Fields = Fields(
    lm: seq<Byte>, nt: seq<Byte>, domain: Option<seq<Byte>>, user: seq<Byte>, host: seq<Byte>, flags: nat)
  {
    function DomainBytes(): seq<Byte> {
      domain.GetOr([])
    }

    /** The lengths that the string limit guarantees. */
    predicate Fits() {
      |lm| == 24 && |DomainBytes()| < 0x1_0000 && |user| < 0x1_0000 && |host| < 0x1_0000
    }
  }

  /** The security buffers of the response, in the order of their positions in the header. */
  function AuthSlots(f: Fields): seq<Slot> {
    var nt, d, u := |f.nt|, |f.DomainBytes()|, |f.user|;
    [Slot(24, 64), Slot(nt, 88), if f.domain.Some? then Slot(d, 88 + nt) else Slot(0, 0),
     Slot(u, 88 + nt + d), Slot(|f.host|, 88 + nt + d + u), Slot(0, 0)]
  }

  /** A response: header, security buffers, negotiated flags, payloads. */
  function AuthParts(slots: seq<Slot>, f: Fields): (parts: seq<seq<Byte>>)
    requires |slots| == 6
  {
    [SIGNATURE, LittleEndian(3, 4), SecBuf(slots[0]), SecBuf(slots[1]), SecBuf(slots[2]), SecBuf(slots[3]),
     SecBuf(slots[4]), SecBuf(slots[5]), LittleEndian(f.flags, 4), f.lm, f.nt, f.DomainBytes(), f.user, f.host]
  }

  function AuthMessage(f: Fields): seq<Byte> {
    Flatten(AuthParts(AuthSlots(f), f))
  }

  /** `parts` has the 14 parts of a response with these security buffers. */
  ghost predicate IsAuth(parts: seq<seq<Byte>>, slots: seq<Slot>, f: Fields) {
    && |slots| == 6 && |parts| == 14 && |f.lm| == 24
    && parts[0] == SIGNATURE && parts[1] == LittleEndian(3, 4)
    && parts[2] == SecBuf(slots[0]) && parts[3] == SecBuf(slots[1]) && parts[4] == SecBuf(slots[2])
    && parts[5] == SecBuf(slots[3]) && parts[6] == SecBuf(slots[4]) && parts[7] == SecBuf(slots[5])
    && parts[8] == LittleEndian(f.flags, 4)
    && parts[9] == f.lm && parts[10] == f.nt && parts[11] == f.DomainBytes()
    && parts[12] == f.user && parts[13] == f.host
  }

  lemma MessageParts(f: Fields) returns (parts: seq<seq<Byte>>)
    requires |f.lm| == 24
    ensures IsAuth(parts, AuthSlots(f), f) && AuthMessage(f) == Flatten(parts)
  {
    hide Flatten, SecBuf, LittleEndian;
    parts := AuthParts(AuthSlots(f), f);
  }

  lemma AuthStarts(parts: seq<seq<Byte>>, slots: seq<Slot>, f: Fields)
    requires IsAuth(parts, slots, f)
    ensures Start(parts, 2) == 12 && Start(parts, 3) == 20 && Start(parts, 4) == 28
    ensures Start(parts, 5) == 36 && Start(parts, 6) == 44 && Start(parts, 7) == 52
    ensures Start(parts, 8) == 60 && Start(parts, 9) == 64 && Start(parts, 10) == 88
    ensures Start(parts, 11) == 88 + |f.nt| && Start(parts, 12) == 88 + |f.nt| + |f.DomainBytes()|
    ensures Start(parts, 13) == 88 + |f.nt| + |f.DomainBytes()| + |f.user|
    ensures |Flatten(parts)| == 88 + |f.nt| + |f.DomainBytes()| + |f.user| + |f.host|
  {
    FlattenLength(parts);
    assert Start(parts, 1) == 8;
    assert Start(parts, 2) == 12;
    assert Start(parts, 3) == 20;
    assert Start(parts, 4) == 28;
    assert Start(parts, 5) == 36;
    assert Start(parts, 6) == 44;
    assert Start(parts, 7) == 52;
    assert Start(parts, 8) == 60;
    assert Start(parts, 9) == 64;
    assert Start(parts, 10) == 88;
    assert Start(parts, 12) == 88 + |f.nt| + |f.DomainBytes()|;
  }

  /** The payload a reader finds through the security buffer at `at`. */
  function Field(b: seq<Byte>, at: nat): Option<seq<Byte>>
    requires at + 8 <= |b|
  {
    match ParseSecBuffer(b, at, |b|)
    case None => None
    case Some(e) => if e.Inside(|b|) then Some(Slice(b, e)) else None
  }

  /** A security buffer whose slice is `value` reads back as that slice, cut to its 16-bit length. */
  lemma FieldOfSlot(b: seq<Byte>, at: nat, slot: Slot, value: seq<Byte>)
    requires at + 8 <= |b| < 0x1_0000_0000 && b[at..at + 8] == SecBuf(slot)
    requires slot.len == |value| && slot.off + |value| <= |b| && b[slot.off..slot.off + |value|] == value
    ensures Field(b, at) == Some(value[..|value| % 0x1_0000])
  {
    ReadSecBuf(b, at, slot);
    var cut := |value| % 0x1_0000;
    SubSlice(b, slot.off, slot.off + |value|, 0, cut);
    FieldOfExtent(b, at, Slot(cut, slot.off));
  }

  lemma FieldOfExtent(b: seq<Byte>, at: nat, slot: Slot)
    requires at + 8 <= |b| < 0x1_0000_0000
    requires ReadSlot(b, at) == slot && slot.off + slot.len <= |b|
    ensures Field(b, at) == Some(b[slot.off..slot.off + slot.len])
  {
  }

  /** The six fields of a message as a reader finds them. */
  ghost predicate ReadsAs(b: seq<Byte>, f: Fields) {
    && |b| >= 64
    && Field(b, 12) == Some(f.lm) && Field(b, 20) == Some(f.nt) && Field(b, 28) == Some(f.DomainBytes())
    && Field(b, 36) == Some(f.user) && Field(b, 44) == Some(f.host) && Field(b, 52) == Some([])
  }

  /**
    Reading a response back through its security buffers: every field is recovered when the names
    fit 16 bits; the NTLM response is cut to its length modulo 2^16.
   */
  lemma AuthRoundTrip(f: Fields)
    requires f.Fits() && |f.nt| < 0x2_0000
    ensures ReadsAs(AuthMessage(f), f.(nt := f.nt[..|f.nt| % 0x1_0000]))
  {
    var parts := MessageParts(f);
    PartsRoundTrip(parts, AuthSlots(f), f);
  }

  lemma PartsRoundTrip(parts: seq<seq<Byte>>, slots: seq<Slot>, f: Fields)
    requires IsAuth(parts, slots, f) && slots == AuthSlots(f) && f.Fits() && |f.nt| < 0x2_0000
    ensures ReadsAs(Flatten(parts), f.(nt := f.nt[..|f.nt| % 0x1_0000]))
  {
    hide Flatten, SecBuf, LittleEndian, Field;
    AuthStarts(parts, slots, f);
    FieldOfPart(parts, 0, slots[0], 9, f.lm);
    FieldOfPart(parts, 1, slots[1], 10, f.nt);
    if f.domain.Some? {
      FieldOfPart(parts, 2, slots[2], 11, f.DomainBytes());
    } else {
      EmptyField(parts, 2);
    }
    FieldOfPart(parts, 3, slots[3], 12, f.user);
    FieldOfPart(parts, 4, slots[4], 13, f.host);
    EmptyField(parts, 5);
  }

  /** Entry `i` of the header leads to part `j`. */
  lemma FieldOfPart(parts: seq<seq<Byte>>, i: nat, slot: Slot, j: nat, value: seq<Byte>)
    requires |parts| == 14 && i < 6 && j < 14 && |Flatten(parts)| < 0x1_0000_0000
    requires Start(parts, 2 + i) == 12 + 8 * i && parts[2 + i] == SecBuf(slot)
    requires parts[j] == value && slot == Slot(|value|, Start(parts, j))
    ensures 12 + 8 * i + 8 <= |Flatten(parts)|
    ensures Field(Flatten(parts), 12 + 8 * i) == Some(value[..|value| % 0x1_0000])
    ensures |value| < 0x1_0000 ==> Field(Flatten(parts), 12 + 8 * i) == Some(value)
  {
    hide Flatten, SecBuf, Field;
    PartAt(parts, 2 + i);
    PartAt(parts, j);
    FieldOfSlot(Flatten(parts), 12 + 8 * i, slot, value);
    assert value[..|value|] == value;
  }

  lemma EmptyField(parts: seq<seq<Byte>>, i: nat)
    requires |parts| == 14 && i < 6 && |Flatten(parts)| < 0x1_0000_0000
    requires Start(parts, 2 + i) == 12 + 8 * i && parts[2 + i] == SecBuf(Slot(0, 0))
    ensures 12 + 8 * i + 8 <= |Flatten(parts)|
    ensures Field(Flatten(parts), 12 + 8 * i) == Some([])
  {
    PartAt(parts, 2 + i);
    assert Flatten(parts)[0..0] == [];
    FieldOfSlot(Flatten(parts), 12 + 8 * i, Slot(0, 0), []);
  }

  /** The six security buffers a reader finds in the header. */
  function ReadSlots(b: seq<Byte>): seq<Slot>
    requires |b| >= 60
  {
    [ReadSlot(b, 12), ReadSlot(b, 20), ReadSlot(b, 28), ReadSlot(b, 36), ReadSlot(b, 44), ReadSlot(b, 52)]
  }

  /** The extents follow each other from offset 64 to the end of the message; unused entries are zero. */
  predicate Tiles(slots: seq<Slot>, hasDomain: bool, total: nat)
    requires |slots| == 6
  {
    var lm, nt, d, user, host := slots[0], slots[1], slots[2], slots[3], slots[4];
    && lm.off == 64
    && nt.off == lm.off + lm.len
    && (if hasDomain then d.off == nt.off + nt.len else d == Slot(0, 0))
    && user.off == nt.off + nt.len + d.len
    && host.off == user.off + user.len
    && total == host.off + host.len
    && slots[5] == Slot(0, 0)
  }

  /** The payloads tile the message after its 64-byte header, in the order of their security buffers. */
  lemma AuthTiles(f: Fields)
    requires f.Fits() && |f.nt| < 0x1_0000
    ensures |AuthMessage(f)| >= 64 && Tiles(ReadSlots(AuthMessage(f)), f.domain.Some?, |AuthMessage(f)|)
  {
    var slots := AuthSlots(f);
    var parts := MessageParts(f);
    SlotsOfParts(parts, slots, f);
    assert ReadSlots(AuthMessage(f)) == slots;
  }

  lemma SlotsOfParts(parts: seq<seq<Byte>>, slots: seq<Slot>, f: Fields)
    requires IsAuth(parts, slots, f)
    requires forall i :: 0 <= i < 6 ==> slots[i].len < 0x1_0000 && slots[i].off < 0x1_0000_0000
    ensures |Flatten(parts)| == 88 + |f.nt| + |f.DomainBytes()| + |f.user| + |f.host|
    ensures ReadSlots(Flatten(parts)) == slots
  {
    AuthStarts(parts, slots, f);
    SlotOfPart(parts, 0, slots[0]);
    SlotOfPart(parts, 1, slots[1]);
    SlotOfPart(parts, 2, slots[2]);
    SlotOfPart(parts, 3, slots[3]);
    SlotOfPart(parts, 4, slots[4]);
    SlotOfPart(parts, 5, slots[5]);
  }

  lemma SlotOfPart(parts: seq<seq<Byte>>, i: nat, slot: Slot)
    requires |parts| == 14 && i < 6
    requires Start(parts, 2 + i) == 12 + 8 * i && parts[2 + i] == SecBuf(slot)
    requires slot.len < 0x1_0000 && slot.off < 0x1_0000_0000
    ensures 12 + 8 * i + 8 <= |Flatten(parts)|
    ensures ReadSlot(Flatten(parts), 12 + 8 * i) == slot
  {
    PartAt(parts, 2 + i);
    ReadSecBuf(Flatten(parts), 12 + 8 * i, slot);
  }

  /** The signature, the type and, at byte 60, the flags of a response. */
  lemma AuthFlags(f: Fields)
    requires |f.lm| == 24 && f.flags < 0x1_0000_0000
    ensures |AuthMessage(f)| >= 64 && FromLittleEndian(AuthMessage(f)[60..64]) == f.flags
    ensures AuthMessage(f)[..8] == SIGNATURE && FromLittleEndian(AuthMessage(f)[8..12]) == 3
  {
    var parts := MessageParts(f);
    FlagsOfParts(parts, AuthSlots(f), f);
  }

  lemma FlagsOfParts(parts: seq<seq<Byte>>, slots: seq<Slot>, f: Fields)
    requires IsAuth(parts, slots, f) && f.flags < 0x1_0000_0000
    ensures |Flatten(parts)| >= 64 && FromLittleEndian(Flatten(parts)[60..64]) == f.flags
    ensures Flatten(parts)[..8] == SIGNATURE && FromLittleEndian(Flatten(parts)[8..12]) == 3
  {
    hide Flatten, SecBuf, LittleEndian, FromLittleEndian;
    AuthStarts(parts, slots, f);
    assert Start(parts, 0) == 0 && Start(parts, 1) == 8;
    PartAt(parts, 0);
    PartAt(parts, 1);
    PartAt(parts, 8);
    SmallWords();
    LittleEndianRoundTrip(3, 4);
    LittleEndianRoundTrip(f.flags, 4);
  }
}
