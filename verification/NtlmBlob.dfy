/**
  The byte-level routines of ntlm/ntlmBlobPriv.c: a growable message buffer with back-patched
  security buffers, string flattening, and DES key spreading.
 */
module NtlmBlob {
  import opened Bytes
  import opened Bits

  /** One UTF-16 code unit. */
  type Unichar = x: int | 0 <= x < 0x1_0000

  type Digest = d: seq<Byte> | |d| == 16 witness seq(16, _ => 0)
  type Block = d: seq<Byte> | |d| == 8 witness seq(8, _ => 0)

  /** The services the engine calls and does not implement. */
  datatype Platform = Platform(
    hmacMd5: (seq<Byte>, seq<Byte>) -> Digest,
    md4: seq<Byte> -> Digest,
    md5: seq<Byte> -> Digest,
    desCrypt: (seq<Byte>, seq<Byte>) -> Option<Block>,
    uppercase: seq<Unichar> -> seq<Unichar>,
    utf8: seq<Unichar> -> Option<seq<Byte>>)

  const MAX_STRING_LEN := 2048

  // ---------------------------------------------------------------- security buffers

  /** What a security buffer says: `len` bytes of payload starting at `off`. */
  datatype Slot = Slot(len: nat, off: nat)

  /** The wire form: length, allocated size, offset; see section 2.2.1.3 of [MS-NLMP]. */
  function SecBuf(slot: Slot): (bytes: seq<Byte>)
    ensures |bytes| == 8
  {
    LittleEndian(slot.len, 2) + LittleEndian(slot.len, 2) + LittleEndian(slot.off, 4)
  }

  /** The buffer after four bytes at `at` have been replaced by the offset `off`. */
  function Patched(bytes: seq<Byte>, at: nat, off: nat): seq<Byte>
    requires at + 4 <= |bytes|
  {
    bytes[..at] + LittleEndian(off, 4) + bytes[at + 4..]
  }

  /** CFMutableData together with the append and patch routines. */
  class MutableData {
    var bytes: seq<Byte>

    constructor ()
      ensures bytes == []
    {
      bytes := [];
    }

    method Append(data: seq<Byte>)
      modifies this
      ensures bytes == old(bytes) + data
    {
      bytes := bytes + data;
    }

    method AppendUint64(word: nat)
      modifies this
      ensures bytes == old(bytes) + LittleEndian(word, 8)
    {
      Append(LittleEndian(word, 8));
    }

    method AppendUint32(word: nat)
      modifies this
      ensures bytes == old(bytes) + LittleEndian(word, 4)
    {
      Append(LittleEndian(word, 4));
    }

    method AppendUint16(word: nat)
      modifies this
      ensures bytes == old(bytes) + LittleEndian(word, 2)
    {
      Append(LittleEndian(word, 2));
    }

    /** Appends a security buffer with an empty offset and says where the offset belongs. */
    method AppendSecBuf(len: nat) returns (offsetIndex: nat)
      modifies this
      ensures bytes == old(bytes) + SecBuf(Slot(len, 0))
      ensures offsetIndex == |old(bytes)| + 4
    {
      Append(LittleEndian(len, 2) + LittleEndian(len, 2) + LittleEndian(0, 4));
      offsetIndex := |bytes| - 4;
    }

    /** Makes the security buffer whose offset lives at `offsetIndex` point at the current end. */
    method SecBufOffset(offsetIndex: nat)
      requires offsetIndex + 4 <= |bytes|
      modifies this
      ensures bytes == Patched(old(bytes), offsetIndex, |old(bytes)|)
      ensures |bytes| == |old(bytes)|
      ensures forall k :: 0 <= k < |bytes| && !(offsetIndex <= k < offsetIndex + 4) ==> bytes[k] == old(bytes)[k]
    {
      var currPos := |bytes|;
      bytes := bytes[..offsetIndex] + LittleEndian(currPos, 4) + bytes[offsetIndex + 4..];
    }
  }

  // ---------------------------------------------------------------- messages as lists of parts

  /** Where part `i` begins. */
  function Start(parts: seq<seq<Byte>>, i: nat): nat
    requires i <= |parts|
  {
    if i == 0 then 0 else Start(parts, i - 1) + |parts[i - 1]|
  }

  lemma {:induction false} StartOfPrefix(parts: seq<seq<Byte>>, n: nat, i: nat)
    requires i <= n <= |parts|
    ensures Start(parts[..n], i) == Start(parts, i)
  {
    if i > 0 {
      StartOfPrefix(parts, n, i - 1);
    }
  }

  lemma {:induction false} FlattenLength(parts: seq<seq<Byte>>)
    ensures |Flatten(parts)| == Start(parts, |parts|)
  {
    if parts != [] {
      var n := |parts| - 1;
      FlattenLength(parts[..n]);
      StartOfPrefix(parts, n, n);
    }
  }

  lemma SliceOfFirst(a: seq<Byte>, b: seq<Byte>, from: nat, to: nat)
    requires from <= to <= |a|
    ensures (a + b)[from..to] == a[from..to]
  {
  }

  lemma SliceOfSecond(a: seq<Byte>, b: seq<Byte>)
    ensures (a + b)[|a|..|a| + |b|] == b
  {
  }

  /** Part `i` is found at its start. */
  lemma {:induction false} PartAt(parts: seq<seq<Byte>>, i: nat)
    requires i < |parts|
    ensures Start(parts, i) + |parts[i]| <= |Flatten(parts)|
    ensures Flatten(parts)[Start(parts, i)..Start(parts, i) + |parts[i]|] == parts[i]
  {
    var n := |parts| - 1;
    StartOfPrefix(parts, n, i);
    FlattenLength(parts[..n]);
    if i < n {
      PartAt(parts[..n], i);
      SliceOfFirst(Flatten(parts[..n]), parts[n], Start(parts, i), Start(parts, i) + |parts[i]|);
    } else {
      SliceOfSecond(Flatten(parts[..n]), parts[n]);
    }
  }

  lemma PatchFirst(a: seq<Byte>, b: seq<Byte>, at: nat, off: nat)
    requires at + 4 <= |a|
    ensures Patched(a + b, at, off) == Patched(a, at, off) + b
  {
  }

  lemma PatchSecond(a: seq<Byte>, b: seq<Byte>, at: nat, off: nat)
    requires at + 4 <= |b|
    ensures Patched(a + b, |a| + at, off) == a + Patched(b, at, off)
  {
  }

  /** A patch inside part `i` changes exactly that part. */
  lemma {:induction false} PatchPart(parts: seq<seq<Byte>>, i: nat, at: nat, off: nat)
    requires i < |parts| && at + 4 <= |parts[i]|
    ensures Start(parts, i) + at + 4 <= |Flatten(parts)|
    ensures Patched(Flatten(parts), Start(parts, i) + at, off) == Flatten(parts[i := Patched(parts[i], at, off)])
  {
    hide Patched, LittleEndian;
    var n := |parts| - 1;
    var after := parts[i := Patched(parts[i], at, off)];
    StartOfPrefix(parts, n, i);
    FlattenLength(parts[..n]);
    if i < n {
      PatchPart(parts[..n], i, at, off);
      PatchFirst(Flatten(parts[..n]), parts[n], Start(parts, i) + at, off);
      assert after[..n] == parts[..n][i := Patched(parts[i], at, off)];
    } else {
      PatchSecond(Flatten(parts[..n]), parts[n], at, off);
      assert after[..n] == parts[..n];
    }
  }

  /** Patching the offset of a security buffer. */
  lemma PatchSecBuf(parts: seq<seq<Byte>>, i: nat, slot: Slot, off: nat)
    requires i < |parts| && parts[i] == SecBuf(slot)
    ensures Start(parts, i) + 8 <= |Flatten(parts)|
    ensures Patched(Flatten(parts), Start(parts, i) + 4, off) == Flatten(parts[i := SecBuf(slot.(off := off))])
  {
    PatchPart(parts, i, 4, off);
    PatchOffset(slot, off);
  }

  lemma PatchOffset(slot: Slot, off: nat)
    ensures Patched(SecBuf(slot), 4, off) == SecBuf(slot.(off := off))
  {
    var len, before := LittleEndian(slot.len, 2) + LittleEndian(slot.len, 2), LittleEndian(slot.off, 4);
    PatchSecond(len, before, 0, off);
    assert before[..0] == [] && before[4..] == [];
    assert Patched(before, 0, off) == LittleEndian(off, 4);
  }

  /** The payload pointer and length that ntlmParseSecBuffer returns. */
  datatype Extent = Extent(off: nat, len: nat) {
    /** The payload lies inside the first `bufLen` bytes. */
    predicate Inside(bufLen: nat) {
      off + len <= bufLen
    }
  }

  /** The length and offset words of the security buffer at `at`. */
  function ReadSlot(blob: seq<Byte>, at: nat): (slot: Slot)
    requires at + 8 <= |blob|
    ensures slot.len < 0x1_0000 && slot.off < 0x1_0000_0000
  {
    SmallWords();
    FromLittleEndianBound(blob[at..at + 2]);
    FromLittleEndianBound(blob[at + 4..at + 8]);
    Slot(FromLittleEndian(blob[at..at + 2]), FromLittleEndian(blob[at + 4..at + 8]))
  }

  /** Bounds are checked on the 32-bit sum of offset and length. */
  function ParseSecBuffer(blob: seq<Byte>, at: nat, bufLen: nat): Option<Extent>
    requires at + 8 <= |blob|
  {
    var slot := ReadSlot(blob, at);
    if (slot.off + slot.len) % 0x1_0000_0000 > bufLen then None else Some(Extent(slot.off, slot.len))
  }

  lemma SubSlice(b: seq<Byte>, lo: nat, hi: nat, from: nat, to: nat)
    requires lo <= hi <= |b| && from <= to <= hi - lo
    ensures b[lo..hi][from..to] == b[lo + from..lo + to]
  {
    var x, y := b[lo..hi][from..to], b[lo + from..lo + to];
    forall k | 0 <= k < to - from
      ensures x[k] == y[k]
    {
      assert x[k] == b[lo..hi][from + k] == b[lo + from + k];
    }
  }

  /** Reading back what SecBuf wrote gives both fields modulo their widths. */
  lemma ReadSecBuf(blob: seq<Byte>, at: nat, slot: Slot)
    requires at + 8 <= |blob|
    requires blob[at..at + 8] == SecBuf(slot)
    ensures ReadSlot(blob, at) == Slot(slot.len % 0x1_0000, slot.off % 0x1_0000_0000)
  {
    var len, off := LittleEndian(slot.len, 2), LittleEndian(slot.off, 4);
    SubSlice(blob, at, at + 8, 0, 2);
    SubSlice(blob, at, at + 8, 4, 8);
    assert SecBuf(slot)[0..2] == len && SecBuf(slot)[4..8] == off;
    SmallWords();
    LittleEndianRoundTrip(slot.len, 2);
    LittleEndianRoundTrip(slot.off, 4);
  }

  /** The length is written twice, for the payload and for the space it takes, and then the offset. */
  lemma SecBufBytes(slot: Slot)
    ensures var b := SecBuf(slot);
            && FromLittleEndian(b[..2]) == FromLittleEndian(b[2..4]) == slot.len % 0x1_0000
            && FromLittleEndian(b[4..]) == slot.off % 0x1_0000_0000
  {
    hide LittleEndian, FromLittleEndian;
    var len, off := LittleEndian(slot.len, 2), LittleEndian(slot.off, 4);
    assert SecBuf(slot)[..2] == len && SecBuf(slot)[2..4] == len && SecBuf(slot)[4..] == off;
    SmallWords();
    LittleEndianRoundTrip(slot.len, 2);
    LittleEndianRoundTrip(slot.off, 4);
  }

  /**
    When the parse succeeds the payload lies inside the buffer exactly when the sum of offset and
    length did not wrap around 32 bits.
   */
  lemma ParseSecBufferInside(blob: seq<Byte>, at: nat, bufLen: nat)
    requires at + 8 <= |blob| && bufLen < 0x1_0000_0000
    requires ParseSecBuffer(blob, at, bufLen).Some?
    ensures var slot := ReadSlot(blob, at);
            ParseSecBuffer(blob, at, bufLen).value.Inside(bufLen) <==> slot.off + slot.len < 0x1_0000_0000
  {
    var slot := ReadSlot(blob, at);
    if slot.off + slot.len >= 0x1_0000_0000 {
      assert (slot.off + slot.len) % 0x1_0000_0000 == slot.off + slot.len - 0x1_0000_0000;
    }
  }

  // ---------------------------------------------------------------- strings

  function Utf16Le(units: seq<Unichar>): (bytes: seq<Byte>)
    ensures |bytes| == 2 * |units|
  {
    if units == [] then [] else [units[0] % 0x100, units[0] / 0x100] + Utf16Le(units[1..])
  }

  /** An independent reader of little-endian UTF-16; an odd last byte is dropped. */
  function FromUtf16Le(bytes: seq<Byte>): seq<Unichar> {
    if |bytes| < 2 then []
    else
      var lo: int, hi: int := bytes[0], bytes[1];
      [lo + 0x100 * hi] + FromUtf16Le(bytes[2..])
  }

  lemma {:induction false} Utf16RoundTrip(units: seq<Unichar>)
    ensures FromUtf16Le(Utf16Le(units)) == units
  {
    if units != [] {
      assert Utf16Le(units)[2..] == Utf16Le(units[1..]);
      Utf16RoundTrip(units[1..]);
    }
  }

  /** Every unit is two bytes, the low one first. */
  lemma {:induction false} Utf16Bytes(units: seq<Unichar>, i: nat)
    requires i < |units|
    ensures Utf16Le(units)[2 * i] == units[i] % 0x100 && Utf16Le(units)[2 * i + 1] == units[i] / 0x100
  {
    if i > 0 {
      Utf16Bytes(units[1..], i - 1);
      assert Utf16Le(units)[2 * i] == Utf16Le(units[1..])[2 * (i - 1)];
      assert Utf16Le(units)[2 * i + 1] == Utf16Le(units[1..])[2 * (i - 1) + 1];
    }
  }

  lemma {:induction false} Utf16LeAppend(units: seq<Unichar>, unit: Unichar)
    ensures Utf16Le(units + [unit]) == Utf16Le(units) + [unit % 0x100, unit / 0x100]
  {
    if units == [] {
      assert ([] + [unit])[1..] == [];
    } else {
      assert (units + [unit])[1..] == units[1..] + [unit];
      Utf16LeAppend(units[1..], unit);
    }
  }

  /** What ntlmStringToLE returns; None is errSecAllocate. */
  function StringToLe(units: seq<Unichar>): Option<seq<Byte>> {
    if |units| > MAX_STRING_LEN then None else Some(Utf16Le(units))
  }

  method NtlmStringToLE(pwd: seq<Unichar>) returns (r: Option<seq<Byte>>)
    ensures r == StringToLe(pwd)
    ensures r.Some? <==> |pwd| <= 2048
  {
    var len := |pwd|;
    if len > MAX_STRING_LEN {
      return None;
    }
    var data: seq<Byte> := [];
    var dex := 0;
    while dex < len
      invariant 0 <= dex <= len
      invariant data == Utf16Le(pwd[..dex])
    {
      var uc := pwd[dex];
      MaskByte(uc);
      data := data + [BitAnd(uc, 0xff), uc / 0x100];
      Utf16LeAppend(pwd[..dex], uc);
      assert pwd[..dex + 1] == pwd[..dex] + [uc];
      dex := dex + 1;
    }
    assert pwd[..len] == pwd;
    r := Some(data);
  }

  predicate IsAscii(units: seq<Unichar>) {
    forall i :: 0 <= i < |units| ==> units[i] < 0x80
  }

  function AsciiBytes(units: seq<Unichar>): (bytes: seq<Byte>)
    requires IsAscii(units)
  {
    seq(|units|, i requires 0 <= i < |units| => units[i])
  }

  /** ntlmStringFlatten: UTF-16 when negotiated, otherwise ASCII and, failing that, UTF-8. */
  function StringFlatten(p: Platform, units: seq<Unichar>, unicode: bool): Option<seq<Byte>> {
    if unicode then StringToLe(units)
    else if |units| > MAX_STRING_LEN then None
    else if IsAscii(units) then Some(AsciiBytes(units))
    else p.utf8(units)
  }

  /** UTF-8 needs at most three bytes for one UTF-16 unit. */
  ghost predicate Utf8Bounded(p: Platform) {
    forall units :: p.utf8(units).Some? ==> |p.utf8(units).value| <= 3 * |units|
  }

  /** The length limit on strings is what makes every flattened name fit a 16-bit length. */
  lemma FlattenedFits(p: Platform, units: seq<Unichar>, unicode: bool)
    requires Utf8Bounded(p)
    requires StringFlatten(p, units, unicode).Some?
    ensures |StringFlatten(p, units, unicode).value| <= 3 * MAX_STRING_LEN < 0x1_0000
  {
    if !unicode && !IsAscii(units) {
      assert p.utf8(units).Some?;
    }
  }

  /** `bytes` spell a name: its UTF-16 units, or its ASCII characters, or failing that its UTF-8 form. */
  predicate Spells(p: Platform, name: seq<Unichar>, unicode: bool, bytes: seq<Byte>) {
    if unicode then |bytes| == 2 * |name| && FromUtf16Le(bytes) == name
    else if forall k :: 0 <= k < |name| ==> name[k] < 0x80
    then |bytes| == |name| && forall k :: 0 <= k < |name| ==> bytes[k] == name[k]
    else p.utf8(name) == Some(bytes)
  }

  /** Which names can be flattened, and that the result spells the name; in Unicode or ASCII only the length counts. */
  lemma FlattenedSpells(p: Platform, units: seq<Unichar>, unicode: bool)
    ensures StringFlatten(p, units, unicode).Some? <==>
            && |units| <= 2048
            && (unicode || (forall k :: 0 <= k < |units| ==> units[k] < 0x80) || p.utf8(units).Some?)
    ensures StringFlatten(p, units, unicode).Some? ==>
              Spells(p, units, unicode, StringFlatten(p, units, unicode).value)
  {
    Utf16RoundTrip(units);
  }

  /** The string "WORKSTATION" that stands in for the host name. */
  const HOST_NAME: seq<Byte> := [0x57, 0x4f, 0x52, 0x4b, 0x53, 0x54, 0x41, 0x54, 0x49, 0x4f, 0x4e]

  function HostNameBytes(unicode: bool): (bytes: seq<Byte>)
    ensures |bytes| == if unicode then 22 else 11
  {
    if unicode then Utf16Le(HOST_NAME) else HOST_NAME
  }

  /** "WORKSTATION" in code units. */
  function Workstation(): seq<Unichar> {
    seq(11, k requires 0 <= k < 11 => "WORKSTATION"[k] as int)
  }

  lemma HostNameSpells(p: Platform, unicode: bool)
    ensures Spells(p, Workstation(), unicode, HostNameBytes(unicode))
  {
    hide Utf16Le, FromUtf16Le, HOST_NAME;
    HostNameUnits();
    Utf16RoundTrip(HOST_NAME);
    assert Workstation() == HOST_NAME;
  }

  lemma HostNameUnits()
    ensures |HOST_NAME| == 11 && forall k :: 0 <= k < 11 ==> HOST_NAME[k] == "WORKSTATION"[k] as int
  {
    var s := "WORKSTATION";
    assert s[0] == 'W' && s[1] == 'O' && s[2] == 'R' && s[3] == 'K' && s[4] == 'S' && s[5] == 'T';
    assert s[6] == 'A' && s[7] == 'T' && s[8] == 'I' && s[9] == 'O' && s[10] == 'N';
  }

  // ---------------------------------------------------------------- DES keys

  /** The seven key bits carried by every byte of a DES key. */
  function KeyBits(key: seq<Byte>): seq<nat> {
    seq(|key|, i requires 0 <= i < |key| => key[i] / 2)
  }

  /** `key` spreads the 56 bits of `raw` over eight bytes with a zero parity bit. */
  predicate Spreads(raw: seq<Byte>, key: seq<Byte>) {
    && |key| == 8
    && (forall i :: 0 <= i < 8 ==> key[i] % 2 == 0)
    && BigEndian(KeyBits(key), 0x80) == BigEndian(raw, 0x100)
  }

  /** The DES key of seven raw bytes: twice the base-128 digits of the 56-bit number they spell. */
  function DesKey(raw: seq<Byte>): (key: seq<Byte>)
    requires |raw| == 7
    ensures Spreads(raw, key)
  {
    var n := BigEndian(raw, 0x100);
    var digits := ToBase128(n, 8);
    var key: seq<Byte> := seq(8, i requires 0 <= i < 8 => 2 * digits[i]);
    assert KeyBits(key) == digits;
    assert n < Power(0x80, 8) by {
      NumeralBound(raw, 0x100);
      assert Power(0x100, 7) == 0x100_0000_0000_0000 == Power(0x80, 8);
    }
    Base128RoundTrip(n, 8);
    key
  }

  /** `n & 0xfe`, a byte whose parity bit is clear. */
  function ClearParity(n: nat): (r: Byte)
    ensures r % 2 == 0
  {
    MaskParity(n);
    BitAnd(n, 0xfe)
  }

  /** `((hi << up) | (lo >> (8 - up))) & 0xfe` */
  function JoinedByte(hi: Byte, lo: Byte, up: nat): (r: Byte)
    requires 2 <= up <= 7
  {
    ClearParity(BitOr(ShiftLeft(hi, up), ShiftRight(lo, 8 - up)))
  }

  /** The low bits of `hi` above the high bits of `lo`, seven in all. */
  function StraddlingDigit(hi: Byte, lo: Byte, up: nat): nat
    requires 2 <= up <= 7
  {
    match up
    case 7 => (hi % 2) * 64 + lo / 4
    case 6 => (hi % 4) * 32 + lo / 8
    case 5 => (hi % 8) * 16 + lo / 16
    case 4 => (hi % 16) * 8 + lo / 32
    case 3 => (hi % 32) * 4 + lo / 64
    case _ => (hi % 64) * 2 + lo / 128
  }

  lemma JoinedByteValue(hi: Byte, lo: Byte, up: nat)
    requires 2 <= up <= 7
    ensures JoinedByte(hi, lo, up) / 2 == StraddlingDigit(hi, lo, up)
  {
    var left, right := ShiftLeft(hi, up), ShiftRight(lo, 8 - up);
    Shifts(hi, lo, up);
    OrOfDisjoint(hi, up, right);
    MaskParity(left + right);
    StraddlingSum(hi, lo, up);
  }

  /** The two shifted neighbours as products and quotients. */
  lemma Shifts(hi: Byte, lo: Byte, up: nat)
    requires 2 <= up <= 7
    ensures ShiftRight(lo, 8 - up) < Pow2(up)
    ensures ShiftLeft(hi, up) + ShiftRight(lo, 8 - up) == match up
            case 7 => hi * 128 + lo / 2
            case 6 => hi * 64 + lo / 4
            case 5 => hi * 32 + lo / 8
            case 4 => hi * 16 + lo / 16
            case 3 => hi * 8 + lo / 32
            case _ => hi * 4 + lo / 64
  {
    LeftShifts(hi);
    RightShifts(lo);
    assert Pow2(2) == 4 && Pow2(3) == 8 && Pow2(4) == 16 && Pow2(5) == 32 && Pow2(6) == 64 && Pow2(7) == 128;
  }

  lemma StraddlingSum(hi: Byte, lo: Byte, up: nat)
    requires 2 <= up <= 7
    ensures ((ShiftLeft(hi, up) + ShiftRight(lo, 8 - up)) / 2) % 0x80 == StraddlingDigit(hi, lo, up)
  {
    Shifts(hi, lo, up);
    var r := StraddlingDigit(hi, lo, up);
    match up
    case 7 => Remainder128(hi / 2, r, (hi * 128 + lo / 2) / 2);
    case 6 => Remainder128(hi / 4, r, (hi * 64 + lo / 4) / 2);
    case 5 => Remainder128(hi / 8, r, (hi * 32 + lo / 8) / 2);
    case 4 => Remainder128(hi / 16, r, (hi * 16 + lo / 16) / 2);
    case 3 => Remainder128(hi / 32, r, (hi * 8 + lo / 32) / 2);
    case _ => Remainder128(hi / 64, r, (hi * 4 + lo / 64) / 2);
  }

  lemma Remainder128(q: nat, r: nat, n: nat)
    requires r < 0x80 && n == 0x80 * q + r
    ensures n % 0x80 == r
  {
  }

  lemma AppendDigit(a: seq<nat>, n: nat, base: nat)
    requires n < |a|
    ensures BigEndian(a[..n + 1], base) == BigEndian(a[..n], base) * base + a[n]
  {
    assert a[..n + 1][..n] == a[..n];
  }

  lemma SevenDigits(a: seq<nat>, base: nat)
    requires |a| >= 7
    ensures BigEndian(a[..7], base)
         == (((((a[0] * base + a[1]) * base + a[2]) * base + a[3]) * base + a[4]) * base + a[5]) * base + a[6]
  {
    assert BigEndian(a[..0], base) == 0;
    AppendDigit(a, 0, base);
    AppendDigit(a, 1, base);
    AppendDigit(a, 2, base);
    AppendDigit(a, 3, base);
    AppendDigit(a, 4, base);
    AppendDigit(a, 5, base);
    AppendDigit(a, 6, base);
  }

  /** The regrouping of seven base-256 digits into eight base-128 digits. */
  lemma Regroup(a: seq<Byte>, d: seq<nat>)
    requires |a| == 7 && |d| == 8
    requires d[0] == a[0] / 2 && d[7] == a[6] % 128
    requires d[1] == StraddlingDigit(a[0], a[1], 7) && d[2] == StraddlingDigit(a[1], a[2], 6)
    requires d[3] == StraddlingDigit(a[2], a[3], 5) && d[4] == StraddlingDigit(a[3], a[4], 4)
    requires d[5] == StraddlingDigit(a[4], a[5], 3) && d[6] == StraddlingDigit(a[5], a[6], 2)
    ensures BigEndian(d, 0x80) == BigEndian(a, 0x100)
  {
    assert a[..7] == a && d[..8] == d;
    SevenDigits(a, 0x100);
    SevenDigits(d, 0x80);
    AppendDigit(d, 7, 0x80);
  }

  /** The shifts and masks of ntlmMakeDesKey compute the eight base-128 digits of the 56-bit input. */
  lemma ShiftsSpread(k: seq<Byte>, key: seq<Byte>)
    requires |k| == 7 && |key| == 8
    requires key[0] == ClearParity(k[0]) && key[7] == ClearParity(ShiftLeft(k[6], 1))
    requires key[1] == JoinedByte(k[0], k[1], 7) && key[2] == JoinedByte(k[1], k[2], 6)
    requires key[3] == JoinedByte(k[2], k[3], 5) && key[4] == JoinedByte(k[3], k[4], 4)
    requires key[5] == JoinedByte(k[4], k[5], 3) && key[6] == JoinedByte(k[5], k[6], 2)
    ensures Spreads(k, key)
  {
    FirstByte(k[0]);
    LastByte(k[6]);
    JoinedByteValue(k[0], k[1], 7);
    JoinedByteValue(k[1], k[2], 6);
    JoinedByteValue(k[2], k[3], 5);
    JoinedByteValue(k[3], k[4], 4);
    JoinedByteValue(k[4], k[5], 3);
    JoinedByteValue(k[5], k[6], 2);
    Regroup(k, KeyBits(key));
  }

  lemma FirstByte(b: Byte)
    ensures ClearParity(b) / 2 == b / 2
  {
    MaskParity(b);
  }

  lemma LastByte(b: Byte)
    ensures ClearParity(ShiftLeft(b, 1)) / 2 == b % 128
  {
    assert ShiftLeft(b, 1) == 2 * b;
    MaskParity(ShiftLeft(b, 1));
  }

  /** The spread key is unique and determines the seven bytes it came from. */
  lemma SpreadIsLossless(raw: seq<Byte>, key: seq<Byte>, raw': seq<Byte>, key': seq<Byte>)
    requires |raw| == 7 && |raw'| == 7
    requires Spreads(raw, key) && Spreads(raw', key')
    ensures key == key' <==> raw == raw'
  {
    if key == key' {
      NumeralsAreUnique(raw, raw', 0x100);
    }
    if raw == raw' {
      NumeralsAreUnique(KeyBits(key), KeyBits(key'), 0x80);
      forall i | 0 <= i < 8
        ensures key[i] == key'[i]
      {
        assert KeyBits(key)[i] == KeyBits(key')[i];
      }
    }
  }

  method NtlmMakeDesKey(inKey: array<Byte>, from: nat, outKey: array<Byte>)
    requires from + 7 <= inKey.Length && outKey.Length == 8 && inKey != outKey
    modifies outKey
    ensures outKey[..] == DesKey(inKey[from..from + 7])
  {
    ghost var k := inKey[from..from + 7];
    outKey[0] := ClearParity(inKey[from]);
    outKey[1] := JoinedByte(inKey[from], inKey[from + 1], 7);
    outKey[2] := JoinedByte(inKey[from + 1], inKey[from + 2], 6);
    outKey[3] := JoinedByte(inKey[from + 2], inKey[from + 3], 5);
    outKey[4] := JoinedByte(inKey[from + 3], inKey[from + 4], 4);
    outKey[5] := JoinedByte(inKey[from + 4], inKey[from + 5], 3);
    outKey[6] := JoinedByte(inKey[from + 5], inKey[from + 6], 2);
    outKey[7] := ClearParity(ShiftLeft(inKey[from + 6], 1));
    ShiftsSpread(k, outKey[..]);
    SpreadIsLossless(k, outKey[..], k, DesKey(k));
  }

  /** The 21 bytes of key material: the digest and five zero bytes. */
  function AllKeys(digest: Digest): (raw: seq<Byte>)
    ensures |raw| == 21
  {
    digest + [0, 0, 0, 0, 0]
  }

  /** The eight bytes encrypted under the three keys of the digest, concatenated. */
  function LmResponse(p: Platform, digest: Digest, ptext: seq<Byte>): (r: Option<seq<Byte>>)
    requires |ptext| >= 8
    ensures r.Some? ==> |r.value| == 24
  {
    var raw := AllKeys(digest);
    var c1 := p.desCrypt(DesKey(raw[..7]), ptext[..8]);
    var c2 := p.desCrypt(DesKey(raw[7..14]), ptext[..8]);
    var c3 := p.desCrypt(DesKey(raw[14..]), ptext[..8]);
    if c1.Some? && c2.Some? && c3.Some? then Some(c1.value + c2.value + c3.value) else None
  }

  /** The three keys determine the digest. */
  lemma KeysDetermineDigest(a: Digest, b: Digest)
    ensures (DesKey(AllKeys(a)[..7]) == DesKey(AllKeys(b)[..7])
          && DesKey(AllKeys(a)[7..14]) == DesKey(AllKeys(b)[7..14])
          && DesKey(AllKeys(a)[14..]) == DesKey(AllKeys(b)[14..])) <==> a == b
  {
    var x, y := AllKeys(a), AllKeys(b);
    SpreadIsLossless(x[..7], DesKey(x[..7]), y[..7], DesKey(y[..7]));
    SpreadIsLossless(x[7..14], DesKey(x[7..14]), y[7..14], DesKey(y[7..14]));
    SpreadIsLossless(x[14..], DesKey(x[14..]), y[14..], DesKey(y[14..]));
    assert x == x[..7] + x[7..14] + x[14..] && y == y[..7] + y[7..14] + y[14..];
    assert a == x[..16] && b == y[..16];
  }

  /** For every keys that spread the digest's first and second seven bytes, and its last two and five zeros. */
  lemma LmResponseBlocks(
    p: Platform, digest: Digest, ptext: seq<Byte>, key1: seq<Byte>, key2: seq<Byte>, key3: seq<Byte>)
    requires |ptext| >= 8
    requires Spreads(digest[..7], key1) && Spreads(digest[7..14], key2) && Spreads(digest[14..] + [0, 0, 0, 0, 0], key3)
    ensures var c1, c2, c3 := p.desCrypt(key1, ptext[..8]), p.desCrypt(key2, ptext[..8]), p.desCrypt(key3, ptext[..8]);
            && (LmResponse(p, digest, ptext).Some? <==> c1.Some? && c2.Some? && c3.Some?)
            && (LmResponse(p, digest, ptext).Some? ==>
                  var r := LmResponse(p, digest, ptext).value;
                  r[..8] == c1.value && r[8..16] == c2.value && r[16..] == c3.value)
  {
    hide DesKey, Spreads;
    var raw := AllKeys(digest);
    assert raw[..7] == digest[..7] && raw[7..14] == digest[7..14] && raw[14..] == digest[14..] + [0, 0, 0, 0, 0];
    SpreadIsLossless(raw[..7], DesKey(raw[..7]), digest[..7], key1);
    SpreadIsLossless(raw[7..14], DesKey(raw[7..14]), digest[7..14], key2);
    SpreadIsLossless(raw[14..], DesKey(raw[14..]), digest[14..] + [0, 0, 0, 0, 0], key3);
  }

  /** Encryption of a text never fails, and on keys without parity it determines the key. */
  ghost predicate DeterminesKey(p: Platform, ptext: seq<Byte>) {
    forall k, l | |k| == |l| == 8 && NoParity(k) && NoParity(l) ::
      p.desCrypt(k, ptext).Some? && (p.desCrypt(k, ptext) == p.desCrypt(l, ptext) ==> k == l)
  }

  predicate NoParity(key: seq<Byte>) {
    forall i :: 0 <= i < |key| ==> key[i] % 2 == 0
  }

  /** Then the response determines the whole digest. */
  lemma ResponseDeterminesDigest(p: Platform, a: Digest, b: Digest, ptext: seq<Byte>)
    requires |ptext| >= 8 && DeterminesKey(p, ptext[..8])
    ensures LmResponse(p, a, ptext) == LmResponse(p, b, ptext) <==> a == b
  {
    hide DesKey;
    var x, y, t := AllKeys(a), AllKeys(b), ptext[..8];
    KeysDetermineDigest(a, b);
    assert NoParity(DesKey(x[..7])) && NoParity(DesKey(x[7..14])) && NoParity(DesKey(x[14..]));
    assert NoParity(DesKey(y[..7])) && NoParity(DesKey(y[7..14])) && NoParity(DesKey(y[14..]));
    assert p.desCrypt(DesKey(x[..7]), t).Some? && p.desCrypt(DesKey(y[..7]), t).Some?;
    assert p.desCrypt(DesKey(x[7..14]), t).Some? && p.desCrypt(DesKey(y[7..14]), t).Some?;
    assert p.desCrypt(DesKey(x[14..]), t).Some? && p.desCrypt(DesKey(y[14..]), t).Some?;
    if LmResponse(p, a, ptext) == LmResponse(p, b, ptext) {
      var r := LmResponse(p, a, ptext).value;
      BlocksOf(p, a, ptext);
      BlocksOf(p, b, ptext);
    }
  }

  lemma BlocksOf(p: Platform, digest: Digest, ptext: seq<Byte>)
    requires |ptext| >= 8 && LmResponse(p, digest, ptext).Some?
    ensures var raw, r := AllKeys(digest), LmResponse(p, digest, ptext).value;
            && p.desCrypt(DesKey(raw[..7]), ptext[..8]) == Some(r[..8])
            && p.desCrypt(DesKey(raw[7..14]), ptext[..8]) == Some(r[8..16])
            && p.desCrypt(DesKey(raw[14..]), ptext[..8]) == Some(r[16..])
  {
    hide DesKey, Spreads, LmResponse;
    var raw := AllKeys(digest);
    assert raw[..7] == digest[..7] && raw[7..14] == digest[7..14] && raw[14..] == digest[14..] + [0, 0, 0, 0, 0];
    LmResponseBlocks(p, digest, ptext, DesKey(raw[..7]), DesKey(raw[7..14]), DesKey(raw[14..]));
  }

  /** Fills the caller's 24 bytes; false is the error of the first encryption that failed. */
  method Lmv2Response(p: Platform, digest: Digest, ptext: seq<Byte>, ntlmResp: array<Byte>) returns (ok: bool)
    requires |ptext| >= 8 && ntlmResp.Length == 24
    modifies ntlmResp
    ensures ok == LmResponse(p, digest, ptext).Some?
    ensures ok ==> ntlmResp[..] == LmResponse(p, digest, ptext).value
    ensures var c1 := p.desCrypt(DesKey(AllKeys(digest)[..7]), ptext[..8]);
            var c2 := p.desCrypt(DesKey(AllKeys(digest)[7..14]), ptext[..8]);
            && (c1.Some? ==> ntlmResp[..8] == c1.value)
            && (c1.Some? && c2.Some? ==> ntlmResp[8..16] == c2.value)
            && (ok ==> p.desCrypt(DesKey(AllKeys(digest)[14..]), ptext[..8]) == Some(ntlmResp[16..]))
  {
    hide DesKey, Spreads;
    var allKeys := new Byte[21](i requires 0 <= i < 21 => if i < 16 then digest[i] else 0);
    assert allKeys[..] == AllKeys(digest);
    var key1, key2, key3 := new Byte[8], new Byte[8], new Byte[8];
    NtlmMakeDesKey(allKeys, 0, key1);
    assert key1[..] == DesKey(AllKeys(digest)[..7]) by { assert allKeys[0..7] == AllKeys(digest)[..7]; }
    NtlmMakeDesKey(allKeys, 7, key2);
    assert key2[..] == DesKey(AllKeys(digest)[7..14]) by { assert allKeys[7..14] == AllKeys(digest)[7..14]; }
    NtlmMakeDesKey(allKeys, 14, key3);
    assert key3[..] == DesKey(AllKeys(digest)[14..]) by { assert allKeys[14..21] == AllKeys(digest)[14..]; }
    var k1, k2, k3 := key1[..], key2[..], key3[..];
    var c1 := p.desCrypt(k1, ptext[..8]);
    if c1.None? {
      return false;
    }
    forall i | 0 <= i < 8 { ntlmResp[i] := c1.value[i]; }
    var c2 := p.desCrypt(k2, ptext[..8]);
    if c2.None? {
      return false;
    }
    forall i | 8 <= i < 16 { ntlmResp[i] := c2.value[i - 8]; }
    var c3 := p.desCrypt(k3, ptext[..8]);
    if c3.None? {
      return false;
    }
    forall i | 16 <= i < 24 { ntlmResp[i] := c3.value[i - 16]; }
    ok := true;
  }
}
