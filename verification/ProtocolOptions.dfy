/**
  sec_protocol_options_content: the option fields of a TLS connection, the setters that configuration
  and ALPN use, and the names of the fields that are serialized.
 */
module ProtocolOptions {
  import opened Bytes
  import opened Dictionaries
  import opened Strings

  // ---------------------------------------------------------------- the serialized fields

  /** The integer fields of a configuration. */
  datatype IntField =
    | MinVersion | MaxVersion | MinimumRsaKeySize | MinimumEcdsaKeySize | MinimumSignatureAlgorithm
    | TlsTicketRequestCount

  /** The one-bit fields of a configuration. */
  datatype BoolField =
    | AtsRequired | AtsMinimumTlsVersionAllowed | AtsNonPfsCiphersuiteAllowed | TrustedPeerCertificate
    | DisableSni | EnableFallbackAttempt | EnableFalseStart | EnableTickets | EnableSct | EnableOcsp | EnforceEv
    | EnableEch | EnableResumption | EnableRenegotiation | EnableEarlyData | QuicUseLegacyCodepoint
    | PeerAuthenticationRequired | PeerAuthenticationOptional | CertificateCompressionEnabled | EddsaEnabled
    | TlsDelegatedCredentialsEnabled | TlsGreaseEnabled

  datatype Field = IntKey(i: IntField) | BoolKey(b: BoolField)

  /** One-bit fields that record that a setting was made explicitly. */
  datatype Override =
    | TrustedPeerCertificateOverride | DisableSniOverride | EnableFallbackAttemptOverride
    | EnableFalseStartOverride | EnableTicketsOverride | EnableSctOverride | EnableOcspOverride
    | EnforceEvOverride | EnableResumptionOverride | EnableRenegotiationOverride | EnableEarlyDataOverride
    | QuicUseLegacyCodepointOverride | PeerAuthenticationOverride | CertificateCompressionEnabledOverride

  function Name(f: Field): string {
    match f
    case IntKey(i) => IntName(i)
    case BoolKey(b) => BoolName(b)
  }

  function IntName(i: IntField): string {
    match i
    case MinVersion => "min_version"
    case MaxVersion => "max_version"
    case MinimumRsaKeySize => "minimum_rsa_key_size"
    case MinimumEcdsaKeySize => "minimum_ecdsa_key_size"
    case MinimumSignatureAlgorithm => "minimum_signature_algorithm"
    case TlsTicketRequestCount => "tls_ticket_request_count"
  }

  function BoolName(b: BoolField): string {
    match b
    case AtsRequired => "ats_required"
    case AtsMinimumTlsVersionAllowed => "ats_minimum_tls_version_allowed"
    case AtsNonPfsCiphersuiteAllowed => "ats_non_pfs_ciphersuite_allowed"
    case TrustedPeerCertificate => "trusted_peer_certificate"
    case DisableSni => "disable_sni"
    case EnableFallbackAttempt => "enable_fallback_attempt"
    case EnableFalseStart => "enable_false_start"
    case EnableTickets => "enable_tickets"
    case EnableSct => "enable_sct"
    case EnableOcsp => "enable_ocsp"
    case EnforceEv => "enforce_ev"
    case EnableEch => "enable_ech"
    case EnableResumption => "enable_resumption"
    case EnableRenegotiation => "enable_renegotiation"
    case EnableEarlyData => "enable_early_data"
    case QuicUseLegacyCodepoint => "quic_use_legacy_codepoint"
    case PeerAuthenticationRequired => "peer_authentication_required"
    case PeerAuthenticationOptional => "peer_authentication_optional"
    case CertificateCompressionEnabled => "certificate_compression_enabled"
    case EddsaEnabled => "eddsa_enabled"
    case TlsDelegatedCredentialsEnabled => "tls_delegated_credentials_enabled"
    case TlsGreaseEnabled => "tls_grease_enabled"
  }

  /** The tables of integer and Boolean keys, in the order of the source. */
  const INT_KEYS: seq<IntField> := [
    MinVersion, MaxVersion, MinimumRsaKeySize, MinimumEcdsaKeySize, MinimumSignatureAlgorithm,
    TlsTicketRequestCount
  ]

  const BOOL_KEYS: seq<BoolField> := [
    AtsRequired, AtsMinimumTlsVersionAllowed, AtsNonPfsCiphersuiteAllowed, TrustedPeerCertificate, DisableSni,
    EnableFallbackAttempt, EnableFalseStart, EnableTickets, EnableSct, EnableOcsp, EnforceEv, EnableEch,
    EnableResumption, EnableRenegotiation, EnableEarlyData, QuicUseLegacyCodepoint, PeerAuthenticationRequired,
    PeerAuthenticationOptional, CertificateCompressionEnabled, EddsaEnabled, TlsDelegatedCredentialsEnabled,
    TlsGreaseEnabled
  ]

  function IntIndex(i: IntField): (k: nat)
    ensures k < |INT_KEYS| && INT_KEYS[k] == i
  {
    match i
    case MinVersion => 0
    case MaxVersion => 1
    case MinimumRsaKeySize => 2
    case MinimumEcdsaKeySize => 3
    case MinimumSignatureAlgorithm => 4
    case TlsTicketRequestCount => 5
  }

  function BoolIndex(b: BoolField): (k: nat)
    ensures k < |BOOL_KEYS| && BOOL_KEYS[k] == b
  {
    match b
    case AtsRequired => 0
    case AtsMinimumTlsVersionAllowed => 1
    case AtsNonPfsCiphersuiteAllowed => 2
    case TrustedPeerCertificate => 3
    case DisableSni => 4
    case EnableFallbackAttempt => 5
    case EnableFalseStart => 6
    case EnableTickets => 7
    case EnableSct => 8
    case EnableOcsp => 9
    case EnforceEv => 10
    case EnableEch => 11
    case EnableResumption => 12
    case EnableRenegotiation => 13
    case EnableEarlyData => 14
    case QuicUseLegacyCodepoint => 15
    case PeerAuthenticationRequired => 16
    case PeerAuthenticationOptional => 17
    case CertificateCompressionEnabled => 18
    case EddsaEnabled => 19
    case TlsDelegatedCredentialsEnabled => 20
    case TlsGreaseEnabled => 21
  }

  /** The position of a field in its table is unique. */
  lemma IndexOfKeys(k: nat)
    ensures k < |INT_KEYS| ==> IntIndex(INT_KEYS[k]) == k
    ensures k < |BOOL_KEYS| ==> BoolIndex(BOOL_KEYS[k]) == k
  {
  }

  /** Length and two characters, which tell all field names apart. */
  function Fingerprint(s: string): (int, char, char)
    requires |s| >= 9
  {
    (|s|, s[|s| - 3], s[|s| - 9])
  }

  function IntPrint(i: IntField): (int, char, char) {
    match i
    case MinVersion => (11, 'i', 'n')
    case MaxVersion => (11, 'i', 'x')
    case MinimumRsaKeySize => (20, 'i', '_')
    case MinimumEcdsaKeySize => (22, 'i', '_')
    case MinimumSignatureAlgorithm => (27, 't', 'a')
    case TlsTicketRequestCount => (24, 'u', 'e')
  }

  function BoolPrint(b: BoolField): (int, char, char) {
    match b
    case AtsRequired => (12, 'r', '_')
    case AtsMinimumTlsVersionAllowed => (31, 'w', 'n')
    case AtsNonPfsCiphersuiteAllowed => (31, 'w', 'e')
    case TrustedPeerCertificate => (24, 'a', 'r')
    case DisableSni => (11, 's', 's')
    case EnableFallbackAttempt => (23, 'm', 'k')
    case EnableFalseStart => (18, 'a', 'l')
    case EnableTickets => (14, 'e', 'e')
    case EnableSct => (10, 's', 'n')
    case EnableOcsp => (11, 'c', 'a')
    case EnforceEv => (10, '_', 'n')
    case EnableEch => (10, 'e', 'n')
    case EnableResumption => (17, 'i', 'e')
    case EnableRenegotiation => (20, 'i', 'g')
    case EnableEarlyData => (17, 'a', 'a')
    case QuicUseLegacyCodepoint => (25, 'i', 'c')
    case PeerAuthenticationRequired => (28, 'r', '_')
    case PeerAuthenticationOptional => (28, 'n', '_')
    case CertificateCompressionEnabled => (31, 'l', 'n')
    case EddsaEnabled => (13, 'l', 'a')
    case TlsDelegatedCredentialsEnabled => (33, 'l', 's')
    case TlsGreaseEnabled => (18, 'l', 'e')
  }

  function Print(f: Field): (int, char, char) {
    match f
    case IntKey(i) => IntPrint(i)
    case BoolKey(b) => BoolPrint(b)
  }

  lemma IntNamePrint(i: IntField)
    ensures 9 <= |IntName(i)| < 128 && IntName(i)[|IntName(i)| - 1] != '\0'
    ensures Fingerprint(IntName(i)) == IntPrint(i)
  {
  }

  lemma BoolNameShape(b: BoolField)
    ensures 9 <= |BoolName(b)| < 128 && BoolName(b)[|BoolName(b)| - 1] != '\0'
  {
  }

  lemma FirstBoolNames(b: BoolField)
    requires BoolIndex(b) < 4
    ensures |BoolName(b)| >= 9 && Fingerprint(BoolName(b)) == BoolPrint(b)
  {
  }

  lemma SecondBoolNames(b: BoolField)
    requires 4 <= BoolIndex(b) < 11
    ensures |BoolName(b)| >= 9 && Fingerprint(BoolName(b)) == BoolPrint(b)
  {
  }

  lemma ThirdBoolNames(b: BoolField)
    requires 11 <= BoolIndex(b) < 17
    ensures |BoolName(b)| >= 9 && Fingerprint(BoolName(b)) == BoolPrint(b)
  {
  }

  lemma LastBoolNames(b: BoolField)
    requires BoolIndex(b) >= 17
    ensures |BoolName(b)| >= 9 && Fingerprint(BoolName(b)) == BoolPrint(b)
  {
  }

  lemma NamePrint(f: Field)
    ensures 9 <= |Name(f)| < 128 && Name(f)[|Name(f)| - 1] != '\0'
    ensures Fingerprint(Name(f)) == Print(f)
  {
    hide IntName, BoolName, IntPrint, BoolPrint, Fingerprint, BoolIndex;
    match f
    case IntKey(i) => IntNamePrint(i);
    case BoolKey(b) =>
      BoolNameShape(b);
      if BoolIndex(b) < 4 {
        FirstBoolNames(b);
      } else if BoolIndex(b) < 11 {
        SecondBoolNames(b);
      } else if BoolIndex(b) < 17 {
        ThirdBoolNames(b);
      } else {
        LastBoolNames(b);
      }
  }

  lemma NamesAreDistinct(f: Field, g: Field)
    requires Name(f) == Name(g)
    ensures f == g
  {
    hide Name, Fingerprint;
    NamePrint(f);
    NamePrint(g);
  }

  /** The number of values the C type of an integer field can hold. */
  function Width(i: IntField): nat {
    match i
    case MinVersion => 0x1_0000
    case MaxVersion => 0x1_0000
    case MinimumRsaKeySize => 0x1_0000_0000_0000_0000
    case MinimumEcdsaKeySize => 0x1_0000_0000_0000_0000
    case MinimumSignatureAlgorithm => 0x1_0000_0000
    case TlsTicketRequestCount => 0x100
  }

  /** The override flag that the setter of a field also sets; two setters share one. */
  function OverrideOf(b: BoolField): Option<Override> {
    match b
    case TrustedPeerCertificate => Some(TrustedPeerCertificateOverride)
    case DisableSni => Some(DisableSniOverride)
    case EnableFallbackAttempt => Some(EnableFallbackAttemptOverride)
    case EnableFalseStart => Some(EnableFalseStartOverride)
    case EnableTickets => Some(EnableTicketsOverride)
    case EnableSct => Some(EnableSctOverride)
    case EnableOcsp => Some(EnableOcspOverride)
    case EnforceEv => Some(EnforceEvOverride)
    case EnableResumption => Some(EnableResumptionOverride)
    case EnableRenegotiation => Some(EnableRenegotiationOverride)
    case EnableEarlyData => Some(EnableEarlyDataOverride)
    case QuicUseLegacyCodepoint => Some(QuicUseLegacyCodepointOverride)
    case PeerAuthenticationRequired => Some(PeerAuthenticationOverride)
    case PeerAuthenticationOptional => Some(PeerAuthenticationOverride)
    case CertificateCompressionEnabled => Some(CertificateCompressionEnabledOverride)
    case _ => None
  }

  // ---------------------------------------------------------------- the options

  /** The identity of an object of another framework: a block, a queue, an XPC object. */
  type Ref = nat

  /** A callback and the queue it is called on; the queue means nothing without the block. */
  datatype Handler = Handler(block: Option<Ref>, queue: Option<Ref>)

  /** One application protocol, offered on every transport or on one. */
  datatype AlpnEntry = Plain(name: string) | Tagged(name: string, transport: nat)

  /** One value for every integer field, within its C type. */
  type Ints = m: map<IntField, nat> | forall i: IntField :: i in m && m[i] < Width(i)
    witness map i: IntField | IntIndex(i) < 6 :: 0

  /** The one-bit fields are the sets of those that are on. */
  datatype Content = Content(
    ints: Ints, on: set<BoolField>, overrides: set<Override>, allowUnknownAlpnProtos: bool,
    serverName: Option<string>, identity: Option<Ref>,
    ciphersuites: Option<seq<nat>>, applicationProtocols: Option<seq<AlpnEntry>>,
    keyExchangeGroups: Option<Ref>, preSharedKeys: Option<Ref>,
    dhParams: Option<seq<seq<Byte>>>, quicTransportParameters: Option<seq<seq<Byte>>>,
    pskIdentityHint: Option<seq<seq<Byte>>>,
    keyUpdate: Handler, pskSelection: Handler, challenge: Handler, verify: Handler, tlsSecretUpdate: Handler,
    tlsEncryptionLevelUpdate: Handler, outputHandlerAccess: Option<Ref>, joiningContext: Option<Ref>,
    rest: seq<Ref>)   // the fields that nothing in this model reads or writes

  function PutBool(c: Content, b: BoolField, value: bool): Content {
    c.(on := if value then c.on + {b} else c.on - {b},
       overrides := if OverrideOf(b).Some? then c.overrides + {OverrideOf(b).value} else c.overrides)
  }

  /** The setters are called through a 64-bit signature, so wide values are cut to the field. */
  function PutInt(c: Content, i: IntField, value: nat): Content {
    c.(ints := c.ints[i := value % Width(i)])
  }

  /** Versions keep two bytes, key sizes eight, the signature algorithm four and the ticket count one. */
  lemma StoredModulo(c: Content, i: IntField, value: nat)
    ensures PutInt(c, i, value).ints[i] ==
            if i == MinVersion || i == MaxVersion then value % 0x1_0000
            else if i == MinimumRsaKeySize || i == MinimumEcdsaKeySize then value % 0x1_0000_0000_0000_0000
            else if i == MinimumSignatureAlgorithm then value % 0x1_0000_0000
            else value % 0x100
    ensures PutInt(c, i, value) == c.(ints := c.ints[i := PutInt(c, i, value).ints[i]])
  {
  }

  /** The fields whose setters set an override flag: the one it is named after, but both for authentication. */
  function Overridden(o: Override): set<BoolField> {
    match o
    case TrustedPeerCertificateOverride => {TrustedPeerCertificate}
    case DisableSniOverride => {DisableSni}
    case EnableFallbackAttemptOverride => {EnableFallbackAttempt}
    case EnableFalseStartOverride => {EnableFalseStart}
    case EnableTicketsOverride => {EnableTickets}
    case EnableSctOverride => {EnableSct}
    case EnableOcspOverride => {EnableOcsp}
    case EnforceEvOverride => {EnforceEv}
    case EnableResumptionOverride => {EnableResumption}
    case EnableRenegotiationOverride => {EnableRenegotiation}
    case EnableEarlyDataOverride => {EnableEarlyData}
    case QuicUseLegacyCodepointOverride => {QuicUseLegacyCodepoint}
    case PeerAuthenticationOverride => {PeerAuthenticationRequired, PeerAuthenticationOptional}
    case CertificateCompressionEnabledOverride => {CertificateCompressionEnabled}
  }

  lemma OverriddenBy(b: BoolField, o: Override)
    ensures OverrideOf(b) == Some(o) <==> b in Overridden(o)
  {
  }

  /** Setting a field sets the override flags it belongs to, and no other. */
  lemma OverridesSet(c: Content, b: BoolField, value: bool, o: Override)
    ensures o in PutBool(c, b, value).overrides <==> o in c.overrides || b in Overridden(o)
    ensures PutBool(c, b, value).on == if value then c.on + {b} else c.on - {b}
  {
    hide OverrideOf, Overridden;
    OverriddenBy(b, o);
  }

  function AddCiphersuites(c: Content, suites: seq<nat>): Content {
    if suites == [] then c else c.(ciphersuites := Some(c.ciphersuites.GetOr([]) + suites))
  }

  // ---------------------------------------------------------------- configurations

  datatype Value = UInt64(n: nat) | Bool(b: bool) | Array(items: seq<Value>) | OtherValue

  /** A configuration object; only dictionaries can be applied. */
  datatype Config = Dictionary(entries: map<string, Value>) | NotADictionary

  /** xpc_dictionary_get_bool: false unless the key holds a Boolean. */
  function GetBool(d: map<string, Value>, key: string): bool {
    key in d && d[key].Bool? && d[key].b
  }

  /** xpc_dictionary_get_uint64: zero unless the key holds an unsigned integer of 64 bits. */
  function GetUint64(d: map<string, Value>, key: string): (n: nat)
    ensures n < 0x1_0000_0000_0000_0000
  {
    if key in d && d[key].UInt64? then d[key].n % 0x1_0000_0000_0000_0000 else 0
  }

  /** Values of another type, and missing ones, read as false and as zero. */
  lemma WrongTypesRead(d: map<string, Value>, key: string)
    ensures GetBool(d, key) <==> key in d && d[key] == Bool(true)
    ensures key in d && d[key].UInt64? ==> GetUint64(d, key) == d[key].n % 0x1_0000_0000_0000_0000
    ensures !(key in d && d[key].UInt64?) ==> GetUint64(d, key) == 0
  {
  }

  const MAX_KEY_LEN := 128

  /** The comparison of a dictionary key with a key of the tables. */
  predicate KeyMatches(key: string, name: string) {
    StrNCmpEqual(name, key, Max(Min(|key|, MAX_KEY_LEN), Min(|name|, MAX_KEY_LEN)))
  }

  /** On C strings that comparison is equality, however long the dictionary key is. */
  lemma KeyMatchesExactly(key: string, f: Field)
    requires '\0' !in key
    ensures KeyMatches(key, Name(f)) <==> key == Name(f)
  {
    hide Name, Fingerprint;
    NamePrint(f);
    var name := Name(f);
    var n := Max(Min(|key|, MAX_KEY_LEN), |name|);
    var p, q := CPrefix(name, n), CPrefix(key, n);
    if |key| < n {
      assert q[|q| - 1] == '\0' && q[..|key|] == key;
      if |name| < n {
        assert p[..|name|] == name;
      } else {
        assert p[|p| - 1] == name[|name| - 1];
      }
    } else if |name| < n {
      assert p[|p| - 1] == '\0' && '\0' !in q;
    } else {
      assert p == name && q == key;
    }
  }

  /** The field a key names, if any. */
  ghost function FieldOf(key: string): Option<Field> {
    if exists f: Field :: Name(f) == key then
      var f: Field :| Name(f) == key;
      Some(f)
    else None
  }

  lemma FieldOfName(f: Field)
    ensures FieldOf(Name(f)) == Some(f)
  {
    hide Name;
    var g := FieldOf(Name(f)).value;
    NamesAreDistinct(f, g);
  }

  /** Keys are C strings. */
  ghost predicate CStrings(d: map<string, Value>) {
    forall key :: key in d ==> '\0' !in key
  }

  const CIPHERSUITES_KEY := "ciphersuites"

  /** Only as many characters as the dictionary key has are compared. */
  predicate IsCiphersuitesKey(key: string) {
    StrNCmpEqual(key, CIPHERSUITES_KEY, Min(|key|, MAX_KEY_LEN))
  }

  /** Elements are read as 64-bit integers, zero for other types, and cut to 16 bits. */
  function Suite(item: Value): nat {
    (if item.UInt64? then item.n % 0x1_0000_0000_0000_0000 else 0) % 0x1_0000
  }

  function Suites(items: seq<Value>): seq<nat> {
    seq(|items|, i requires 0 <= i < |items| => Suite(items[i]))
  }

  /** On C strings every abbreviation is accepted, and nothing else, however long the dictionary key is. */
  lemma SuitesKeyAbbreviated(key: string)
    requires '\0' !in key
    ensures IsCiphersuitesKey(key) <==> key <= "ciphersuites"
  {
    var n := Min(|key|, MAX_KEY_LEN);
    if |key| <= 12 {
      assert CPrefix(key, n) == key && CPrefix(CIPHERSUITES_KEY, n) == CIPHERSUITES_KEY[..n];
    } else {
      assert CPrefix(CIPHERSUITES_KEY, n)[12] == '\0' && CPrefix(key, n)[12] == key[12];
    }
  }

  /** The cipher suites that the entry of `key` appends. */
  function SuitesOf(d: map<string, Value>, key: string): seq<nat> {
    if key in d && IsCiphersuitesKey(key) && d[key].Array? then Suites(d[key].items) else []
  }

  /** The effect of one dictionary entry. */
  ghost function ApplyField(c: Content, d: map<string, Value>, key: string): Content {
    match FieldOf(key)
    case Some(BoolKey(b)) => PutBool(c, b, GetBool(d, key))
    case Some(IntKey(i)) => PutInt(c, i, GetUint64(d, key))
    case None => c
  }

  ghost function ApplyEntry(c: Content, d: map<string, Value>, key: string): Content {
    AddCiphersuites(ApplyField(c, d, key), SuitesOf(d, key))
  }

  ghost function Apply(c: Content, d: map<string, Value>, order: seq<string>): Content {
    if order == [] then c
    else ApplyEntry(Apply(c, d, order[..|order| - 1]), d, order[|order| - 1])
  }

  lemma ApplyStep(c: Content, d: map<string, Value>, order: seq<string>, k: nat)
    requires k < |order|
    ensures Apply(c, d, order[..k + 1]) == ApplyEntry(Apply(c, d, order[..k]), d, order[k])
  {
    hide ApplyEntry;
    var now := order[..k + 1];
    assert now[..|now| - 1] == order[..k];
  }

  lemma SuitesAccumulate(c: Content, a: seq<nat>, b: seq<nat>)
    ensures AddCiphersuites(AddCiphersuites(c, a), b) == AddCiphersuites(c, a + b)
  {
    var old' := c.ciphersuites.GetOr([]);
    assert old' + a + b == old' + (a + b);
    assert a == [] ==> a + b == b;
    assert b == [] ==> a + b == a;
  }

  /** A sec_protocol_options_t whose content the setters update. */
  class Options {
    var content: Content

    constructor (content: Content)
      ensures this.content == content
    {
      this.content := content;
    }

    method SetBool(b: BoolField, value: bool)
      modifies this
      ensures content == PutBool(old(content), b, value)
    {
      content := content.(on := if value then content.on + {b} else content.on - {b});
      if OverrideOf(b).Some? {
        content := content.(overrides := content.overrides + {OverrideOf(b).value});
      }
    }

    method SetInt(i: IntField, value: nat)
      modifies this
      ensures content == PutInt(old(content), i, value)
    {
      content := content.(ints := content.ints[i := value % Width(i)]);
    }

    method AppendTlsCiphersuite(suite: nat)
      modifies this
      ensures content == AddCiphersuites(old(content), [suite])
    {
      if content.ciphersuites.None? {
        content := content.(ciphersuites := Some([]));
      }
      content := content.(ciphersuites := Some(content.ciphersuites.value + [suite]));
    }

    /** The setter tables are searched for the key of one entry. */
    method RunSetters(d: map<string, Value>, key: string)
      requires '\0' !in key
      modifies this
      ensures content == ApplyField(old(content), d, key)
    {
      hide Name, KeyMatches, FieldOf, GetBool, GetUint64, PutBool, PutInt, OverrideOf, Width;
      ghost var before, field := content, FieldOf(key);
      var i := 0;
      while i < |BOOL_KEYS|
        invariant i <= |BOOL_KEYS|
        invariant content == if field.Some? && field.value.BoolKey? && BoolIndex(field.value.b) < i
                             then ApplyField(before, d, key) else before
      {
        NamedBy(key, BoolKey(BOOL_KEYS[i]));
        IndexOfKeys(i);
        if KeyMatches(key, Name(BoolKey(BOOL_KEYS[i]))) {
          SetBool(BOOL_KEYS[i], GetBool(d, key));
        }
        i := i + 1;
      }
      ghost var between := content;
      i := 0;
      while i < |INT_KEYS|
        invariant i <= |INT_KEYS|
        invariant content == if field.Some? && field.value.IntKey? && IntIndex(field.value.i) < i
                             then ApplyField(before, d, key) else between
      {
        NamedBy(key, IntKey(INT_KEYS[i]));
        IndexOfKeys(i);
        if KeyMatches(key, Name(IntKey(INT_KEYS[i]))) {
          SetInt(INT_KEYS[i], GetUint64(d, key));
        }
        i := i + 1;
      }
    }

    /** The elements of a cipher suite array are appended one by one. */
    method AppendTlsCiphersuites(items: seq<Value>)
      modifies this
      ensures content == AddCiphersuites(old(content), Suites(items))
    {
      var index := 0;
      while index < |items|
        invariant index <= |items|
        invariant content == AddCiphersuites(old(content), Suites(items)[..index])
      {
        AppendTlsCiphersuite(Suite(items[index]));
        SuitesAccumulate(old(content), Suites(items)[..index], [Suite(items[index])]);
        assert Suites(items)[..index + 1] == Suites(items)[..index] + [Suite(items[index])];
        index := index + 1;
      }
      assert Suites(items)[..index] == Suites(items);
    }

    /** _apply_config_options: the entries are visited in an order the dictionary chooses. */
    method ApplyConfigOptions(d: map<string, Value>, order: seq<string>)
      requires CStrings(d) && Enumerates(order, d.Keys)
      modifies this
      ensures content == Apply(old(content), d, order)
    {
      var k := 0;
      while k < |order|
        invariant k <= |order|
        invariant content == Apply(old(content), d, order[..k])
      {
        var key := order[k];
        RunSetters(d, key);
        ghost var c := content;
        if IsCiphersuitesKey(key) && d[key].Array? {
          AppendTlsCiphersuites(d[key].items);
        }
        assert content == AddCiphersuites(c, SuitesOf(d, key));
        ApplyStep(old(content), d, order, k);
        k := k + 1;
      }
      assert order[..k] == order;
    }

    method ApplyConfig(config: Config, order: seq<string>) returns (applied: bool)
      requires config.Dictionary? ==> CStrings(config.entries) && Enumerates(order, config.entries.Keys)
      modifies this
      ensures applied == config.Dictionary?
      ensures content == if applied then Apply(old(content), config.entries, order) else old(content)
    {
      if config.NotADictionary? {
        return false;
      }
      ApplyConfigOptions(config.entries, order);
      applied := true;
    }
  }

  lemma NamedBy(key: string, f: Field)
    requires '\0' !in key
    ensures KeyMatches(key, Name(f)) <==> FieldOf(key) == Some(f)
  {
    hide Name, KeyMatches;
    KeyMatchesExactly(key, f);
    FieldOfName(f);
  }
}
