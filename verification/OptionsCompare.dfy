/** The four comparison modes of protocol options. */
module OptionsCompare {
  import opened Bytes
  import opened Dictionaries
  import DispatchData
  import opened ProtocolOptions
  import OptionsConfig

  datatype Mode = Equal | Association | Joining | JoiningProxy

  /** Deep equalities of other frameworks, and the CF object behind an identity. */
  datatype Foreign = Foreign(
    xpcEqual: (Ref, Ref) -> bool, cfEqual: (Ref, Ref) -> bool, identityRef: Ref -> Ref)

  /** The queue is compared only when both blocks are there. */
  predicate SameHandler(a: Handler, b: Handler) {
    if a.block.Some? && b.block.Some? then a.block == b.block && a.queue == b.queue
    else a.block.None? && b.block.None?
  }

  predicate SameBuffer(a: Option<seq<seq<Byte>>>, b: Option<seq<seq<Byte>>>) {
    DispatchData.SameOption(a, b, DispatchData.SameBytes)
  }

  predicate IsIdentityEqual(f: Foreign, a: Ref, b: Ref) {
    f.cfEqual(f.identityRef(a), f.identityRef(b))
  }

  /** The macro that compares the codepoint setting in one direction. */
  predicate CodepointPasses(a: Content, b: Content) {
    QuicUseLegacyCodepoint !in a.on && QuicUseLegacyCodepointOverride in a.overrides ==>
      QuicUseLegacyCodepoint !in b.on && QuicUseLegacyCodepointOverride in b.overrides
  }

  predicate IsJoining(mode: Mode) {
    mode.Joining? || mode.JoiningProxy?
  }

  predicate SameHandlers(a: Content, b: Content) {
    && SameHandler(a.keyUpdate, b.keyUpdate)
    && SameHandler(a.pskSelection, b.pskSelection)
    && SameHandler(a.challenge, b.challenge)
    && SameHandler(a.verify, b.verify)
    && SameHandler(a.tlsSecretUpdate, b.tlsSecretUpdate)
    && SameHandler(a.tlsEncryptionLevelUpdate, b.tlsEncryptionLevelUpdate)
  }

  /** The fields compared one by one; the codepoint bit has a rule of its own. */
  predicate SameFields(a: Content, b: Content) {
    && a.ints == b.ints
    && a.on - {QuicUseLegacyCodepoint} == b.on - {QuicUseLegacyCodepoint}
    && a.allowUnknownAlpnProtos == b.allowUnknownAlpnProtos
  }

  /** The three objects that other frameworks compare. */
  predicate SameForeign(f: Foreign, a: Content, b: Content) {
    && DispatchData.SameOption(a.keyExchangeGroups, b.keyExchangeGroups, f.xpcEqual)
    && DispatchData.SameOption(a.preSharedKeys, b.preSharedKeys, f.xpcEqual)
    && DispatchData.SameOption(a.identity, b.identity, (x: Ref, y: Ref) => IsIdentityEqual(f, x, y))
  }

  predicate SameObjects(f: Foreign, a: Content, b: Content) {
    && SameBuffer(a.dhParams, b.dhParams)
    && SameBuffer(a.quicTransportParameters, b.quicTransportParameters)
    && SameBuffer(a.pskIdentityHint, b.pskIdentityHint)
    && a.applicationProtocols == b.applicationProtocols
    && a.ciphersuites == b.ciphersuites
    && a.serverName == b.serverName
    && SameForeign(f, a, b)
    && a.outputHandlerAccess == b.outputHandlerAccess
  }

  /** The comparison of two contents in every mode but association. */
  predicate Compare(f: Foreign, a: Content, b: Content, mode: Mode) {
    && SameFields(a, b)
    && (IsJoining(mode) || (CodepointPasses(a, b) && CodepointPasses(b, a)))
    && (if IsJoining(mode) && (a.joiningContext.Some? || b.joiningContext.Some?)
        then a.joiningContext == b.joiningContext
        else SameHandlers(a, b))
    && SameObjects(f, a, b)
  }

  /** sec_protocol_options_contents_compare: identical pointers compare equal, a missing content never does. */
  predicate ContentsCompare(f: Foreign, a: Options?, b: Options?, mode: Mode)
    reads a, b
  {
    if mode.Association? then true
    else if a == b then true
    else if a == null || b == null then false
    else Compare(f, a.content, b.content, mode)
  }

  ghost predicate Lawful(f: Foreign) {
    DispatchData.Equivalence(f.xpcEqual) && DispatchData.Equivalence(f.cfEqual)
  }

  /**
    Every mode compares by an equivalence relation when the foreign equalities are equivalences; reflexivity
    does not depend on the pointer shortcut, and whatever the mode, everything is associated.
   */
  lemma CompareIsEquivalence(f: Foreign, a: Options?, b: Options?, c: Options?, mode: Mode)
    requires Lawful(f)
    ensures ContentsCompare(f, a, a, mode) && (a != null ==> Compare(f, a.content, a.content, mode))
    ensures ContentsCompare(f, a, b, mode) ==> ContentsCompare(f, b, a, mode)
    ensures ContentsCompare(f, a, b, mode) && ContentsCompare(f, b, c, mode) ==> ContentsCompare(f, a, c, mode)
    ensures ContentsCompare(f, a, b, mode) ==> ContentsCompare(f, a, b, Association)
  {
    hide Compare;
    if a != null {
      CompareIsReflexive(f, a.content, mode);
    }
    if a != null && b != null {
      CompareIsSymmetric(f, a.content, b.content, mode);
      if c != null {
        CompareIsTransitive(f, a.content, b.content, c.content, mode);
      }
    }
  }

  /**
    Association holds for any two contents, missing ones included.  In the other modes identical pointers compare
    equal, a missing content equals only a missing one, and the fields decide the rest.
   */
  lemma PointersCompared(f: Foreign, a: Options?, b: Options?, mode: Mode)
    ensures ContentsCompare(f, a, b, Association)
    ensures mode != Association && (a == null || b == null) ==> (ContentsCompare(f, a, b, mode) <==> a == b)
    ensures mode != Association && a != null && b != null ==>
              (ContentsCompare(f, a, b, mode) <==> a == b || Compare(f, a.content, b.content, mode))
  {
  }

  lemma CompareIsSymmetric(f: Foreign, a: Content, b: Content, mode: Mode)
    requires Lawful(f)
    ensures Compare(f, a, b, mode) ==> Compare(f, b, a, mode)
  {
    hide Compare, NormalForm;
    CompareIsNormalEquality(f, a, b, mode);
    CompareIsNormalEquality(f, b, a, mode);
  }

  lemma CompareIsTransitive(f: Foreign, a: Content, b: Content, c: Content, mode: Mode)
    requires Lawful(f)
    ensures Compare(f, a, b, mode) && Compare(f, b, c, mode) ==> Compare(f, a, c, mode)
  {
    hide Compare, NormalForm;
    CompareIsNormalEquality(f, a, b, mode);
    CompareIsNormalEquality(f, b, c, mode);
    CompareIsNormalEquality(f, a, c, mode);
    if Compare(f, a, b, mode) && Compare(f, b, c, mode) {
      ObjectsTransitive(f, a.keyExchangeGroups, b.keyExchangeGroups, c.keyExchangeGroups);
      ObjectsTransitive(f, a.preSharedKeys, b.preSharedKeys, c.preSharedKeys);
    }
  }

  lemma ObjectsTransitive(f: Foreign, a: Option<Ref>, b: Option<Ref>, c: Option<Ref>)
    requires Lawful(f)
    requires DispatchData.SameOption(a, b, f.xpcEqual) && DispatchData.SameOption(b, c, f.xpcEqual)
    ensures DispatchData.SameOption(a, c, f.xpcEqual)
  {
  }

  /** Without the pointer shortcut a content still equals itself. */
  lemma CompareIsReflexive(f: Foreign, a: Content, mode: Mode)
    requires Lawful(f)
    ensures Compare(f, a, a, mode)
  {
  }

  /** The codepoint rule is equality of what the getter returns. */
  lemma CodepointRule(a: Content, b: Content)
    ensures CodepointPasses(a, b) && CodepointPasses(b, a)
       <==> OptionsConfig.UsesLegacyCodepoint(a) == OptionsConfig.UsesLegacyCodepoint(b)
  {
  }

  // ---------------------------------------------------------------- normal forms

  function NormalHandler(h: Handler): Handler {
    if h.block.None? then Handler(None, None) else h
  }

  function NormalBuffer(data: Option<seq<seq<Byte>>>): Option<seq<seq<Byte>>> {
    if data.Some? then Some([Flatten(data.value)]) else None
  }

  /** The codepoint counts as what its getter returns, or not at all when joining. */
  function NormalBits(c: Content, mode: Mode): set<BoolField> {
    if !IsJoining(mode) && OptionsConfig.UsesLegacyCodepoint(c) then c.on + {QuicUseLegacyCodepoint}
    else c.on - {QuicUseLegacyCodepoint}
  }

  function NormalHandlers(c: Content): Content {
    c.(keyUpdate := NormalHandler(c.keyUpdate), pskSelection := NormalHandler(c.pskSelection),
       challenge := NormalHandler(c.challenge), verify := NormalHandler(c.verify),
       tlsSecretUpdate := NormalHandler(c.tlsSecretUpdate),
       tlsEncryptionLevelUpdate := NormalHandler(c.tlsEncryptionLevelUpdate))
  }

  function NoHandlers(c: Content): Content {
    var none := Handler(None, None);
    c.(keyUpdate := none, pskSelection := none, challenge := none, verify := none, tlsSecretUpdate := none,
       tlsEncryptionLevelUpdate := none)
  }

  /**
    What a mode sees of a content, apart from the three objects compared by other frameworks: a joining
    context stands for all the handlers, and nothing else of the context is seen.
   */
  function NormalForm(c: Content, mode: Mode): Content {
    var joined := IsJoining(mode) && c.joiningContext.Some?;
    var handled := if joined then NoHandlers(c) else NormalHandlers(c).(joiningContext := None);
    handled.(
      on := NormalBits(c, mode), overrides := {}, rest := [],
      dhParams := NormalBuffer(c.dhParams), quicTransportParameters := NormalBuffer(c.quicTransportParameters),
      pskIdentityHint := NormalBuffer(c.pskIdentityHint),
      keyExchangeGroups := None, preSharedKeys := None, identity := None)
  }

  /** Two objects are both missing, or both there and equal, the identities by what they refer to. */
  lemma ForeignCompared(f: Foreign, a: Content, b: Content)
    ensures SameForeign(f, a, b) <==>
            && (match (a.keyExchangeGroups, b.keyExchangeGroups)
                case (None, None) => true
                case (Some(x), Some(y)) => f.xpcEqual(x, y)
                case _ => false)
            && (match (a.preSharedKeys, b.preSharedKeys)
                case (None, None) => true
                case (Some(x), Some(y)) => f.xpcEqual(x, y)
                case _ => false)
            && (match (a.identity, b.identity)
                case (None, None) => true
                case (Some(x), Some(y)) => f.cfEqual(f.identityRef(x), f.identityRef(y))
                case _ => false)
  {
  }

  /** Comparing field by field is equality of normal forms, and of the three foreign objects. */
  lemma CompareIsNormalEquality(f: Foreign, a: Content, b: Content, mode: Mode)
    ensures Compare(f, a, b, mode) <==> NormalForm(a, mode) == NormalForm(b, mode) && SameForeign(f, a, b)
  {
    hide Compare, NormalForm;
    if IsJoining(mode) && (a.joiningContext.Some? || b.joiningContext.Some?) {
      JoinedNormal(f, a, b, mode);
    } else {
      ApartNormal(f, a, b, mode);
    }
  }

  lemma JoinedNormal(f: Foreign, a: Content, b: Content, mode: Mode)
    requires IsJoining(mode) && (a.joiningContext.Some? || b.joiningContext.Some?)
    ensures Compare(f, a, b, mode) <==> NormalForm(a, mode) == NormalForm(b, mode) && SameForeign(f, a, b)
  {
    hide DispatchData.SameOption, SameBuffer, NormalBuffer, SameHandlers, NormalHandlers, NormalBits;
    BuffersNormal(a.dhParams, b.dhParams);
    BuffersNormal(a.quicTransportParameters, b.quicTransportParameters);
    BuffersNormal(a.pskIdentityHint, b.pskIdentityHint);
    BitsNormal(a, b, mode);
  }

  lemma ApartNormal(f: Foreign, a: Content, b: Content, mode: Mode)
    requires IsJoining(mode) ==> a.joiningContext == b.joiningContext == None
    ensures Compare(f, a, b, mode) <==> NormalForm(a, mode) == NormalForm(b, mode) && SameForeign(f, a, b)
  {
    hide DispatchData.SameOption, SameBuffer, NormalBuffer, SameHandlers, NormalHandlers, NormalBits;
    BuffersNormal(a.dhParams, b.dhParams);
    BuffersNormal(a.quicTransportParameters, b.quicTransportParameters);
    BuffersNormal(a.pskIdentityHint, b.pskIdentityHint);
    HandlersNormal(a, b);
    BitsNormal(a, b, mode);
  }

  lemma BuffersNormal(a: Option<seq<seq<Byte>>>, b: Option<seq<seq<Byte>>>)
    ensures SameBuffer(a, b) <==> NormalBuffer(a) == NormalBuffer(b)
  {
    if a.Some? && b.Some? {
      assert [Flatten(a.value)][0] == Flatten(a.value);
      assert [Flatten(b.value)][0] == Flatten(b.value);
    }
  }

  /** Both handler sets in one neutral content. */
  lemma HandlersNormal(a: Content, b: Content)
    ensures SameHandlers(a, b) <==>
            && NormalHandlers(a).keyUpdate == NormalHandlers(b).keyUpdate
            && NormalHandlers(a).pskSelection == NormalHandlers(b).pskSelection
            && NormalHandlers(a).challenge == NormalHandlers(b).challenge
            && NormalHandlers(a).verify == NormalHandlers(b).verify
            && NormalHandlers(a).tlsSecretUpdate == NormalHandlers(b).tlsSecretUpdate
            && NormalHandlers(a).tlsEncryptionLevelUpdate == NormalHandlers(b).tlsEncryptionLevelUpdate
    ensures NormalHandlers(a) ==
            a.(keyUpdate := NormalHandlers(a).keyUpdate, pskSelection := NormalHandlers(a).pskSelection,
               challenge := NormalHandlers(a).challenge, verify := NormalHandlers(a).verify,
               tlsSecretUpdate := NormalHandlers(a).tlsSecretUpdate,
               tlsEncryptionLevelUpdate := NormalHandlers(a).tlsEncryptionLevelUpdate)
    ensures NormalHandlers(b) ==
            b.(keyUpdate := NormalHandlers(b).keyUpdate, pskSelection := NormalHandlers(b).pskSelection,
               challenge := NormalHandlers(b).challenge, verify := NormalHandlers(b).verify,
               tlsSecretUpdate := NormalHandlers(b).tlsSecretUpdate,
               tlsEncryptionLevelUpdate := NormalHandlers(b).tlsEncryptionLevelUpdate)
  {
  }

  lemma BitsNormal(a: Content, b: Content, mode: Mode)
    ensures NormalBits(a, mode) == NormalBits(b, mode) <==>
            && a.on - {QuicUseLegacyCodepoint} == b.on - {QuicUseLegacyCodepoint}
            && (IsJoining(mode) || (CodepointPasses(a, b) && CodepointPasses(b, a)))
  {
    CodepointRule(a, b);
    var x := QuicUseLegacyCodepoint;
    assert NormalBits(a, mode) - {x} == a.on - {x} && NormalBits(b, mode) - {x} == b.on - {x};
    assert x in NormalBits(a, mode) <==> !IsJoining(mode) && OptionsConfig.UsesLegacyCodepoint(a);
    assert x in NormalBits(b, mode) <==> !IsJoining(mode) && OptionsConfig.UsesLegacyCodepoint(b);
    if
      && NormalBits(a, mode) - {x} == NormalBits(b, mode) - {x}
      && (x in NormalBits(a, mode) <==> x in NormalBits(b, mode))
    {
      forall b' : BoolField
        ensures b' in NormalBits(a, mode) <==> b' in NormalBits(b, mode)
      {
        assert b' != x ==> (b' in NormalBits(a, mode) <==> b' in NormalBits(a, mode) - {x});
        assert b' != x ==> (b' in NormalBits(b, mode) <==> b' in NormalBits(b, mode) - {x});
      }
    }
  }

  // ---------------------------------------------------------------- the modes

  /** How the modes are related: equality implies joining exactly when the joining contexts agree. */
  lemma ModesOrdered(f: Foreign, a: Content, b: Content)
    ensures Compare(f, a, b, Joining) <==> Compare(f, a, b, JoiningProxy)
    ensures Compare(f, a, b, Equal) ==> (Compare(f, a, b, Joining) <==> a.joiningContext == b.joiningContext)
    ensures Compare(f, a, b, Joining) && a.joiningContext == b.joiningContext == None ==>
              (Compare(f, a, b, Equal) <==>
                 OptionsConfig.UsesLegacyCodepoint(a) == OptionsConfig.UsesLegacyCodepoint(b))
  {
    CodepointRule(a, b);
  }

  /** A handler whose block is missing, with another queue. */
  function Requeued(h: Handler, queue: Option<Ref>): Handler {
    if h.block.None? then Handler(None, queue) else h
  }

  /** The queues of missing blocks, the override flags but one, and the remaining fields play no role. */
  lemma IgnoredFields(
    f: Foreign, a: Content, b: Content, mode: Mode, overrides: set<Override>, rest: seq<Ref>, queues: seq<Option<Ref>>)
    requires QuicUseLegacyCodepointOverride in overrides <==> QuicUseLegacyCodepointOverride in a.overrides
    requires |queues| == 6
    ensures var a' := a.(
              overrides := overrides, rest := rest, keyUpdate := Requeued(a.keyUpdate, queues[0]),
              pskSelection := Requeued(a.pskSelection, queues[1]), challenge := Requeued(a.challenge, queues[2]),
              verify := Requeued(a.verify, queues[3]), tlsSecretUpdate := Requeued(a.tlsSecretUpdate, queues[4]),
              tlsEncryptionLevelUpdate := Requeued(a.tlsEncryptionLevelUpdate, queues[5]));
            Compare(f, a', b, mode) <==> Compare(f, a, b, mode)
  {
    hide DispatchData.SameOption, SameBuffer, SameHandler, Requeued;
    RequeuedCompares(a.keyUpdate, queues[0], b.keyUpdate);
    RequeuedCompares(a.pskSelection, queues[1], b.pskSelection);
    RequeuedCompares(a.challenge, queues[2], b.challenge);
    RequeuedCompares(a.verify, queues[3], b.verify);
    RequeuedCompares(a.tlsSecretUpdate, queues[4], b.tlsSecretUpdate);
    RequeuedCompares(a.tlsEncryptionLevelUpdate, queues[5], b.tlsEncryptionLevelUpdate);
  }

  lemma RequeuedCompares(h: Handler, queue: Option<Ref>, other: Handler)
    ensures SameHandler(Requeued(h, queue), other) <==> SameHandler(h, other)
  {
  }

  /** Only the joining modes look at the joining context. */
  lemma ContextMattersToJoining(f: Foreign, a: Content, b: Content, mode: Mode, context: Option<Ref>)
    requires !IsJoining(mode)
    ensures Compare(f, a.(joiningContext := context), b, mode) <==> Compare(f, a, b, mode)
  {
    hide DispatchData.SameOption, SameBuffer;
  }

  /** Transferring a configuration makes the compared fields, other than the codepoint, equal. */
  lemma TransferredFieldsCompare(a: Content, b: Content, order: seq<string>)
    requires Enumerates(order, OptionsConfig.CreateConfig(a).Keys)
    requires a.allowUnknownAlpnProtos == b.allowUnknownAlpnProtos
    ensures SameFields(Apply(b, OptionsConfig.CreateConfig(a), order), a)
  {
    hide Apply, OptionsConfig.CreateConfig;
    OptionsConfig.Transfer(a, b, order);
  }
}
