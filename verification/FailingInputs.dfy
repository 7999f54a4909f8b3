/** Challenges and responses on which the engine does not do what its callers may expect. */
module NtlmInputs {
  import opened Bytes
  import opened Bits
  import opened NtlmBlob
  import opened NtlmMessages
  import opened NtlmGenerator
  import opened NtlmAuthentication

  function Zeros(n: nat): seq<Byte> {
    seq(n, _ => 0)
  }

  // ---------------------------------------------------------------- challenges

  /** One byte at the last 32-bit offset: the sum wraps to zero and passes the bounds check. */
  lemma StrayInput() returns (b: seq<Byte>)
    ensures |b| == 32 && ReadChallenge(Some(b)) == StrayRead
  {
    var slot := Slot(1, 0xFFFF_FFFF);
    var parts := [SIGNATURE, LittleEndian(2, 4), SecBuf(slot), LittleEndian(0, 4), Zeros(8)];
    b := Flatten(parts);
    HeaderRead(parts, b, slot);
    assert WrappedPast(b, 12);
    StrayReadExactly(b);
  }

  lemma HeaderRead(parts: seq<seq<Byte>>, b: seq<Byte>, slot: Slot)
    requires |parts| == 5 && parts[0] == SIGNATURE && parts[1] == LittleEndian(2, 4) && parts[2] == SecBuf(slot)
    requires |parts[3]| == 4 && |parts[4]| == 8 && b == Flatten(parts)
    requires slot.len < 0x1_0000 && slot.off < 0x1_0000_0000
    ensures |b| == 32 && HeaderOk(b) && ReadSlot(b, 12) == slot
  {
    hide Flatten, SecBuf, LittleEndian, FromLittleEndian;
    assert Start(parts, 0) == 0 && Start(parts, 1) == 8 && Start(parts, 2) == 12 && Start(parts, 3) == 20;
    assert Start(parts, 5) == 32;
    FlattenLength(parts);
    PartAt(parts, 0);
    PartAt(parts, 1);
    PartAt(parts, 2);
    ReadSecBuf(b, 12, slot);
    SmallWords();
    LittleEndianRoundTrip(2, 4);
  }

  /** A short challenge whose name is just long enough to be taken for two more fields. */
  lemma ShortChallengeInput()
    ensures ReadChallenge(Some(ShortChallenge(0, Zeros(8), Zeros(16)))) !=
            Parsed(Challenge(0, Zeros(8), Zeros(16), None))
  {
    ShortChallengeRoundTrip(0, Zeros(8), Zeros(16));
  }

  // ---------------------------------------------------------------- responses

  /** A platform without cryptography, on which upper-casing changes nothing. */
  function Plain(): Platform {
    Platform(
      (k, d) => Zeros(16), d => Zeros(16), d => Zeros(16), (k, d) => Some(Zeros(8)), s => s, s => None)
  }

  /** Unicode with target information, and Unicode with the NTLM2 key. */
  const V2_FLAGS := 0x80_0001
  const SESSION_FLAGS := 0x8_0001

  function ServerChallenge(flags: nat, info: seq<Byte>): Challenge {
    Challenge(flags, Zeros(8), [], Some(info))
  }

  function InputsFor(
    flags: nat, info: seq<Byte>, domain: Option<seq<Unichar>>, user: seq<Unichar>)
    : Inputs
  {
    Inputs(
      Some(ChallengeMessage(flags, Zeros(8), Zeros(8), [], info)), domain, user, Zeros(16), Zeros(8), 0, [])
  }

  lemma FlagsOfInputs()
    ensures HasFlag(V2_FLAGS, NEGOTIATE_TARGET_INFO)
    ensures HasFlag(V2_FLAGS, NEGOTIATE_UNICODE)
    ensures HasFlag(NW_NTLM_V2, NW_NTLM_V2)
    ensures HasFlag(SESSION_FLAGS, NEGOTIATE_NTLM2_KEY)
    ensures HasFlag(SESSION_FLAGS, NEGOTIATE_UNICODE)
    ensures HasFlag(NW_NTLM2, NW_NTLM2)
    ensures !HasFlag(NW_NTLM2, NW_NTLM_V2)
  {
    hide BitAnd;
    assert Pow2(0) == 1 && Pow2(1) == 2 && Pow2(2) == 4 && Pow2(9) == 0x200;
    assert Pow2(15) == 0x8000 && Pow2(19) == 0x8_0000 && Pow2(23) == 0x80_0000;
    TopBit(1, 19);
    TopBit(1, 23);
    FlagTest(V2_FLAGS, 23);
    FlagTest(V2_FLAGS, 0);
    FlagTest(SESSION_FLAGS, 19);
    FlagTest(SESSION_FLAGS, 0);
    FlagTest(NW_NTLM_V2, 2);
    FlagTest(NW_NTLM2, 1);
    FlagTest(NW_NTLM2, 2);
  }

  /** NTLMv2 responses exist for all target information and all names within the limits. */
  lemma V2ResponsesExist(info: seq<Byte>, domain: Option<seq<Unichar>>, user: seq<Unichar>)
    requires 0 < |info| < 0x1_0000
    requires |user| <= MAX_STRING_LEN && |domain.GetOr([])| <= MAX_STRING_LEN
    ensures V2Response(
              Plain(), Fresh(NW_NTLM_V2), ServerChallenge(V2_FLAGS, info),
              InputsFor(V2_FLAGS, info, domain, user))
  {
    hide BitAnd, ReadChallenge, ChallengeMessage, AuthMessage;
    FlagsOfInputs();
    ChallengeRoundTrip(V2_FLAGS, Zeros(8), Zeros(8), [], info);
  }

  /** Session responses exist too, after a request. */
  lemma SessionResponsesExist()
    ensures var s := Run(
              Plain(), Fresh(NW_NTLM2), [Request]);
            var c, i := ServerChallenge(SESSION_FLAGS, []), InputsFor(SESSION_FLAGS, [], None, [0x75]);
            && Utf8Bounded(Plain())
            && ReadChallenge(i.serverBlob) == Parsed(c)
            && !V2Offered(s.which, c)
            && Respond(Plain(), s, i).1.Response?
  {
    hide BitAnd, ReadChallenge, ChallengeMessage, AuthMessage;
    FlagsOfInputs();
    ChallengeRoundTrip(SESSION_FLAGS, Zeros(8), Zeros(8), [], []);
    RunByHistory(Plain(), NW_NTLM2, [Request]);
  }

  /** One byte more of target information than fits: some keyed hash refuses the response. */
  lemma InfoTooLong()
    ensures var i := InputsFor(V2_FLAGS, Zeros(65488), None, [0x75]);
            !forall h, t ::
               AcceptedWith(
                 Plain(), Fresh(NW_NTLM_V2), i.(stale := t), Zeros(8), h)
  {
    hide V2Response, AcceptedWith;
    var info := Zeros(65488);
    V2ResponsesExist(info, None, [0x75]);
    V2AcceptedExactly(
      Plain(), Fresh(NW_NTLM_V2), ServerChallenge(V2_FLAGS, info),
      InputsFor(V2_FLAGS, info, None, [0x75]));
  }

  /** Names that fit one by one but not together: some keyed hash refuses the response. */
  lemma NamesTooLong()
    ensures var name: seq<Unichar> := seq(1025, _ => 0x75);
            var i := InputsFor(V2_FLAGS, [0], Some(name), name);
            !forall h, t ::
               AcceptedWith(
                 Plain(), Fresh(NW_NTLM_V2), i.(stale := t), Zeros(8), h)
  {
    hide V2Response, AcceptedWith;
    var name: seq<Unichar> := seq(1025, _ => 0x75);
    V2ResponsesExist([0], Some(name), name);
    V2AcceptedExactly(
      Plain(), Fresh(NW_NTLM_V2), ServerChallenge(V2_FLAGS, [0]),
      InputsFor(V2_FLAGS, [0], Some(name), name));
  }
}

/** Configurations whose meaning depends on order, width or defaults. */
module OptionsInputs {
  import opened Dictionaries
  import opened ProtocolOptions
  import opened OptionsConfig

  /** An abbreviation of "ciphersuites" beside the full key. */
  lemma OrderMatters()
    ensures !OrderIndependent(
               map["c" := Array([UInt64(1)]),
                   "ciphersuites" := Array([UInt64(2)])])
  {
    var d := map["c" := Array([UInt64(1)]),
                 "ciphersuites" := Array([UInt64(2)])];
    assert SuitesOf(d, "c") == [1];
    assert SuitesOf(d, "ciphersuites") == [2];
    assert ([1] + [2])[0] == 1 && ([2] + [1])[0] == 2;
    assert !Commute(SuitesOf(d, "c"), SuitesOf(d, "ciphersuites"));
    OrderIndependence(d);
  }

  /** A version that does not fit 16 bits never matches, however often it is applied. */
  lemma WideVersion(c: Content)
    ensures var d := map["min_version" := UInt64(0x1_0000)];
            && !MatchesAfterApply(c, d, ["min_version"])
            && !MatchIsFixpoint(Apply(c, d, ["min_version"]), d, ["min_version"])
  {
    hide MatchesAfterApply, MatchIsFixpoint, Apply;
    var d := map["min_version" := UInt64(0x1_0000)];
    assert Name(IntKey(MinVersion)) == "min_version";
    WideConfig(c, d, ["min_version"], MinVersion);
  }

  /** The default codepoint is not serialized as such. */
  lemma CodepointLost(b: Content, order: seq<string>)
    requires Enumerates(order, CreateConfig(EmptyContent()).Keys)
    ensures var a := EmptyContent();
            && UsesLegacyCodepoint(a)
            && !UsesLegacyCodepoint(Apply(b, CreateConfig(a), order))
  {
    hide CreateConfig, Apply;
    CodepointTransfer(EmptyContent(), b, order);
  }
}

/** Descriptors and command lines that are read otherwise than they look. */
module ArgInputs {
  import opened Bytes
  import opened Strings
  import opened ArgTables
  import opened ArgParse
  import opened ArgOptions
  import opened ArgWords

  function LongOnly(name: string): Argument {
    ZERO.(longname := Some(name))
  }

  /** --ab triggers -a's descriptor as well. */
  lemma PrefixTriggersBoth()
    ensures LongTrace([HELP, LongOnly("a"), LongOnly("ab")], "ab") == [1, 2]
  {
    hide StartsWith;
    var one, two, three := [HELP], [HELP, LongOnly("a")], [HELP, LongOnly("a"), LongOnly("ab")];
    assert one[..0] == [] && two[..1] == one && three[..2] == two;
    StartsWithIsPrefix("ab", "help");
    StartsWithIsPrefix("ab", "a");
    StartsWithIsPrefix("ab", "ab");
    assert LongTrace(one, "ab") == [];
    assert LongTrace(two, "ab") == [1];
  }

  /** A colon for a short name makes help take an argument. */
  lemma ColonIsMisread()
    ensures var options := [HELP, ZERO.(shortname := ':')];
            Decode(ShortString(options)) != Wanted(options)
  {
    var options := [HELP, ZERO.(shortname := ':')];
    ShortOptionsDecode(options);
    assert options[1].shortname == ':';
  }

  /** -o or --out, which sets a flag and may have an argument. */
  function OptionalOut(): Argument {
    ZERO.(shortname := 'o', longname := Some("out"), flag := Some(0), flagval := 1, argument := Some(1))
  }

  /** A flag and a destination: the long table lets the argument be left out, the string has none. */
  lemma OptionalIsLost()
    ensures var o := OptionalOut();
            && EntryOf(o).hasArg.OptionalArgument?
            && NoColon([HELP, o]) && Wanted([HELP, o]) == [('h', NoArgument), ('o', OptionalArgument)]
            && Decode(ShortString([HELP, o])) == [('h', NoArgument), ('o', NoArgument)]
  {
    var o := OptionalOut();
    var one, two := [HELP], [HELP, o];
    assert one[..0] == [] && two[..1] == one && two[1..] == [o];
    assert ShortString(one) == "h";
    assert ShortString(two) == "ho";
    assert "ho"[1..] == "o";
    assert Wanted([o]) == [('o', OptionalArgument)];
  }

  /** A long option with a value but no flag is an unknown short one. */
  lemma ValueIsUnknown(store: Store)
    ensures var o := ZERO.(longname := Some("level"), argument := Some(0), flagval := 2);
            Step(store, [HELP, o], TableOf([HELP, o]), Event(ReturnedCode(EntryOf(o)), 1, Some("x"))) == Failure(store)
  {
    var o := ZERO.(longname := Some("level"), argument := Some(0), flagval := 2);
    assert ReturnedCode(EntryOf(o)) == 2;
    assert FirstShort([HELP, o], 2) == 2;
  }

  /** A flag makes a repeatable option lose its argument. */
  lemma FlagHidesArray()
    ensures Status(
              ZERO.(flag := Some(0), argumentArray := Some(Repeatable(0, 0)))).NoArgument?
  {
  }

  /** Help and 1024 more descriptors with long names. */
  function ManyNamed(): (all: seq<Argument>)
    ensures |all| == 1025 && forall i :: 0 <= i < |all| ==> all[i].longname.Some?
  {
    [HELP] + seq(1024, i requires 0 <= i < 1024 => LongOnly("x" + seq(i, _ => 'y')))
  }

  /** The last of them has no entry. */
  lemma LastNameIsMissing()
    ensures |TableOf(ManyNamed())| == 1025 && TableOf(ManyNamed())[1024] == ZERO_OPTION
    ensures |Named(ManyNamed())| == 1025
  {
    hide Entries, Named, ManyNamed;
    TableIsComplete(ManyNamed());
    AllNamed(ManyNamed());
    EntriesAreNamed(ManyNamed());
  }

  lemma {:induction false} AllNamed(options: seq<Argument>)
    requires forall i :: 0 <= i < |options| ==> options[i].longname.Some?
    ensures |Named(options)| == |options|
  {
    if options != [] {
      AllNamed(options[..|options| - 1]);
    }
  }

  /** Two words for one positional descriptor without a destination. */
  lemma WordsAreSwallowed(store: Store)
    ensures var options := [HELP, ZERO.(positionalName := Some("p"))];
            && !WordsFit(options, ["a", "b"])
            && Scan(store, options, ["a", "b"], 0).success
  {
    var options := [HELP, ZERO.(positionalName := Some("p"))];
    assert options[1..][1..] == [];
    assert |Positionals(options)| == 1;
    assert !IsCommand(options, "a") && !IsCommand(options, "b");
    assert ["a", "b"][1..] == ["b"];
  }
}
