# Verified models of four protocol components

A Dafny model of the parts of this repository whose behaviour is decided by intricate byte-level,
table-level or order-dependent code, and proofs of what that code promises.

**NTLM messages and authentication** (`ntlm/`). Messages are byte strings that a growable buffer
builds by appending, with security buffers whose offsets are patched in afterwards (`NtlmBlob`).
`NtlmMessages` holds the layouts of [MS-NLMP], sections 2.2.1.2 and 2.2.1.3, the challenge parser and
readers written independently of the writers. `NtlmGenerator` is the engine with its two mutable
fields. `NtlmAuthentication` states what messages mean to a server (sections 3.3.1 and 3.3.2 of
[MS-NLMP]) and what every run of a generator keeps. HMAC-MD5, MD4, MD5, DES, upper-casing and UTF-8
conversion are arbitrary functions (`Platform`); the clock and the random nonce are inputs. Machine
widths are explicit: lengths are cut to 16 bits where they are written, and bounds are checked on
32-bit sums.

**TLS options and metadata** (`protocol/`). `DispatchData` compares fragmented buffers and arrays of
objects. `ProtocolOptions` is the options content with the setters that configurations use, and
`OptionsConfig` creates, matches and applies configurations. `OptionsCompare` has the four comparison
modes, and `Alpn` the application protocols of a connection. One-bit fields are sets of field names;
setters of the same shape are one method over the field.

**Argument parser** (`lib/SecArgParse.c`). `ArgTables` builds the tables for `getopt_long`,
`ArgParse` is the parser for an arbitrary sequence of `getopt_long` results. `ArgOptions` and `ArgWords`
say what options and words mean, and `ArgParseMeaning` what a whole command line means. The caller's
variables are a store indexed by address and C type.

**Entitlement filter** (`codesign_wrapper/check_entitlements.c`). `Entitlements` is the filter, which
updates three flags while a dictionary is walked, and the order-free policy that it implements.

`Bytes`, `Bits`, `Strings` and `Dictionaries` hold words, numerals, the bitwise operators of C, its
string comparison and dictionary enumerations. `NtlmInputs`, `OptionsInputs` and `ArgInputs` hold
concrete inputs on which a property fails, or which show that responses exist.

## Where code and documentation differ

The model follows the code.

- ntlm/NtlmGenerator.h:39-40 announces three variants; the engine never negotiates NTLM1
  (`NtlmAuthentication.NegotiationInvariant`).
- ntlm/NtlmGenerator.c:256 ignores a failed conversion of user and domain, so names of more than 2048
  units in all are signed with whatever a null pointer and an uninitialized length give. That value is the
  input `stale`, and `NtlmAuthentication.V2AcceptedExactly` gives the exact condition.
- ntlm/ntlmBlobPriv.c:147-151 promises that a security buffer does not go past the end of the data,
  but its sum wraps at 32 bits. Such a read is the outcome `StrayRead`, characterized by
  `NtlmMessages.StrayReadExactly`.
- ntlm/NtlmGenerator.c:166-184 calls the later fields optional by the length of the message, so a short
  challenge with a long name is read as if it had them (`NtlmMessages.ShortChallengeRoundTrip`).
- protocol/SecProtocol.c:2681 accepts every abbreviation of "ciphersuites". Applying a configuration is
  therefore order-independent only under the condition in `OptionsConfig.OrderIndependence`.
- protocol/SecProtocol.c:2628-2651 calls narrow setters through a 64-bit signature, so values that are too
  wide are cut and no longer match (`OptionsConfig.MatchAndApply`).
- protocol/SecProtocol.c:571-658 hides a name added for the transport "any" from every other transport
  (`Alpn.WildcardNamesStayHidden`).
- lib/SecArgParse.c:31-35 says that a repeatable option requires its argument; this fails when a flag is
  set too (`ArgTables.Status`, `ArgInputs.FlagHidesArray`).
- lib/SecArgParse.c:88-94 writes a colon for a required argument only, so an argument that lib/SecArgParse.c:31-36
  calls optional is none for the short name (`ArgTables.ShortOptionsDecode`, `ArgInputs.OptionalIsLost`).
- lib/SecArgParse.c:60-61 hands the value of an option to getopt_long, which returns it for an option without a
  flag, so a value other than zero is taken for a short name (`ArgOptions.LongOptionReached`, `ArgInputs.ValueIsUnknown`).
- lib/SecArgParse.c:191 compares long names by prefix, so one option can set several
  (`ArgOptions.LongOptionsAreExact`).
- lib/SecArgParse.c:245-248 stops advancing at a positional descriptor without a destination, which
  swallows all later words (`ArgWords.WordsMustFit`).

## Model

| member | source | states |
|---|---|---|
| NtlmBlob.MutableData.AppendUint64 | ntlm/ntlmBlobPriv.c:61-77 | appends eight bytes, least significant first, the word modulo 2^64 |
| NtlmBlob.MutableData.AppendUint32 | ntlm/ntlmBlobPriv.c:80-96 | appends four bytes, the word modulo 2^32 |
| NtlmBlob.MutableData.AppendUint16 | ntlm/ntlmBlobPriv.c:99-106 | appends two bytes, the word modulo 2^16 |
| Bytes.LittleEndianByte | ntlm/ntlmBlobPriv.c:61-106 | byte k of a word is its digit of weight 256^k |
| NtlmBlob.MutableData.AppendSecBuf | ntlm/ntlmBlobPriv.c:113-131 | appends a security buffer with an empty offset, its length cut to 16 bits, and returns the index of the offset |
| NtlmBlob.MutableData.SecBufOffset | ntlm/ntlmBlobPriv.c:136-145 | writes the old length at the index; the length and all other bytes stay |
| NtlmBlob.PatchSecBuf | ntlm/ntlmBlobPriv.c:136-145 | patching a security buffer anywhere in a message changes exactly that buffer's offset, for messages of any number of parts |
| NtlmBlob.ReadSecBuf | ntlm/ntlmBlobPriv.c:161-164 | reading what was written gives the length modulo 2^16 and the offset modulo 2^32 |
| NtlmBlob.SecBufBytes | ntlm/ntlmBlobPriv.c:118-123 | the length stands twice, before the offset |
| NtlmBlob.ParseSecBufferInside | ntlm/ntlmBlobPriv.c:152-172 | an accepted payload lies inside the buffer if and only if offset plus length did not wrap at 32 bits |
| NtlmBlob.NtlmStringToLE | ntlm/ntlmBlobPriv.c:180-205 | the little-endian UTF-16 bytes of every string up to 2048 units, an error exactly beyond |
| NtlmBlob.Utf16RoundTrip | ntlm/ntlmBlobPriv.c:195-199 | an independent reader recovers every string |
| NtlmBlob.Utf16Bytes | ntlm/ntlmBlobPriv.c:195-199 | unit i is at bytes 2i and 2i + 1, the low byte first |
| NtlmBlob.FlattenedSpells | ntlm/ntlmBlobPriv.c:212-261 | which names can be flattened, and that the result spells the name in UTF-16, ASCII or UTF-8 |
| NtlmBlob.HostNameSpells | ntlm/ntlmBlobPriv.c:277-303 | the host field spells WORKSTATION in both encodings |
| NtlmBlob.FlattenedFits | ntlm/ntlmBlobPriv.c:212-261 | whatever the encoding, a flattened name fits a 16-bit length |
| NtlmBlob.ShiftsSpread | ntlm/ntlmBlobPriv.c:370-382 | the eight shifted and masked bytes are twice the base-128 digits of the 56-bit input |
| NtlmBlob.SpreadIsLossless | ntlm/ntlmBlobPriv.c:370-382 | two keys are equal if and only if the seven bytes they come from are |
| NtlmBlob.NtlmMakeDesKey | ntlm/ntlmBlobPriv.c:370-382 | fills the caller's array with the digit-based key, by the shifts of the code |
| NtlmBlob.KeysDetermineDigest | ntlm/ntlmBlobPriv.c:456-464 | all three keys agree if and only if the 16-byte digests do |
| NtlmBlob.LmResponseBlocks | ntlm/ntlmBlobPriv.c:460-471 | the three blocks are encryptions under any keys that spread the first seven, the next seven, and the last two digest bytes with five zeros |
| NtlmBlob.ResponseDeterminesDigest | ntlm/ntlmBlobPriv.c:451-473 | if encryption determines its key, two responses are equal if and only if the digests are |
| NtlmBlob.Lmv2Response | ntlm/ntlmBlobPriv.c:451-473 | the three blocks are written under those keys in order; false as soon as one fails, with the blocks before it written |
| NtlmMessages.NtlmParseServerChallenge | ntlm/NtlmGenerator.c:92-201 | the cursor-based parser computes the reading by absolute offsets, errors and optional tail included |
| NtlmMessages.WriteChallenge | ntlm/ntlmBlobPriv.c:113-145 | a challenge written by appends and back-patches has the layout of section 2.2.1.2 |
| NtlmMessages.ChallengeRoundTrip | ntlm/NtlmGenerator.c:126-200 | for every flags, nonce, name and information up to 65535 bytes the parser recovers what was written |
| NtlmMessages.ShortChallengeRoundTrip | ntlm/NtlmGenerator.c:166-184 | a challenge without information is read back if and only if its name is shorter than 16 bytes |
| NtlmMessages.ParsedSlices | ntlm/NtlmGenerator.c:124-200 | an accepted blob has the signature and type 2, its flags and nonce are at bytes 20 and 24, both slices lie inside it where the security buffers point, and there is target information exactly when the 32-bit length is 48 or more |
| NtlmMessages.RejectedExactly | ntlm/NtlmGenerator.c:108-191 | exactly which blobs are rejected, always as a parse error |
| NtlmMessages.SignatureSpells | ntlm/NtlmGenerator.c:126-130 | the signature is NTLMSSP and a zero byte |
| NtlmMessages.StrayReadExactly | ntlm/NtlmGenerator.c:142-200 | for every blob, bytes outside it are copied if and only if a bounds check passed by wrapping |
| NtlmMessages.AuthRoundTrip | ntlm/NtlmGenerator.c:488-623 | reading at offsets 12, 20, 28, 36, 44 and 52 recovers the fields and the empty session key, with the NTLM response cut modulo 2^16 |
| NtlmMessages.AuthTiles | ntlm/NtlmGenerator.c:607-623 | the payloads tile the message from byte 64 to its end in header order, with no gap and no overlap |
| NtlmMessages.AuthFlags | ntlm/NtlmGenerator.c:488-492 | the signature, type 3, and the flags at byte 60 |
| NtlmGenerator.NtlmGenerateNtlmV2Response | ntlm/NtlmGenerator.c:206-329 | both responses of NTLMv2, from names, hash, challenge, information, nonce and time |
| NtlmGenerator.Generator.constructor | ntlm/NtlmGenerator.c:334-348 | a new generator has negotiated nothing and sent no flags |
| NtlmGenerator.Generator.NtlmCreateClientRequest | ntlm/NtlmGenerator.c:359-394 | the first message, and the sent flags as the only change of state |
| NtlmGenerator.RequestRead | ntlm/NtlmGenerator.c:367-390 | a reader of the first message finds 32 bytes: signature, type 1, the flags at byte 12 and two empty security buffers |
| NtlmGenerator.StartPayload | ntlm/NtlmGenerator.c:608-623 | one back-patch and append keeps the header consistent and announces the payload where it starts |
| NtlmGenerator.WritePayloads | ntlm/NtlmGenerator.c:607-623 | five of them, four without a domain, complete the layout of section 2.2.1.3 |
| NtlmGenerator.WriteResponse | ntlm/NtlmGenerator.c:509-623 | from the header on, the whole message or the conversion error |
| NtlmGenerator.Generator.NtlmRespond | ntlm/NtlmGenerator.c:425-644 | the response and the new state are those of the step function, on every path |
| NtlmGenerator.Generator.NtlmCreateClientResponse | ntlm/NtlmGenerator.c:399-423 | the same from a password; a password that is too long fails and changes nothing |
| NtlmAuthentication.RunCalls | ntlm/NtlmGenerator.c:359-423 | any calls on a generator, with hash or password, leave it in the state of the run |
| NtlmAuthentication.RunByHistory | ntlm/NtlmGenerator.c:334-423 | after any calls the fields are the last variant chosen and the standard flags if a request was made |
| NtlmAuthentication.NegotiationInvariant | ntlm/NtlmGenerator.c:374-382 | over every run the version is zero or an allowed NTLM2 or NTLMv2, and the flags zero or the standard value, with the NTLM2 key exactly when NTLM2 is allowed |
| NtlmAuthentication.SentFlagsValue | ntlm/NtlmGenerator.c:375-382 | the numeric value of the flags, and when bit 19 is set |
| NtlmAuthentication.ResponsesOfRuns | ntlm/NtlmGenerator.c:467-605 | every successful response of every run reads back, tiles, and has at byte 60 exactly the bits both sent and offered |
| NtlmAuthentication.ResponseNames | ntlm/NtlmGenerator.c:570-599 | every response carries the upper-cased domain, the user and WORKSTATION, in Unicode exactly when bit 0 was offered |
| NtlmAuthentication.VariantBits | ntlm/NtlmGenerator.c:494-520 | NTLMv2 needs bit 23 and target information, NTLM2 bit 19, and each its bit of the generator |
| NtlmAuthentication.RespondVerdict | ntlm/NtlmGenerator.c:467-605 | what becomes of every accepted challenge: the variant, the new state, a response or which error |
| NtlmAuthentication.RespondRejected | ntlm/NtlmGenerator.c:459-464 | without an accepted challenge nothing changes |
| NtlmAuthentication.ResponseLength | ntlm/NtlmGenerator.c:310-315 | 48 bytes more than the target information for NTLMv2, 24 otherwise |
| NtlmAuthentication.BlobRead | ntlm/NtlmGenerator.c:276-292 | the blob says its fixed bytes, the time at 8, the client nonce at 16, and the target information between zeros from 28 |
| NtlmAuthentication.V2Message | ntlm/NtlmGenerator.c:494-623 | the fields of every NTLMv2 message and what a reader makes of them |
| NtlmAuthentication.V2EndToEnd | ntlm/NtlmGenerator.c:206-329 | for every keyed hash the server, reading the message through its security buffers, accepts both proofs, finds the same nonce in them, and reads the time, the nonce and its own target information in the blob |
| NtlmAuthentication.V2AcceptedExactly | ntlm/NtlmGenerator.c:255-261 | it accepts for every keyed hash, and whatever a failed conversion leaves, if and only if the information has at most 65487 bytes and the upper-cased names at most 2048 units |
| NtlmAuthentication.V2AcceptedWithStale | ntlm/NtlmGenerator.c:255-261 | the same for one value of what a failed conversion leaves |
| NtlmAuthentication.CutResponseRefused | ntlm/NtlmGenerator.c:515-516 | a response longer than its 16-bit length is refused for some keyed hash |
| NtlmAuthentication.WrongKeyRefused | ntlm/NtlmGenerator.c:256-258 | so is one keyed with names whose conversion failed |
| NtlmAuthentication.SessionEndToEnd | ntlm/NtlmGenerator.c:520-567 | whenever NTLMv2 is not chosen, the server recomputes the NTLM2 session response from the nonce it reads, and NTLM2 is recorded |
| NtlmAuthentication.StandardKeyAgrees | ntlm/NtlmGenerator.c:235-240 | upper-casing user and domain together gives the key of the standard, which upper-cases the user only |
| DispatchData.DispatchDataAreEqual | protocol/SecProtocol.c:1979-2015 | the nested walks with early exits decide equality of the byte strings, so the answer is the same for all fragmentations |
| DispatchData.CompareRight | protocol/SecProtocol.c:1991-2011 | stopping the inner walk never skips an overlapping byte |
| DispatchData.SecArraysAreEqual | protocol/SecProtocol.c:2017-2077 | the quadratic walk decides equal length and equality at each index |
| DispatchData.PeersAreEqual | protocol/SecProtocol.c:2093-2127 | pointwise equality of the five peer fields; missing contents are never equal |
| DispatchData.ChallengeParametersAreEqual | protocol/SecProtocol.c:2129-2156 | the same for the three challenge fields |
| DispatchData.PeersCompared | protocol/SecProtocol.c:2107-2122 | exactly which fields of two peers must agree, and how missing ones count |
| DispatchData.ChallengesCompared | protocol/SecProtocol.c:2143-2151 | the same for challenge parameters |
| DispatchData.MetadataEquivalence | protocol/SecProtocol.c:2093-2156 | both are reflexive, symmetric and transitive when the foreign equalities are |
| OptionsCompare.CompareIsNormalEquality | protocol/SecProtocol.c:175-330 | in every mode the comparison is equality of normal forms together with the three foreign equalities |
| OptionsCompare.CompareIsEquivalence | protocol/SecProtocol.c:159-331 | in every mode, pointers and missing contents included, it is reflexive without the pointer shortcut, symmetric and transitive, and implies association |
| OptionsCompare.PointersCompared | protocol/SecProtocol.c:164-173 | association holds for any two contents, missing ones included; otherwise identical pointers are equal and a missing content equals only a missing one |
| OptionsCompare.ForeignCompared | protocol/SecProtocol.c:282-320 | how missing and present foreign objects compare |
| OptionsCompare.CodepointRule | protocol/SecProtocol.c:215-233 | the two-sided codepoint test is equality of what the getter returns |
| OptionsCompare.ModesOrdered | protocol/SecProtocol.c:215-264 | both joining modes coincide; how equality and joining imply each other |
| OptionsCompare.IgnoredFields | protocol/SecProtocol.c:184-264 | the queues of all missing blocks, the override flags but one, and the remaining fields play no role |
| OptionsCompare.ContextMattersToJoining | protocol/SecProtocol.c:248-254 | the other modes do not look at the joining context |
| OptionsCompare.TransferredFieldsCompare | protocol/SecProtocol.c:178-213 | transferring a configuration makes the compared fields, other than the codepoint, equal |
| ProtocolOptions.NamesAreDistinct | protocol/SecProtocol.c:24-51 | no two fields have the same key |
| ProtocolOptions.KeyMatchesExactly | protocol/SecProtocol.c:2663-2667 | the length-bounded comparison with a table key is equality for keys of any length |
| ProtocolOptions.Options.SetBool | protocol/SecProtocol.c:976-1029 | sets the field and its override flag, which two fields share |
| ProtocolOptions.OverridesSet | protocol/SecProtocol.c:789-1029 | setting a field sets exactly the override flag named after it, or the one for authentication |
| ProtocolOptions.Options.SetInt | protocol/SecProtocol.c:468-480 | stores the value modulo the width of the field |
| ProtocolOptions.StoredModulo | protocol/SecProtocolPriv.h:1633-1803 | versions keep two bytes, key sizes eight, the algorithm four, the ticket count one |
| ProtocolOptions.WrongTypesRead | protocol/SecProtocol.c:2668-2676 | values of another type and missing ones read as false and zero |
| ProtocolOptions.SuitesKeyAbbreviated | protocol/SecProtocol.c:2681 | the suites key is matched by exactly its abbreviations |
| ProtocolOptions.Options.AppendTlsCiphersuite | protocol/SecProtocol.c:375-390 | creates the list if needed and appends |
| ProtocolOptions.Options.RunSetters | protocol/SecProtocol.c:2663-2678 | searching both tables applies exactly the field that the key names |
| ProtocolOptions.Options.AppendTlsCiphersuites | protocol/SecProtocol.c:2680-2689 | appends every element, cut to 16 bits |
| ProtocolOptions.Options.ApplyConfigOptions | protocol/SecProtocol.c:2655-2694 | walking the dictionary in any order is the fold of its entries |
| ProtocolOptions.Options.ApplyConfig | protocol/SecProtocol.c:3003-3014 | only dictionaries are applied; anything else changes nothing |
| OptionsConfig.ApplyMeaning | protocol/SecProtocol.c:2655-2694 | an order-free form of the fold: every field from its own entry, and the suites in visiting order |
| OptionsConfig.OrderIndependence | protocol/SecProtocol.c:2655-2694 | the result is the same for every visiting order if and only if the suite lists of the entries commute |
| OptionsConfig.OneSuiteListIsEnough | protocol/SecProtocol.c:2680-2689 | in particular when at most one abbreviation of "ciphersuites" holds a non-empty array |
| OptionsConfig.OneArrayApplied | protocol/SecProtocol.c:2680-2689 | the elements of a suite array come after the suites that were there, in array order, each the low 16 bits of an integer or zero |
| OptionsConfig.NoArrayApplied | protocol/SecProtocol.c:2680-2689 | without a suite array the suites stay |
| OptionsConfig.ConfigCreated | protocol/SecProtocol.c:2488-2527 | a created configuration has exactly the 28 field names, with the values of the fields |
| OptionsConfig.ConfigsEqual | protocol/SecProtocol.c:2957-2980 | created configurations are equal if and only if all serialized fields are |
| OptionsConfig.DictionaryHasKey | protocol/SecProtocol.c:2434-2447 | true if and only if some key starts with the target |
| OptionsConfig.CheckEntry | protocol/SecProtocol.c:2455-2485 | one entry matches exactly when every table row with its key agrees |
| OptionsConfig.OptionsMatchConfig | protocol/SecProtocol.c:2982-3001 | the nested walks compute the declarative match, for any walking order |
| OptionsConfig.MatchMeaning | protocol/SecProtocol.c:2449-2486 | matching means that the named fields have the values the configuration reads as; unknown keys are ignored |
| OptionsConfig.FixpointMeaning | protocol/SecProtocol.c:2655-2694 | when applying leaves the created configuration unchanged |
| OptionsConfig.MatchAndApply | protocol/SecProtocol.c:2982-3014 | matching is the fixpoint test of applying, and an applied configuration always matches, if and only if every integer fits its field |
| OptionsConfig.WideConfig | protocol/SecProtocol.c:2628-2651 | a value that does not fit never matches once applied |
| OptionsConfig.Transfer | protocol/SecProtocol.c:2488-2694 | applying the configuration of one content to another transfers the serialized fields, sets their override flags and changes nothing else |
| OptionsConfig.CodepointTransfer | protocol/SecProtocol.c:551-569 | the effective codepoint transfers if and only if it was set explicitly or its field is true |
| Alpn.AddTlsApplicationProtocol | protocol/SecProtocol.c:571-587 | appends an untagged name; missing options or names do nothing |
| Alpn.AddTransportSpecificApplicationProtocol | protocol/SecProtocol.c:606-629 | appends a tagged name |
| Alpn.ClearTlsApplicationProtocols | protocol/SecProtocol.c:589-604 | removes the list |
| Alpn.CopyTransportSpecificApplicationProtocol | protocol/SecProtocol.c:631-676 | the loop computes the filtered list, missing rather than empty |
| Alpn.CopyOfHistory | protocol/SecProtocol.c:571-676 | after any calls a transport gets exactly the names added since the last clearing that it is offered, in call order, and nothing if there are none |
| Alpn.HistoryExists | protocol/SecProtocol.c:571-676 | every history has such a clearing and selection |
| Alpn.CopiesAreSubsequences | protocol/SecProtocol.c:650-666 | every copy is a subsequence of the copy for the transport "any" |
| Alpn.TransportsAreIndependent | protocol/SecProtocol.c:657-661 | additions for other transports leave no trace in a transport's copy |
| Alpn.WildcardNamesStayHidden | protocol/SecProtocol.c:657-661 | a name added for "any" is given to "any" only |
| ArgTables.Status | lib/SecArgParse.c:37-46 | an argument is optional with a flag and a destination, and required without a flag and with a destination or an array |
| ArgTables.NumArguments | lib/SecArgParse.c:118-136 | counts up to the first zero descriptor or 1024 and reads no further |
| ArgTables.Kept | lib/SecArgParse.c:150-155 | exactly the descriptors that this kind of build may see |
| ArgTables.KeptInOrder | lib/SecArgParse.c:150-155 | they keep their order, and each appears as often as before |
| ArgTables.HelpIsAdded | lib/SecArgParse.c:145-147 | -h and --help come first and have no destination |
| ArgTables.FilterArgs | lib/SecArgParse.c:138-158 | help, the kept descriptors in order and a terminator, within the array |
| ArgTables.FilteredCount | lib/SecArgParse.c:166-169 | counting again finds all of them, but never more than 1024 |
| ArgTables.FillLongOptionArray | lib/SecArgParse.c:48-76 | the named descriptors in order as far as they fit, and false if and only if the terminator does not |
| ArgTables.LongTable | lib/SecArgParse.c:171-175 | whatever the filler returns, the zeroed table holds those entries and zeros |
| ArgTables.EntryDescribes | lib/SecArgParse.c:57-62 | an entry has the name, flag and value of its descriptor, and requires or allows an argument exactly as its destinations ask |
| ArgTables.TableIsComplete | lib/SecArgParse.c:166-175 | the table always ends in a zero and is complete if and only if at most 1024 descriptors have long names |
| ArgTables.FillShortOptionArray | lib/SecArgParse.c:78-99 | always succeeds, and string and terminator fit into two characters per descriptor and two more |
| ArgTables.ShortOptionsDecode | lib/SecArgParse.c:78-99 | getopt's reading of the string is the list of characters and argument requirements of the descriptors if and only if no short name is a colon and none has an optional argument |
| ArgTables.WantedMeaning | lib/SecArgParse.c:78-96 | the wanted list has every short name with its own requirement and nothing else |
| ArgParse.TriggerKeepsSound | lib/SecArgParse.c:108-115 | growing one list keeps every list as long as its count says |
| ArgParse.Printed | lib/SecArgParse.c:105-112 | the first 1048576 characters of an argument |
| ArgParse.FirstShortTriggers | lib/SecArgParse.c:203-209 | a short option triggers the first descriptor with its character |
| ArgParse.FirstCommandTriggers | lib/SecArgParse.c:222-234 | a command word triggers the first descriptor with that command and ends the scan |
| ArgParse.Destinations.Trigger | lib/SecArgParse.c:101-116 | sets the flag, prints the argument cut to 1048576 bytes, grows the list and its count |
| ArgParse.Destinations.TriggerLong | lib/SecArgParse.c:188-194 | triggers all descriptors whose long name starts the one found, in order |
| ArgParse.Destinations.RunEvents | lib/SecArgParse.c:178-215 | for every event sequence, the fold over the events, ending at help or an unknown option |
| ArgParse.EarlyEnd | lib/SecArgParse.c:183-213 | nothing after help or a failure has an effect |
| ArgParse.Destinations.ScanWords | lib/SecArgParse.c:217-254 | the two-index scan of the words is the recursive scan |
| ArgParse.MakeTables | lib/SecArgParse.c:166-176 | the descriptors used and both tables, for any source list |
| ArgParse.Destinations.OptionsParse | lib/SecArgParse.c:160-262 | the whole parse is tables, events and words in that order, or false for missing arguments |
| ArgOptions.LongOptionsAreExact | lib/SecArgParse.c:190-194 | every long option triggers its own descriptor and no other but help if and only if no long name starts another |
| ArgOptions.FlagIsStoredAnyway | lib/SecArgParse.c:60-61 | the flag that getopt_long stores itself makes no difference |
| ArgOptions.EventTriggersOne | lib/SecArgParse.c:180-215 | in unambiguous tables an event triggers exactly the descriptor it names, even if help has pushed out the last one |
| ArgOptions.LongOptionReached | lib/SecArgParse.c:60-61 | what getopt_long returns for a long option takes the long path if and only if it has a flag or its value is zero, and what happens otherwise |
| ArgOptions.StepsHandled | lib/SecArgParse.c:183-213 | only the events before the first request for help or unknown option leave a trace |
| ArgOptions.OptionHistory | lib/SecArgParse.c:101-215 | over any events, also those that end in help or an unknown option, each option's flag, string and list come from its own events: the list is the old one and exactly its own arguments in order, and the count is its length |
| ArgWords.ScanIsZip | lib/SecArgParse.c:217-254 | the scan pairs the words before the first command with the positional descriptors in order; when it fails, and which command is triggered |
| ArgWords.ZippedMeaning | lib/SecArgParse.c:245-248 | with distinct destinations each holds its own word and nothing else changes |
| ArgWords.CommandEndsTheScan | lib/SecArgParse.c:222-234 | at most one command takes effect; the words after it do not matter |
| ArgWords.WordsMustFit | lib/SecArgParse.c:236-250 | parsing succeeds exactly when there are no more words than positional descriptors, for all words, if and only if every such descriptor has a destination |
| ArgParseMeaning.ParseVerdict | lib/SecArgParse.c:160-262 | a command line is accepted exactly when all options are known, none asks for help and the words fit or are swallowed; help is shown exactly when it is asked for before anything unknown |
| ArgParseMeaning.CommandLineMeaning | lib/SecArgParse.c:160-262 | with distinct destinations, any command line, accepted or not, leaves in each descriptor's variables what its own options up to help or an unknown option, then its own word, then its own command put there |
| Entitlements.JoinOfSplit | codesign_wrapper/check_entitlements.c:86-91 | splitting at a separator loses nothing |
| Entitlements.SplitOfJoin | codesign_wrapper/check_entitlements.c:86-91 | and gives the only pieces without separators |
| Entitlements.IdentifierPieces | codesign_wrapper/check_entitlements.c:81-103 | the test of the first two pieces is the grammar of a valid identifier |
| Entitlements.FilterContext.FilterEntitlement | codesign_wrapper/check_entitlements.c:67-150 | what one entry does to the three flags, on every path |
| Entitlements.FilterEntitlements | codesign_wrapper/check_entitlements.c:152-166 | for every visiting order the filter accepts if and only if the policy allows |
| Entitlements.PolicyInPieces | codesign_wrapper/check_entitlements.c:61-166 | the policy spelled out: two keys, the first two pieces of the identifier, and which groups are allowed |
| Entitlements.GroupsAreIndependent | codesign_wrapper/check_entitlements.c:109-144 | keychain groups may be dropped, and replaced exactly by valid ones |
| Entitlements.IdentifiersExtend | codesign_wrapper/check_entitlements.c:81-103 | a valid identifier may be extended by further parts |
| Strings.StartsWithIsPrefix | lib/SecArgParse.c:191 | comparing as many characters as the name has is the prefix relation |
| NtlmInputs.StrayInput | ntlm/ntlmBlobPriv.c:164-170 | a 32-byte challenge that makes the parser read outside it |
| NtlmInputs.ShortChallengeInput | ntlm/NtlmGenerator.c:166-184 | a short challenge that is not read back |
| NtlmInputs.V2ResponsesExist | ntlm/NtlmGenerator.c:494-518 | NTLMv2 responses exist for all information and names within the limits |
| NtlmInputs.SessionResponsesExist | ntlm/NtlmGenerator.c:520-568 | so do session responses after a request |
| NtlmInputs.InfoTooLong | ntlm/NtlmGenerator.c:515-516 | 65488 bytes of target information, for which some keyed hash refuses the response |
| NtlmInputs.NamesTooLong | ntlm/NtlmGenerator.c:256-258 | user and domain of 1025 units each, for which some keyed hash refuses the response |
| OptionsInputs.OrderMatters | protocol/SecProtocol.c:2680-2689 | a configuration whose result depends on the visiting order |
| OptionsInputs.WideVersion | protocol/SecProtocol.c:2628-2635 | a version that never matches once applied |
| OptionsInputs.CodepointLost | protocol/SecProtocol.c:551-569 | contents without settings lose their effective codepoint in every transfer |
| ArgInputs.PrefixTriggersBoth | lib/SecArgParse.c:190-194 | a long name that triggers two descriptors |
| ArgInputs.ColonIsMisread | lib/SecArgParse.c:78-99 | a short name that makes getopt misread the string |
| ArgInputs.OptionalIsLost | lib/SecArgParse.c:88-94 | an optional argument that the long table has and the string has not |
| ArgInputs.ValueIsUnknown | lib/SecArgParse.c:60-61 | a long option that is rejected because its value is no short name |
| ArgInputs.FlagHidesArray | lib/SecArgParse.c:31-46 | a repeatable option that takes no argument |
| ArgInputs.LastNameIsMissing | lib/SecArgParse.c:166-175 | a list whose last long name has no entry in the table |
| ArgInputs.WordsAreSwallowed | lib/SecArgParse.c:236-250 | two words accepted for one positional descriptor |

## Left out

- Header-only components (CMS, key chain circle joining and pairing, analytics, experiments, most of `base/`): no code here decides their behaviour.
- Cryptography, random bytes, the clock, upper-casing and UTF-8 conversion: functions of `Platform`, or inputs; digests have 16 bytes and UTF-8 at most three bytes for one unit.
- Memory allocation and its failures, retain and release, block copies, dispatch queues, logging, and the handle access of the protocol objects, which always succeeds.
- `ntlmHostName` (ntlm/ntlmBlobPriv.c:300): the terminator write next to the returned pointer; the name is its 11 or 22 bytes.
- `NtlmGeneratorRelease`, `NtlmGetNegotiatedVersion` and the debugging constants for fixed challenges.
- NtlmBlob.Lmv2Response: does not say what the caller's array holds from the block of a failed encryption on, which is up to the cipher.
- NtlmAuthentication.V2EndToEnd: does not say what a server makes of names that were not sent in Unicode, since the code writes them as ASCII or UTF-8 and the standard leaves their keyed hash to Unicode.
- The result after a read outside a challenge blob: the outcome says only that it happened.
- Setters of options that no configuration and no application protocol reaches, and the getters of metadata.
- sec_protocol_helper_dispatch_data_equal of protocol/SecProtocolHelper.m: the same walk again; the options comparison uses the equality of byte strings that it decides.
- `ProtocolOptions.Options` covers the setters of equal shape by one method over the field, with a table of their override flags.
- XPC objects inside key exchange groups and pre-shared keys: opaque, with a foreign deep equality.
- `print_usage`, the inside of `getopt_long`, the exit status of help, and getopt's handling of a short name that follows `W`.
- ArgParse.Destinations.Trigger: prints a missing argument as "(null)", the behaviour of the platform's printf.
- `main`, `read_fd`, forking, timeouts and property list parsing of codesign_wrapper/check_entitlements.c.
- `sectask/SecTask.c`, `featureflags/featureflags.c` and the dtlsEcho programs: kernel calls, one-shot caches and socket plumbing, with only easy claims.
