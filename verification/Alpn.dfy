/** The application protocols of a connection: adding, clearing, and copying them for one transport. */
module Alpn {
  import opened Bytes
  import opened ProtocolOptions

  const ANY_TRANSPORT := 0

  type Protocols = Option<seq<AlpnEntry>>

  // ---------------------------------------------------------------- the calls

  /** What a caller does to the list; a missing name makes an addition do nothing. */
  datatype Call =
    | Add(name: Option<string>)
    | AddSpecific(name: Option<string>, transport: nat)
    | Clear

  /** The entry a call leaves in the list. */
  function EntryOf(call: Call): Option<AlpnEntry> {
    match call
    case Add(Some(name)) => Some(Plain(name))
    case AddSpecific(Some(name), transport) => Some(Tagged(name, transport))
    case _ => None
  }

  function Appended(protocols: Protocols, entry: AlpnEntry): Protocols {
    Some(protocols.GetOr([]) + [entry])
  }

  /** The list after one call. */
  function After(protocols: Protocols, call: Call): Protocols {
    if call.Clear? then None
    else if EntryOf(call).Some? then Appended(protocols, EntryOf(call).value)
    else protocols
  }

  function AfterAll(protocols: Protocols, calls: seq<Call>): Protocols {
    if calls == [] then protocols else After(AfterAll(protocols, calls[..|calls| - 1]), calls[|calls| - 1])
  }

  /** sec_protocol_options_add_tls_application_protocol */
  method AddTlsApplicationProtocol(options: Options?, applicationProtocol: Option<string>)
    modifies options
    ensures options != null ==>
              options.content == old(options.content).(
                applicationProtocols := After(old(options.content.applicationProtocols), Add(applicationProtocol)))
  {
    if options == null || applicationProtocol.None? {
      return;
    }
    if options.content.applicationProtocols.None? {
      options.content := options.content.(applicationProtocols := Some([]));
    }
    options.content := options.content.(
      applicationProtocols :=
        Some(options.content.applicationProtocols.value + [Plain(applicationProtocol.value)]));
  }

  /** sec_protocol_options_add_transport_specific_application_protocol */
  method AddTransportSpecificApplicationProtocol(
    options: Options?, applicationProtocol: Option<string>, specificTransport: nat)
    modifies options
    ensures options != null ==>
              options.content == old(options.content).(
                applicationProtocols :=
                  After(old(options.content.applicationProtocols), AddSpecific(applicationProtocol, specificTransport)))
  {
    if options == null || applicationProtocol.None? {
      return;
    }
    if options.content.applicationProtocols.None? {
      options.content := options.content.(applicationProtocols := Some([]));
    }
    options.content := options.content.(
      applicationProtocols :=
        Some(options.content.applicationProtocols.value + [Tagged(applicationProtocol.value, specificTransport)]));
  }

  /** sec_protocol_options_clear_tls_application_protocols */
  method ClearTlsApplicationProtocols(options: Options?)
    modifies options
    ensures options != null ==> options.content == old(options.content).(applicationProtocols := None)
  {
    if options != null {
      options.content := options.content.(applicationProtocols := None);
    }
  }

  /** A caller's calls, in order. */
  method RunCalls(options: Options, calls: seq<Call>)
    modifies options
    ensures options.content == old(options.content).(
              applicationProtocols := AfterAll(old(options.content.applicationProtocols), calls))
  {
    for k := 0 to |calls|
      invariant options.content == old(options.content).(
                  applicationProtocols := AfterAll(old(options.content.applicationProtocols), calls[..k]))
    {
      assert calls[..k + 1][..k] == calls[..k];
      match calls[k]
      case Add(name) => AddTlsApplicationProtocol(options, name);
      case AddSpecific(name, transport) => AddTransportSpecificApplicationProtocol(options, name, transport);
      case Clear => ClearTlsApplicationProtocols(options);
    }
    assert calls[..|calls|] == calls;
  }

  // ---------------------------------------------------------------- the copy for a transport

  predicate Offered(entry: AlpnEntry, transport: nat) {
    entry.Plain? || transport == ANY_TRANSPORT || entry.transport == transport
  }

  /** The names of the entries offered on a transport, in order. */
  function Names(entries: seq<AlpnEntry>, transport: nat): (names: seq<string>)
    ensures |names| <= |entries|
  {
    if entries == [] then []
    else
      var front, last := Names(entries[..|entries| - 1], transport), entries[|entries| - 1];
      if Offered(last, transport) then front + [last.name] else front
  }

  /** The list a transport gets; missing rather than empty. */
  function CopyFor(protocols: Protocols, transport: nat): Option<seq<string>> {
    var names := Names(protocols.GetOr([]), transport);
    if names == [] then None else Some(names)
  }

  /** sec_protocol_options_copy_transport_specific_application_protocol */
  method CopyTransportSpecificApplicationProtocol(options: Options?, specificTransport: nat)
    returns (copy: Option<seq<string>>)
    ensures copy == if options == null then None else CopyFor(options.content.applicationProtocols, specificTransport)
  {
    if options == null || options.content.applicationProtocols.None? {
      return None;
    }
    var protocols := options.content.applicationProtocols.value;
    var filtered: seq<string> := [];
    for i := 0 to |protocols|
      invariant filtered == Names(protocols[..i], specificTransport)
    {
      assert protocols[..i + 1][..i] == protocols[..i];
      var protocol := protocols[i];
      if protocol.Plain? {
        filtered := filtered + [protocol.name];
        continue;
      }
      if protocol.transport != specificTransport && specificTransport != ANY_TRANSPORT {
        continue;
      }
      filtered := filtered + [protocol.name];
    }
    assert protocols[..|protocols|] == protocols;
    copy := if filtered == [] then None else Some(filtered);
  }

  // ---------------------------------------------------------------- over whole histories

  /** Where the calls after the last clearing begin. */
  predicate StartsAfterClear(calls: seq<Call>, k: nat) {
    && k <= |calls|
    && (k > 0 ==> calls[k - 1].Clear?)
    && forall j :: k <= j < |calls| ==> !calls[j].Clear?
  }

  /** `at` lists, in increasing order, exactly the calls from `k` on that name something the transport is offered. */
  predicate Selects(calls: seq<Call>, k: nat, transport: nat, at: seq<nat>) {
    && (forall i :: 0 <= i < |at| ==> k <= at[i] < |calls| && Seen(calls[at[i]], transport))
    && (forall i, j :: 0 <= i < j < |at| ==> at[i] < at[j])
    && forall j :: k <= j < |calls| && Seen(calls[j], transport) ==> j in at
  }

  /** The call names something for every transport, or for this one, or anything if this is the wildcard, zero. */
  predicate Seen(call: Call, transport: nat) {
    match call
    case Add(name) => name.Some?
    case AddSpecific(name, specific) => name.Some? && (specific == transport || transport == 0)
    case Clear => false
  }

  function NamesAt(calls: seq<Call>, at: seq<nat>): seq<string>
    requires forall i :: 0 <= i < |at| ==> at[i] < |calls| && !calls[at[i]].Clear? && calls[at[i]].name.Some?
  {
    seq(|at|, i requires 0 <= i < |at| => calls[at[i]].name.value)
  }

  /**
    After calls that clear the list, or on options that have none, a transport gets exactly the names
    added since the last clearing that are for every transport, or for this one, or anything when it is
    the wildcard; in call order, and nothing at all when there are none.
   */
  lemma {:induction false} CopyOfHistory(protocols: Protocols, calls: seq<Call>, k: nat, transport: nat, at: seq<nat>)
    requires StartsAfterClear(calls, k) && (k == 0 ==> protocols.None?)
    requires Selects(calls, k, transport, at)
    ensures Names(AfterAll(protocols, calls).GetOr([]), transport) == NamesAt(calls, at)
    ensures CopyFor(AfterAll(protocols, calls), transport) == if at == [] then None else Some(NamesAt(calls, at))
    decreases |calls|
  {
    if calls != [] {
      var n := |calls| - 1;
      var before, call := calls[..n], calls[n];
      hide Names, Selects, NamesAt;
      if call.Clear? {
        NothingSelected(calls, k, transport, at);
      } else {
        AppendedNames(AfterAll(protocols, before), call, transport);
        if Seen(call, transport) {
          SelectsLast(calls, k, transport, at);
          CopyOfHistory(protocols, before, k, transport, at[..|at| - 1]);
        } else {
          SelectsEarlier(calls, k, transport, at);
          CopyOfHistory(protocols, before, k, transport, at);
        }
      }
    } else {
      NothingSelected(calls, k, transport, at);
    }
  }

  lemma NothingSelected(calls: seq<Call>, k: nat, transport: nat, at: seq<nat>)
    requires k == |calls| && Selects(calls, k, transport, at)
    ensures at == [] && NamesAt(calls, at) == Names([], transport) == []
  {
    SelectedIsInside(calls, k, transport, at);
  }

  lemma SelectedIsInside(calls: seq<Call>, k: nat, transport: nat, at: seq<nat>)
    requires Selects(calls, k, transport, at)
    ensures |at| > 0 ==> k < |calls|
  {
    if |at| > 0 {
      assert k <= at[0] < |calls|;
    }
  }

  lemma SelectsEarlier(calls: seq<Call>, k: nat, transport: nat, at: seq<nat>)
    requires |calls| > k && Selects(calls, k, transport, at) && !Seen(calls[|calls| - 1], transport)
    ensures Selects(calls[..|calls| - 1], k, transport, at)
    ensures NamesAt(calls, at) == NamesAt(calls[..|calls| - 1], at)
  {
  }

  lemma SelectsLast(calls: seq<Call>, k: nat, transport: nat, at: seq<nat>)
    requires |calls| > k && Selects(calls, k, transport, at) && Seen(calls[|calls| - 1], transport)
    ensures |at| > 0 && at[|at| - 1] == |calls| - 1
    ensures Selects(calls[..|calls| - 1], k, transport, at[..|at| - 1])
    ensures NamesAt(calls, at) ==
            NamesAt(calls[..|calls| - 1], at[..|at| - 1]) + [calls[|calls| - 1].name.value]
  {
    var n := |calls| - 1;
    assert n in at;
    var i :| 0 <= i < |at| && at[i] == n;
    assert at[|at| - 1] <= n;
    forall j | k <= j < n && Seen(calls[j], transport)
      ensures j in at[..|at| - 1]
    {
      assert j in at;
    }
  }

  lemma AppendedNames(protocols: Protocols, call: Call, transport: nat)
    requires !call.Clear?
    ensures Names(After(protocols, call).GetOr([]), transport) ==
            if Seen(call, transport) then Names(protocols.GetOr([]), transport) + [call.name.value]
            else Names(protocols.GetOr([]), transport)
  {
    if EntryOf(call).Some? {
      var entries := protocols.GetOr([]);
      assert (entries + [EntryOf(call).value])[..|entries|] == entries;
    }
  }

  /** Every history has a last clearing and a selection, so the characterization always applies. */
  lemma {:induction false} HistoryExists(calls: seq<Call>, transport: nat) returns (k: nat, at: seq<nat>)
    ensures StartsAfterClear(calls, k) && Selects(calls, k, transport, at)
    decreases |calls|
  {
    k, at := 0, [];
    if calls != [] {
      var n := |calls| - 1;
      k, at := HistoryExists(calls[..n], transport);
      if calls[n].Clear? {
        k, at := |calls|, [];
      } else if Seen(calls[n], transport) {
        var longer := at + [n];
        forall j | k <= j < |calls| && Seen(calls[j], transport)
          ensures j in longer
        {
          if j < n {
            assert calls[..n][j] == calls[j];
            assert j in at;
          } else {
            assert longer[|at|] == n;
          }
        }
        at := longer;
      }
    }
  }

  /** What is offered on a transport is offered, in the same order, to the wildcard. */
  lemma {:induction false} CopiesAreSubsequences(entries: seq<AlpnEntry>, transport: nat) returns (at: seq<nat>)
    ensures |at| == |Names(entries, transport)|
    ensures forall i, j :: 0 <= i < j < |at| ==> at[i] < at[j]
    ensures forall i :: 0 <= i < |at| ==>
              at[i] < |Names(entries, ANY_TRANSPORT)| &&
              Names(entries, ANY_TRANSPORT)[at[i]] == Names(entries, transport)[i]
  {
    at := [];
    if entries != [] {
      var n := |entries| - 1;
      at := CopiesAreSubsequences(entries[..n], transport);
      if Offered(entries[n], transport) {
        at := at + [|Names(entries[..n], ANY_TRANSPORT)|];
      }
    }
  }

  /** The calls that can matter to a transport other than the wildcard. */
  function Purged(calls: seq<Call>, transport: nat): seq<Call> {
    if calls == [] then []
    else
      var front, last := Purged(calls[..|calls| - 1], transport), calls[|calls| - 1];
      if last.AddSpecific? && last.transport != transport then front else front + [last]
  }

  /** Additions for other transports leave no trace in what a transport gets. */
  lemma {:induction false} TransportsAreIndependent(protocols: Protocols, calls: seq<Call>, transport: nat)
    requires transport != ANY_TRANSPORT
    ensures CopyFor(AfterAll(protocols, calls), transport) ==
            CopyFor(AfterAll(protocols, Purged(calls, transport)), transport)
  {
    hide Names, EntryOf, Seen;
    if calls != [] {
      var n := |calls| - 1;
      var before, last := calls[..n], calls[n];
      var purged := Purged(before, transport);
      TransportsAreIndependent(protocols, before, transport);
      assert Names(AfterAll(protocols, before).GetOr([]), transport) ==
             Names(AfterAll(protocols, purged).GetOr([]), transport);
      assert (purged + [last])[..|purged|] == purged;
      if !last.Clear? {
        AppendedNames(AfterAll(protocols, before), last, transport);
        AppendedNames(AfterAll(protocols, purged), last, transport);
        OtherTransport(last, transport);
      }
    }
  }

  lemma OtherTransport(call: Call, transport: nat)
    requires transport != ANY_TRANSPORT
    ensures call.AddSpecific? && call.transport != transport ==> !Seen(call, transport)
  {
  }

  /** A name added for the wildcard transport is given to the wildcard only. */
  lemma WildcardNamesStayHidden(protocols: Protocols, name: string, transport: nat)
    ensures CopyFor(After(protocols, AddSpecific(Some(name), ANY_TRANSPORT)), transport) ==
            (if transport == ANY_TRANSPORT
             then Some(Names(protocols.GetOr([]), transport) + [name])
             else CopyFor(protocols, transport))
  {
    hide Names;
    AppendedNames(protocols, AddSpecific(Some(name), ANY_TRANSPORT), transport);
  }
}
