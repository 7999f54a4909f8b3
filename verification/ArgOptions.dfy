/** The option phase: every option gets its own arguments. */
module ArgOptions {
  import opened Bytes
  import opened Strings
  import opened ArgTables
  import opened ArgParse

  // ---------------------------------------------------------------- long names

  /** No long name but that of help, which comes first, starts another. */
  predicate PrefixFree(options: seq<Argument>) {
    forall i, j :: 1 <= i < |options| && 1 <= j < |options| && i != j ==> !Shadows(options[i], options[j])
  }

  predicate Shadows(a: Argument, b: Argument) {
    a.longname.Some? && b.longname.Some? && StartsWith(b.longname.value, a.longname.value)
  }

  /** Exactly `m` is triggered, apart from help, which has no destinations. */
  predicate OnlyTriggers(at: seq<nat>, m: nat) {
    at == [m] || at == [0, m]
  }

  lemma {:induction false} TraceMembers(options: seq<Argument>, name: string, i: nat)
    requires i < |options|
    ensures i in LongTrace(options, name) <==> Answers(options[i], name)
  {
    var n := |options| - 1;
    if i < n {
      TraceMembers(options[..n], name, i);
    } else {
      assert i !in LongTrace(options[..n], name);
      var front := LongTrace(options[..n], name);
      assert (front + [n])[|front|] == n;
    }
  }

  lemma {:induction false} TraceOf(options: seq<Argument>, name: string, m: nat, n: nat)
    requires 1 <= m < |options| && n <= |options|
    requires forall i :: 1 <= i < |options| ==> (Answers(options[i], name) <==> i == m)
    ensures LongTrace(options[..n], name) ==
            (if n > 0 && Answers(options[0], name) then [0] else []) + if m < n then [m] else []
  {
    if n > 0 {
      TraceOf(options, name, m, n - 1);
      assert options[..n][..n - 1] == options[..n - 1];
    }
  }

  /** Long options trigger what was named, and nothing else, exactly when no long name starts another. */
  lemma LongOptionsAreExact(options: seq<Argument>)
    ensures (forall m :: 1 <= m < |options| && options[m].longname.Some? ==>
               OnlyTriggers(LongTrace(options, options[m].longname.value), m))
       <==> PrefixFree(options)
  {
    hide LongTrace;
    if PrefixFree(options) {
      forall m | 1 <= m < |options| && options[m].longname.Some?
        ensures OnlyTriggers(LongTrace(options, options[m].longname.value), m)
      {
        OwnNameOnly(options, m);
      }
    } else {
      var i, j :| 1 <= i < |options| && 1 <= j < |options| && i != j && Shadows(options[i], options[j]);
      TraceMembers(options, options[j].longname.value, i);
      assert !OnlyTriggers(LongTrace(options, options[j].longname.value), j);
    }
  }

  lemma OwnNameOnly(options: seq<Argument>, m: nat)
    requires PrefixFree(options) && 1 <= m < |options| && options[m].longname.Some?
    ensures OnlyTriggers(LongTrace(options, options[m].longname.value), m)
  {
    var name := options[m].longname.value;
    forall i | 1 <= i < |options|
      ensures Answers(options[i], name) <==> i == m
    {
      if i != m {
        assert !Shadows(options[i], options[m]);
      }
    }
    TraceOf(options, name, m, |options|);
    assert options[..|options|] == options;
  }

  /** getopt_long stores the flag of a long option itself; doing it again here makes no difference. */
  lemma FlagIsStoredAnyway(store: Store, options: seq<Argument>, m: nat, argument: Option<string>)
    requires m < |options| && options[m].longname.Some? && options[m].flag.Some?
    ensures var name := options[m].longname.value;
            var stored := store.(flags := store.flags[options[m].flag.value := options[m].flagval]);
            TriggerAll(stored, options, LongTrace(options, name), argument) ==
            TriggerAll(store, options, LongTrace(options, name), argument)
  {
    var at := LongTrace(options, options[m].longname.value);
    TraceMembers(options, options[m].longname.value, m);
    StoredFlag(store, options, options[m].flag.value, options[m].flagval, at, argument);
  }

  predicate SetsFlag(options: seq<Argument>, at: seq<nat>, a: Address)
    requires forall k :: 0 <= k < |at| ==> at[k] < |options|
  {
    exists k :: 0 <= k < |at| && options[at[k]].flag == Some(a)
  }

  lemma {:induction false} StoredFlag(
    store: Store, options: seq<Argument>, a: Address, value: int, at: seq<nat>, argument: Option<string>)
    requires forall k :: 0 <= k < |at| ==> at[k] < |options|
    ensures var with := TriggerAll(store.(flags := store.flags[a := value]), options, at, argument);
            var without := TriggerAll(store, options, at, argument);
            if SetsFlag(options, at, a) then with == without
            else with == without.(flags := without.flags[a := value])
  {
    if at != [] {
      var n := |at| - 1;
      StoredFlag(store, options, a, value, at[..n], argument);
      FlagCommutes(TriggerAll(store, options, at[..n], argument), options[at[n]], a, value, argument);
      assert SetsFlag(options, at, a) <==> SetsFlag(options, at[..n], a) || options[at[n]].flag == Some(a);
    }
  }

  lemma FlagCommutes(store: Store, option: Argument, a: Address, value: int, argument: Option<string>)
    ensures var with := Triggered(store.(flags := store.flags[a := value]), option, argument);
            var without := Triggered(store, option, argument);
            if option.flag == Some(a) then with == without
            else with == without.(flags := without.flags[a := value])
  {
    if option.flag.Some? {
      var f := option.flag.value;
      assert f == a ==> store.flags[a := value][f := option.flagval] == store.flags[f := option.flagval];
      assert f != a ==>
        store.flags[a := value][f := option.flagval] == store.flags[f := option.flagval][a := value];
    }
  }

  // ---------------------------------------------------------------- what an event means

  predicate UniqueShort(options: seq<Argument>) {
    forall i, j :: 0 <= i < j < |options| ==>
      options[i].shortname == '\0' || options[i].shortname != options[j].shortname
  }

  /** Filtered descriptors in which an event can mean one of them only. */
  predicate Unambiguous(all: seq<Argument>) {
    && 1 <= |all| <= MAX_ARGUMENTS + 1 && all[0] == HELP
    && PrefixFree(all) && UniqueShort(Used(all))
  }

  /** The event names descriptor `m`, by its place among the long names or by its character. */
  predicate Means(all: seq<Argument>, e: Event, m: nat)
    requires m < |all|
  {
    if e.code == 0 then e.optionIndex < |Named(all)| && Named(all)[e.optionIndex] == m
    else e.code == all[m].shortname as int
  }

  lemma {:induction false} NamedBound(all: seq<Argument>, k: nat)
    requires k < |Named(all)|
    ensures k <= Named(all)[k]
  {
    if k > 0 {
      NamedBound(all, k - 1);
    }
  }

  /** What the table of long options says at index `k`. */
  lemma TableName(all: seq<Argument>, k: nat)
    requires |all| <= MAX_ARGUMENTS + 1
    ensures NameAt(TableOf(all), k) ==
            if k < |Named(all)| && k < MAX_ARGUMENTS then all[Named(all)[k]].longname else None
  {
    hide Entries;
    EntriesAreNamed(all);
  }

  lemma HelpIsNamedFirst(options: seq<Argument>)
    requires options != [] && options[0] == HELP
    ensures |Named(options)| > 0 && Named(options)[0] == 0
    ensures forall k :: 0 < k < |Named(options)| ==> Named(options)[k] > 0
  {
    assert 0 in Named(options);
  }

  lemma TriggersOne(store: Store, options: seq<Argument>, at: seq<nat>, m: nat, argument: Option<string>)
    requires options != [] && options[0] == HELP && m < |options| && OnlyTriggers(at, m)
    ensures TriggerAll(store, options, at, argument) == Triggered(store, options[m], argument)
  {
    var front := at[..|at| - 1];
    assert front == [] || front == [0];
    if front == [0] {
      assert front[..0] == [];
      assert Triggered(store, HELP, argument) == store;
      assert TriggerAll(store, options, front, argument) == store;
    }
  }

  /** The name of the descriptor that help pushed out triggers nothing. */
  lemma PushedOut(store: Store, all: seq<Argument>, argument: Option<string>)
    requires Unambiguous(all) && |all| == MAX_ARGUMENTS + 1 && all[MAX_ARGUMENTS].longname.Some?
    ensures TriggerAll(store, Used(all), LongTrace(Used(all), all[MAX_ARGUMENTS].longname.value), argument) == store
  {
    var options, name := Used(all), all[MAX_ARGUMENTS].longname.value;
    forall i | 1 <= i < |options|
      ensures !Answers(options[i], name)
    {
      assert !Shadows(all[i], all[MAX_ARGUMENTS]);
    }
    var at := LongTrace(options, name);
    NothingAnswers(options, name, |options|);
    assert options[..|options|] == options;
    assert at == [] || at == [0];
    if at == [0] {
      assert at[..0] == [];
      assert Triggered(store, HELP, argument) == store;
    }
  }

  lemma {:induction false} NothingAnswers(options: seq<Argument>, name: string, n: nat)
    requires options != [] && n <= |options|
    requires forall i :: 1 <= i < |options| ==> !Answers(options[i], name)
    ensures LongTrace(options[..n], name) == if n > 0 && Answers(options[0], name) then [0] else []
  {
    if n > 0 {
      NothingAnswers(options, name, n - 1);
      assert options[..n][..n - 1] == options[..n - 1];
    }
  }

  /** Every event either names one descriptor, which it triggers, or ends the parsing, or does nothing. */
  lemma EventTriggersOne(store: Store, all: seq<Argument>, e: Event) returns (named: Option<nat>)
    requires Unambiguous(all)
    requires Step(store, Used(all), TableOf(all), e).Continue?
    ensures named.Some? ==> 1 <= named.value < |Used(all)|
    ensures Step(store, Used(all), TableOf(all), e).store ==
            if named.Some? then Triggered(store, Used(all)[named.value], e.optarg) else store
    ensures forall m :: 1 <= m < |Used(all)| ==> (Means(all, e, m) <==> named == Some(m))
  {
    hide TableOf, LongTrace, Entries, Triggered, TriggerAll;
    var options := Used(all);
    named := None;
    if e.code == 0 {
      TableName(all, e.optionIndex);
      HelpIsNamedFirst(all);
      if e.optionIndex < |Named(all)| {
        var p := Named(all)[e.optionIndex];
        NamedBound(all, e.optionIndex);
        if p < MAX_ARGUMENTS {
          OwnNameOnly(options, p);
          TriggersOne(store, options, LongTrace(options, options[p].longname.value), p, e.optarg);
          named := Some(p);
        } else {
          PushedOut(store, all, e.optarg);
        }
      }
    } else {
      var i := FirstShort(options, e.code);
      named := Some(i);
      forall m | 1 <= m < |options|
        ensures Means(all, e, m) <==> m == i
      {
        if m < i {
          assert options[m].shortname as int != e.code;
        }
      }
    }
  }

  /** What getopt_long returns for an entry of the long table. */
  function ReturnedCode(entry: LongOption): int {
    if entry.flag.Some? then 0 else entry.val
  }

  /**
    A long option is handled as one exactly when it has a flag or its value is zero.  Otherwise its value
    is taken for a short name: for its own by chance, for help, for another option's, or for an unknown one.
   */
  lemma LongOptionReached(store: Store, all: seq<Argument>, k: nat, argument: Option<string>)
    requires Unambiguous(all) && 1 <= k < |Named(all)| && Named(all)[k] < |Used(all)|
    ensures k < |TableOf(all)|
    ensures var m := Named(all)[k];
            var o := all[m];
            var e := Event(ReturnedCode(TableOf(all)[k]), k, argument);
            var i := FirstShort(Used(all), o.flagval);
            && (e.code == 0 <==> o.flag.Some? || o.flagval == 0)
            && (Means(all, e, m) <==> o.flag.Some? || o.flagval == 0 || o.flagval == o.shortname as int)
            && Step(store, Used(all), TableOf(all), e) ==
               if Means(all, e, m) then Continue(Triggered(store, o, argument))
               else if o.flagval == 'h' as int then HelpShown(store)
               else if i < |Used(all)| then Continue(Triggered(store, Used(all)[i], argument))
               else Failure(store)
  {
    NamedBound(all, k);
    TableEntry(all, k);
    var m := Named(all)[k];
    var e := Event(ReturnedCode(TableOf(all)[k]), k, argument);
    LongOptionStep(store, all, e, m);
  }

  lemma TableEntry(all: seq<Argument>, k: nat)
    requires |all| <= MAX_ARGUMENTS + 1 && k < |Named(all)| && k < MAX_ARGUMENTS
    ensures k < |TableOf(all)| && TableOf(all)[k] == EntryOf(all[Named(all)[k]])
  {
    hide Entries;
    EntriesAreNamed(all);
  }

  lemma LongOptionStep(store: Store, all: seq<Argument>, e: Event, m: nat)
    requires Unambiguous(all) && 1 <= m < |Used(all)|
    requires e.code == 0 ==> e.optionIndex > 0 && Means(all, e, m)
    ensures var i := FirstShort(Used(all), e.code);
            Step(store, Used(all), TableOf(all), e) ==
            if Means(all, e, m) then Continue(Triggered(store, all[m], e.optarg))
            else if e.code == 'h' as int then HelpShown(store)
            else if i < |Used(all)| then Continue(Triggered(store, Used(all)[i], e.optarg))
            else Failure(store)
  {
    hide TableOf, TriggerAll, LongTrace, Triggered, PrefixFree, Named, NameAt;
    assert Used(all)[m] == all[m] && Used(all)[0].shortname == 'h';
    if Step(store, Used(all), TableOf(all), e).Continue? {
      var named := EventTriggersOne(store, all, e);
    }
  }

  // ---------------------------------------------------------------- where the option phase ends

  predicate AsksForHelp(e: Event) {
    (e.code == 0 && e.optionIndex == 0) || e.code == 'h' as int
  }

  /** The event is not a request for help and belongs to some option. */
  predicate Harmless(options: seq<Argument>, e: Event) {
    !AsksForHelp(e) && (e.code != 0 ==> exists i :: 0 <= i < |options| && options[i].shortname as int == e.code)
  }

  predicate AllHarmless(options: seq<Argument>, events: seq<Event>) {
    forall k :: 0 <= k < |events| ==> Harmless(options, events[k])
  }

  /** The first event that is not harmless is a request for help. */
  predicate HelpComesFirst(options: seq<Argument>, events: seq<Event>) {
    exists k :: 0 <= k < |events| && AsksForHelp(events[k]) && AllHarmless(options, events[..k])
  }

  lemma StepVerdict(store: Store, options: seq<Argument>, table: seq<LongOption>, e: Event)
    ensures Step(store, options, table, e).HelpShown? <==> AsksForHelp(e)
    ensures Step(store, options, table, e).Continue? <==> Harmless(options, e)
  {
  }

  lemma {:induction false} StepsVerdict(
    store: Store, options: seq<Argument>, table: seq<LongOption>, events: seq<Event>)
    ensures Steps(store, options, table, events).Continue? <==> AllHarmless(options, events)
    ensures Steps(store, options, table, events).HelpShown? <==> HelpComesFirst(options, events)
  {
    hide Step, Harmless, AsksForHelp;
    if events != [] {
      var n := |events| - 1;
      var front := events[..n];
      StepsVerdict(store, options, table, front);
      StepVerdict(Steps(store, options, table, front).store, options, table, events[n]);
      assert AllHarmless(options, events) <==> AllHarmless(options, front) && Harmless(options, events[n]);
      HelpStep(options, events);
    }
  }

  lemma HelpStep(options: seq<Argument>, events: seq<Event>)
    requires events != []
    ensures var n := |events| - 1;
            HelpComesFirst(options, events) <==>
            HelpComesFirst(options, events[..n]) || (AsksForHelp(events[n]) && AllHarmless(options, events[..n]))
  {
    hide Harmless, AsksForHelp;
    var n := |events| - 1;
    if HelpComesFirst(options, events) {
      var k :| 0 <= k < |events| && AsksForHelp(events[k]) && AllHarmless(options, events[..k]);
      if k < n {
        assert events[..n][k] == events[k] && events[..n][..k] == events[..k];
      }
    }
    if HelpComesFirst(options, events[..n]) {
      var k :| 0 <= k < n && AsksForHelp(events[..n][k]) && AllHarmless(options, events[..n][..k]);
      assert events[k] == events[..n][k] && events[..k] == events[..n][..k];
    }
  }

  /** The events before the first that is not harmless. */
  function Handled(options: seq<Argument>, events: seq<Event>): (k: nat)
    ensures k <= |events| && AllHarmless(options, events[..k])
    ensures k < |events| ==> !Harmless(options, events[k])
  {
    First(events, (e: Event) => !Harmless(options, e))
  }

  /** Only the events before the first that is not harmless leave a trace. */
  lemma StepsHandled(store: Store, options: seq<Argument>, table: seq<LongOption>, events: seq<Event>)
    ensures var k := Handled(options, events);
            && Steps(store, options, table, events[..k]).Continue?
            && Steps(store, options, table, events).store == Steps(store, options, table, events[..k]).store
  {
    hide Step, Harmless;
    var k := Handled(options, events);
    StepsVerdict(store, options, table, events[..k]);
    if k < |events| {
      StepsStep(store, options, table, events, k);
      StepVerdict(Steps(store, options, table, events[..k]).store, options, table, events[k]);
      StepKeepsStore(Steps(store, options, table, events[..k]).store, options, table, events[k]);
      EarlyEnd(store, options, table, events, k + 1);
    } else {
      assert events[..k] == events;
    }
  }

  lemma StepKeepsStore(store: Store, options: seq<Argument>, table: seq<LongOption>, e: Event)
    ensures !Step(store, options, table, e).Continue? ==> Step(store, options, table, e).store == store
  {
  }

  // ---------------------------------------------------------------- every option gets its own arguments

  predicate Apart(a: Argument, b: Argument) {
    && (a.flag.Some? ==> a.flag != b.flag)
    && (a.argument.Some? ==> a.argument != b.argument)
    && (a.argumentArray.Some? && b.argumentArray.Some? ==>
          a.argumentArray.value.list != b.argumentArray.value.list &&
          a.argumentArray.value.count != b.argumentArray.value.count)
  }

  /** No other descriptor has a destination of `m`. */
  predicate Private(options: seq<Argument>, m: nat)
    requires m < |options|
  {
    forall j :: 0 <= j < |options| && j != m ==> Apart(options[m], options[j])
  }

  /** The arguments of the events that name `m`, in order. */
  function OwnArguments(all: seq<Argument>, events: seq<Event>, m: nat): seq<Option<string>>
    requires m < |all|
  {
    if events == [] then []
    else
      var front, last := OwnArguments(all, events[..|events| - 1], m), events[|events| - 1];
      if Means(all, last, m) then front + [last.optarg] else front
  }

  /** What a descriptor's destinations hold. */
  datatype View = View(flag: int, text: Option<string>, list: seq<string>, count: nat)

  function ViewOf(store: Store, o: Argument): View {
    View(
      if o.flag.Some? then store.Flag(o.flag.value) else 0,
      if o.argument.Some? then store.Text(o.argument.value) else None,
      if o.argumentArray.Some? then store.List(o.argumentArray.value.list) else [],
      if o.argumentArray.Some? then store.Count(o.argumentArray.value.count) else 0)
  }

  function AllPrinted(own: seq<Option<string>>): seq<string> {
    seq(|own|, i requires 0 <= i < |own| => Printed(own[i]))
  }

  /**
    What a descriptor's destinations hold after its own arguments: its flag value and its last argument if
    there were any, and in its list exactly these arguments, in order, after what was there before.
   */
  function OwnView(before: View, o: Argument, own: seq<Option<string>>): View {
    View(
      if o.flag.Some? && own != [] then o.flagval else before.flag,
      if o.argument.Some? && own != [] then Some(Printed(own[|own| - 1])) else before.text,
      if o.argumentArray.Some? then before.list + AllPrinted(own) else before.list,
      if o.argumentArray.Some? then before.count + |own| else before.count)
  }

  lemma NoArguments(before: View, o: Argument)
    ensures OwnView(before, o, []) == before
  {
  }

  lemma OneMoreArgument(before: View, o: Argument, own: seq<Option<string>>, argument: Option<string>)
    ensures OwnView(OwnView(before, o, own), o, [argument]) == OwnView(before, o, own + [argument])
  {
    assert AllPrinted(own + [argument]) == AllPrinted(own) + AllPrinted([argument]);
    assert before.list + (AllPrinted(own) + AllPrinted([argument])) ==
           before.list + AllPrinted(own) + AllPrinted([argument]);
  }

  lemma TriggeredView(store: Store, o: Argument, argument: Option<string>)
    requires ViewOf(store, o).count == |ViewOf(store, o).list|
    ensures ViewOf(Triggered(store, o, argument), o) == OwnView(ViewOf(store, o), o, [argument])
  {
    assert AllPrinted([argument]) == [Printed(argument)];
    var list := ViewOf(store, o).list;
    assert list[..|list|] == list;
  }

  lemma OthersView(store: Store, o: Argument, other: Argument, argument: Option<string>)
    requires Apart(o, other)
    ensures ViewOf(Triggered(store, other, argument), o) == ViewOf(store, o)
  {
  }

  lemma StepView(store: Store, all: seq<Argument>, e: Event, m: nat)
    requires Unambiguous(all) && 1 <= m < |Used(all)| && Private(Used(all), m)
    requires Step(store, Used(all), TableOf(all), e).Continue?
    requires ViewOf(store, all[m]).count == |ViewOf(store, all[m]).list|
    ensures ViewOf(Step(store, Used(all), TableOf(all), e).store, all[m]) ==
            if Means(all, e, m) then OwnView(ViewOf(store, all[m]), all[m], [e.optarg]) else ViewOf(store, all[m])
  {
    hide TableOf, Means, Step, Triggered, ViewOf, OwnView, Apart, Unambiguous;
    var named := EventTriggersOne(store, all, e);
    assert Used(all)[m] == all[m];
    if named == Some(m) {
      TriggeredView(store, all[m], e.optarg);
    } else if named.Some? {
      OthersView(store, all[m], Used(all)[named.value], e.optarg);
    }
  }

  lemma {:induction false} HistoryView(store: Store, all: seq<Argument>, events: seq<Event>, m: nat)
    requires Unambiguous(all) && 1 <= m < |Used(all)| && Private(Used(all), m)
    requires Steps(store, Used(all), TableOf(all), events).Continue?
    requires ViewOf(store, all[m]).count == |ViewOf(store, all[m]).list|
    ensures var after := ViewOf(Steps(store, Used(all), TableOf(all), events).store, all[m]);
            after == OwnView(ViewOf(store, all[m]), all[m], OwnArguments(all, events, m)) && after.count == |after.list|
  {
    hide Unambiguous, Private, TableOf, ViewOf, Means, Step;
    if events == [] {
      NoArguments(ViewOf(store, all[m]), all[m]);
    } else {
      var n := |events| - 1;
      HistoryView(store, all, events[..n], m);
      StepView(Steps(store, Used(all), TableOf(all), events[..n]).store, all, events[n], m);
      var own := OwnArguments(all, events[..n], m);
      OneMoreArgument(ViewOf(store, all[m]), all[m], own, events[n].optarg);
    }
  }

  /**
    After any events, whether they end in help, in an unknown option or not at all, each option's
    destinations hold what its own events up to there left, and its count is the length of its list.
   */
  lemma OptionHistory(store: Store, all: seq<Argument>, events: seq<Event>, m: nat)
    requires Unambiguous(all) && 1 <= m < |Used(all)| && Private(Used(all), m)
    requires ViewOf(store, all[m]).count == |ViewOf(store, all[m]).list|
    ensures var own := OwnArguments(all, events[..Handled(Used(all), events)], m);
            var after := ViewOf(Steps(store, Used(all), TableOf(all), events).store, all[m]);
            after == OwnView(ViewOf(store, all[m]), all[m], own) && after.count == |after.list|
  {
    hide Unambiguous, Private, TableOf, ViewOf, OwnView, Steps, Handled;
    StepsHandled(store, Used(all), TableOf(all), events);
    HistoryView(store, all, events[..Handled(Used(all), events)], m);
  }
}
