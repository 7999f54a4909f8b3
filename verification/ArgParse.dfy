/** Parsing a command line: what the options, the positional words and the command leave in their destinations. */
module ArgParse {
  import opened Bytes
  import opened Strings
  import opened ArgTables

  // ---------------------------------------------------------------- destinations

  /** The caller's variables, by address and C type; what was never written is zero. */
  datatype Store = Store(
    flags: map<Address, int>, strings: map<Address, Option<string>>,
    lists: map<Address, seq<string>>, counts: map<Address, nat>)
  {
    function Flag(a: Address): int {
      if a in flags then flags[a] else 0
    }

    function Text(a: Address): Option<string> {
      if a in strings then strings[a] else None
    }

    function List(a: Address): seq<string> {
      if a in lists then lists[a] else []
    }

    function Count(a: Address): nat {
      if a in counts then counts[a] else 0
    }
  }

  const MAX_PRINTED := 1048576

  /** "%.1048576s", which prints a missing string as "(null)". */
  function Printed(argument: Option<string>): (s: string)
    ensures argument.None? ==> s == "(null)"
    ensures argument.Some? ==> s <= argument.value && |s| == Min(|argument.value|, 1048576)
  {
    match argument
    case None => "(null)"
    case Some(text) => if |text| <= MAX_PRINTED then text else text[..MAX_PRINTED]
  }

  function Grown(list: seq<string>, count: nat, s: string): seq<string> {
    (if count <= |list| then list[..count] else list) + [s]
  }

  function Triggered(store: Store, option: Argument, argument: Option<string>): Store {
    var flags := if option.flag.Some? then store.flags[option.flag.value := option.flagval] else store.flags;
    var strings :=
      if option.argument.Some? then store.strings[option.argument.value := Some(Printed(argument))]
      else store.strings;
    match option.argumentArray
    case None => store.(flags := flags, strings := strings)
    case Some(Repeatable(list, count)) =>
      Store(flags, strings,
            store.lists[list := Grown(store.List(list), store.Count(count), Printed(argument))],
            store.counts[count := store.Count(count) + 1])
  }

  /** Two options use the same list exactly when they use the same count. */
  predicate Paired(options: seq<Argument>) {
    forall i, j :: 0 <= i < |options| && 0 <= j < |options| ==> SameOrApart(options[i], options[j])
  }

  predicate SameOrApart(a: Argument, b: Argument) {
    a.argumentArray.Some? && b.argumentArray.Some? ==>
      (a.argumentArray.value.list == b.argumentArray.value.list <==>
       a.argumentArray.value.count == b.argumentArray.value.count)
  }

  /** No count exceeds the length of its list. */
  predicate Sound(store: Store, options: seq<Argument>) {
    forall i :: 0 <= i < |options| ==> Fits(store, options[i])
  }

  predicate Fits(store: Store, option: Argument) {
    option.argumentArray.Some? ==>
      store.Count(option.argumentArray.value.count) <= |store.List(option.argumentArray.value.list)|
  }

  /** Growing one list keeps every list in bounds. */
  lemma TriggerKeepsSound(store: Store, options: seq<Argument>, i: nat, argument: Option<string>)
    requires i < |options| && Paired(options) && Sound(store, options)
    ensures Sound(Triggered(store, options[i], argument), options)
  {
    forall j | 0 <= j < |options|
      ensures Fits(Triggered(store, options[i], argument), options[j])
    {
      assert SameOrApart(options[i], options[j]);
      assert Fits(store, options[j]) && Fits(store, options[i]);
    }
  }

  // ---------------------------------------------------------------- options

  /** What getopt_long returns: its code, the index it stored, and optarg. */
  datatype Event = Event(code: int, optionIndex: nat, optarg: Option<string>)

  datatype Progress = Continue(store: Store) | HelpShown(store: Store) | Failure(store: Store)

  predicate Answers(option: Argument, name: string) {
    option.longname.Some? && StartsWith(name, option.longname.value)
  }

  /** The positions of the descriptors that a long option triggers. */
  function LongTrace(options: seq<Argument>, name: string): (at: seq<nat>)
    ensures forall k :: 0 <= k < |at| ==> at[k] < |options|
  {
    if options == [] then []
    else
      var front, n := LongTrace(options[..|options| - 1], name), |options| - 1;
      if Answers(options[n], name) then front + [n] else front
  }

  function TriggerAll(store: Store, options: seq<Argument>, at: seq<nat>, argument: Option<string>): Store
    requires forall k :: 0 <= k < |at| ==> at[k] < |options|
  {
    if at == [] then store
    else
      Triggered(TriggerAll(store, options, at[..|at| - 1], argument), options[at[|at| - 1]], argument)
  }

  function FirstShort(options: seq<Argument>, code: int): nat {
    First(options, (a: Argument) => a.shortname as int == code)
  }

  function NameAt(table: seq<LongOption>, k: nat): Option<string> {
    if k < |table| then table[k].name else None
  }

  function Step(store: Store, options: seq<Argument>, table: seq<LongOption>, e: Event): Progress {
    if e.code == 0 then
      if e.optionIndex == 0 then HelpShown(store)
      else
        match NameAt(table, e.optionIndex)
        case None => Continue(store)
        case Some(name) => Continue(TriggerAll(store, options, LongTrace(options, name), e.optarg))
    else if e.code == 'h' as int then HelpShown(store)
    else
      var i := FirstShort(options, e.code);
      if i < |options| then Continue(Triggered(store, options[i], e.optarg)) else Failure(store)
  }

  function Steps(store: Store, options: seq<Argument>, table: seq<LongOption>, events: seq<Event>): Progress {
    if events == [] then Continue(store)
    else
      var before := Steps(store, options, table, events[..|events| - 1]);
      if before.Continue? then Step(before.store, options, table, events[|events| - 1]) else before
  }

  /** A short option triggers the first descriptor with its character, whatever the tables hold. */
  lemma FirstShortTriggers(store: Store, options: seq<Argument>, table: seq<LongOption>, e: Event, i: nat)
    requires e.code != 0 && e.code != 'h' as int
    requires i < |options| && options[i].shortname as int == e.code
    requires forall j :: 0 <= j < i ==> options[j].shortname as int != e.code
    ensures Step(store, options, table, e) == Continue(Triggered(store, options[i], e.optarg))
  {
    hide Triggered;
    assert FirstShort(options, e.code) == i;
  }

  // ---------------------------------------------------------------- words

  /** A word triggers the first descriptor with that command, and ends the scan. */
  lemma FirstCommandTriggers(store: Store, options: seq<Argument>, words: seq<string>, from: nat, i: nat)
    requires from <= |options| && words != []
    requires i < |options| && options[i].command == Some(words[0])
    requires forall j :: 0 <= j < i ==> options[j].command != Some(words[0])
    ensures Scan(store, options, words, from) == Scanned(true, Triggered(store, options[i], None))
  {
    hide Triggered;
    assert CommandOf(options, words[0]) == i;
  }

  function NextPositional(options: seq<Argument>, from: nat): (k: nat)
    requires from <= |options|
    ensures from <= k <= |options|
    decreases |options| - from
  {
    if from < |options| && options[from].positionalName.None? then NextPositional(options, from + 1) else from
  }

  function CommandOf(options: seq<Argument>, word: string): nat {
    First(options, (a: Argument) => a.command == Some(word))
  }

  predicate IsCommand(options: seq<Argument>, word: string) {
    CommandOf(options, word) < |options|
  }

  datatype Scanned = Scanned(success: bool, store: Store)

  function Assigned(store: Store, a: Address, word: string): Store {
    store.(strings := store.strings[a := Some(word)])
  }

  function Scan(store: Store, options: seq<Argument>, words: seq<string>, from: nat): Scanned
    requires from <= |options|
    decreases |words|
  {
    if words == [] then Scanned(true, store)
    else if IsCommand(options, words[0]) then
      Scanned(true, Triggered(store, options[CommandOf(options, words[0])], None))
    else
      var p := NextPositional(options, from);
      if p == |options| then Scanned(false, store)
      else if options[p].argument.Some? then
        Scan(Assigned(store, options[p].argument.value, words[0]), options, words[1..], p + 1)
      else Scan(store, options, words[1..], p)
  }

  /** struct arguments */
  datatype Arguments = Arguments(
    programname: Option<string>, description: Option<string>, arguments: array?<Argument>)

  datatype Outcome = Returned(success: bool, store: Store) | Exited(store: Store)

  /** The effect of a whole command line, for the descriptors that were kept. */
  function Parse(store: Store, all: seq<Argument>, events: seq<Event>, words: seq<string>): Outcome {
    var options := Used(all);
    match Steps(store, options, TableOf(all), events)
    case HelpShown(s) => Exited(s)
    case Failure(s) => Returned(false, s)
    case Continue(s) =>
      var scanned := Scan(s, options, words, 0);
      Returned(scanned.success, scanned.store)
  }

  class Destinations {
    var store: Store

    constructor (store: Store)
      ensures this.store == store
    {
      this.store := store;
    }

    method Trigger(option: Argument, argument: Option<string>)
      requires Fits(store, option)
      modifies this
      ensures store == Triggered(old(store), option, argument)
    {
      if option.flag.Some? {
        store := store.(flags := store.flags[option.flag.value := option.flagval]);
      }
      if option.argument.Some? {
        store := store.(strings := store.strings[option.argument.value := Some(Printed(argument))]);
      }
      if option.argumentArray.Some? {
        var Repeatable(list, count) := option.argumentArray.value;
        var oldSize := store.Count(count);
        store := store.(lists := store.lists[list := store.List(list)[..oldSize] + [Printed(argument)]]);
        store := store.(counts := store.counts[count := oldSize + 1]);
      }
    }

    /** The descriptors whose long name starts the name that was found, in order. */
    method TriggerLong(options: seq<Argument>, name: string, argument: Option<string>)
      requires Paired(options) && Sound(store, options)
      modifies this
      ensures Sound(store, options)
      ensures store == TriggerAll(old(store), options, LongTrace(options, name), argument)
    {
      for i := 0 to |options|
        invariant Sound(store, options)
        invariant store == TriggerAll(old(store), options, LongTrace(options[..i], name), argument)
      {
        TraceStep(old(store), options, i, name, argument);
        if Answers(options[i], name) {
          TriggerKeepsSound(store, options, i, argument);
          Trigger(options[i], argument);
        }
      }
      assert options[..|options|] == options;
    }

    /** The loop over getopt_long. */
    method RunEvents(options: seq<Argument>, table: array<LongOption>, events: seq<Event>) returns (progress: Progress)
      requires Paired(options) && Sound(store, options)
      requires forall e :: e in events && e.code == 0 ==> e.optionIndex < table.Length
      modifies this
      ensures progress == Steps(old(store), options, table[..], events) && store == progress.store
      ensures Sound(store, options)
    {
      for k := 0 to |events|
        invariant Sound(store, options)
        invariant Steps(old(store), options, table[..], events[..k]) == Continue(store)
      {
        var e := events[k];
        StepsStep(old(store), options, table[..], events, k);
        if e.code == 0 {
          if e.optionIndex == 0 {
            EarlyEnd(old(store), options, table[..], events, k + 1);
            return HelpShown(store);
          } else {
            if table[e.optionIndex].name.Some? {
              TriggerLong(options, table[e.optionIndex].name.value, e.optarg);
            }
          }
        } else {
          if e.code == 'h' as int {
            EarlyEnd(old(store), options, table[..], events, k + 1);
            return HelpShown(store);
          }
          var i := 0;
          while i < |options| && options[i].shortname as int != e.code
            invariant i <= |options|
            invariant forall j :: 0 <= j < i ==> options[j].shortname as int != e.code
          {
            i := i + 1;
          }
          assert i == FirstShort(options, e.code);
          if i == |options| {
            EarlyEnd(old(store), options, table[..], events, k + 1);
            return Failure(store);
          }
          TriggerKeepsSound(store, options, i, e.optarg);
          Trigger(options[i], e.optarg);
        }
      }
      assert events[..|events|] == events;
      progress := Continue(store);
    }

    /** The words after the options, with one index for the words and one for the positional descriptors. */
    method ScanWords(options: seq<Argument>, words: seq<string>) returns (success: bool)
      requires Paired(options) && Sound(store, options)
      modifies this
      ensures Scanned(success, store) == Scan(old(store), options, words, 0)
    {
      hide Triggered, Paired;
      var positional := 0;
      for parg := 0 to |words|
        invariant positional <= |options|
        invariant Sound(store, options)
        invariant Scan(old(store), options, words, 0) == Scan(store, options, words[parg..], positional)
      {
        assert words[parg..][1..] == words[parg + 1..];
        var i := 0;
        while i < |options| && options[i].command != Some(words[parg])
          invariant i <= |options|
          invariant forall j :: 0 <= j < i ==> options[j].command != Some(words[parg])
        {
          i := i + 1;
        }
        assert i == CommandOf(options, words[parg]);
        if i < |options| {
          Trigger(options[i], None);
          return true;
        }
        ghost var from := positional;
        while positional < |options| && options[positional].positionalName.None?
          invariant from <= positional <= |options|
          invariant NextPositional(options, from) == NextPositional(options, positional)
        {
          positional := positional + 1;
        }
        if positional >= |options| {
          return false;
        }
        if options[positional].argument.Some? {
          store := Assigned(store, options[positional].argument.value, words[parg]);
          positional := positional + 1;
        }
      }
      success := true;
    }

    /** options_parse, given what getopt_long makes of the command line and the words it leaves. */
    method OptionsParse(args: Option<Arguments>, internalRelease: bool, events: seq<Event>, words: seq<string>)
      returns (exited: bool, success: bool)
      requires args.Some? && args.value.arguments != null ==> Terminated(args.value.arguments[..])
      requires args.Some? ==>
                 var all := WithHelp(ListedIn(args.value.arguments), internalRelease);
                 && Paired(all) && Sound(store, all)
                 && forall e :: e in events && e.code == 0 ==> e.optionIndex < |TableOf(all)|
      modifies this
      ensures args.None? ==> !exited && !success && store == old(store)
      ensures args.Some? ==>
                (if exited then Exited(store) else Returned(success, store)) ==
                Parse(old(store), old(WithHelp(ListedIn(args.value.arguments), internalRelease)), events, words)
    {
      if args.None? {
        return false, false;
      }
      hide Paired, Sound, Parse, Steps, Scan, TableOf, WithHelp, ListedIn;
      ghost var before := store;
      ghost var all := WithHelp(ListedIn(args.value.arguments), internalRelease);
      var options, longOptions, shortOptions := MakeTables(args.value.arguments, internalRelease);
      FirstArgumentsAreSound(store, all);
      var progress := RunEvents(options, longOptions, events);
      ParseOutcome(before, all, events, words);
      if progress.HelpShown? {
        return true, false;
      }
      if progress.Failure? {
        return false, false;
      }
      success := ScanWords(options, words);
      exited := false;
    }
  }

  /** The descriptors that are used; help can push out the last one. */
  function Used(all: seq<Argument>): seq<Argument> {
    if |all| <= MAX_ARGUMENTS then all else all[..MAX_ARGUMENTS]
  }

  lemma ParseOutcome(store: Store, all: seq<Argument>, events: seq<Event>, words: seq<string>)
    ensures var progress := Steps(store, Used(all), TableOf(all), events);
            Parse(store, all, events, words) ==
            if progress.HelpShown? then Exited(progress.store)
            else if progress.Failure? then Returned(false, progress.store)
            else var scanned := Scan(progress.store, Used(all), words, 0); Returned(scanned.success, scanned.store)
  {
  }

  lemma FirstArgumentsAreSound(store: Store, all: seq<Argument>)
    ensures Paired(all) ==> Paired(Used(all))
    ensures Sound(store, all) ==> Sound(store, Used(all))
  {
  }

  /** Filters the descriptors and builds both tables. */
  method MakeTables(source: array?<Argument>, internalRelease: bool)
    returns (options: seq<Argument>, longOptions: array<LongOption>, shortOptions: array<char>)
    requires source != null ==> Terminated(source[..])
    ensures fresh(longOptions) && fresh(shortOptions)
    ensures var all := WithHelp(ListedIn(source), internalRelease);
            && options == Used(all) && longOptions[..] == TableOf(all)
            && |ShortString(options)| < shortOptions.Length == 2 * |options| + 2
            && shortOptions[..|ShortString(options)| + 1] == ShortString(options) + ['\0']
  {
    hide ShortString, TableOf, ListedIn, WithHelp, Listed;
    ghost var all := WithHelp(ListedIn(source), internalRelease);
    HelpedCount(ListedIn(source), internalRelease, source);
    var target := FilterArgs(source, internalRelease);
    FilteredCount(target[..], all);
    var numArgs := NumArguments(target);
    options := target[..numArgs];
    longOptions := LongTable(target, numArgs, all);
    shortOptions := new char[2 * numArgs + 2];
    var _ := FillShortOptionArray(target, numArgs, shortOptions, 2 * numArgs + 2);
  }

  lemma HelpedCount(list: seq<Argument>, internalRelease: bool, arguments: array?<Argument>)
    requires list == ListedIn(arguments)
    ensures var all := WithHelp(list, internalRelease);
            |all| <= MAX_ARGUMENTS + 1 && ZERO !in all
  {
  }

  lemma TraceStep(store: Store, options: seq<Argument>, i: nat, name: string, argument: Option<string>)
    requires i < |options|
    ensures TriggerAll(store, options, LongTrace(options[..i + 1], name), argument) ==
            if Answers(options[i], name)
            then Triggered(TriggerAll(store, options, LongTrace(options[..i], name), argument), options[i], argument)
            else TriggerAll(store, options, LongTrace(options[..i], name), argument)
  {
    assert options[..i + 1][..i] == options[..i];
    var at := LongTrace(options[..i], name);
    assert (at + [i])[..|at|] == at;
  }

  lemma StepsStep(store: Store, options: seq<Argument>, table: seq<LongOption>, events: seq<Event>, k: nat)
    requires k < |events|
    ensures Steps(store, options, table, events[..k + 1]) ==
            var before := Steps(store, options, table, events[..k]);
            if before.Continue? then Step(before.store, options, table, events[k]) else before
  {
    assert events[..k + 1][..k] == events[..k];
  }

  /** Nothing after help or a failure has an effect. */
  lemma {:induction false} EarlyEnd(
    store: Store, options: seq<Argument>, table: seq<LongOption>, events: seq<Event>, k: nat)
    requires k <= |events| && !Steps(store, options, table, events[..k]).Continue?
    ensures Steps(store, options, table, events) == Steps(store, options, table, events[..k])
    decreases |events|
  {
    if k < |events| {
      var n := |events| - 1;
      assert events[..n][..k] == events[..k];
      EarlyEnd(store, options, table, events[..n], k);
    } else {
      assert events[..k] == events;
    }
  }
}
