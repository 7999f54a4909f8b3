/** What a whole command line means: when it is accepted and what it leaves in the caller's variables. */
module ArgParseMeaning {
  import opened Bytes
  import opened ArgTables
  import opened ArgParse
  import opened ArgOptions
  import opened ArgWords

  /** The words before a command fit, or some positional descriptor without a destination swallows the rest. */
  predicate WordsTaken(options: seq<Argument>, words: seq<string>) {
    WordsFit(options, words) || exists o :: o in Positionals(options) && o.argument.None?
  }

  /**
    A command line is accepted exactly when all its options are known, none asks for help, and its words
    are taken; and help is shown exactly when it is asked for before anything unknown.
   */
  lemma ParseVerdict(store: Store, all: seq<Argument>, events: seq<Event>, words: seq<string>)
    ensures var outcome := Parse(store, all, events, words);
            && (outcome.Returned? && outcome.success <==>
                AllHarmless(Used(all), events) && WordsTaken(Used(all), words))
            && (outcome.Exited? <==> HelpComesFirst(Used(all), events))
  {
    hide Steps, Scan, AllHarmless, HelpComesFirst, WordsFit, Positionals;
    StepsVerdict(store, Used(all), TableOf(all), events);
    ScanSuccess(Steps(store, Used(all), TableOf(all), events).store, Used(all), words);
  }

  lemma ScanSuccess(store: Store, options: seq<Argument>, words: seq<string>)
    ensures Scan(store, options, words, 0).success <==> WordsTaken(options, words)
  {
    hide Scan, Triggered, Zipped, IsCommand, Leading, Positionals, Receiving;
    ScanIsZip(store, options, words, 0);
    assert options[0..] == options;
    ReceivingAll(Positionals(options));
  }

  /** Every descriptor has its destinations for itself. */
  predicate AllPrivate(options: seq<Argument>) {
    forall m :: 0 <= m < |options| ==> Private(options, m)
  }

  /** The words that are paired with a descriptor that has a destination. */
  function PairedWords(options: seq<Argument>, words: seq<string>): (n: nat)
    ensures n <= |words| && n <= |Positionals(options)|
  {
    Min(Leading(options, words), Receiving(Positionals(options)))
  }

  /** The number of positional descriptors before `m`. */
  function Rank(options: seq<Argument>, m: nat): nat
    requires m <= |options|
  {
    |Positionals(options[..m])|
  }

  /** After its own options, a descriptor's word. */
  function WithWord(view: View, options: seq<Argument>, words: seq<string>, m: nat): View
    requires m < |options|
  {
    if options[m].positionalName.Some? && Rank(options, m) < PairedWords(options, words)
    then view.(text := Some(words[Rank(options, m)]))
    else view
  }

  /** After that, its command, which has no argument to print. */
  function WithCommand(view: View, options: seq<Argument>, words: seq<string>, m: nat): View
    requires m < |options|
  {
    var leading := Leading(options, words);
    if leading < |words| && CommandOf(options, words[leading]) == m then OwnView(view, options[m], [None]) else view
  }

  /**
    What any command line leaves, accepted or not: a descriptor's destinations hold what its own options put
    there, up to a request for help or an unknown option; if there is none, then its own word; and if the
    words were accepted, then its own command; and nothing else.
   */
  lemma CommandLineMeaning(store: Store, all: seq<Argument>, events: seq<Event>, words: seq<string>, m: nat)
    requires Unambiguous(all) && AllPrivate(Used(all)) && 1 <= m < |Used(all)|
    requires ViewOf(store, all[m]).count == |ViewOf(store, all[m]).list|
    ensures var k, outcome := Handled(Used(all), events), Parse(store, all, events, words);
            var own := OwnView(ViewOf(store, all[m]), all[m], OwnArguments(all, events[..k], m));
            ViewOf(outcome.store, all[m]) ==
            if k < |events| then own
            else if outcome.Returned? && outcome.success
            then WithCommand(WithWord(own, Used(all), words, m), Used(all), words, m)
            else WithWord(own, Used(all), words, m)
  {
    hide Steps, Scan, TableOf, ViewOf, OwnView, Unambiguous, OwnArguments, WithWord, WithCommand, Harmless, Handled;
    var options := Used(all);
    assert options[m] == all[m];
    assert Private(options, m);
    StepsVerdict(store, options, TableOf(all), events);
    OptionHistory(store, all, events, m);
    if Handled(options, events) == |events| {
      assert events[..|events|] == events;
      ScanView(Steps(store, options, TableOf(all), events).store, options, words, m);
    }
  }

  /** A scan changes a descriptor's destinations by its word and, when it succeeds, its command only. */
  lemma ScanView(store: Store, options: seq<Argument>, words: seq<string>, m: nat)
    requires AllPrivate(options) && m < |options|
    requires ViewOf(store, options[m]).count == |ViewOf(store, options[m]).list|
    ensures var scanned := Scan(store, options, words, 0);
            var worded := WithWord(ViewOf(store, options[m]), options, words, m);
            ViewOf(scanned.store, options[m]) ==
            if scanned.success then WithCommand(worded, options, words, m) else worded
  {
    hide Scan, Triggered, Zipped, Leading, Positionals, Receiving, ViewOf, OwnView, WithWord, Private, CommandOf;
    ScanIsZip(store, options, words, 0);
    assert options[0..] == options;
    var n, leading := PairedWords(options, words), Leading(options, words);
    var zipped := Zipped(store, Positionals(options)[..n], words[..n]);
    ZippedView(store, options, words, m);
    WordKeepsList(ViewOf(store, options[m]), options, words, m);
    if Scan(store, options, words, 0).success && leading < |words| {
      var c := CommandOf(options, words[leading]);
      if c == m {
        TriggeredView(zipped, options[m], None);
      } else {
        PrivateApart(options, m, c);
        OthersView(zipped, options[m], options[c], None);
      }
    }
  }

  lemma WordKeepsList(view: View, options: seq<Argument>, words: seq<string>, m: nat)
    requires m < |options|
    ensures WithWord(view, options, words, m).list == view.list
    ensures WithWord(view, options, words, m).count == view.count
  {
  }

  lemma PrivateApart(options: seq<Argument>, m: nat, j: nat)
    requires AllPrivate(options) && m < |options| && j < |options| && j != m
    ensures Apart(options[m], options[j])
  {
    assert Private(options, m);
  }

  /** Every positional descriptor and its rank. */
  lemma {:induction false} PositionalIndex(options: seq<Argument>, i: nat) returns (j: nat)
    requires i < |Positionals(options)|
    ensures j < |options| && options[j] == Positionals(options)[i] && Rank(options, j) == i
    decreases |options|
  {
    if options[0].positionalName.Some? && i == 0 {
      j := 0;
    } else {
      var skipped := if options[0].positionalName.Some? then 1 else 0;
      var l := PositionalIndex(options[1..], i - skipped);
      j := l + 1;
      assert options[..j][1..] == options[1..][..l];
    }
  }

  /** A positional descriptor is found at its rank. */
  lemma {:induction false} RankIsIndex(options: seq<Argument>, m: nat)
    requires m < |options| && options[m].positionalName.Some?
    ensures Rank(options, m) < |Positionals(options)| && Positionals(options)[Rank(options, m)] == options[m]
    decreases m
  {
    if m > 0 {
      RankIsIndex(options[1..], m - 1);
      assert options[..m][1..] == options[1..][..m - 1];
    }
  }

  lemma ZippedView(store: Store, options: seq<Argument>, words: seq<string>, m: nat)
    requires AllPrivate(options) && m < |options|
    ensures var n := PairedWords(options, words);
            ViewOf(Zipped(store, Positionals(options)[..n], words[..n]), options[m]) ==
            WithWord(ViewOf(store, options[m]), options, words, m)
  {
    hide Zipped, Positionals, Receiving, Leading, Private, AllPrivate, Rank;
    var n := PairedWords(options, words);
    var positionals := Positionals(options)[..n];
    forall i, j | 0 <= i < j < n
      ensures positionals[i].argument != positionals[j].argument
    {
      var k := PositionalIndex(options, i);
      var l := PositionalIndex(options, j);
      PrivateApart(options, k, l);
    }
    ZippedMeaning(store, positionals, words[..n]);
    if options[m].positionalName.Some? && Rank(options, m) < n {
      RankIsIndex(options, m);
      assert positionals[Rank(options, m)] == options[m];
    } else if options[m].argument.Some? {
      forall i | 0 <= i < n
        ensures positionals[i].argument != options[m].argument
      {
        var k := PositionalIndex(options, i);
        assert k != m;
        PrivateApart(options, m, k);
      }
    }
  }
}
