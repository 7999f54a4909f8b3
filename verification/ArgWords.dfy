/** The words after the options: a zip with the positional descriptors, up to the first command. */
module ArgWords {
  import opened Bytes
  import opened ArgTables
  import opened ArgParse

  function Positionals(options: seq<Argument>): (positionals: seq<Argument>)
    ensures |positionals| <= |options|
    ensures forall i :: 0 <= i < |positionals| ==> positionals[i] in options && positionals[i].positionalName.Some?
  {
    if options == [] then []
    else (if options[0].positionalName.Some? then [options[0]] else []) + Positionals(options[1..])
  }

  /** The positional descriptors before the first that has no destination. */
  function Receiving(positionals: seq<Argument>): (k: nat)
    ensures k <= |positionals|
    ensures forall i :: 0 <= i < k ==> positionals[i].argument.Some?
    ensures k < |positionals| ==> positionals[k].argument.None?
  {
    if positionals == [] || positionals[0].argument.None? then 0 else 1 + Receiving(positionals[1..])
  }

  /** The words before the first command. */
  function Leading(options: seq<Argument>, words: seq<string>): (k: nat)
    ensures k <= |words|
    ensures forall i :: 0 <= i < k ==> !IsCommand(options, words[i])
    ensures k < |words| ==> IsCommand(options, words[k])
  {
    First(words, (word: string) => IsCommand(options, word))
  }

  /** Words paired with destinations, one to one and in order. */
  function Zipped(store: Store, positionals: seq<Argument>, words: seq<string>): Store
    requires |positionals| == |words|
    requires forall i :: 0 <= i < |positionals| ==> positionals[i].argument.Some?
    decreases |words|
  {
    if words == [] then store
    else Zipped(Assigned(store, positionals[0].argument.value, words[0]), positionals[1..], words[1..])
  }

  /** What scanning amounts to. */
  function ZipScan(store: Store, options: seq<Argument>, positionals: seq<Argument>, words: seq<string>): Scanned {
    var leading, receiving := Leading(options, words), Receiving(positionals);
    var paired := Min(leading, receiving);
    var zipped := Zipped(store, positionals[..paired], words[..paired]);
    if receiving == |positionals| < leading then Scanned(false, zipped)
    else if leading == |words| then Scanned(true, zipped)
    else Scanned(true, Triggered(zipped, options[CommandOf(options, words[leading])], None))
  }

  /**
    The scan with its two indices is a zip: the words before the first command go to the positional
    descriptors in order.  It fails exactly when there are more words than descriptors that can take one
    and none without a destination, which swallows all further words.
   */
  lemma {:induction false} ScanIsZip(store: Store, options: seq<Argument>, words: seq<string>, from: nat)
    requires from <= |options|
    ensures Scan(store, options, words, from) == ZipScan(store, options, Positionals(options[from..]), words)
    decreases |words|
  {
    hide Triggered, Positionals, ZipScan, Leading, IsCommand;
    var positionals := Positionals(options[from..]);
    if words == [] || IsCommand(options, words[0]) {
      ZipScanEnd(store, options, positionals, words);
    } else {
      var p := NextPositional(options, from);
      FirstPositional(options, from);
      if p == |options| {
        ZipScanFull(store, options, words);
      } else if options[p].argument.Some? {
        ScanIsZip(Assigned(store, options[p].argument.value, words[0]), options, words[1..], p + 1);
        ZipScanStep(store, options, positionals, words);
      } else {
        ScanIsZip(store, options, words[1..], p);
        ZipScanSkip(store, options, positionals, words);
      }
    }
  }

  /** Nothing is paired without a word in front. */
  lemma ZipScanEnd(store: Store, options: seq<Argument>, positionals: seq<Argument>, words: seq<string>)
    requires words == [] || IsCommand(options, words[0])
    ensures ZipScan(store, options, positionals, words) ==
            Scanned(true, if words == [] then store else Triggered(store, options[CommandOf(options, words[0])], None))
  {
    hide Triggered, IsCommand;
    assert Leading(options, words) == 0;
  }

  /** A word without a descriptor fails. */
  lemma ZipScanFull(store: Store, options: seq<Argument>, words: seq<string>)
    requires words != [] && !IsCommand(options, words[0])
    ensures ZipScan(store, options, [], words) == Scanned(false, store)
  {
    hide Triggered, IsCommand, Leading;
    LeadingStep(options, words);
  }

  /** A descriptor without a destination swallows the word and stays. */
  lemma ZipScanSkip(store: Store, options: seq<Argument>, positionals: seq<Argument>, words: seq<string>)
    requires words != [] && !IsCommand(options, words[0])
    requires positionals != [] && positionals[0].argument.None?
    ensures ZipScan(store, options, positionals, words) == ZipScan(store, options, positionals, words[1..])
  {
    hide Triggered, IsCommand, Leading;
    LeadingStep(options, words);
    assert Receiving(positionals) == 0;
  }

  lemma LeadingStep(options: seq<Argument>, words: seq<string>)
    requires words != [] && !IsCommand(options, words[0])
    ensures Leading(options, words) == 1 + Leading(options, words[1..])
  {
    var k := Leading(options, words[1..]);
    assert forall i :: 0 < i < |words| ==> words[i] == words[1..][i - 1];
  }

  /** The next descriptor found is the first of those left. */
  lemma {:induction false} FirstPositional(options: seq<Argument>, from: nat)
    requires from <= |options|
    ensures var p := NextPositional(options, from);
            && (p == |options| ==> Positionals(options[from..]) == [])
            && (p < |options| ==>
                  && Positionals(options[from..]) == Positionals(options[p..])
                  && Positionals(options[from..]) == [options[p]] + Positionals(options[p + 1..]))
    decreases |options| - from
  {
    if from < |options| {
      PositionalsStep(options, from);
      hide Positionals;
      if options[from].positionalName.None? {
        FirstPositional(options, from + 1);
      }
    }
  }

  lemma PositionalsStep(options: seq<Argument>, from: nat)
    requires from < |options|
    ensures Positionals(options[from..]) ==
            if options[from].positionalName.Some? then [options[from]] + Positionals(options[from + 1..])
            else Positionals(options[from + 1..])
  {
    assert options[from..][1..] == options[from + 1..];
  }

  /** One word and one descriptor that takes it. */
  lemma ZipScanStep(store: Store, options: seq<Argument>, positionals: seq<Argument>, words: seq<string>)
    requires words != [] && !IsCommand(options, words[0])
    requires positionals != [] && positionals[0].argument.Some?
    ensures ZipScan(store, options, positionals, words) ==
            ZipScan(Assigned(store, positionals[0].argument.value, words[0]), options, positionals[1..], words[1..])
  {
    hide Triggered, Leading, IsCommand;
    LeadingStep(options, words);
    var leading, receiving := Leading(options, words), Receiving(positionals);
    assert receiving == 1 + Receiving(positionals[1..]);
    var paired := Min(leading, receiving);
    assert positionals[..paired][1..] == positionals[1..][..paired - 1];
    assert words[..paired][1..] == words[1..][..paired - 1];
  }

  /** With destinations of their own, each descriptor ends up with its word, and nothing else changes. */
  lemma {:induction false} ZippedMeaning(store: Store, positionals: seq<Argument>, words: seq<string>)
    requires |positionals| == |words|
    requires forall i :: 0 <= i < |positionals| ==> positionals[i].argument.Some?
    requires forall i, j :: 0 <= i < j < |positionals| ==> positionals[i].argument != positionals[j].argument
    ensures var zipped := Zipped(store, positionals, words);
            && (forall i :: 0 <= i < |words| ==> zipped.Text(positionals[i].argument.value) == Some(words[i]))
            && (forall a: Address :: (forall i :: 0 <= i < |positionals| ==> positionals[i].argument != Some(a)) ==>
                  zipped.Text(a) == store.Text(a))
            && zipped.flags == store.flags && zipped.lists == store.lists && zipped.counts == store.counts
    decreases |words|
  {
    if words != [] {
      var first := positionals[0].argument.value;
      var next := Assigned(store, first, words[0]);
      ZippedMeaning(next, positionals[1..], words[1..]);
      var zipped := Zipped(next, positionals[1..], words[1..]);
      forall i | 0 <= i < |words|
        ensures zipped.Text(positionals[i].argument.value) == Some(words[i])
      {
        if i > 0 {
          assert positionals[i] == positionals[1..][i - 1] && words[i] == words[1..][i - 1];
        } else {
          assert forall j :: 0 <= j < |positionals[1..]| ==> positionals[1..][j] == positionals[j + 1];
          assert zipped.Text(first) == next.Text(first);
        }
      }
      forall a: Address | forall i :: 0 <= i < |positionals| ==> positionals[i].argument != Some(a)
        ensures zipped.Text(a) == store.Text(a)
      {
        assert forall j :: 0 <= j < |positionals[1..]| ==> positionals[1..][j] == positionals[j + 1];
        assert a != first;
      }
    }
  }

  /** At most one command takes effect: what follows the first one does not matter. */
  lemma CommandEndsTheScan(store: Store, options: seq<Argument>, words: seq<string>, tail: seq<string>)
    requires exists i :: 0 <= i < |words| && IsCommand(options, words[i])
    ensures Scan(store, options, words + tail, 0) == Scan(store, options, words, 0)
  {
    hide IsCommand, Triggered, Positionals, Receiving, Zipped, Scan;
    ScanIsZip(store, options, words, 0);
    ScanIsZip(store, options, words + tail, 0);
    var k, all := Leading(options, words), words + tail;
    var l := Leading(options, all);
    assert k < |words| && all[k] == words[k];
    assert l == k;
    var paired := Min(k, Receiving(Positionals(options[0..])));
    assert all[..paired] == words[..paired];
  }

  /** Words fit when there are no more of them than positional descriptors. */
  predicate WordsFit(options: seq<Argument>, words: seq<string>) {
    Leading(options, words) <= |Positionals(options)|
  }

  /**
    Parsing succeeds exactly when the words fit, for every command line, exactly when every positional
    descriptor has a destination.
   */
  lemma WordsMustFit(store: Store, options: seq<Argument>)
    ensures (forall words :: Scan(store, options, words, 0).success <==> WordsFit(options, words))
       <==> (forall o :: o in Positionals(options) ==> o.argument.Some?)
  {
    hide Scan, Triggered, Zipped, IsCommand, Leading;
    var positionals := Positionals(options);
    assert options[0..] == options;
    forall words: seq<string>
      ensures Scan(store, options, words, 0).success <==>
              Leading(options, words) <= |positionals| || Receiving(positionals) < |positionals|
    {
      ScanIsZip(store, options, words, 0);
    }
    ReceivingAll(positionals);
    if Receiving(positionals) < |positionals| {
      var words := PlainWords(options, |positionals| + 1);
      assert !WordsFit(options, words);
      assert Scan(store, options, words, 0).success;
    }
  }

  lemma {:induction false} ReceivingAll(positionals: seq<Argument>)
    ensures Receiving(positionals) == |positionals| <==> forall o :: o in positionals ==> o.argument.Some?
  {
    if positionals != [] {
      ReceivingAll(positionals[1..]);
      assert forall o :: o in positionals <==> o == positionals[0] || o in positionals[1..];
    }
  }

  /** Some words are not commands, however many there are. */
  lemma PlainWords(options: seq<Argument>, n: nat) returns (words: seq<string>)
    ensures |words| == n == Leading(options, words)
  {
    var word := seq(LongestCommand(options) + 1, _ => 'x');
    LongWordIsPlain(options, word);
    words := seq(n, _ => word);
  }

  function LongestCommand(options: seq<Argument>): nat {
    if options == [] then 0
    else
      var rest := LongestCommand(options[1..]);
      if options[0].command.Some? && |options[0].command.value| > rest then |options[0].command.value| else rest
  }

  lemma {:induction false} LongWordIsPlain(options: seq<Argument>, word: string)
    requires |word| > LongestCommand(options)
    ensures !IsCommand(options, word)
  {
    if options != [] {
      LongWordIsPlain(options[1..], word);
    }
  }
}
