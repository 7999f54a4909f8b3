/** Argument descriptors, and the option tables that are built from them for getopt_long. */
module ArgTables {
  import opened Bytes

  type Address = nat

  /** Where a repeatable option keeps its strings and their number. */
  datatype Repeatable = Repeatable(list: Address, count: Address)

  /** struct argument; a short name of zero means there is none. */
  datatype Argument = Argument(
    shortname: char, longname: Option<string>, command: Option<string>, positionalName: Option<string>,
    positionalOptional: bool, argname: Option<string>,
    argument: Option<Address>, flag: Option<Address>, flagval: int, description: Option<string>,
    internalOnly: bool, argumentArray: Option<Repeatable>)

  /** The all-zero descriptor that ends a list. */
  const ZERO := Argument('\0', None, None, None, false, None, None, None, 0, None, false, None)

  const HELP :=
    ZERO.(shortname := 'h', longname := Some("help"), description := Some("show this help message and exit"))

  const MAX_ARGUMENTS := 1024

  datatype ArgumentStatus = NoArgument | RequiredArgument | OptionalArgument

  function Status(option: Argument): (status: ArgumentStatus)
    ensures status.OptionalArgument? <==> option.flag.Some? && option.argument.Some?
    ensures status.RequiredArgument? <==>
              option.flag.None? && (option.argument.Some? || option.argumentArray.Some?)
  {
    if option.flag.Some? && option.argument.None? then NoArgument
    else if option.flag.Some? && option.argument.Some? then OptionalArgument
    else if option.flag.None? && option.argument.Some? then RequiredArgument
    else if option.argumentArray.Some? then RequiredArgument
    else NoArgument
  }

  // ---------------------------------------------------------------- counting and filtering

  /** The first index at which `p` holds. */
  function First<T>(s: seq<T>, p: T -> bool): (k: nat)
    ensures k <= |s| && (k < |s| ==> p(s[k]))
    ensures forall i :: 0 <= i < k ==> !p(s[i])
  {
    if s == [] || p(s[0]) then 0 else 1 + First(s[1..], p)
  }

  /** The descriptors before the terminator, at most 1024. */
  function Listed(memory: seq<Argument>): seq<Argument> {
    var cut := if |memory| < MAX_ARGUMENTS then memory else memory[..MAX_ARGUMENTS];
    cut[..First(cut, (a: Argument) => a == ZERO)]
  }

  /** Reading stops inside the array. */
  predicate Terminated(memory: seq<Argument>) {
    MAX_ARGUMENTS <= |memory| || ZERO in memory
  }

  ghost function ListedIn(arguments: array?<Argument>): seq<Argument>
    reads arguments
  {
    if arguments == null then [] else Listed(arguments[..])
  }

  method NumArguments(arguments: array?<Argument>) returns (n: nat)
    requires arguments != null ==> Terminated(arguments[..])
    ensures arguments == null ==> n == 0
    ensures arguments != null ==> n <= arguments.Length && arguments[..n] == Listed(arguments[..])
    ensures arguments != null ==>
              && n <= 1024 && (forall i :: 0 <= i < n ==> arguments[i] != ZERO)
              && (n < 1024 ==> n < arguments.Length && arguments[n] == ZERO)
  {
    n := 0;
    if arguments == null {
      return;
    }
    while n < MAX_ARGUMENTS && arguments[n] != ZERO
      invariant n <= arguments.Length && n <= MAX_ARGUMENTS
      invariant forall i :: 0 <= i < n ==> arguments[i] != ZERO
    {
      n := n + 1;
    }
    var memory := arguments[..];
    var cut := if |memory| < MAX_ARGUMENTS then memory else memory[..MAX_ARGUMENTS];
    assert First(cut, (a: Argument) => a == ZERO) == n;
  }

  /** The descriptors that an external or internal build keeps. */
  function Kept(list: seq<Argument>, internalRelease: bool): (kept: seq<Argument>)
    ensures |kept| <= |list|
    ensures forall a :: a in kept <==> a in list && (a.internalOnly ==> internalRelease)
  {
    if list == [] then []
    else
      var front, last := Kept(list[..|list| - 1], internalRelease), list[|list| - 1];
      if last.internalOnly && !internalRelease then front else front + [last]
  }

  /** Kept descriptors keep their order, and each appears as often as before. */
  lemma {:induction false} KeptInOrder(list: seq<Argument>, internalRelease: bool) returns (at: seq<nat>)
    ensures |at| == |Kept(list, internalRelease)|
    ensures forall i, j :: 0 <= i < j < |at| ==> at[i] < at[j]
    ensures forall i :: 0 <= i < |at| ==> at[i] < |list| && Kept(list, internalRelease)[i] == list[at[i]]
    ensures forall k :: 0 <= k < |list| ==> (k in at <==> !list[k].internalOnly || internalRelease)
  {
    hide Kept;
    at := [];
    if list == [] {
      NothingKept(internalRelease);
    } else {
      var n := |list| - 1;
      at := KeptInOrder(list[..n], internalRelease);
      KeptStep(list, n, internalRelease);
      assert list[..n + 1] == list;
      if !list[n].internalOnly || internalRelease {
        LastIndex(at, n);
        at := at + [n];
      }
    }
  }

  lemma LastIndex(at: seq<nat>, n: nat)
    requires forall i :: 0 <= i < |at| ==> at[i] < n
    requires forall i, j :: 0 <= i < j < |at| ==> at[i] < at[j]
    ensures forall i, j :: 0 <= i < j < |at + [n]| ==> (at + [n])[i] < (at + [n])[j]
    ensures forall k :: k in at + [n] <==> k in at || k == n
  {
  }

  /** -h and --help come first, whatever the caller lists, and have no destination. */
  lemma HelpIsAdded(list: seq<Argument>, internalRelease: bool)
    ensures var all := WithHelp(list, internalRelease);
            && |all| == 1 + |Kept(list, internalRelease)| && all[1..] == Kept(list, internalRelease)
            && all[0].shortname == 'h' && all[0].longname == Some("help")
            && all[0].command.None? && all[0].positionalName.None?
            && all[0].argument.None? && all[0].flag.None? && all[0].argumentArray.None?
  {
  }

  /** The help option, which nothing can replace, and then what was kept. */
  function WithHelp(list: seq<Argument>, internalRelease: bool): seq<Argument> {
    [HELP] + Kept(list, internalRelease)
  }

  method FilterArgs(source: array?<Argument>, internalRelease: bool) returns (target: array<Argument>)
    requires source != null ==> Terminated(source[..])
    ensures fresh(target)
    ensures var all := WithHelp(ListedIn(source), internalRelease);
            |all| < target.Length && target[..|all|] == all && target[|all|] == ZERO
  {
    hide Kept, Listed;
    var numArgs := NumArguments(source);
    var noptions := numArgs + 1;
    ghost var list := ListedIn(source);
    target := new Argument[noptions + 1];
    target[0] := HELP;
    var j := 1;
    NothingKept(internalRelease);
    assert list[..0] == [];
    for i := 0 to numArgs
      invariant j == 1 + |Kept(list[..i], internalRelease)| <= 1 + i
      invariant target[0] == HELP && target[1..j] == Kept(list[..i], internalRelease)
    {
      KeptStep(list, i, internalRelease);
      if source[i].internalOnly && !internalRelease {
        continue;
      }
      target[j] := source[i];
      j := j + 1;
      assert target[1..j] == target[1..j - 1] + [source[i]];
    }
    assert list[..numArgs] == list;
    target[j] := ZERO;
    assert target[..j] == [HELP] + target[1..j];
  }

  lemma NothingKept(internalRelease: bool)
    ensures Kept([], internalRelease) == []
  {
  }

  lemma KeptStep(list: seq<Argument>, i: nat, internalRelease: bool)
    requires i < |list|
    ensures Kept(list[..i + 1], internalRelease) ==
            if list[i].internalOnly && !internalRelease then Kept(list[..i], internalRelease)
            else Kept(list[..i], internalRelease) + [list[i]]
  {
    assert list[..i + 1][..i] == list[..i];
  }

  /** What is counted again after filtering: everything, unless help makes it one too many. */
  lemma FilteredCount(target: seq<Argument>, all: seq<Argument>)
    requires |all| < |target| && target[..|all|] == all && target[|all|] == ZERO
    requires ZERO !in all
    ensures Terminated(target)
    ensures Listed(target) == if |all| <= MAX_ARGUMENTS then all else all[..MAX_ARGUMENTS]
  {
    assert target[|all|] in target;
    var cut := if |target| < MAX_ARGUMENTS then target else target[..MAX_ARGUMENTS];
    var n := if |all| <= MAX_ARGUMENTS then |all| else MAX_ARGUMENTS;
    assert forall i :: 0 <= i < n ==> cut[i] == all[i] && all[i] in all;
    assert First(cut, (a: Argument) => a == ZERO) == n;
  }

  // ---------------------------------------------------------------- the table of long options

  /** struct option */
  datatype LongOption = LongOption(name: Option<string>, hasArg: ArgumentStatus, flag: Option<Address>, val: int)

  const ZERO_OPTION := LongOption(None, NoArgument, None, 0)

  function EntryOf(option: Argument): LongOption {
    LongOption(option.longname, Status(option), option.flag, option.flagval)
  }

  /** What an entry of the long table says about a descriptor. */
  predicate Describes(entry: LongOption, option: Argument) {
    && entry.name == option.longname && entry.flag == option.flag && entry.val == option.flagval
    && (entry.hasArg.RequiredArgument? <==>
        option.flag.None? && (option.argument.Some? || option.argumentArray.Some?))
    && (entry.hasArg.OptionalArgument? <==> option.flag.Some? && option.argument.Some?)
  }

  lemma EntryDescribes(entry: LongOption, option: Argument)
    ensures entry == EntryOf(option) <==> Describes(entry, option)
  {
  }

  /** The positions of the descriptors with a long name, in order. */
  function Named(options: seq<Argument>): (at: seq<nat>)
    ensures |at| <= |options|
    ensures forall k :: 0 <= k < |at| ==> at[k] < |options| && options[at[k]].longname.Some?
    ensures forall k, l :: 0 <= k < l < |at| ==> at[k] < at[l]
    ensures forall i :: 0 <= i < |options| && options[i].longname.Some? ==> i in at
  {
    if options == [] then []
    else
      var front, n := Named(options[..|options| - 1]), |options| - 1;
      if options[n].longname.Some? then
        assert (front + [n])[|front|] == n;
        assert forall i :: 0 <= i < n && options[i].longname.Some? ==> i in front by {
          forall i | 0 <= i < n && options[i].longname.Some? ensures i in front {
            assert options[..n][i].longname.Some?;
          }
        }
        front + [n]
      else
        assert forall i :: 0 <= i < n && options[i].longname.Some? ==> i in front by {
          forall i | 0 <= i < n && options[i].longname.Some? ensures i in front {
            assert options[..n][i].longname.Some?;
          }
        }
        front
  }

  function Entries(options: seq<Argument>): (entries: seq<LongOption>)
    ensures |entries| <= |options|
  {
    if options == [] then []
    else
      var front, last := Entries(options[..|options| - 1]), options[|options| - 1];
      if last.longname.Some? then front + [EntryOf(last)] else front
  }

  /** The table has one entry for each descriptor with a long name, in the order of the descriptors. */
  lemma {:induction false} EntriesAreNamed(options: seq<Argument>)
    ensures |Entries(options)| == |Named(options)|
    ensures forall k :: 0 <= k < |Named(options)| ==> Entries(options)[k] == EntryOf(options[Named(options)[k]])
  {
    if options != [] {
      EntriesAreNamed(options[..|options| - 1]);
    }
  }

  lemma EntriesStep(options: seq<Argument>, i: nat)
    requires i < |options|
    ensures Entries(options[..i + 1]) ==
            if options[i].longname.Some? then Entries(options[..i]) + [EntryOf(options[i])]
            else Entries(options[..i])
  {
    assert options[..i + 1][..i] == options[..i];
  }

  lemma {:induction false} EntriesGrow(options: seq<Argument>, i: nat, j: nat)
    requires i <= j <= |options|
    ensures Entries(options[..i]) <= Entries(options[..j])
    decreases j
  {
    hide Entries;
    if i < j {
      EntriesGrow(options, i, j - 1);
      EntriesStep(options, j - 1);
    }
  }

  /** Fills at most `nlongOptions` entries and terminates the table if one more fits. */
  method FillLongOptionArray(
    options: array<Argument>, noptions: nat, longOptions: array<LongOption>, nlongOptions: nat) returns (ok: bool)
    requires noptions < options.Length && nlongOptions <= longOptions.Length
    modifies longOptions
    ensures var entries := Entries(options[..noptions + 1]);
            var n := if ok then |entries| else nlongOptions;
            && (ok <==> |entries| < nlongOptions)
            && n <= longOptions.Length && longOptions[..n] == entries[..n]
            && (ok ==> longOptions[n] == ZERO_OPTION)
            && forall k :: (if ok then n + 1 else n) <= k < longOptions.Length ==> longOptions[k] == old(longOptions[k])
  {
    hide Entries;
    var longi := 0;
    ghost var all := options[..];
    NoEntries();
    assert all[..0] == [];
    for i := 0 to noptions + 1
      invariant longi == |Entries(all[..i])| <= nlongOptions
      invariant longOptions[..longi] == Entries(all[..i])
      invariant forall k :: longi <= k < longOptions.Length ==> longOptions[k] == old(longOptions[k])
    {
      if longi >= nlongOptions {
        EntriesGrow(all, i, noptions + 1);
        assert all[..noptions + 1] == options[..noptions + 1];
        return false;
      }
      EntriesStep(all, i);
      if options[i].longname.Some? {
        longOptions[longi] := LongOption(options[i].longname, Status(options[i]), options[i].flag, options[i].flagval);
        longi := longi + 1;
        assert longOptions[..longi] == longOptions[..longi - 1] + [EntryOf(all[i])];
      }
    }
    assert all[..noptions + 1] == options[..noptions + 1];
    if longi >= nlongOptions {
      return false;
    }
    longOptions[longi] := ZERO_OPTION;
    ok := true;
  }

  lemma NoEntries()
    ensures Entries([]) == []
  {
  }

  function Zeros(n: nat): seq<LongOption> {
    seq(n, _ => ZERO_OPTION)
  }

  /** The zeroed table, filled: the named descriptors in order, and zeros, of which there is at least one. */
  method LongTable(options: array<Argument>, numArgs: nat, ghost all: seq<Argument>) returns (table: array<LongOption>)
    requires |all| < options.Length && options[..|all|] == all && options[|all|] == ZERO
    requires numArgs == (if |all| <= MAX_ARGUMENTS then |all| else MAX_ARGUMENTS)
    requires |all| <= MAX_ARGUMENTS + 1
    ensures fresh(table) && table[..] == TableOf(all)
  {
    hide Entries;
    table := new LongOption[numArgs + 1](_ => ZERO_OPTION);
    var ok := FillLongOptionArray(options, numArgs, table, numArgs);
    TerminatorHasNoEntry(options[..], all);
    assert options[..numArgs + 1] == options[..][..numArgs + 1];
    ghost var n := if ok then |Entries(all)| else numArgs;
    assert table[..] == table[..n] + Zeros(numArgs + 1 - n);
  }

  lemma TerminatorHasNoEntry(options: seq<Argument>, all: seq<Argument>)
    requires |all| < |options| && options[..|all|] == all && options[|all|] == ZERO
    ensures Entries(options[..|all| + 1]) == Entries(all)
  {
    hide Entries;
    EntriesStep(options, |all|);
  }

  /** The table that getopt_long searches, one entry longer than the number of descriptors it was made for. */
  function TableOf(all: seq<Argument>): (table: seq<LongOption>) {
    var limit := if |all| <= MAX_ARGUMENTS then |all| else MAX_ARGUMENTS;
    var n := if |Entries(all)| <= limit then |Entries(all)| else limit;
    Entries(all)[..n] + Zeros(limit + 1 - n)
  }

  /**
    Whatever the filler returned, the table has the named descriptors in order and ends in a zero entry;
    with help it is complete for 1023 descriptors, and for 1024 unless all of them have long names.
   */
  lemma TableIsComplete(all: seq<Argument>)
    requires |all| <= MAX_ARGUMENTS + 1
    ensures TableOf(all)[|TableOf(all)| - 1] == ZERO_OPTION
    ensures var named := Named(all);
            |named| <= MAX_ARGUMENTS <==>
            |named| < |TableOf(all)| &&
            (forall k :: 0 <= k < |named| ==> Describes(TableOf(all)[k], all[named[k]])) &&
            (forall k :: |named| <= k < |TableOf(all)| ==> TableOf(all)[k] == ZERO_OPTION)
  {
    hide Entries, Describes, EntryOf;
    EntriesAreNamed(all);
    forall entry, option
      ensures entry == EntryOf(option) <==> Describes(entry, option)
    {
      EntryDescribes(entry, option);
    }
  }

  // ---------------------------------------------------------------- the string of short options

  /** How a short option is written: a colon follows when its argument is required. */
  function ShortForm(option: Argument): string {
    if option.shortname == '\0' then []
    else if Status(option).RequiredArgument? then [option.shortname, ':']
    else [option.shortname]
  }

  function ShortString(options: seq<Argument>): (s: string)
    ensures |s| <= 2 * |options|
  {
    if options == [] then []
    else ShortString(options[..|options| - 1]) + ShortForm(options[|options| - 1])
  }

  /** The string and its terminator always fit into two characters per descriptor and two more. */
  method FillShortOptionArray(options: array<Argument>, noptions: nat, shortOptions: array<char>, nshortOptions: nat)
    returns (ok: bool)
    requires noptions <= options.Length
    requires 2 * noptions + 2 <= nshortOptions <= shortOptions.Length
    modifies shortOptions
    ensures ok
    ensures var s := ShortString(options[..noptions]);
            |s| < nshortOptions && shortOptions[..|s| + 1] == s + ['\0']
  {
    var index := 0;
    for i := 0 to noptions
      invariant index == |ShortString(options[..i])| <= 2 * i
      invariant shortOptions[..index] == ShortString(options[..i])
    {
      assert options[..i + 1][..i] == options[..i];
      if options[i].shortname != '\0' {
        if index >= nshortOptions {
          return false;
        }
        shortOptions[index] := options[i].shortname;
        index := index + 1;
        if Status(options[i]).RequiredArgument? {
          if index >= nshortOptions {
            return false;
          }
          shortOptions[index] := ':';
          index := index + 1;
        }
      }
    }
    shortOptions[index] := '\0';
    ok := true;
  }

  /** What getopt reads: a character, and by the number of colons after it whether it takes an argument. */
  function Decode(s: string): seq<(char, ArgumentStatus)> {
    if s == [] then []
    else if |s| > 2 && s[1] == ':' && s[2] == ':' then [(s[0], OptionalArgument)] + Decode(s[3..])
    else if |s| > 1 && s[1] == ':' then [(s[0], RequiredArgument)] + Decode(s[2..])
    else [(s[0], NoArgument)] + Decode(s[1..])
  }

  /** What the descriptors with a short name ask for. */
  function Wanted(options: seq<Argument>): seq<(char, ArgumentStatus)> {
    if options == [] then []
    else if options[0].shortname == '\0' then Wanted(options[1..])
    else [(options[0].shortname, Status(options[0]))] + Wanted(options[1..])
  }

  /** Every short name is wanted, with its own requirement, and nothing else is. */
  lemma {:induction false} WantedMeaning(options: seq<Argument>, name: char, status: ArgumentStatus)
    ensures (name, status) in Wanted(options) <==>
            name != '\0' &&
            exists i :: 0 <= i < |options| && options[i].shortname == name && Status(options[i]) == status
  {
    if options != [] {
      var rest := options[1..];
      WantedMeaning(rest, name, status);
      assert forall i :: 0 < i < |options| ==> options[i] == rest[i - 1];
      assert forall i :: 0 <= i < |rest| ==> rest[i] == options[i + 1];
    }
  }

  lemma {:induction false} ShortStringFront(options: seq<Argument>)
    requires options != []
    ensures ShortString(options) == ShortForm(options[0]) + ShortString(options[1..])
  {
    var n := |options| - 1;
    if n > 0 {
      ShortStringFront(options[..n]);
      assert options[..n][1..] == options[1..][..n - 1];
    } else {
      assert options[..0] == [] && options[1..] == [];
    }
  }

  /** The list starts with a character that is not a colon. */
  predicate StartsPlain(wanted: seq<(char, ArgumentStatus)>) {
    wanted != [] ==> wanted[0].0 != ':'
  }

  predicate NoColon(options: seq<Argument>) {
    forall i :: 0 <= i < |options| ==> options[i].shortname != ':'
  }

  lemma NoColonFront(options: seq<Argument>)
    requires options != []
    ensures NoColon(options) <==> options[0].shortname != ':' && NoColon(options[1..])
  {
    assert forall i :: 0 < i < |options| ==> options[i] == options[1..][i - 1];
  }

  /** No descriptor with a short name has an optional argument. */
  predicate NoOptional(options: seq<Argument>) {
    forall i :: 0 <= i < |options| && options[i].shortname != '\0' ==> !Status(options[i]).OptionalArgument?
  }

  lemma NoOptionalFront(options: seq<Argument>)
    requires options != []
    ensures NoOptional(options) <==>
            && (options[0].shortname != '\0' ==> !Status(options[0]).OptionalArgument?)
            && NoOptional(options[1..])
  {
    assert forall i :: 0 < i < |options| ==> options[i] == options[1..][i - 1];
  }

  /**
    getopt reads the string as the descriptors mean it exactly when no short name is a colon and none of them
    has an optional argument, which is written like none.  The help option in front makes the first
    character an 'h'.
   */
  lemma ShortOptionsDecode(options: seq<Argument>)
    requires StartsPlain(Wanted(options))
    ensures Decode(ShortString(options)) == Wanted(options) <==> NoColon(options) && NoOptional(options)
  {
    hide Decode, ShortString, Wanted, NoColon, NoOptional, StartsPlain, Size;
    if NoOptional(options) {
      ColonsOnly(options);
    } else {
      DecodeSize(ShortString(options));
      OptionalIsShorter(options);
    }
  }

  lemma {:induction false} ColonsOnly(options: seq<Argument>)
    requires StartsPlain(Wanted(options)) && NoOptional(options)
    ensures Decode(ShortString(options)) == Wanted(options) <==> NoColon(options)
  {
    if options != [] {
      var first, rest := options[0], options[1..];
      ShortStringFront(options);
      NoColonFront(options);
      NoOptionalFront(options);
      ShortStringStart(rest);
      hide NoColon, NoOptional, ShortString, Decode;
      if first.shortname == '\0' {
        assert ShortString(options) == ShortString(rest);
        ColonsOnly(rest);
      } else {
        DecodeOne(first, ShortString(rest));
        var read, wanted := Decode(ShortString(options)), Wanted(options);
        assert wanted[1..] == Wanted(rest);
        if StartsPlain(Wanted(rest)) {
          ColonsOnly(rest);
          assert read[0] == wanted[0] && read[1..] == Decode(ShortString(rest));
        } else {
          assert read[0] != wanted[0];
        }
      }
    } else {
      assert ShortString(options) == [] && Decode([]) == [];
    }
  }

  /** The characters it takes to write such a list: one more for a required argument, two for an optional one. */
  function Size(read: seq<(char, ArgumentStatus)>): nat {
    if read == [] then 0
    else
      var colons := match read[0].1 case NoArgument => 0 case RequiredArgument => 1 case OptionalArgument => 2;
      1 + colons + Size(read[1..])
  }

  lemma {:induction false} DecodeSize(s: string)
    ensures Size(Decode(s)) == |s|
  {
    if s != [] {
      var taken := if |s| > 2 && s[1] == ':' && s[2] == ':' then 3 else if |s| > 1 && s[1] == ':' then 2 else 1;
      DecodeSize(s[taken..]);
      assert Decode(s)[1..] == Decode(s[taken..]);
    }
  }

  /** What is wanted does not fit the string when an argument is optional. */
  lemma {:induction false} OptionalIsShorter(options: seq<Argument>)
    ensures |ShortString(options)| <= Size(Wanted(options))
    ensures !NoOptional(options) ==> |ShortString(options)| < Size(Wanted(options))
  {
    if options != [] {
      ShortStringFront(options);
      NoOptionalFront(options);
      OptionalIsShorter(options[1..]);
      hide NoOptional, ShortString;
      if options[0].shortname != '\0' {
        assert Wanted(options)[1..] == Wanted(options[1..]);
      }
    }
  }

  /** One option without an optional argument is read back as it was written exactly when no colon follows. */
  lemma DecodeOne(first: Argument, rest: string)
    requires first.shortname != '\0' && !Status(first).OptionalArgument?
    ensures var s := ShortForm(first) + rest;
            && Decode(s) != []
            && (Decode(s)[0] == (first.shortname, Status(first)) <==> rest == [] || rest[0] != ':')
            && (rest == [] || rest[0] != ':' ==> Decode(s) == [(first.shortname, Status(first))] + Decode(rest))
  {
    var s := ShortForm(first) + rest;
    if Status(first).RequiredArgument? {
      assert s[0] == first.shortname && s[1] == ':' && s[2..] == rest;
    } else {
      assert s[0] == first.shortname && s[1..] == rest;
    }
  }

  lemma {:induction false} ShortStringStart(options: seq<Argument>)
    ensures ShortString(options) == [] <==> Wanted(options) == []
    ensures Wanted(options) != [] ==> ShortString(options)[0] == Wanted(options)[0].0
    ensures !StartsPlain(Wanted(options)) ==> !NoColon(options)
  {
    if options != [] {
      ShortStringFront(options);
      NoColonFront(options);
      if options[0].shortname == '\0' {
        ShortStringStart(options[1..]);
      }
    }
  }
}
