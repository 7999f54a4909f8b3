/** Configurations: what applying, matching and creating them mean, for every visiting order. */
module OptionsConfig {
  import opened Bytes
  import opened Dictionaries
  import opened Strings
  import opened ProtocolOptions

  // ---------------------------------------------------------------- an order-free meaning

  ghost function IntsAfter(c: Content, d: map<string, Value>, seen: set<string>): Ints {
    map i: IntField | true ::
      if Name(IntKey(i)) in seen then GetUint64(d, Name(IntKey(i))) % Width(i) else c.ints[i]
  }

  ghost function OnAfter(c: Content, d: map<string, Value>, seen: set<string>): set<BoolField> {
    set b: BoolField | (if Name(BoolKey(b)) in seen then GetBool(d, Name(BoolKey(b))) else b in c.on)
  }

  ghost function OverridesAfter(c: Content, seen: set<string>): set<Override> {
    set o: Override | o in c.overrides || exists b: BoolField :: OverrideOf(b) == Some(o) && Name(BoolKey(b)) in seen
  }

  /** The fields after the entries in `seen` have been applied, whatever their order. */
  ghost function FieldsAfter(c: Content, d: map<string, Value>, seen: set<string>): Content {
    c.(ints := IntsAfter(c, d, seen), on := OnAfter(c, d, seen), overrides := OverridesAfter(c, seen))
  }

  /** The cipher suites appended in one visiting order. */
  function AddedSuites(d: map<string, Value>, order: seq<string>): seq<nat> {
    if order == [] then []
    else AddedSuites(d, order[..|order| - 1]) + SuitesOf(d, order[|order| - 1])
  }

  ghost function Elements(order: seq<string>): set<string> {
    set key | key in order
  }

  /** Exactly the field that a key names is affected by it. */
  lemma NamedOnly(key: string)
    ensures forall g: Field :: Name(g) == key <==> FieldOf(key) == Some(g)
  {
    hide Name;
    forall g: Field
      ensures Name(g) == key <==> FieldOf(key) == Some(g)
    {
      FieldOfName(g);
    }
  }

  lemma IntsStep(c: Content, d: map<string, Value>, seen: set<string>, key: string)
    ensures ApplyField(FieldsAfter(c, d, seen), d, key).ints == IntsAfter(c, d, seen + {key})
  {
    hide Name, GetBool, GetUint64, Width, OverrideOf, OnAfter, OverridesAfter, FieldOf;
    NamedOnly(key);
  }

  lemma OnStep(c: Content, d: map<string, Value>, seen: set<string>, key: string)
    ensures ApplyField(FieldsAfter(c, d, seen), d, key).on == OnAfter(c, d, seen + {key})
  {
    hide Name, GetBool, GetUint64, Width, OverrideOf, IntsAfter, OverridesAfter, FieldOf;
    NamedOnly(key);
  }

  lemma OverridesStep(c: Content, d: map<string, Value>, seen: set<string>, key: string)
    ensures ApplyField(FieldsAfter(c, d, seen), d, key).overrides == OverridesAfter(c, seen + {key})
  {
    hide Name, GetBool, GetUint64, Width, OverrideOf, IntsAfter, OnAfter, FieldOf;
    NamedOnly(key);
  }

  lemma FieldsStep(c: Content, d: map<string, Value>, seen: set<string>, key: string)
    ensures ApplyField(FieldsAfter(c, d, seen), d, key) == FieldsAfter(c, d, seen + {key})
  {
    hide Name, GetBool, GetUint64, Width, OverrideOf, IntsAfter, OnAfter, OverridesAfter, FieldOf;
    IntsStep(c, d, seen, key);
    OnStep(c, d, seen, key);
    OverridesStep(c, d, seen, key);
  }

  /** Applying in any order: the order-free fields, and the suites appended in that order. */
  lemma {:induction false} ApplyMeaning(c: Content, d: map<string, Value>, order: seq<string>)
    ensures Apply(c, d, order) == AddCiphersuites(FieldsAfter(c, d, Elements(order)), AddedSuites(d, order))
  {
    hide ApplyField, FieldsAfter, SuitesOf, AddCiphersuites, Elements;
    if order == [] {
      NothingSeen(c, d);
    } else {
      var n := |order| - 1;
      ApplyMeaning(c, d, order[..n]);
      var fields, added := FieldsAfter(c, d, Elements(order[..n])), AddedSuites(d, order[..n]);
      FieldsIgnoreSuites(fields, d, order[n], added);
      FieldsStep(c, d, Elements(order[..n]), order[n]);
      ElementsStep(order);
      SuitesAccumulate(FieldsAfter(c, d, Elements(order)), added, SuitesOf(d, order[n]));
    }
  }

  lemma ElementsStep(order: seq<string>)
    requires order != []
    ensures Elements(order) == Elements(order[..|order| - 1]) + {order[|order| - 1]}
  {
    var n := |order| - 1;
    assert order == order[..n] + [order[n]];
  }

  lemma NothingSeen(c: Content, d: map<string, Value>)
    ensures FieldsAfter(c, d, Elements([])) == c
    ensures AddCiphersuites(c, AddedSuites(d, [])) == c
  {
    hide Name, OverrideOf, Width;
    assert Elements([]) == {};
    assert IntsAfter(c, d, {}) == c.ints;
    assert OnAfter(c, d, {}) == c.on;
    assert OverridesAfter(c, {}) == c.overrides;
  }

  lemma FieldsIgnoreSuites(c: Content, d: map<string, Value>, key: string, suites: seq<nat>)
    ensures ApplyField(AddCiphersuites(c, suites), d, key) == AddCiphersuites(ApplyField(c, d, key), suites)
  {
    hide FieldOf, OverrideOf, Width, Name;
  }

  // ---------------------------------------------------------------- order independence

  ghost predicate OrderIndependent(d: map<string, Value>) {
    forall order, order', c ::
      Enumerates(order, d.Keys) && Enumerates(order', d.Keys) ==> Apply(c, d, order) == Apply(c, d, order')
  }

  predicate Commute(a: seq<nat>, b: seq<nat>) {
    a + b == b + a
  }

  /** The cipher suite lists of any two entries commute. */
  ghost predicate SuitesCommute(d: map<string, Value>) {
    forall k, l :: k in d && l in d ==> Commute(SuitesOf(d, k), SuitesOf(d, l))
  }

  /** A list that commutes with every list appended in `order` commutes with their concatenation. */
  lemma {:induction false} CommutesWithAll(d: map<string, Value>, s: seq<nat>, order: seq<string>)
    requires forall k :: k in order ==> Commute(s, SuitesOf(d, k))
    ensures Commute(s, AddedSuites(d, order))
  {
    hide SuitesOf;
    if order != [] {
      var n := |order| - 1;
      CommutesWithAll(d, s, order[..n]);
      CommutesWithBoth(s, AddedSuites(d, order[..n]), SuitesOf(d, order[n]));
    }
  }

  lemma CommutesWithBoth(s: seq<nat>, a: seq<nat>, b: seq<nat>)
    requires Commute(s, a) && Commute(s, b)
    ensures Commute(s, a + b)
  {
    assert s + (a + b) == (s + a) + b;
    assert (a + s) + b == a + (s + b);
    assert a + (b + s) == (a + b) + s;
  }

  lemma MoveToEnd(pre: seq<nat>, s: seq<nat>, post: seq<nat>)
    requires Commute(s, post)
    ensures pre + (s + post) == (pre + post) + s
  {
    assert pre + (post + s) == (pre + post) + s;
  }

  lemma Associate(a: seq<nat>, b: seq<nat>, c: seq<nat>)
    ensures (a + b) + c == a + (b + c)
  {
  }

  lemma {:induction false} AddedSplit(d: map<string, Value>, a: seq<string>, b: seq<string>)
    ensures AddedSuites(d, a + b) == AddedSuites(d, a) + AddedSuites(d, b)
  {
    hide SuitesOf;
    if b == [] {
      assert a + b == a;
    } else {
      var n := |b| - 1;
      AddedSplit(d, a, b[..n]);
      assert (a + b)[..|a + b| - 1] == a + b[..n];
      Associate(AddedSuites(d, a), AddedSuites(d, b[..n]), SuitesOf(d, b[n]));
    }
  }

  lemma NoKeysNoOrder(order: seq<string>, keys: set<string>)
    requires Enumerates(order, keys)
    ensures order == [] <==> keys == {}
  {
    if order != [] {
      assert order[0] in order;
    }
  }

  /** Two enumerations append the same suites when all lists commute. */
  lemma {:induction false} SameSuites(d: map<string, Value>, order: seq<string>, order': seq<string>, keys: set<string>)
    requires SuitesCommute(d) && keys <= d.Keys
    requires Enumerates(order, keys) && Enumerates(order', keys)
    ensures AddedSuites(d, order) == AddedSuites(d, order')
    decreases |order|
  {
    hide SuitesOf, SuitesCommute;
    if order == [] {
      NoKeysNoOrder(order, keys);
      NoKeysNoOrder(order', keys);
    } else {
      var n := |order| - 1;
      var k := order[n];
      assert k in order';
      var j :| 0 <= j < |order'| && order'[j] == k;
      var pre, post := order'[..j], order'[j + 1..];
      RemoveLast(order, keys);
      RemoveAt(order', keys, j);
      SameSuites(d, order[..n], pre + post, keys - {k});
      MoveEntry(d, order', j);
    }
  }

  /** An entry may be appended last instead of where it is. */
  lemma MoveEntry(d: map<string, Value>, order: seq<string>, j: nat)
    requires SuitesCommute(d) && j < |order| && forall k :: k in order ==> k in d
    ensures AddedSuites(d, order) == AddedSuites(d, order[..j] + order[j + 1..]) + SuitesOf(d, order[j])
  {
    hide SuitesOf, AddedSuites, Commute;
    var pre, k, post := order[..j], order[j], order[j + 1..];
    assert order == pre + ([k] + post);
    AddedSplit(d, pre, [k] + post);
    AddedSplit(d, [k], post);
    AddedOne(d, k);
    CommutesWithAll(d, SuitesOf(d, k), post);
    AddedSplit(d, pre, post);
    MoveToEnd(AddedSuites(d, pre), SuitesOf(d, k), AddedSuites(d, post));
  }

  lemma AddedOne(d: map<string, Value>, k: string)
    ensures AddedSuites(d, [k]) == SuitesOf(d, k)
  {
    var one := [k];
    assert one[..0] == [];
    assert AddedSuites(d, one) == AddedSuites(d, one[..0]) + SuitesOf(d, k);
  }

  lemma RemoveAt(order: seq<string>, keys: set<string>, j: nat)
    requires Enumerates(order, keys) && j < |order|
    ensures Enumerates(order[..j] + order[j + 1..], keys - {order[j]})
  {
    var rest := order[..j] + order[j + 1..];
    forall key
      ensures key in rest <==> key in keys - {order[j]}
    {
      if key in keys && key != order[j] {
        var i :| 0 <= i < |order| && order[i] == key;
        assert rest[if i < j then i else i - 1] == key;
      }
      if key in rest {
        var i :| 0 <= i < |rest| && rest[i] == key;
        assert key == order[if i < j then i else i + 1];
      }
    }
  }

  lemma RemoveLast(order: seq<string>, keys: set<string>)
    requires Enumerates(order, keys) && order != []
    ensures Enumerates(order[..|order| - 1], keys - {order[|order| - 1]})
  {
    RemoveAt(order, keys, |order| - 1);
    assert order[..|order| - 1] + order[|order|..] == order[..|order| - 1];
  }

  lemma {:induction false} Enumeration(keys: set<string>) returns (order: seq<string>)
    ensures Enumerates(order, keys)
  {
    if keys == {} {
      order := [];
    } else {
      var k :| k in keys;
      var rest := Enumeration(keys - {k});
      order := [k] + rest;
    }
  }

  /**
    The result of applying a configuration is the same for every visiting order if and only if the
    cipher suite lists of its entries commute; the other fields never depend on the order.
   */
  lemma OrderIndependence(d: map<string, Value>)
    ensures OrderIndependent(d) <==> SuitesCommute(d)
  {
    hide Apply, FieldsAfter, SuitesOf;
    if SuitesCommute(d) {
      forall order, order', c | Enumerates(order, d.Keys) && Enumerates(order', d.Keys)
        ensures Apply(c, d, order) == Apply(c, d, order')
      {
        ApplyMeaning(c, d, order);
        ApplyMeaning(c, d, order');
        SameSuites(d, order, order', d.Keys);
        assert Elements(order) == Elements(order') == d.Keys;
      }
    }
    if OrderIndependent(d) {
      forall k, l | k in d && l in d
        ensures Commute(SuitesOf(d, k), SuitesOf(d, l))
      {
        if k != l {
          FirstTwoCommute(d, k, l);
        }
      }
    }
  }

  /** A content with nothing set. */
  function EmptyContent(): Content {
    var none := Handler(None, None);
    Content(map i: IntField | IntIndex(i) < 6 :: 0, {}, {}, false, None, None, None, None, None, None, None, None, None,
            none, none, none, none, none, none, None, None, [])
  }

  lemma FirstTwoCommute(d: map<string, Value>, k: string, l: string)
    requires OrderIndependent(d) && k in d && l in d && k != l
    ensures Commute(SuitesOf(d, k), SuitesOf(d, l))
  {
    hide Apply, FieldsAfter, SuitesOf, AddedSuites, EmptyContent;
    var rest := Enumeration(d.Keys - {k, l});
    var order, order', c := [k, l] + rest, [l, k] + rest, EmptyContent();
    StartWith(k, l, rest, d.Keys);
    StartWith(l, k, rest, d.Keys);
    assert Apply(c, d, order) == Apply(c, d, order');
    ApplyMeaning(c, d, order);
    ApplyMeaning(c, d, order');
    assert Elements(order) == Elements(order') == d.Keys;
    assert FieldsAfter(c, d, d.Keys).ciphersuites == None by { EmptyHasNoSuites(d); }
    var a, b, r := SuitesOf(d, k), SuitesOf(d, l), AddedSuites(d, rest);
    AddedTwo(d, k, l, rest);
    AddedTwo(d, l, k, rest);
    SuitesDetermined(FieldsAfter(c, d, d.Keys), (a + b) + r, (b + a) + r);
    assert a + b == ((a + b) + r)[..|a| + |b|];
    assert b + a == ((b + a) + r)[..|a| + |b|];
  }

  lemma EmptyHasNoSuites(d: map<string, Value>)
    ensures FieldsAfter(EmptyContent(), d, d.Keys).ciphersuites == None
  {
    hide IntsAfter, OnAfter, OverridesAfter;
  }

  lemma SuitesDetermined(c: Content, x: seq<nat>, y: seq<nat>)
    requires c.ciphersuites == None && AddCiphersuites(c, x) == AddCiphersuites(c, y)
    ensures x == y
  {
    assert [] + x == x && [] + y == y;
  }

  lemma StartWith(k: string, l: string, rest: seq<string>, keys: set<string>)
    requires k in keys && l in keys && k != l && Enumerates(rest, keys - {k, l})
    ensures Enumerates([k, l] + rest, keys)
  {
    forall key
      ensures key in [k, l] + rest <==> key in keys
    {
      assert key in [k, l] + rest <==> key == k || key == l || key in rest;
    }
  }

  lemma AddedTwo(d: map<string, Value>, k: string, l: string, rest: seq<string>)
    ensures AddedSuites(d, [k, l] + rest) == (SuitesOf(d, k) + SuitesOf(d, l)) + AddedSuites(d, rest)
  {
    hide SuitesOf;
    AddedSplit(d, [k, l], rest);
    assert [k, l] == [k] + [l];
    AddedSplit(d, [k], [l]);
    AddedOne(d, k);
    AddedOne(d, l);
  }

  /** In particular when at most one key that abbreviates "ciphersuites" holds a non-empty array. */
  lemma OneSuiteListIsEnough(d: map<string, Value>, only: string)
    requires forall k :: k in d && k != only ==> SuitesOf(d, k) == []
    ensures OrderIndependent(d)
  {
    hide SuitesOf;
    OrderIndependence(d);
  }

  /** The suites of a key that no other key competes with. */
  lemma {:induction false} OneKeyAdds(d: map<string, Value>, order: seq<string>, key: string)
    requires forall i, j :: 0 <= i < j < |order| ==> order[i] != order[j]
    requires forall k :: k in d && k != key ==> SuitesOf(d, k) == []
    ensures AddedSuites(d, order) == if key in order then SuitesOf(d, key) else []
  {
    hide SuitesOf;
    if order != [] {
      var n := |order| - 1;
      OneKeyAdds(d, order[..n], key);
      assert order == order[..n] + [order[n]];
      assert order[n] !in order[..n];
      assert SuitesOf(d, order[n]) == [] || order[n] == key by {
        if order[n] !in d {
          NoEntryNoSuites(d, order[n]);
        }
      }
    }
  }

  lemma NoEntryNoSuites(d: map<string, Value>, key: string)
    requires key !in d
    ensures SuitesOf(d, key) == []
  {
  }

  /** What an element of a suite array stands for: its low 16 bits, or zero if it is no integer. */
  function SuiteNumber(item: Value): nat {
    match item
    case UInt64(n) => n % 0x1_0000
    case _ => 0
  }

  lemma SuiteIsNumber(item: Value)
    ensures Suite(item) == SuiteNumber(item)
  {
    if item.UInt64? {
      var q, r := item.n / 0x1_0000_0000_0000_0000, item.n % 0x1_0000_0000_0000_0000;
      assert item.n == 0x1_0000 * (0x1_0000_0000_0000 * q + r / 0x1_0000) + r % 0x1_0000;
      DivModUnique(0x1_0000, 0x1_0000_0000_0000 * q + r / 0x1_0000, r % 0x1_0000, item.n / 0x1_0000, item.n % 0x1_0000);
    }
  }

  /**
    One suite array, under the full key or an abbreviation: whatever the visiting order, its elements come after
    the suites that were there, one by one and in the order of the array.
   */
  lemma OneArrayApplied(c: Content, d: map<string, Value>, order: seq<string>, key: string)
    requires CStrings(d) && Enumerates(order, d.Keys)
    requires key in d && key <= "ciphersuites" && d[key].Array?
    requires forall k :: k in d && k != key && k <= "ciphersuites" ==> !d[k].Array?
    ensures var before, after, items := c.ciphersuites.GetOr([]), Apply(c, d, order).ciphersuites, d[key].items;
            if items == [] then after == c.ciphersuites
            else
              && after.Some? && |after.value| == |before| + |items| && after.value[..|before|] == before
              && forall k :: 0 <= k < |items| ==> after.value[|before| + k] == SuiteNumber(items[k])
  {
    hide Apply, IntsAfter, OnAfter, OverridesAfter, IsCiphersuitesKey, Suite, SuiteNumber;
    forall k | k in d && k != key
      ensures SuitesOf(d, k) == []
    {
      SuitesKeyAbbreviated(k);
    }
    SuitesKeyAbbreviated(key);
    ApplyMeaning(c, d, order);
    OneKeyAdds(d, order, key);
    var items := d[key].items;
    assert AddedSuites(d, order) == Suites(items);
    forall k | 0 <= k < |items|
      ensures Suites(items)[k] == SuiteNumber(items[k])
    {
      SuiteIsNumber(items[k]);
    }
  }

  /** Without a suite array the suites stay. */
  lemma NoArrayApplied(c: Content, d: map<string, Value>, order: seq<string>)
    requires CStrings(d) && Enumerates(order, d.Keys)
    requires forall k :: k in d && k <= "ciphersuites" ==> !d[k].Array?
    ensures Apply(c, d, order).ciphersuites == c.ciphersuites
  {
    hide Apply, IntsAfter, OnAfter, OverridesAfter, IsCiphersuitesKey;
    forall k | k in d
      ensures SuitesOf(d, k) == []
    {
      SuitesKeyAbbreviated(k);
    }
    ApplyMeaning(c, d, order);
    OneKeyAdds(d, order, "ciphersuites");
    if "ciphersuites" !in d {
      NoEntryNoSuites(d, "ciphersuites");
    }
  }

  // ---------------------------------------------------------------- creating and matching

  /** What a configuration says about a field. */
  function ValueOf(c: Content, f: Field): Value {
    match f
    case IntKey(i) => UInt64(c.ints[i])
    case BoolKey(b) => Bool(b in c.on)
  }

  /** _serialize_options sets the integer keys and then the Boolean keys. */
  function SerializeInts(c: Content, keys: seq<IntField>): map<string, Value> {
    if keys == [] then map[]
    else SerializeInts(c, keys[..|keys| - 1])[Name(IntKey(keys[|keys| - 1])) := UInt64(c.ints[keys[|keys| - 1]])]
  }

  function SerializeBools(c: Content, d: map<string, Value>, keys: seq<BoolField>): map<string, Value> {
    if keys == [] then d
    else SerializeBools(c, d, keys[..|keys| - 1])[Name(BoolKey(keys[|keys| - 1])) := Bool(keys[|keys| - 1] in c.on)]
  }

  function CreateConfig(c: Content): map<string, Value> {
    SerializeBools(c, SerializeInts(c, INT_KEYS), BOOL_KEYS)
  }

  lemma {:induction false} IntsSerialized(c: Content, keys: seq<IntField>, f: Field)
    ensures Name(f) in SerializeInts(c, keys) <==> f.IntKey? && f.i in keys
    ensures Name(f) in SerializeInts(c, keys) ==> SerializeInts(c, keys)[Name(f)] == ValueOf(c, f)
    ensures forall k :: k in SerializeInts(c, keys) ==> FieldOf(k).Some?
  {
    hide Name;
    if keys != [] {
      var n := |keys| - 1;
      IntsSerialized(c, keys[..n], f);
      FieldOfName(f);
      FieldOfName(IntKey(keys[n]));
      assert keys == keys[..n] + [keys[n]];
    }
  }

  lemma {:induction false} BoolsSerialized(c: Content, d: map<string, Value>, keys: seq<BoolField>, f: Field)
    requires forall k :: k in d ==> FieldOf(k).Some?
    ensures var r := SerializeBools(c, d, keys);
            && (Name(f) in r <==> Name(f) in d || (f.BoolKey? && f.b in keys))
            && (f.BoolKey? && f.b in keys ==> r[Name(f)] == ValueOf(c, f))
            && (Name(f) in r && !(f.BoolKey? && f.b in keys) ==> r[Name(f)] == d[Name(f)])
            && (forall k :: k in r ==> FieldOf(k).Some?)
  {
    hide Name;
    if keys != [] {
      var n := |keys| - 1;
      BoolsSerialized(c, d, keys[..n], f);
      FieldOfName(f);
      FieldOfName(BoolKey(keys[n]));
      assert keys == keys[..n] + [keys[n]];
    }
  }

  /** A created configuration has exactly the field names as keys, with the values of the fields. */
  lemma ConfigCreated(c: Content, f: Field)
    ensures Name(f) in CreateConfig(c) && CreateConfig(c)[Name(f)] == ValueOf(c, f)
    ensures forall k :: k in CreateConfig(c) ==> FieldOf(k).Some?
  {
    hide Name, SerializeInts, SerializeBools;
    IntsSerialized(c, INT_KEYS, f);
    BoolsSerialized(c, SerializeInts(c, INT_KEYS), BOOL_KEYS, f);
    match f
    case IntKey(i) => assert INT_KEYS[IntIndex(i)] == i;
    case BoolKey(b) => assert BOOL_KEYS[BoolIndex(b)] == b;
  }

  /** Two created configurations are equal exactly when all serialized fields are. */
  lemma ConfigsEqual(a: Content, b: Content)
    ensures CreateConfig(a) == CreateConfig(b) <==> a.ints == b.ints && a.on == b.on
  {
    hide Name, CreateConfig;
    if CreateConfig(a) == CreateConfig(b) {
      forall i: IntField
        ensures a.ints[i] == b.ints[i]
      {
        ConfigCreated(a, IntKey(i));
        ConfigCreated(b, IntKey(i));
      }
      forall x: BoolField
        ensures x in a.on <==> x in b.on
      {
        ConfigCreated(a, BoolKey(x));
        ConfigCreated(b, BoolKey(x));
      }
    }
    if a.ints == b.ints && a.on == b.on {
      SameKeysAndValues(a, b);
    }
  }

  lemma SameKeysAndValues(a: Content, b: Content)
    requires a.ints == b.ints && a.on == b.on
    ensures CreateConfig(a) == CreateConfig(b)
  {
    hide Name, CreateConfig;
    var x, y := CreateConfig(a), CreateConfig(b);
    forall k
      ensures k in x <==> k in y
      ensures k in x ==> x[k] == y[k]
    {
      ConfigCreated(a, FieldOf(k).GetOr(IntKey(MinVersion)));
      ConfigCreated(b, FieldOf(k).GetOr(IntKey(MinVersion)));
    }
  }

  /** _dictionary_has_key: some key starts with `target`. */
  predicate HasKey(d: map<string, Value>, target: string) {
    exists k :: k in d && StartsWith(k, target)
  }

  /** One entry of the partial configuration against the full one; every table row with its key is checked. */
  predicate EntryMatches(full: map<string, Value>, partial: map<string, Value>, key: string) {
    && (forall i: IntField :: IntRowMatches(full, partial, key, i))
    && (forall b: BoolField :: BoolRowMatches(full, partial, key, b))
  }

  predicate IntRowMatches(full: map<string, Value>, partial: map<string, Value>, key: string, i: IntField) {
    KeyMatches(key, Name(IntKey(i))) ==>
      HasKey(full, Name(IntKey(i))) && GetUint64(full, Name(IntKey(i))) == GetUint64(partial, Name(IntKey(i)))
  }

  predicate BoolRowMatches(full: map<string, Value>, partial: map<string, Value>, key: string, b: BoolField) {
    KeyMatches(key, Name(BoolKey(b))) ==>
      HasKey(full, Name(BoolKey(b))) && GetBool(full, Name(BoolKey(b))) == GetBool(partial, Name(BoolKey(b)))
  }

  /** sec_protocol_options_matches_config: no entry may mismatch; unknown keys are ignored. */
  predicate MatchesConfig(c: Content, config: Config) {
    config.Dictionary? && forall key :: key in config.entries ==> EntryMatches(CreateConfig(c), config.entries, key)
  }

  /** _dictionary_has_key: the walk over the keys stops at the first that matches. */
  method DictionaryHasKey(d: map<string, Value>, order: seq<string>, target: string) returns (found: bool)
    requires Enumerates(order, d.Keys)
    ensures found == HasKey(d, target)
  {
    found := false;
    for k := 0 to |order|
      invariant forall j :: 0 <= j < k ==> !StartsWith(order[j], target)
    {
      if StartsWith(order[k], target) {
        return true;
      }
    }
  }

  /** The rows of the integer table that have the key of one entry. */
  method CheckInts(full: map<string, Value>, fullOrder: seq<string>, partial: map<string, Value>, key: string)
    returns (matches: bool)
    requires Enumerates(fullOrder, full.Keys)
    ensures matches == forall i: IntField :: IntRowMatches(full, partial, key, i)
  {
    hide Name, HasKey, GetUint64, KeyMatches;
    for i := 0 to |INT_KEYS|
      invariant forall x: IntField :: IntIndex(x) < i ==> IntRowMatches(full, partial, key, x)
    {
      IndexOfKeys(i);
      var name := Name(IntKey(INT_KEYS[i]));
      if KeyMatches(key, name) {
        var found := DictionaryHasKey(full, fullOrder, name);
        if found {
          if GetUint64(full, name) != GetUint64(partial, name) {
            assert !IntRowMatches(full, partial, key, INT_KEYS[i]);
            return false;
          }
        } else {
          assert !IntRowMatches(full, partial, key, INT_KEYS[i]);
          return false;
        }
      }
    }
    matches := true;
  }

  /** The rows of the Boolean table that have the key of one entry. */
  method CheckBools(full: map<string, Value>, fullOrder: seq<string>, partial: map<string, Value>, key: string)
    returns (matches: bool)
    requires Enumerates(fullOrder, full.Keys)
    ensures matches == forall b: BoolField :: BoolRowMatches(full, partial, key, b)
  {
    hide Name, HasKey, GetBool, KeyMatches;
    for i := 0 to |BOOL_KEYS|
      invariant forall x: BoolField :: BoolIndex(x) < i ==> BoolRowMatches(full, partial, key, x)
    {
      IndexOfKeys(i);
      var name := Name(BoolKey(BOOL_KEYS[i]));
      if KeyMatches(key, name) {
        var found := DictionaryHasKey(full, fullOrder, name);
        if found {
          if GetBool(full, name) != GetBool(partial, name) {
            assert !BoolRowMatches(full, partial, key, BOOL_KEYS[i]);
            return false;
          }
        } else {
          assert !BoolRowMatches(full, partial, key, BOOL_KEYS[i]);
          return false;
        }
      }
    }
    matches := true;
  }

  /** The rows of both tables that have the key of one entry; any mismatch ends the walk. */
  method CheckEntry(full: map<string, Value>, fullOrder: seq<string>, partial: map<string, Value>, key: string)
    returns (matches: bool)
    requires Enumerates(fullOrder, full.Keys)
    ensures matches == EntryMatches(full, partial, key)
  {
    matches := CheckInts(full, fullOrder, partial, key);
    if matches {
      matches := CheckBools(full, fullOrder, partial, key);
    }
  }

  /** sec_protocol_options_matches_config, for any order in which the dictionaries are walked. */
  method OptionsMatchConfig(options: Options, fullOrder: seq<string>, config: Config, order: seq<string>)
    returns (matches: bool)
    requires Enumerates(fullOrder, CreateConfig(options.content).Keys)
    requires config.Dictionary? ==> Enumerates(order, config.entries.Keys)
    ensures matches == MatchesConfig(options.content, config)
  {
    hide CreateConfig, EntryMatches;
    if config.NotADictionary? {
      return false;
    }
    var full := CreateConfig(options.content);
    for k := 0 to |order|
      invariant forall j :: 0 <= j < k ==> EntryMatches(full, config.entries, order[j])
    {
      assert order[k] in config.entries.Keys;
      var entry := CheckEntry(full, fullOrder, config.entries, order[k]);
      if !entry {
        return false;
      }
    }
    matches := true;
  }

  /** The serialized fields named in `d` have the values that `d` reads as. */
  ghost predicate AgreesWith(c: Content, d: map<string, Value>) {
    && (forall i: IntField :: Name(IntKey(i)) in d ==> c.ints[i] == GetUint64(d, Name(IntKey(i))))
    && (forall b: BoolField :: Name(BoolKey(b)) in d ==> (b in c.on <==> GetBool(d, Name(BoolKey(b)))))
  }

  /** Every integer of the configuration fits the C type of its field. */
  ghost predicate IntsFit(d: map<string, Value>) {
    forall i: IntField :: Name(IntKey(i)) in d ==> GetUint64(d, Name(IntKey(i))) < Width(i)
  }

  lemma CreatedIsComplete(c: Content, f: Field)
    ensures HasKey(CreateConfig(c), Name(f))
    ensures f.IntKey? ==> GetUint64(CreateConfig(c), Name(f)) == c.ints[f.i]
    ensures f.BoolKey? ==> GetBool(CreateConfig(c), Name(f)) == (f.b in c.on)
  {
    hide Name, CreateConfig;
    ConfigCreated(c, f);
    assert StartsWith(Name(f), Name(f));
  }

  /** Matching, which walks the entries and compares prefixes, means agreement on the named fields. */
  lemma MatchMeaning(c: Content, d: map<string, Value>)
    requires CStrings(d)
    ensures MatchesConfig(c, Dictionary(d)) <==> AgreesWith(c, d)
  {
    hide Name, CreateConfig, KeyMatches, HasKey, GetUint64, GetBool, EntryMatches;
    var full := CreateConfig(c);
    forall key | key in d
      ensures EntryMatches(full, d, key) <==>
              && (forall i: IntField :: key == Name(IntKey(i)) ==> c.ints[i] == GetUint64(d, Name(IntKey(i))))
              && (forall b: BoolField :: key == Name(BoolKey(b)) ==> (b in c.on <==> GetBool(d, Name(BoolKey(b)))))
    {
      EntryMeaning(c, d, key);
    }
    if AgreesWith(c, d) {
      assert MatchesConfig(c, Dictionary(d));
    }
    if MatchesConfig(c, Dictionary(d)) {
      forall i: IntField | Name(IntKey(i)) in d
        ensures c.ints[i] == GetUint64(d, Name(IntKey(i)))
      {
        assert EntryMatches(full, d, Name(IntKey(i)));
      }
      forall b: BoolField | Name(BoolKey(b)) in d
        ensures b in c.on <==> GetBool(d, Name(BoolKey(b)))
      {
        assert EntryMatches(full, d, Name(BoolKey(b)));
      }
    }
  }

  lemma EntryMeaning(c: Content, d: map<string, Value>, key: string)
    requires '\0' !in key
    ensures EntryMatches(CreateConfig(c), d, key) <==>
            && (forall i: IntField :: key == Name(IntKey(i)) ==> c.ints[i] == GetUint64(d, Name(IntKey(i))))
            && (forall b: BoolField :: key == Name(BoolKey(b)) ==> (b in c.on <==> GetBool(d, Name(BoolKey(b)))))
  {
    hide Name, CreateConfig, KeyMatches, HasKey, GetUint64, GetBool;
    forall i: IntField
      ensures IntRowMatches(CreateConfig(c), d, key, i) <==>
              (key == Name(IntKey(i)) ==> c.ints[i] == GetUint64(d, Name(IntKey(i))))
    {
      KeyMatchesExactly(key, IntKey(i));
      CreatedIsComplete(c, IntKey(i));
    }
    forall b: BoolField
      ensures BoolRowMatches(CreateConfig(c), d, key, b) <==>
              (key == Name(BoolKey(b)) ==> (b in c.on <==> GetBool(d, Name(BoolKey(b)))))
    {
      KeyMatchesExactly(key, BoolKey(b));
      CreatedIsComplete(c, BoolKey(b));
    }
  }

  /** The serialized fields after a whole configuration has been applied. */
  lemma AppliedFields(c: Content, d: map<string, Value>, order: seq<string>)
    requires Enumerates(order, d.Keys)
    ensures Apply(c, d, order).ints == IntsAfter(c, d, d.Keys)
    ensures Apply(c, d, order).on == OnAfter(c, d, d.Keys)
    ensures Apply(c, d, order).overrides == OverridesAfter(c, d.Keys)
  {
    hide IntsAfter, OnAfter, OverridesAfter;
    ApplyMeaning(c, d, order);
    assert Elements(order) == d.Keys;
  }

  /** Applying changes no serialized field exactly when the fields agree, modulo their widths. */
  lemma FixpointMeaning(c: Content, d: map<string, Value>, order: seq<string>)
    requires Enumerates(order, d.Keys)
    ensures CreateConfig(Apply(c, d, order)) == CreateConfig(c) <==>
            && (forall i: IntField :: Name(IntKey(i)) in d ==> c.ints[i] == GetUint64(d, Name(IntKey(i))) % Width(i))
            && (forall b: BoolField :: Name(BoolKey(b)) in d ==> (b in c.on <==> GetBool(d, Name(BoolKey(b)))))
  {
    hide Name, CreateConfig, Apply, GetUint64, GetBool, Width;
    ConfigsEqual(Apply(c, d, order), c);
    AppliedFields(c, d, order);
    assert IntsAfter(c, d, d.Keys) == c.ints <==>
      forall i: IntField :: Name(IntKey(i)) in d ==> c.ints[i] == GetUint64(d, Name(IntKey(i))) % Width(i) by {
      assert IntsAfter(c, d, d.Keys) == c.ints <==> forall i: IntField :: IntsAfter(c, d, d.Keys)[i] == c.ints[i];
    }
    assert OnAfter(c, d, d.Keys) == c.on <==>
      forall b: BoolField :: Name(BoolKey(b)) in d ==> (b in c.on <==> GetBool(d, Name(BoolKey(b))));
  }

  /** Matching `d` and being left unchanged by applying it are the same for content `c`. */
  ghost predicate MatchIsFixpoint(c: Content, d: map<string, Value>, order: seq<string>) {
    MatchesConfig(c, Dictionary(d)) <==> CreateConfig(Apply(c, d, order)) == CreateConfig(c)
  }

  /** After applying `d` to `c`, it matches. */
  ghost predicate MatchesAfterApply(c: Content, d: map<string, Value>, order: seq<string>) {
    MatchesConfig(Apply(c, d, order), Dictionary(d))
  }

  lemma FittingConfig(c: Content, d: map<string, Value>, order: seq<string>)
    requires CStrings(d) && Enumerates(order, d.Keys) && IntsFit(d)
    ensures MatchIsFixpoint(c, d, order) && MatchesAfterApply(c, d, order)
  {
    FittingFixpoint(c, d, order);
    FittingApplied(c, d, order);
  }

  lemma FittingInt(d: map<string, Value>, i: IntField)
    requires IntsFit(d) && Name(IntKey(i)) in d
    ensures GetUint64(d, Name(IntKey(i))) % Width(i) == GetUint64(d, Name(IntKey(i)))
  {
    hide Name, GetUint64, Width;
  }

  lemma FittingFixpoint(c: Content, d: map<string, Value>, order: seq<string>)
    requires CStrings(d) && Enumerates(order, d.Keys) && IntsFit(d)
    ensures MatchIsFixpoint(c, d, order)
  {
    hide Name, CreateConfig, Apply, GetUint64, GetBool, Width, MatchesConfig, IntsFit;
    MatchMeaning(c, d);
    FixpointMeaning(c, d, order);
    forall i: IntField | Name(IntKey(i)) in d
      ensures GetUint64(d, Name(IntKey(i))) % Width(i) == GetUint64(d, Name(IntKey(i)))
    {
      FittingInt(d, i);
    }
  }

  lemma FittingApplied(c: Content, d: map<string, Value>, order: seq<string>)
    requires CStrings(d) && Enumerates(order, d.Keys) && IntsFit(d)
    ensures MatchesAfterApply(c, d, order)
  {
    hide Name, CreateConfig, Apply, GetUint64, GetBool, Width, MatchesConfig, IntsFit;
    forall i: IntField | Name(IntKey(i)) in d
      ensures GetUint64(d, Name(IntKey(i))) % Width(i) == GetUint64(d, Name(IntKey(i)))
    {
      FittingInt(d, i);
    }
    MatchMeaning(Apply(c, d, order), d);
    AppliedFields(c, d, order);
  }

  /** An integer that does not fit is applied modulo its width and never matches. */
  lemma WideConfig(c: Content, d: map<string, Value>, order: seq<string>, i: IntField)
    requires CStrings(d) && Enumerates(order, d.Keys)
    requires Name(IntKey(i)) in d && GetUint64(d, Name(IntKey(i))) >= Width(i)
    ensures !MatchesAfterApply(c, d, order)
    ensures !MatchIsFixpoint(Apply(c, d, order), d, order)
  {
    hide Name, CreateConfig, Apply, GetUint64, GetBool, Width, MatchesConfig;
    var c' := Apply(c, d, order);
    MatchMeaning(c', d);
    assert c'.ints[i] < Width(i);
    AppliedFields(c, d, order);
    FixpointMeaning(c', d, order);
  }

  /**
    Matching is the fixpoint test of applying, for all options, if and only if every integer of the
    configuration fits its field; and this is also exactly when an applied configuration always matches.
   */
  lemma MatchAndApply(d: map<string, Value>, order: seq<string>)
    requires CStrings(d) && Enumerates(order, d.Keys)
    ensures (forall c :: MatchIsFixpoint(c, d, order)) <==> IntsFit(d)
    ensures (forall c :: MatchesAfterApply(c, d, order)) <==> IntsFit(d)
  {
    hide MatchIsFixpoint, MatchesAfterApply, Name, GetUint64, Width;
    if IntsFit(d) {
      forall c
        ensures MatchIsFixpoint(c, d, order) && MatchesAfterApply(c, d, order)
      {
        FittingConfig(c, d, order);
      }
    } else {
      var i: IntField :| Name(IntKey(i)) in d && GetUint64(d, Name(IntKey(i))) >= Width(i);
      var c := EmptyContent();
      WideConfig(c, d, order, i);
      assert !MatchesAfterApply(c, d, order) && !MatchIsFixpoint(Apply(c, d, order), d, order);
    }
  }

  // ---------------------------------------------------------------- transfer

  /** The override flags that the setters of serialized fields set. */
  ghost function SettingOverrides(): set<Override> {
    set o: Override | exists b: BoolField :: OverrideOf(b) == Some(o)
  }

  lemma NoSuitesInCreated(a: Content, key: string)
    requires key in CreateConfig(a)
    ensures SuitesOf(CreateConfig(a), key) == []
  {
    hide Name, CreateConfig;
    ConfigCreated(a, FieldOf(key).GetOr(IntKey(MinVersion)));
    var f := FieldOf(key).value;
    assert Name(f) == key;
    assert CreateConfig(a)[key] == ValueOf(a, f);
  }

  lemma {:induction false} NoSuitesAdded(a: Content, order: seq<string>)
    requires forall k :: k in order ==> k in CreateConfig(a)
    ensures AddedSuites(CreateConfig(a), order) == []
  {
    hide CreateConfig, SuitesOf;
    if order != [] {
      NoSuitesAdded(a, order[..|order| - 1]);
      NoSuitesInCreated(a, order[|order| - 1]);
    }
  }

  /**
    Applying the configuration created from `a` to any `b`, in any order, transfers the serialized
    fields, sets their override flags and changes nothing else.
   */
  lemma Transfer(a: Content, b: Content, order: seq<string>)
    requires Enumerates(order, CreateConfig(a).Keys)
    ensures Apply(b, CreateConfig(a), order)
         == b.(ints := a.ints, on := a.on, overrides := b.overrides + SettingOverrides())
    ensures CreateConfig(Apply(b, CreateConfig(a), order)) == CreateConfig(a)
  {
    hide Name, CreateConfig, OverrideOf, SuitesOf, Apply, FieldsAfter, SettingOverrides;
    var d := CreateConfig(a);
    ApplyMeaning(b, d, order);
    assert Elements(order) == d.Keys;
    NoSuitesAdded(a, order);
    CreatedFields(a, b);
    ConfigsEqual(Apply(b, d, order), a);
  }

  lemma CreatedFields(a: Content, b: Content)
    ensures FieldsAfter(b, CreateConfig(a), CreateConfig(a).Keys)
         == b.(ints := a.ints, on := a.on, overrides := b.overrides + SettingOverrides())
  {
    hide IntsAfter, OnAfter, OverridesAfter, CreateConfig, SettingOverrides;
    CreatedInts(a, b);
    CreatedBools(a, b);
  }

  lemma CreatedInts(a: Content, b: Content)
    ensures IntsAfter(b, CreateConfig(a), CreateConfig(a).Keys) == a.ints
  {
    hide Name, CreateConfig, GetUint64, Width;
    forall i: IntField
      ensures IntsAfter(b, CreateConfig(a), CreateConfig(a).Keys)[i] == a.ints[i]
    {
      ConfigCreated(a, IntKey(i));
      CreatedIsComplete(a, IntKey(i));
      assert a.ints[i] < Width(i);
    }
  }

  lemma CreatedBools(a: Content, b: Content)
    ensures OnAfter(b, CreateConfig(a), CreateConfig(a).Keys) == a.on
    ensures OverridesAfter(b, CreateConfig(a).Keys) == b.overrides + SettingOverrides()
  {
    hide Name, CreateConfig, GetBool, OverrideOf;
    forall x: BoolField
      ensures Name(BoolKey(x)) in CreateConfig(a)
      ensures GetBool(CreateConfig(a), Name(BoolKey(x))) == (x in a.on)
    {
      ConfigCreated(a, BoolKey(x));
      CreatedIsComplete(a, BoolKey(x));
    }
  }

  /** The getter: true unless the field was set explicitly. */
  predicate UsesLegacyCodepoint(c: Content) {
    QuicUseLegacyCodepointOverride in c.overrides ==> QuicUseLegacyCodepoint in c.on
  }

  /** The effective codepoint transfers if and only if it was set explicitly in `a` or its field is true. */
  lemma CodepointTransfer(a: Content, b: Content, order: seq<string>)
    requires Enumerates(order, CreateConfig(a).Keys)
    ensures UsesLegacyCodepoint(Apply(b, CreateConfig(a), order)) == UsesLegacyCodepoint(a)
       <==> QuicUseLegacyCodepointOverride in a.overrides || QuicUseLegacyCodepoint in a.on
  {
    hide CreateConfig, Apply;
    Transfer(a, b, order);
    assert OverrideOf(QuicUseLegacyCodepoint) == Some(QuicUseLegacyCodepointOverride);
  }
}
