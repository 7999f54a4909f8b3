/** The filter for the entitlements that a signed application may carry. */
module Entitlements {
  import opened Bytes
  import opened Dictionaries

  /** Property list values; numbers, dates and the like make no difference. */
  datatype Value = String(text: string) | Array(items: seq<Value>) | Other

  const IDENTIFIER_KEY := "application-identifier"
  const GROUPS_KEY := "keychain-access-groups"

  // ---------------------------------------------------------------- splitting

  /** CFStringCreateArrayBySeparatingStrings */
  function Split(s: string, separator: char): (pieces: seq<string>)
    ensures |pieces| > 0
    ensures forall k :: 0 <= k < |pieces| ==> separator !in pieces[k]
    decreases |s|
  {
    if s == [] then [[]]
    else
      var rest := Split(s[1..], separator);
      if s[0] == separator then [[]] + rest else [[s[0]] + rest[0]] + rest[1..]
  }

  function Join(pieces: seq<string>, separator: char): string
    requires |pieces| > 0
  {
    if |pieces| == 1 then pieces[0] else pieces[0] + [separator] + Join(pieces[1..], separator)
  }

  /** Splitting loses nothing. */
  lemma {:induction false} JoinOfSplit(s: string, separator: char)
    ensures Join(Split(s, separator), separator) == s
    decreases |s|
  {
    if s != [] {
      JoinOfSplit(s[1..], separator);
      var rest := Split(s[1..], separator);
      if s[0] == separator {
        assert ([[]] + rest)[1..] == rest;
      } else {
        var pieces := [[s[0]] + rest[0]] + rest[1..];
        assert pieces[1..] == rest[1..];
      }
    }
  }

  /** The pieces are the only ones without separators that make up the string. */
  lemma {:induction false} SplitOfJoin(pieces: seq<string>, separator: char)
    requires |pieces| > 0 && forall k :: 0 <= k < |pieces| ==> separator !in pieces[k]
    ensures Split(Join(pieces, separator), separator) == pieces
    decreases |pieces|, |pieces[0]|
  {
    var s := Join(pieces, separator);
    if pieces[0] == [] {
      if |pieces| > 1 {
        assert s[1..] == Join(pieces[1..], separator);
        SplitOfJoin(pieces[1..], separator);
      }
    } else {
      var shorter := [pieces[0][1..]] + pieces[1..];
      assert shorter[1..] == pieces[1..];
      assert s[1..] == Join(shorter, separator);
      SplitOfJoin(shorter, separator);
      assert s[0] == pieces[0][0] && [s[0]] + shorter[0] == pieces[0];
    }
  }

  // ---------------------------------------------------------------- the policy

  /** Two parts at least; the second is not empty and does not repeat the first. */
  ghost predicate ValidIdentifier(value: Value) {
    value.String? &&
    exists first: string, second: string, rest: string ::
      IsDotted(value.text, first, second, rest) && second != "" && second != first
  }

  /** `first.second`, or `first.second.` and anything. */
  predicate IsDotted(text: string, first: string, second: string, rest: string) {
    && '.' !in first && '.' !in second
    && (rest == [] || rest[0] == '.')
    && text == first + "." + second + rest
  }

  predicate ValidGroup(value: Value) {
    value.String? && value.text != "apple" && '*' !in value.text
  }

  predicate ValidGroups(value: Value) {
    match value
    case String(_) => ValidGroup(value)
    case Array(items) => forall k :: 0 <= k < |items| ==> ValidGroup(items[k])
    case Other => false
  }

  /** What may be signed: nothing at all, or these two keys and no other with valid values. */
  ghost predicate Policy(entitlements: Option<map<string, Value>>) {
    entitlements.Some? ==>
      var d := entitlements.value;
      && IDENTIFIER_KEY in d && ValidIdentifier(d[IDENTIFIER_KEY])
      && (GROUPS_KEY in d ==> ValidGroups(d[GROUPS_KEY]))
      && d.Keys <= {IDENTIFIER_KEY, GROUPS_KEY}
  }

  /** The test of the first two pieces, in terms of the text. */
  lemma IdentifierPieces(text: string)
    ensures ValidIdentifier(String(text)) <==>
            var pieces := Split(text, '.');
            |pieces| >= 2 && pieces[0] != pieces[1] && pieces[1] != ""
  {
    hide Split, Join, IsDotted;
    var pieces := Split(text, '.');
    if |pieces| >= 2 {
      var rest := PiecesDotted(text);
      assert IsDotted(text, pieces[0], pieces[1], rest);
    }
    if ValidIdentifier(String(text)) {
      var first, second, rest :| IsDotted(text, first, second, rest) && second != "" && second != first;
      DottedPieces(text, first, second, rest);
    }
  }

  lemma PiecesDotted(text: string) returns (rest: string)
    requires |Split(text, '.')| >= 2
    ensures IsDotted(text, Split(text, '.')[0], Split(text, '.')[1], rest)
  {
    hide Split;
    var pieces := Split(text, '.');
    JoinOfSplit(text, '.');
    rest := if |pieces| == 2 then [] else ['.'] + Join(pieces[2..], '.');
    assert pieces[1..][1..] == pieces[2..];
  }

  lemma DottedPieces(text: string, first: string, second: string, rest: string)
    requires IsDotted(text, first, second, rest)
    ensures |Split(text, '.')| >= 2 && Split(text, '.')[0] == first && Split(text, '.')[1] == second
  {
    var pieces := [first, second] + if rest == [] then [] else Split(rest[1..], '.');
    if rest == [] {
      assert pieces[1..] == [second];
      assert Join(pieces, '.') == text;
    } else {
      JoinOfSplit(rest[1..], '.');
      assert pieces[1..][1..] == Split(rest[1..], '.');
      assert Join(pieces[1..], '.') == second + ['.'] + rest[1..];
      assert Join(pieces, '.') == text;
    }
    SplitOfJoin(pieces, '.');
  }

  /** A keychain group: any string but "apple" without a star. */
  predicate IsGroup(value: Value) {
    match value
    case String(text) => text != "apple" && forall k :: 0 <= k < |text| ==> text[k] != '*'
    case _ => false
  }

  /** The policy in terms of the pieces between the dots: two keys, one of them required. */
  lemma PolicyInPieces(d: map<string, Value>)
    ensures Policy(None)
    ensures Policy(Some(d)) <==>
            && (forall key :: key in d ==> key == "application-identifier" || key == "keychain-access-groups")
            && "application-identifier" in d && d["application-identifier"].String?
            && (var pieces := Split(d["application-identifier"].text, '.');
                |pieces| >= 2 && pieces[1] != [] && pieces[0] != pieces[1])
            && ("keychain-access-groups" in d ==>
                  var groups := d["keychain-access-groups"];
                  || IsGroup(groups)
                  || (groups.Array? && forall k :: 0 <= k < |groups.items| ==> IsGroup(groups.items[k])))
  {
    hide Split, ValidIdentifier;
    assert d.Keys <= {IDENTIFIER_KEY, GROUPS_KEY} <==>
           forall key :: key in d ==> key == IDENTIFIER_KEY || key == GROUPS_KEY;
    if IDENTIFIER_KEY in d {
      if d[IDENTIFIER_KEY].String? {
        IdentifierPieces(d[IDENTIFIER_KEY].text);
      } else {
        IdentifierIsString(d[IDENTIFIER_KEY]);
      }
    }
    if GROUPS_KEY in d {
      GroupsAreGroups(d[GROUPS_KEY]);
    }
  }

  lemma IdentifierIsString(value: Value)
    ensures ValidIdentifier(value) ==> value.String?
  {
  }

  lemma GroupsAreGroups(value: Value)
    ensures ValidGroups(value) <==>
            IsGroup(value) || (value.Array? && forall k :: 0 <= k < |value.items| ==> IsGroup(value.items[k]))
  {
    forall v
      ensures ValidGroup(v) <==> IsGroup(v)
    {
      if v.String? && '*' in v.text {
        var k :| 0 <= k < |v.text| && v.text[k] == '*';
      }
    }
  }

  // ---------------------------------------------------------------- the filter

  /** filter_allowlist_ctx */
  class FilterContext {
    var validApplicationIdentifier: bool
    var validKeychainAccessGroup: bool
    var illegalEntitlement: bool

    constructor ()
      ensures !validApplicationIdentifier && validKeychainAccessGroup && !illegalEntitlement
    {
      validApplicationIdentifier, validKeychainAccessGroup, illegalEntitlement := false, true, false;
    }

    predicate Accepts()
      reads this
    {
      validApplicationIdentifier && validKeychainAccessGroup && !illegalEntitlement
    }

    method FilterEntitlement(key: string, value: Value)
      modifies this
      ensures validApplicationIdentifier ==
              (old(validApplicationIdentifier) || (key == IDENTIFIER_KEY && ValidIdentifier(value)))
      ensures validKeychainAccessGroup ==
              if key == GROUPS_KEY then ValidGroups(value) else old(validKeychainAccessGroup)
      ensures illegalEntitlement == (old(illegalEntitlement) || key !in {IDENTIFIER_KEY, GROUPS_KEY})
    {
      if key == IDENTIFIER_KEY {
        if !value.String? {
          return;
        }
        IdentifierPieces(value.text);
        var identifierPieces := Split(value.text, '.');
        if |identifierPieces| < 2 {
          return;
        }
        if identifierPieces[0] == identifierPieces[1] {
          return;
        }
        if identifierPieces[1] == "" {
          return;
        }
        validApplicationIdentifier := true;
        return;
      }
      if key == GROUPS_KEY {
        validKeychainAccessGroup := false;
        if value.String? {
          if value.text == "apple" || '*' in value.text {
            return;
          }
        } else if value.Array? {
          for i := 0 to |value.items|
            invariant forall k :: 0 <= k < i ==> ValidGroup(value.items[k])
            invariant !validKeychainAccessGroup
          {
            var group := value.items[i];
            if !group.String? {
              return;
            }
            if group.text == "apple" || '*' in group.text {
              return;
            }
          }
        } else {
          return;
        }
        validKeychainAccessGroup := true;
        return;
      }
      illegalEntitlement := true;
    }
  }

  /** Whatever the order in which the dictionary is walked, the filter accepts exactly what the policy allows. */
  method FilterEntitlements(entitlements: Option<map<string, Value>>, order: seq<string>) returns (allowed: bool)
    requires entitlements.Some? ==> Enumerates(order, entitlements.value.Keys)
    ensures allowed <==> Policy(entitlements)
  {
    if entitlements.None? {
      return true;
    }
    var d := entitlements.value;
    var ctx := new FilterContext();
    for k := 0 to |order|
      invariant ctx.validApplicationIdentifier <==>
                IDENTIFIER_KEY in order[..k] && ValidIdentifier(d[IDENTIFIER_KEY])
      invariant ctx.validKeychainAccessGroup <==> (GROUPS_KEY in order[..k] ==> ValidGroups(d[GROUPS_KEY]))
      invariant !ctx.illegalEntitlement <==> forall i :: 0 <= i < k ==> order[i] in {IDENTIFIER_KEY, GROUPS_KEY}
    {
      assert order[..k + 1] == order[..k] + [order[k]];
      assert order[k] !in order[..k];
      ctx.FilterEntitlement(order[k], d[order[k]]);
    }
    assert order[..|order|] == order;
    assert forall i :: 0 <= i < |order| ==> order[i] in d.Keys;
    allowed := ctx.Accepts();
  }

  /** Entitlements that are allowed stay allowed without their keychain groups, and with any valid ones. */
  lemma GroupsAreIndependent(d: map<string, Value>, groups: Value)
    requires Policy(Some(d))
    ensures Policy(Some(d - {GROUPS_KEY}))
    ensures Policy(Some(d[GROUPS_KEY := groups])) <==> ValidGroups(groups)
  {
  }

  /** An identifier may be extended by further parts. */
  lemma IdentifiersExtend(text: string, part: string)
    requires ValidIdentifier(String(text))
    ensures ValidIdentifier(String(text + "." + part))
  {
    var first, second, rest :| IsDotted(text, first, second, rest) && second != "" && second != first;
    assert IsDotted(text + "." + part, first, second, rest + "." + part);
  }
}
