/** The order in which a dictionary is walked. */
module Dictionaries {

  /** `order` visits every key once. */
  ghost predicate Enumerates(order: seq<string>, keys: set<string>) {
    && (forall key :: key in order <==> key in keys)
    && (forall i, j :: 0 <= i < j < |order| ==> order[i] != order[j])
  }
}
