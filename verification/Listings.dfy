/** What a service answers to a request for all names of some kind. */
module Listings {

  predicate NoRepeats<T(==)>(s: seq<T>) {
    forall i, j :: 0 <= i < j < |s| ==> s[i] != s[j]
  }

  /** Every one of the names, once and in any order. */
  predicate Lists(listing: seq<string>, names: set<string>) {
    && NoRepeats(listing)
    && (forall i :: 0 <= i < |listing| ==> listing[i] in names)
    && (forall n :: n in names ==> n in listing)
  }
}
