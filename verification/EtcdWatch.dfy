/** Listing children in etcd, and the conditions on which the watches of `exists` and
    `get_children` stop waiting. */
module EtcdWatch {
  import opened Errors
  import opened Keys
  import opened Encoding
  import opened Tree
  import opened EtcdStore
  import opened Listings

  // ---------- get_children ----------

  /** The stored names in a range. */
  function NamesIn(s: Store, range: (string, string)): set<string> {
    set n | n in s && InRange(n, range.0, range.1)
  }

  /** No other program has stored a name with the mark there. */
  ghost predicate OnlyKeys(prefix: Path, listing: seq<string>) {
    forall i :: 0 <= i < |listing| ==> NamesKey(prefix, listing[i])
  }

  ghost predicate NamesKey(prefix: Path, name: string) {
    exists j: Key :: Names(prefix, name, j)
  }

  ghost predicate KeyString(c: string) {
    exists j: Key :: Join(j) == c
  }

  /** `unwrap_key_` is defined for the name, and `c` is what it gives. */
  predicate UnwrapsTo(prefix: Path, name: string, c: string) {
    && '/' in name && |Join(prefix)| <= RFind(name, '/') < |name| - 1
    && c == Unwrap(prefix, name)
  }

  /** The string is what is left of a stored name in the children range of `k`. */
  ghost predicate ChildString(prefix: Path, k: Key, s: Store, c: string) {
    exists n :: n in NamesIn(s, ChildrenRange(prefix, k)) && UnwrapsTo(prefix, n, c)
  }

  /** `get_children`: unwrap what the children range holds. What is returned is what is left of the
      names there; the key strings among it are those of the children of the argument. There are
      no others, and none twice, if only keys have names there. On a name that ends in a slash
      the source throws std::out_of_range. */
  method GetChildren(prefix: Path, k: Key, s: Store, listing: seq<string>)
    returns (r: Result<seq<string>>, rawKeys: set<string>)
    requires Lists(listing, NamesIn(s, ChildrenRange(prefix, k)))
    requires forall i :: 0 <= i < |listing| && listing[i] != "" ==> listing[i][|listing[i]| - 1] != '/'
    ensures r.Err? <==> k !in View(prefix, s)
    ensures r.Err? ==> r.error == NoEntry
    ensures r.Ok? ==> |r.value| == |listing| && forall c :: c in r.value <==> ChildString(prefix, k, s, c)
    ensures r.Ok? ==> forall j: Key :: Join(j) in r.value <==> j in View(prefix, s) && Parent(j) == k
    ensures r.Ok? && OnlyKeys(prefix, listing) ==>
      NoRepeats(r.value) && forall c :: c in r.value ==> KeyString(c)
    ensures r.Ok? ==> rawKeys == set n | n in listing
  {
    ViewIs(prefix, s);
    hide View, EtcdName, Join, ChildrenRange, InRange, Unwrap, UnwrapsTo, OnlyKeys, ChildString;
    var name := EtcdPathString(prefix, k);
    rawKeys := {};
    if name !in s {
      return Err(NoEntry), {};
    }
    var children: seq<string> := [];
    for i := 0 to |listing|
      invariant |children| == i
      invariant forall m :: 0 <= m < i ==> UnwrapsTo(prefix, listing[m], children[m])
      invariant rawKeys == set m | 0 <= m < i :: listing[m]
    {
      ListedUnwraps(prefix, k, s, listing, i);
      children := children + [Unwrap(prefix, listing[i])];
      rawKeys := rawKeys + {listing[i]};
    }
    ChildrenExact(prefix, k, s, listing, children);
    OnlyKeysExact(prefix, listing, children);
    r := Ok(children);
  }

  lemma ListedUnwraps(prefix: Path, k: Key, s: Store, listing: seq<string>, i: nat)
    requires Lists(listing, NamesIn(s, ChildrenRange(prefix, k))) && i < |listing|
    requires listing[i] != "" ==> listing[i][|listing[i]| - 1] != '/'
    ensures var n := listing[i];
      '/' in n && |Join(prefix)| <= RFind(n, '/') < |n| - 1 && UnwrapsTo(prefix, n, Unwrap(prefix, n))
  {
    hide Join, ChildrenRange, InRange, Unwrap;
    assert listing[i] in NamesIn(s, ChildrenRange(prefix, k));
    ChildrenMarked(prefix, k, listing[i]);
    UnwrapDefined(prefix, k, listing[i]);
  }

  lemma ChildrenExact(prefix: Path, k: Key, s: Store, listing: seq<string>, children: seq<string>)
    requires Lists(listing, NamesIn(s, ChildrenRange(prefix, k)))
    requires forall i :: 0 <= i < |listing| && listing[i] != "" ==> listing[i][|listing[i]| - 1] != '/'
    requires |children| == |listing|
    requires forall m :: 0 <= m < |listing| ==> UnwrapsTo(prefix, listing[m], children[m])
    ensures forall c :: c in children <==> ChildString(prefix, k, s, c)
    ensures forall j: Key :: Join(j) in children <==> j in View(prefix, s) && Parent(j) == k
  {
    hide View, EtcdName, Join, ChildrenRange, InRange, UnwrapsTo;
    forall c
      ensures c in children <==> ChildString(prefix, k, s, c)
    {
      if c in children {
        var m :| 0 <= m < |children| && children[m] == c;
        assert listing[m] in NamesIn(s, ChildrenRange(prefix, k));
      }
      if ChildString(prefix, k, s, c) {
        var n :| n in NamesIn(s, ChildrenRange(prefix, k)) && UnwrapsTo(prefix, n, c);
        assert n in listing;
        var m :| 0 <= m < |listing| && listing[m] == n;
        UnwrapsOnce(prefix, n, c, children[m]);
      }
    }
    forall j: Key
      ensures Join(j) in children <==> j in View(prefix, s) && Parent(j) == k
    {
      KeyListed(prefix, k, s, listing, j);
    }
  }

  lemma UnwrapsOnce(prefix: Path, n: string, c: string, d: string)
    requires UnwrapsTo(prefix, n, c) && UnwrapsTo(prefix, n, d)
    ensures c == d
  {
  }

  lemma KeyListed(prefix: Path, k: Key, s: Store, listing: seq<string>, j: Key)
    requires Lists(listing, NamesIn(s, ChildrenRange(prefix, k)))
    requires forall i :: 0 <= i < |listing| && listing[i] != "" ==> listing[i][|listing[i]| - 1] != '/'
    ensures ChildString(prefix, k, s, Join(j)) <==> j in View(prefix, s) && Parent(j) == k
  {
    ViewIs(prefix, s);
    hide View, EtcdName, Join, ChildrenRange, InRange, Unwrap;
    if ChildString(prefix, k, s, Join(j)) {
      var n :| n in NamesIn(s, ChildrenRange(prefix, k)) && UnwrapsTo(prefix, n, Join(j));
      assert n in listing;
      ChildrenMarked(prefix, k, n);
      UnwrapsToKey(prefix, k, n, j);
    }
    if j in View(prefix, s) && Parent(j) == k {
      EtcdChildren(prefix, k, j);
      UnwrapName(prefix, j);
      var n := EtcdName(prefix, j);
      assert n in NamesIn(s, ChildrenRange(prefix, k));
      assert UnwrapsTo(prefix, n, Join(j));
    }
  }

  ghost predicate KeyOf(prefix: Path, name: string, c: string) {
    exists j: Key :: Names(prefix, name, j) && Join(j) == c
  }

  lemma OnlyKeysExact(prefix: Path, listing: seq<string>, children: seq<string>)
    requires NoRepeats(listing) && |children| == |listing|
    requires forall m :: 0 <= m < |listing| ==> UnwrapsTo(prefix, listing[m], children[m])
    ensures OnlyKeys(prefix, listing) ==>
      NoRepeats(children) && forall c :: c in children ==> KeyString(c)
  {
    hide EtcdName, Join, Unwrap;
    if OnlyKeys(prefix, listing) {
      forall m | 0 <= m < |listing|
        ensures KeyOf(prefix, listing[m], children[m])
      {
        assert NamesKey(prefix, listing[m]);
        var j: Key :| Names(prefix, listing[m], j);
        UnwrapName(prefix, j);
        var n := listing[m];
        assert UnwrapsTo(prefix, n, children[m]) && n == EtcdName(prefix, j);
        assert Unwrap(prefix, n) == Join(j);
      }
      forall a, b | 0 <= a < b < |children|
        ensures children[a] != children[b]
      {
        assert KeyOf(prefix, listing[a], children[a]) && KeyOf(prefix, listing[b], children[b]);
        var x: Key :| Names(prefix, listing[a], x) && Join(x) == children[a];
        var y: Key :| Names(prefix, listing[b], y) && Join(y) == children[b];
        if Join(x) == Join(y) {
          JoinInjective(x, y);
        }
      }
      forall c | c in children
        ensures KeyString(c)
      {
        var m :| 0 <= m < |children| && children[m] == c;
        assert KeyOf(prefix, listing[m], children[m]);
        var x: Key :| Names(prefix, listing[m], x) && Join(x) == children[m];
        assert KeyString(Join(x));
      }
    }
  }

  // ---------- watch conditions ----------

  datatype Event = PutEvent(key: string) | DeleteEvent(key: string)

  /** The stop condition of the watch of `exists`. */
  predicate ExistsCondition(existed: bool, e: Event) {
    (e.DeleteEvent? && existed) || (e.PutEvent? && !existed)
  }

  /** The stop condition of the watch of `get_children`. */
  predicate ChildrenCondition(oldKeys: set<string>, e: Event) {
    var wasThere := e.key in oldKeys;
    (wasThere && e.DeleteEvent?) || (!wasThere && e.PutEvent?)
  }

  /** The watched names present after some events. */
  function After(present: set<string>, events: seq<Event>): set<string> {
    if events == [] then present
    else
      var before := After(present, events[..|events| - 1]);
      match events[|events| - 1]
      case PutEvent(k) => before + {k}
      case DeleteEvent(k) => before - {k}
  }

  /** etcd reports a deletion only for a key that was there. */
  ghost predicate History(present: set<string>, events: seq<Event>) {
    forall i :: 0 <= i < |events| && events[i].DeleteEvent? ==> events[i].key in After(present, events[..i])
  }

  /** The condition holds at event `i` for the first time. */
  predicate FiresAt(present: set<string>, events: seq<Event>, i: nat) {
    i < |events| && ChildrenCondition(present, events[i]) &&
    forall j :: 0 <= j < i ==> !ChildrenCondition(present, events[j])
  }

  /** Event `i` is the first to change the set. */
  predicate ChangesAt(present: set<string>, events: seq<Event>, i: nat) {
    i < |events| && After(present, events[..i + 1]) != present &&
    forall j :: 0 <= j <= i ==> After(present, events[..j]) == present
  }

  lemma {:induction false} QuietSoFar(present: set<string>, events: seq<Event>, n: nat)
    requires n <= |events| && History(present, events)
    ensures (forall j :: 0 <= j < n ==> !ChildrenCondition(present, events[j])) <==>
      forall j :: 0 <= j <= n ==> After(present, events[..j]) == present
  {
    if n > 0 {
      QuietSoFar(present, events, n - 1);
      OneMoreEvent(present, events, n);
      hide History, ChildrenCondition, After;
    } else {
      assert events[..0] == [];
    }
  }

  lemma OneMoreEvent(present: set<string>, events: seq<Event>, n: nat)
    requires 0 < n <= |events| && History(present, events)
    ensures After(present, events[..n - 1]) == present ==>
      (After(present, events[..n]) == present <==> !ChildrenCondition(present, events[n - 1]))
  {
    assert events[..n][..n - 1] == events[..n - 1];
  }

  /** The children watch fires at exactly the first event that changes the set of children. */
  lemma ChildrenWatchFires(present: set<string>, events: seq<Event>, i: nat)
    requires History(present, events)
    ensures FiresAt(present, events, i) <==> ChangesAt(present, events, i)
  {
    if i < |events| {
      QuietSoFar(present, events, i);
      QuietSoFar(present, events, i + 1);
    }
  }

  /** The existence watch fires at exactly the first event that flips the key's existence. */
  lemma ExistsWatchFires(name: string, existed: bool, events: seq<Event>, i: nat)
    requires forall j :: 0 <= j < |events| ==> events[j].key == name
    requires History(if existed then {name} else {}, events)
    ensures (i < |events| && ExistsCondition(existed, events[i]) &&
             forall j :: 0 <= j < i ==> !ExistsCondition(existed, events[j])) <==>
      (i < |events| &&
       (name in After(if existed then {name} else {}, events[..i + 1])) != existed &&
       forall j :: 0 <= j <= i ==> (name in After(if existed then {name} else {}, events[..j])) == existed)
  {
    var present := if existed then {name} else {};
    ChildrenWatchFires(present, events, i);
    forall j | 0 <= j <= |events|
      ensures After(present, events[..j]) == present <==> (name in After(present, events[..j])) == existed
    {
      OnlyThisName(name, present, events, j);
    }
    assert forall j :: 0 <= j < |events| ==>
      (ExistsCondition(existed, events[j]) <==> ChildrenCondition(present, events[j]));
  }

  lemma {:induction false} OnlyThisName(name: string, present: set<string>, events: seq<Event>, n: nat)
    requires n <= |events| && present <= {name}
    requires forall j :: 0 <= j < |events| ==> events[j].key == name
    ensures After(present, events[..n]) <= {name}
  {
    if n > 0 {
      OnlyThisName(name, present, events, n - 1);
      assert events[..n][..n - 1] == events[..n - 1];
    }
  }

  /** The loop over a response's events: stops at the first for which the handler's condition
      holds. */
  method ProcessEvents(condition: Event -> bool, events: seq<Event>) returns (fired: bool, i: nat)
    ensures if fired then i < |events| && condition(events[i]) && forall j :: 0 <= j < i ==> !condition(events[j])
            else forall j :: 0 <= j < |events| ==> !condition(events[j])
  {
    i := 0;
    while i < |events|
      invariant i <= |events|
      invariant forall j :: 0 <= j < i ==> !condition(events[j])
    {
      if condition(events[i]) {
        return true, i;
      }
      i := i + 1;
    }
    fired := false;
  }

  /** What the watch compares, in terms of keys: the names it saw are those of the children. */
  lemma WatchedNames(prefix: Path, k: Key, s: Store, listing: seq<string>)
    requires Lists(listing, NamesIn(s, ChildrenRange(prefix, k)))
    ensures forall j: Key :: EtcdName(prefix, j) in listing <==> j in View(prefix, s) && Parent(j) == k
  {
    ViewIs(prefix, s);
    hide View, EtcdName, ChildrenRange, InRange;
    forall j: Key
      ensures EtcdName(prefix, j) in listing <==> j in View(prefix, s) && Parent(j) == k
    {
      EtcdChildren(prefix, k, j);
    }
  }
}
