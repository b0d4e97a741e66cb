/** Listing the children of a key in Consul: a prefix scan, a filter on further slashes, and
    the client prefix stripped from what is left. */
module ConsulChildren {
  import opened Errors
  import opened Keys
  import opened Encoding
  import opened Tree
  import opened ConsulStore
  import opened Listings

  /** The stored names with a prefix: what a prefix scan asks for. */
  function NamesBelow(s: Store, below: string): set<string> {
    set n | n in s && below <= n
  }

  function Strip(rootLength: nat, name: string): string
    requires rootLength <= |name|
  {
    if rootLength != 0 then name[rootLength..] else "/" + name
  }

  lemma StripIs(rootLength: nat, name: string)
    requires rootLength <= |name|
    ensures Strip(rootLength, name) == if rootLength != 0 then name[rootLength..] else "/" + name
  {
  }

  /** What the loop over the listing collects. */
  function Collect(listing: seq<string>, below: string, rootLength: nat): seq<string>
    requires rootLength <= |below|
    requires forall i :: 0 <= i < |listing| ==> below <= listing[i]
  {
    if listing == [] then []
    else
      var last := listing[|listing| - 1];
      Collect(listing[..|listing| - 1], below, rootLength)
      + if Find(last, '/', |below|) == |last| then [Strip(rootLength, last)] else []
  }

  lemma CollectLast(listing: seq<string>, below: string, rootLength: nat)
    requires rootLength <= |below| && listing != []
    requires forall i :: 0 <= i < |listing| ==> below <= listing[i]
    ensures var last := listing[|listing| - 1];
      Collect(listing, below, rootLength) ==
      Collect(listing[..|listing| - 1], below, rootLength)
      + if Find(last, '/', |below|) == |last| then [Strip(rootLength, last)] else []
  {
  }

  /** The name has no slash after `below`, and `c` is what stripping leaves of it. */
  predicate LeftOf(name: string, below: string, rootLength: nat, c: string) {
    below <= name && rootLength <= |name| && Find(name, '/', |below|) == |name| && c == Strip(rootLength, name)
  }

  lemma {:induction false} Collected(listing: seq<string>, below: string, rootLength: nat)
    requires rootLength <= |below|
    requires forall i :: 0 <= i < |listing| ==> below <= listing[i]
    ensures forall c :: c in Collect(listing, below, rootLength) <==>
      exists i :: 0 <= i < |listing| && LeftOf(listing[i], below, rootLength, c)
  {
    hide Find, Strip;
    if listing != [] {
      var n := |listing| - 1;
      Collected(listing[..n], below, rootLength);
      CollectLast(listing, below, rootLength);
      hide Collect;
      var now, cs := Collect(listing[..n], below, rootLength), Collect(listing, below, rootLength);
      assert forall i :: 0 <= i < n ==> listing[..n][i] == listing[i];
      forall c
        ensures c in cs <==> exists i :: 0 <= i < |listing| && LeftOf(listing[i], below, rootLength, c)
      {
        assert c in cs <==> c in now || LeftOf(listing[n], below, rootLength, c);
        if c in now {
          var i :| 0 <= i < |listing[..n]| && LeftOf(listing[..n][i], below, rootLength, c);
          assert LeftOf(listing[i], below, rootLength, c);
        }
      }
    }
  }

  lemma StripInjective(a: string, b: string, below: string, rootLength: nat)
    requires rootLength <= |below| && below <= a && below <= b
    requires Strip(rootLength, a) == Strip(rootLength, b)
    ensures a == b
  {
    if rootLength == 0 {
      assert ("/" + a)[1..] == a && ("/" + b)[1..] == b;
    } else {
      assert a[..rootLength] == below[..rootLength] == b[..rootLength];
      assert a == a[..rootLength] + a[rootLength..] && b == b[..rootLength] + b[rootLength..];
    }
  }

  lemma {:induction false} CollectedOnce(listing: seq<string>, below: string, rootLength: nat)
    requires rootLength <= |below| && NoRepeats(listing)
    requires forall i :: 0 <= i < |listing| ==> below <= listing[i]
    ensures NoRepeats(Collect(listing, below, rootLength))
  {
    hide Find, Strip;
    if listing != [] {
      var n := |listing| - 1;
      var last := listing[n];
      var now := Collect(listing[..n], below, rootLength);
      CollectedOnce(listing[..n], below, rootLength);
      Collected(listing[..n], below, rootLength);
      if Strip(rootLength, last) in now {
        var i :| 0 <= i < n && LeftOf(listing[..n][i], below, rootLength, Strip(rootLength, last));
        StripInjective(listing[i], last, below, rootLength);
        assert false;
      }
    }
  }

  // ---------- which names are children ----------

  /** Below a key, one segment further down and no more, means no further slash in the name. */
  lemma ChildName(prefix: Path, k: Key, j: Key)
    ensures var n, below := ConsulName(prefix, j), ConsulName(prefix, k) + "/";
      Parent(j) == k <==> below <= n && Find(n, '/', |below|) == |n|
  {
    ConsulSubtree(prefix, k, j);
    hide ConsulName, Join, Find;
    if k < j {
      var below, segment, rest := ConsulName(prefix, k) + "/", j[|k|], Join(j[|k| + 1..]);
      NameSplit(prefix, k, j);
      NoFurtherSlash(below, segment, rest);
      assert below <= below + segment + rest;
    }
  }

  /** The name of a descendant: the ancestor's, one more segment, and the rest. */
  lemma NameSplit(prefix: Path, k: Key, j: Key)
    requires k < j
    ensures var rest := Join(j[|k| + 1..]);
      && ConsulName(prefix, j) == ConsulName(prefix, k) + "/" + j[|k|] + rest
      && (rest == "" || rest[0] == '/')
      && (rest == "" <==> Parent(j) == k)
  {
    var tail := j[|k| + 1..];
    assert prefix + j == (prefix + k) + ([j[|k|]] + tail);
    JoinConcat(prefix + k, [j[|k|]] + tail);
    JoinCons(j[|k|], tail);
    JoinStart(tail);
    JoinStart(prefix + k);
    hide Join;
    NameTail(Join(prefix + k), j[|k|], Join(tail));
  }

  lemma NameTail(a: string, segment: string, rest: string)
    requires a != ""
    ensures (a + ("/" + (segment + rest)))[1..] == a[1..] + "/" + segment + rest
  {
  }

  lemma NoFurtherSlash(below: string, segment: string, rest: string)
    requires NoSlash(segment)
    requires rest == "" || rest[0] == '/'
    ensures var n := below + segment + rest;
      Find(n, '/', |below|) == |n| <==> rest == ""
  {
    var n := below + segment + rest;
    assert forall i :: 0 <= i < |segment| ==> n[|below| + i] == segment[i];
    if rest != "" {
      assert n[|below| + |segment|] == '/';
    } else {
      assert forall i :: |below| <= i < |n| ==> n[i] == segment[i - |below|];
    }
  }

  /** Stripping the client prefix gives the string form of the key. */
  lemma StripName(prefix: Path, k: Key)
    ensures var rootLength, n := |ConsulName(prefix, [])|, ConsulName(prefix, k);
      rootLength <= |n| && Strip(rootLength, n) == Join(k)
  {
    JoinConcat(prefix, k);
    assert prefix + [] == prefix;
    JoinStart(prefix);
    JoinStart(k);
    hide Join;
    if prefix == [] {
      assert Join(prefix + k) == Join(k);
      assert Join(k) == "/" + Join(k)[1..];
    }
  }

  /** The string is what is left of a stored name directly below `k`. */
  ghost predicate ChildString(prefix: Path, k: Key, s: Store, c: string) {
    var rootLength, below := |ConsulName(prefix, [])|, ConsulName(prefix, k) + "/";
    exists n :: n in s && LeftOf(n, below, rootLength, c)
  }

  /** Every name below the client prefix is that of a key. */
  ghost predicate OnlyKeys(prefix: Path, k: Key, s: Store) {
    forall n :: n in s && ConsulName(prefix, k) + "/" <= n ==> NamesKey(prefix, n)
  }

  ghost predicate NamesKey(prefix: Path, name: string) {
    exists j: Key :: IsName(prefix, name, j)
  }

  predicate IsName(prefix: Path, name: string, j: Key) {
    name == ConsulName(prefix, j)
  }

  /** The collected strings are what is left of the names directly below `k`, each once. Among
      them, the string forms of keys are those of the keys whose parent is `k`; and there are no
      others if other programs store nothing there. */
  lemma ChildrenExact(prefix: Path, k: Key, listing: seq<string>, s: Store)
    requires Lists(listing, NamesBelow(s, ConsulName(prefix, k) + "/"))
    ensures var rootLength := |ConsulName(prefix, [])|;
      && rootLength <= |ConsulName(prefix, k) + "/"|
      && (forall i :: 0 <= i < |listing| ==> ConsulName(prefix, k) + "/" <= listing[i])
      && var cs := Collect(listing, ConsulName(prefix, k) + "/", rootLength);
      && NoRepeats(cs)
      && (forall c :: c in cs <==> ChildString(prefix, k, s, c))
      && (forall j: Key :: Join(j) in cs <==> j in View(prefix, s) && Parent(j) == k)
      && (OnlyKeys(prefix, k, s) ==> forall c :: c in cs ==> exists j: Key :: Join(j) == c)
  {
    var rootLength, below := |ConsulName(prefix, [])|, ConsulName(prefix, k) + "/";
    StripName(prefix, k);
    assert forall i :: 0 <= i < |listing| ==> listing[i] in NamesBelow(s, below);
    CollectedOnce(listing, below, rootLength);
    CollectedNames(listing, below, rootLength, s);
    var cs := Collect(listing, below, rootLength);
    hide ConsulName, Join, Find, Collect, Strip, View, Lists;
    assert forall c :: c in cs <==> ChildString(prefix, k, s, c);
    forall j: Key
      ensures Join(j) in cs <==> j in View(prefix, s) && Parent(j) == k
    {
      KeyListed(prefix, k, j, s);
    }
    if OnlyKeys(prefix, k, s) {
      forall c | c in cs
        ensures exists j: Key :: Join(j) == c
      {
        var n :| n in s && LeftOf(n, below, rootLength, c);
        assert NamesKey(prefix, n);
        KeyLeft(prefix, n);
      }
    }
  }

  /** What is left of a key's name is the key's string. */
  lemma KeyLeft(prefix: Path, n: string)
    requires NamesKey(prefix, n)
    ensures |ConsulName(prefix, [])| <= |n|
    ensures exists j: Key :: Join(j) == Strip(|ConsulName(prefix, [])|, n)
  {
    forall j: Key | IsName(prefix, n, j)
      ensures |ConsulName(prefix, [])| <= |n| && Join(j) == Strip(|ConsulName(prefix, [])|, n)
    {
      StripName(prefix, j);
    }
    hide Join, Strip, ConsulName;
  }

  lemma CollectedNames(listing: seq<string>, below: string, rootLength: nat, s: Store)
    requires rootLength <= |below| && Lists(listing, NamesBelow(s, below))
    requires forall i :: 0 <= i < |listing| ==> below <= listing[i]
    ensures forall c :: c in Collect(listing, below, rootLength) <==>
      exists n :: n in s && LeftOf(n, below, rootLength, c)
  {
    Collected(listing, below, rootLength);
    var cs := Collect(listing, below, rootLength);
    hide Find, Strip, Collect;
    forall c
      ensures c in cs <==> exists n :: n in s && LeftOf(n, below, rootLength, c)
    {
      if c in cs {
        var i :| 0 <= i < |listing| && LeftOf(listing[i], below, rootLength, c);
        assert listing[i] in NamesBelow(s, below);
      }
      if n :| n in s && LeftOf(n, below, rootLength, c) {
        assert n in NamesBelow(s, below);
        assert n in listing;
      }
    }
  }

  /** A key's string is left of a name directly below `k` exactly if it is a child of `k`. */
  lemma KeyListed(prefix: Path, k: Key, j: Key, s: Store)
    ensures ChildString(prefix, k, s, Join(j)) <==> j in View(prefix, s) && Parent(j) == k
  {
    var rootLength, below, n := |ConsulName(prefix, [])|, ConsulName(prefix, k) + "/", ConsulName(prefix, j);
    ViewIs(prefix, s);
    StripName(prefix, j);
    StripName(prefix, k);
    ChildName(prefix, k, j);
    hide ConsulName, Join, Find, Strip, View;
    if ChildString(prefix, k, s, Join(j)) {
      var name :| name in s && LeftOf(name, below, rootLength, Join(j));
      assert below <= n by { StripPrefix(prefix, k, j, name); }
      StripInjective(name, n, below, rootLength);
    }
    assert n in s && Parent(j) == k ==> LeftOf(n, below, rootLength, Join(j));
  }

  lemma StripPrefix(prefix: Path, k: Key, j: Key, name: string)
    requires ConsulName(prefix, k) + "/" <= name
    requires |ConsulName(prefix, [])| <= |name|
    requires Join(j) == Strip(|ConsulName(prefix, [])|, name)
    ensures ConsulName(prefix, k) + "/" <= ConsulName(prefix, j)
  {
    StripName(prefix, j);
    var rootLength, below, n := |ConsulName(prefix, [])|, ConsulName(prefix, k) + "/", ConsulName(prefix, j);
    StripName(prefix, k);
    SharedRoot(prefix, k, j);
    hide *;
    SameRest(rootLength, below, name, n);
  }

  lemma RootThen(root: string, rest: string)
    ensures root != "" ==> (root + rest)[1..] == root[1..] + rest && (root + rest)[1..][..|root| - 1] == root[1..]
  {
  }

  lemma SharedRoot(prefix: Path, k: Key, j: Key)
    ensures var rootLength := |ConsulName(prefix, [])|;
      && rootLength <= |ConsulName(prefix, k)| && rootLength <= |ConsulName(prefix, j)|
      && ConsulName(prefix, k)[..rootLength] == ConsulName(prefix, j)[..rootLength]
  {
    JoinConcat(prefix, k);
    JoinConcat(prefix, j);
    assert prefix + [] == prefix;
    JoinStart(prefix);
    JoinStart(k);
    JoinStart(j);
    hide Join;
    RootThen(Join(prefix), Join(k));
    RootThen(Join(prefix), Join(j));
  }

  lemma SameRest(rootLength: nat, below: string, name: string, n: string)
    requires rootLength <= |below| && below <= name && rootLength <= |n|
    requires below[..rootLength] == n[..rootLength]
    requires Strip(rootLength, name) == Strip(rootLength, n)
    ensures below <= n
  {
    if rootLength == 0 {
      assert ("/" + name)[1..] == name && ("/" + n)[1..] == n;
    } else {
      assert name[..rootLength] == below[..rootLength];
      assert name == name[..rootLength] + name[rootLength..];
      assert n == n[..rootLength] + n[rootLength..];
    }
  }
}
