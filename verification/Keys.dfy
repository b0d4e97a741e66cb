/** Path names: the string form "/a/b" that callers and services use, and the list of
    segments it stands for. */
module Keys {
  import opened Errors

  // ---------- segments ----------

  predicate NoSlash(s: string) {
    forall i :: 0 <= i < |s| ==> s[i] != '/'
  }

  /** A segment the library accepts: printable ASCII, not empty and not reserved. */
  predicate ValidSegment(s: string) {
    && (forall i :: 0 <= i < |s| ==> ' ' <= s[i] <= '~')
    && s != "" && s != "." && s != ".." && s != "zookeeper"
  }

  predicate AllNoSlash(p: seq<string>) {
    forall i :: 0 <= i < |p| ==> NoSlash(p[i])
  }

  predicate ValidPath(p: seq<string>) {
    forall i :: 0 <= i < |p| ==> ValidSegment(p[i]) && NoSlash(p[i])
  }

  /** A validated path, as its segments; [] is the root. */
  type Path = p: seq<string> | ValidPath(p) witness []

  /** A validated path other than the root. */
  type Key = p: seq<string> | ValidPath(p) && p != [] witness ["a"]

  function Parent(k: seq<string>): (p: seq<string>)
    requires k != []
    ensures ValidPath(k) ==> ValidPath(p)
  {
    k[..|k| - 1]
  }

  // ---------- searching a string ----------

  /** std::find from position `from`: the first `c` there, or the end. */
  function Find(s: string, c: char, from: nat): (r: nat)
    requires from <= |s|
    ensures from <= r <= |s|
    ensures forall i :: from <= i < r ==> s[i] != c
    ensures r < |s| ==> s[r] == c
    decreases |s| - from
  {
    if from == |s| || s[from] == c then from else Find(s, c, from + 1)
  }

  /** std::string::rfind of a character that occurs. */
  function RFind(s: string, c: char): (r: nat)
    requires c in s
    ensures r < |s| && s[r] == c
    ensures forall i :: r < i < |s| ==> s[i] != c
  {
    if s[|s| - 1] == c then |s| - 1 else RFind(s[..|s| - 1], c)
  }

  // ---------- joining and splitting ----------

  /** The string form: every segment preceded by a slash. */
  function Join(p: seq<string>): string {
    if p == [] then "" else "/" + p[0] + Join(p[1..])
  }

  function Split(s: string): (p: seq<string>)
    ensures AllNoSlash(p) && p != []
    decreases |s|
  {
    var i := Find(s, '/', 0);
    if i == |s| then [s] else [s[..i]] + Split(s[i + 1..])
  }

  function SplitPath(path: string): Result<seq<string>> {
    if path == "" then Ok([])
    else if path[0] != '/' then Err(InvalidKey)
    else Ok(Split(path[1..]))
  }

  /** `Path::segments`: the loop that cuts the string at every slash. */
  method Segments(path: string) returns (r: Result<seq<string>>)
    ensures r == SplitPath(path)
  {
    if path == "" {
      return Ok([]);
    }
    if path[0] != '/' {
      return Err(InvalidKey);
    }
    var result: seq<string> := [];
    var it := 0;
    while true
      invariant 0 <= it < |path|
      invariant CutSoFar(path, it, result)
      decreases |path| - it
    {
      hide CutSoFar, Split;
      CutOneMore(path, it, result);
      it := it + 1;
      var segmentEnd := Find(path, '/', it);
      result := result + [path[it..segmentEnd]];
      if segmentEnd == |path| {
        return Ok(result);
      }
      it := segmentEnd;
    }
  }

  /** The segments found so far and those in the rest of the string make up the whole. */
  ghost predicate CutSoFar(path: string, it: nat, result: seq<string>)
    requires it < |path|
  {
    result + Split(path[it + 1..]) == Split(path[1..])
  }

  lemma CutOneMore(path: string, it: nat, result: seq<string>)
    requires it < |path| && CutSoFar(path, it, result)
    ensures var end := Find(path, '/', it + 1);
      var more := result + [path[it + 1..end]];
      if end == |path| then more == Split(path[1..]) else CutSoFar(path, end, more)
  {
    hide Split, Find;
    SplitStep(path, it + 1);
  }

  lemma FindShift(s: string, c: char, from: nat)
    requires from <= |s|
    ensures Find(s[from..], c, 0) == Find(s, c, from) - from
  {
    var t, b := s[from..], Find(s, c, from) - from;
    assert forall i :: 0 <= i < |t| ==> t[i] == s[from + i];
    assert forall i :: 0 <= i < b ==> t[i] != c;
    assert b < |t| ==> t[b] == c;
  }

  lemma SplitOnce(s: string)
    ensures var i := Find(s, '/', 0);
      Split(s) == if i == |s| then [s] else [s[..i]] + Split(s[i + 1..])
  {
    hide Find;
  }

  lemma SplitStep(s: string, from: nat)
    requires from <= |s|
    ensures var end := Find(s, '/', from);
      Split(s[from..]) == [s[from..end]] + if end == |s| then [] else Split(s[end + 1..])
  {
    hide Find, Split;
    var t, end := s[from..], Find(s, '/', from);
    FindShift(s, '/', from);
    SplitOnce(t);
    assert t[..end - from] == s[from..end];
    if end == |s| {
      assert t == s[from..end];
    } else {
      assert t[end - from + 1..] == s[end + 1..];
    }
  }

  /** A cut at the first slash is unique: two slash-free heads whose tails start with a slash. */
  lemma CutPrefix(x: string, u: string, y: string, v: string)
    requires NoSlash(x) && NoSlash(y)
    requires u != "" && u[0] == '/'
    requires v == "" || v[0] == '/'
    ensures x + u <= y + v <==> x == y && u <= v
  {
    var l, r := x + u, y + v;
    assert l[|x|] == '/';
    assert forall i :: 0 <= i < |x| ==> l[i] == x[i] != '/';
    assert forall i :: 0 <= i < |y| ==> r[i] == y[i] != '/';
    assert v != "" ==> r[|y|] == '/';
    if l <= r {
      assert r[|x|] == '/';
      assert |x| == |y|;
      assert x == l[..|x|] == r[..|x|] == y;
      assert u == l[|x|..] <= r[|x|..] == v;
    }
  }

  lemma JoinEmpty()
    ensures Join([]) == ""
  {
  }

  lemma JoinCons(x: string, a: seq<string>)
    ensures Join([x] + a) == "/" + (x + Join(a))
  {
    assert ([x] + a)[1..] == a;
  }

  lemma JoinConcat(a: seq<string>, b: seq<string>)
    ensures Join(a + b) == Join(a) + Join(b)
  {
    hide Join;
    JoinEmpty();
    if a == [] {
      assert a + b == b;
      assert "" + Join(b) == Join(b);
    } else {
      JoinConcat(a[1..], b);
      assert a + b == [a[0]] + (a[1..] + b);
      assert a == [a[0]] + a[1..];
      JoinCons(a[0], a[1..] + b);
      JoinCons(a[0], a[1..]);
      assert "/" + (a[0] + (Join(a[1..]) + Join(b))) == "/" + (a[0] + Join(a[1..])) + Join(b);
    }
  }

  lemma JoinSnoc(a: seq<string>, x: string)
    ensures Join(a + [x]) == Join(a) + "/" + x
  {
    hide Join;
    JoinEmpty();
    JoinConcat(a, [x]);
    JoinCons(x, []);
    assert [x] + [] == [x];
    assert Join(a) + ("/" + (x + "")) == Join(a) + "/" + x;
  }

  /** Splitting undoes joining, for any slash-free segments. */
  lemma {:induction false} SplitJoin(p: seq<string>)
    requires AllNoSlash(p) && p != []
    ensures Split(Join(p)[1..]) == p
  {
    hide Join, Split;
    var rest := Join(p[1..]);
    assert p == [p[0]] + p[1..];
    JoinCons(p[0], p[1..]);
    assert Join(p)[1..] == p[0] + rest;
    JoinStart(p[1..]);
    if |p| == 1 {
      SplitWhole(p[0]);
      assert p[1..] == [] && p[0] + rest == p[0];
    } else {
      SplitJoin(p[1..]);
      SplitHead(p[0], rest);
    }
  }

  lemma JoinStart(a: seq<string>)
    ensures if a == [] then Join(a) == "" else Join(a) != "" && Join(a)[0] == '/'
  {
  }

  lemma SplitWhole(s: string)
    requires NoSlash(s)
    ensures Split(s) == [s]
  {
  }

  lemma SplitHead(head: string, rest: string)
    requires NoSlash(head)
    requires rest != "" && rest[0] == '/'
    ensures Split(head + rest) == [head] + Split(rest[1..])
  {
    hide Join;
    var s := head + rest;
    assert Find(s, '/', 0) == |head| by {
      assert s[|head|] == '/';
      assert forall i :: 0 <= i < |head| ==> s[i] == head[i];
    }
    hide Find, Split;
    SplitOnce(s);
    assert s[..|head|] == head && s[|head| + 1..] == rest[1..];
  }

  /** Joining undoes splitting, for any string. */
  lemma {:induction false} JoinSplit(s: string)
    ensures Join(Split(s)) == "/" + s
    decreases |s|
  {
    hide Find, Split, Join;
    SplitOnce(s);
    var i := Find(s, '/', 0);
    if i < |s| {
      JoinSplit(s[i + 1..]);
      JoinCons(s[..i], Split(s[i + 1..]));
      assert s[..i] + ("/" + s[i + 1..]) == s;
    } else {
      JoinCons(s, []);
      JoinEmpty();
      assert [s] + [] == [s];
      assert s + "" == s;
    }
  }

  // ---------- validating constructors ----------

  /** `validate_segment_`. */
  method ValidateSegment(s: string) returns (ok: bool)
    ensures ok == ValidSegment(s)
    ensures ok <==>
      && s != "" && s != "." && s != ".." && s != "zookeeper"
      && forall i :: 0 <= i < |s| ==> 0x1F < s[i] as int < 0x7F
  {
    for i := 0 to |s|
      invariant forall j :: 0 <= j < i ==> ' ' <= s[j] <= '~'
    {
      if s[i] <= '\U{1F}' || s[i] >= '\U{7F}' {
        return false;
      }
    }
    return s != "" && s != "." && s != ".." && s != "zookeeper";
  }

  /** What constructing a `Path` from a string yields. */
  function Parse(s: string): Result<seq<string>> {
    match SplitPath(s)
    case Err(e) => Err(e)
    case Ok(segments) =>
      if forall i :: 0 <= i < |segments| ==> ValidSegment(segments[i]) then Ok(segments) else Err(InvalidKey)
  }

  /** The validating constructor of `Path`. */
  method MakePath(s: string) returns (r: Result<seq<string>>)
    ensures r == Parse(s)
  {
    r := Segments(s);
    if r.Ok? {
      for i := 0 to |r.value|
        invariant forall j :: 0 <= j < i ==> ValidSegment(r.value[j])
      {
        var ok := ValidateSegment(r.value[i]);
        if !ok {
          return Err(InvalidKey);
        }
      }
    }
  }

  /** The validating constructor of `Key`: the root is refused as well. */
  method MakeKey(s: string) returns (r: Result<seq<string>>)
    ensures r == if s == "" then Err(InvalidKey) else Parse(s)
    ensures r.Ok? ==> ValidPath(r.value) && r.value != [] && Join(r.value) == s
  {
    r := MakePath(s);
    if s == "" {
      return Err(InvalidKey);
    }
    ParseExactly(s);
  }

  /** A string is accepted exactly when it is the string form of a validated path,
      and then it denotes that path and no other. */
  lemma ParseExactly(s: string)
    ensures forall p: seq<string> :: Parse(s) == Ok(p) <==> ValidPath(p) && s == Join(p)
  {
    forall p: seq<string>
      ensures Parse(s) == Ok(p) <==> ValidPath(p) && s == Join(p)
    {
      if Parse(s) == Ok(p) {
        if s != "" {
          JoinSplit(s[1..]);
          assert s == "/" + s[1..];
        }
      } else if ValidPath(p) && s == Join(p) {
        if p != [] {
          SplitJoin(p);
        }
        assert false;
      }
    }
  }

  lemma JoinInjective(a: seq<string>, b: seq<string>)
    requires AllNoSlash(a) && AllNoSlash(b)
    requires Join(a) == Join(b)
    ensures a == b
  {
    if a != [] && b != [] {
      SplitJoin(a);
      SplitJoin(b);
    }
  }

  // ---------- parent and concatenation on strings ----------

  /** `Path::parent` on a path other than the root: cut at the last slash. */
  function ParentString(s: string): string
    requires '/' in s
  {
    s[..RFind(s, '/')]
  }

  lemma CutAtLastSlash(k: seq<string>)
    requires AllNoSlash(k) && k != []
    ensures '/' in Join(k) && RFind(Join(k), '/') == |Join(Parent(k))|
    ensures ParentString(Join(k)) == Join(Parent(k))
  {
    var last := k[|k| - 1];
    assert k == Parent(k) + [last];
    JoinSnoc(Parent(k), last);
    var s, cut := Join(k), |Join(Parent(k))|;
    assert s[cut] == '/';
    assert forall i :: cut < i < |s| ==> s[i] == last[i - cut - 1];
    assert s[..cut] == Join(Parent(k));
  }

  /** Cutting the string form at its last slash drops the last segment and stays valid. */
  lemma ParentOfString(k: Key)
    ensures '/' in Join(k) && ParentString(Join(k)) == Join(Parent(k))
    ensures Parse(ParentString(Join(k))) == Ok(Parent(k))
  {
    CutAtLastSlash(k);
    ParseExactly(Join(Parent(k)));
  }

  /** Concatenating string forms appends the segment lists and stays valid. */
  lemma ConcatOfStrings(a: Path, b: Path)
    ensures Parse(Join(a) + Join(b)) == Ok(a + b)
  {
    JoinConcat(a, b);
    ParseExactly(Join(a + b));
  }

  // ---------- above and below ----------

  predicate Related(a: seq<string>, b: seq<string>) {
    a <= b || b <= a
  }

  lemma BothAbove(a: seq<string>, b: seq<string>, j: seq<string>)
    ensures a <= j && b <= j ==> Related(a, b)
  {
    if a <= j && b <= j {
      if |a| <= |b| {
        assert a == j[..|a|] == b[..|a|];
      } else {
        assert b == j[..|b|] == a[..|b|];
      }
    }
  }
}
