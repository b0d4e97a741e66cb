/** How a key becomes the name a service stores it under, and why ranges and prefixes of
    those names are exactly subtrees and lists of children. */
module Encoding {
  import opened Errors
  import opened Keys

  // ---------- string prefixes and segment prefixes ----------

  lemma PrependPrefix<T>(x: seq<T>, s: seq<T>, t: seq<T>)
    ensures x + s <= x + t <==> s <= t
    ensures x + s < x + t <==> s < t
    ensures x + s == x + t <==> s == t
  {
    var u, v := x + s, x + t;
    assert u[|x|..] == s && v[|x|..] == t;
    if |s| <= |t| {
      assert v[..|u|] == x + t[..|s|];
      assert v[..|u|][|x|..] == t[..|s|];
    }
  }

  /** Below `a` in the string order of names means below `a` in the tree. */
  lemma {:induction false} JoinPrefix(a: seq<string>, b: seq<string>)
    requires AllNoSlash(a) && AllNoSlash(b)
    ensures Join(a) + "/" <= Join(b) <==> a < b
  {
    if a != [] && b != [] {
      JoinPrefix(a[1..], b[1..]);
      JoinPrefixCons(a[0], a[1..], b[0], b[1..]);
      assert a == [a[0]] + a[1..] && b == [b[0]] + b[1..];
    } else if b != [] {
      assert Join(b)[0] == '/';
    }
  }

  lemma JoinPrefixCons(x: string, a: seq<string>, y: string, b: seq<string>)
    requires NoSlash(x) && NoSlash(y)
    requires Join(a) + "/" <= Join(b) <==> a < b
    ensures Join([x] + a) + "/" <= Join([y] + b) <==> [x] + a < [y] + b
  {
    hide Join;
    var u, v := Join(a) + "/", Join(b);
    assert u[0] == '/' by { JoinStart(a); }
    JoinStart(b);
    CutPrefix(x, u, y, v);
    JoinCons(x, a);
    JoinCons(y, b);
    assert Join([x] + a) + "/" == "/" + (x + u);
    PrependPrefix("/", x + u, y + v);
    if x == y {
      PrependPrefix([x], a, b);
    } else {
      assert ([x] + a)[0] == x && ([y] + b)[0] == y;
    }
  }

  // ---------- Consul ----------

  /** Consul names carry no leading slash. */
  function ConsulName(prefix: seq<string>, path: seq<string>): (name: string)
  {
    var s := Join(prefix + path);
    if s == "" then "" else s[1..]
  }

  /** `as_path_string_` of the Consul client: segments put together with slashes between. */
  method ConsulPathString(prefix: Path, path: Path) returns (result: string)
    ensures result == ConsulName(prefix, path)
  {
    var segments := prefix + path;
    result := "";
    for i := 0 to |segments|
      invariant result == if i == 0 then "" else Join(segments[..i])[1..]
      invariant 0 < i ==> result != ""
    {
      ghost var before := Join(segments[..i]);
      JoinSnoc(segments[..i], segments[i]);
      assert segments[..i + 1] == segments[..i] + [segments[i]];
      if result != "" {
        result := result + "/";
        assert result == (before + "/")[1..];
      }
      result := result + segments[i];
    }
    assert segments[..|segments|] == segments;
  }

  /** The name is the client prefix and the path put together, without the leading slash. */
  lemma ConsulNameIs(prefix: Path, path: Path)
    ensures if prefix == [] && path == [] then ConsulName(prefix, path) == ""
            else "/" + ConsulName(prefix, path) == Join(prefix) + Join(path)
  {
    JoinConcat(prefix, path);
    JoinStart(prefix + path);
    hide Join;
  }

  /** Two clients mean the same name only if prefix and key together are the same: keys under
      different prefixes have different names unless one prefix continues the other. */
  lemma ConsulNameDetermines(p: Path, a: Key, q: Path, b: Key)
    ensures ConsulName(p, a) == ConsulName(q, b) <==> p + a == q + b
  {
    ConsulNameIs(p, a);
    ConsulNameIs(q, b);
    JoinConcat(p, a);
    JoinConcat(q, b);
    hide Join, ConsulName;
    assert ConsulName(p, a) == ("/" + ConsulName(p, a))[1..] && ConsulName(q, b) == ("/" + ConsulName(q, b))[1..];
    if Join(p + a) == Join(q + b) {
      JoinInjective(p + a, q + b);
    }
  }

  lemma ConsulInjective(prefix: Path, a: Key, b: Key)
    requires ConsulName(prefix, a) == ConsulName(prefix, b)
    ensures a == b
  {
    assert Join(prefix + a) == "/" + ConsulName(prefix, a);
    assert Join(prefix + b) == "/" + ConsulName(prefix, b);
    JoinInjective(prefix + a, prefix + b);
    assert (prefix + a)[|prefix|..] == a && (prefix + b)[|prefix|..] == b;
  }

  /** The prefix "name/" picks out the strict descendants and nothing else. */
  lemma ConsulSubtree(prefix: Path, a: Key, b: Key)
    ensures ConsulName(prefix, a) + "/" <= ConsulName(prefix, b) <==> a < b
    ensures ConsulName(prefix, a) + "/" != ConsulName(prefix, a)
  {
    var s, t := ConsulName(prefix, a) + "/", ConsulName(prefix, b);
    assert Join(prefix + a) + "/" == "/" + s;
    assert Join(prefix + b) == "/" + t;
    PrependPrefix("/", s, t);
    JoinPrefix(prefix + a, prefix + b);
    PrependPrefix(prefix, a, b);
  }

  // ---------- etcd ----------

  /** The segments of an etcd name: a NUL marks the last one. */
  function MarkLast(k: seq<string>): (r: seq<string>)
    requires k != []
    ensures |r| == |k| && Parent(r) == Parent(k)
    ensures ValidPath(k) ==> AllNoSlash(r)
  {
    var marked := "\0" + k[|k| - 1];
    assert ValidPath(k) ==> NoSlash(marked);
    Parent(k) + [marked]
  }

  function EtcdName(prefix: seq<string>, path: seq<string>): string {
    if path == [] then Join(prefix) else Join(prefix + MarkLast(path))
  }

  /** `as_path_string_` of the etcd client. */
  method EtcdPathString(prefix: Path, path: Path) returns (result: string)
    ensures result == EtcdName(prefix, path)
  {
    result := Join(prefix);
    if path == [] {
      return;
    }
    hide *;
    assert prefix + path[..0] == prefix;
    for i := 0 to |path| - 1
      invariant result == Join(prefix + path[..i])
    {
      JoinOneMore(prefix, path, i);
      result := result + "/" + path[i];
    }
    MarkedKey(prefix, path);
    result := result + "/\0" + path[|path| - 1];
  }

  lemma JoinOneMore(prefix: seq<string>, path: seq<string>, i: nat)
    requires i < |path|
    ensures Join(prefix + path[..i + 1]) == Join(prefix + path[..i]) + "/" + path[i]
  {
    hide *;
    JoinSnoc(prefix + path[..i], path[i]);
    assert prefix + path[..i + 1] == prefix + path[..i] + [path[i]];
  }

  lemma MarkedKey(prefix: Path, k: Key)
    ensures AllNoSlash(prefix + MarkLast(k))
    ensures EtcdName(prefix, k) == Join(prefix + Parent(k)) + "/\0" + k[|k| - 1]
  {
    hide Join;
    var marked := "\0" + k[|k| - 1];
    assert prefix + MarkLast(k) == prefix + Parent(k) + [marked];
    JoinSnoc(prefix + Parent(k), marked);
    assert Join(prefix + Parent(k)) + "/" + marked == Join(prefix + Parent(k)) + "/\0" + k[|k| - 1];
  }

  /** The name is the client prefix, the path of the parent, and the last segment with the mark. */
  lemma EtcdNameIs(prefix: Path, path: Path)
    ensures EtcdName(prefix, path) ==
      Join(prefix) + if path == [] then "" else Join(Parent(path)) + "/\0" + path[|path| - 1]
  {
    hide Join, MarkLast;
    if path == [] {
      assert Join(prefix) + "" == Join(prefix);
    } else {
      MarkedKey(prefix, path);
      JoinConcat(prefix, Parent(path));
      PutTogether(Join(prefix), Join(Parent(path)), path[|path| - 1]);
    }
  }

  lemma PutTogether(p: string, q: string, x: string)
    ensures (p + q) + "/\0" + x == p + (q + "/\0" + x)
  {
  }

  /** The name determines the key, and depends on prefix and key only through their
      concatenation. */
  lemma EtcdInjective(prefix: Path, a: Key, b: Key)
    ensures EtcdName(prefix, a) == EtcdName(prefix, b) ==> a == b
    ensures EtcdName(prefix, a) == EtcdName([], prefix + a)
  {
    hide Join;
    assert Parent(prefix + a) == prefix + Parent(a);
    assert [] + MarkLast(prefix + a) == prefix + MarkLast(a);
    MarkedKey(prefix, a);
    MarkedKey(prefix, b);
    if EtcdName(prefix, a) == EtcdName(prefix, b) {
      JoinInjective(prefix + MarkLast(a), prefix + MarkLast(b));
      PrependPrefix(prefix, MarkLast(a), MarkLast(b));
      MarkInjective(a, b);
    }
  }

  /** Two clients mean the same name only if prefix and key together are the same. */
  lemma EtcdNameDetermines(p: Path, a: Key, q: Path, b: Key)
    ensures EtcdName(p, a) == EtcdName(q, b) <==> p + a == q + b
  {
    EtcdInjective(p, a, a);
    EtcdInjective(q, b, b);
    EtcdInjective([], p + a, q + b);
  }

  lemma MarkInjective(a: Key, b: Key)
    requires MarkLast(a) == MarkLast(b)
    ensures a == b
  {
    var x, y := MarkLast(a)[|a| - 1], MarkLast(b)[|b| - 1];
    assert x[1..] == a[|a| - 1] && y[1..] == b[|b| - 1];
    assert a == Parent(a) + [x[1..]] && b == Parent(b) + [y[1..]];
  }

  /** Bytewise lexicographic order, by which etcd sorts its keys. */
  predicate LexLess(a: string, b: string) {
    b != "" && (a == "" || a[0] < b[0] || (a[0] == b[0] && LexLess(a[1..], b[1..])))
  }

  /** Membership in the half-open range an etcd request names. */
  predicate InRange(s: string, lo: string, hi: string) {
    !LexLess(s, lo) && LexLess(s, hi)
  }

  /** A range that ends at the successor of its last byte is a prefix scan. */
  lemma {:induction false} RangeIsPrefix(s: string, p: string, c: char, next: char)
    requires next as int == c as int + 1
    ensures InRange(s, p + [c], p + [next]) <==> p + [c] <= s
  {
    if p == "" {
      assert p + [c] == [c] && p + [next] == [next];
      assert s != "" ==> ([c] <= s <==> s[0] == c);
      assert s != "" ==> !LexLess(s[1..], []);
      assert s != "" ==> (LexLess(s, [c]) <==> s[0] < c);
      assert s != "" ==> (LexLess(s, [next]) <==> s[0] < next);
    } else {
      assert (p + [c])[1..] == p[1..] + [c] && (p + [next])[1..] == p[1..] + [next];
      if s != "" {
        RangeIsPrefix(s[1..], p[1..], c, next);
        assert p + [c] <= s <==> p[0] == s[0] && p[1..] + [c] <= s[1..] by {
          assert p + [c] == [p[0]] + (p[1..] + [c]);
          assert s == [s[0]] + s[1..];
        }
      }
    }
  }

  /** `make_subtree_range_`. */
  function SubtreeRange(prefix: seq<string>, root: seq<string>): (string, string) {
    var path := Join(prefix + root);
    (path + "/", path + "0")
  }

  /** `make_direct_children_range_`. */
  function ChildrenRange(prefix: seq<string>, root: seq<string>): (string, string) {
    var path := Join(prefix + root);
    (path + "/\0", path + "/\U{1}")
  }

  /** The subtree range holds the strict descendants of the root and nothing else. */
  lemma EtcdSubtree(prefix: Path, root: Path, k: Key)
    ensures var (lo, hi) := SubtreeRange(prefix, root);
      InRange(EtcdName(prefix, k), lo, hi) <==> root < k
  {
    var name := EtcdName(prefix, k);
    RangeIsPrefix(name, Join(prefix + root), '/', '0');
    MarkedKey(prefix, k);
    JoinPrefix(prefix + root, prefix + MarkLast(k));
    PrependPrefix(prefix, root, MarkLast(k));
    if |root| < |k| {
      assert MarkLast(k)[..|root|] == k[..|root|];
    }
  }

  /** The children range holds the keys whose parent is the root and nothing else. */
  lemma EtcdChildren(prefix: Path, root: Path, k: Key)
    ensures var (lo, hi) := ChildrenRange(prefix, root);
      InRange(EtcdName(prefix, k), lo, hi) <==> Parent(k) == root
  {
    var name, path := EtcdName(prefix, k), Join(prefix + root);
    RangeIsPrefix(name, path + "/", '\0', '\U{1}');
    assert path + "/\0" == path + "/" + ['\0'] && path + "/\U{1}" == path + "/" + ['\U{1}'];
    if root < k {
      NameBelow(prefix, root, k);
      var tail := MarkLast(k)[|root|..];
      PrependPrefix(path, "/\0", Join(tail));
      assert Join(tail)[1] == tail[0][0];
      assert Parent(k) == root <==> |root| == |k| - 1;
    } else {
      EtcdSubtree(prefix, root, k);
      RangeIsPrefix(name, path, '/', '0');
      assert path + "/" <= path + "/\0";
    }
  }

  lemma NameBelow(prefix: Path, root: Path, k: Key)
    requires root < k
    ensures var tail := MarkLast(k)[|root|..];
      && EtcdName(prefix, k) == Join(prefix + root) + Join(tail)
      && tail != [] && tail[0] != ""
      && Join(tail) == "/" + tail[0] + Join(tail[1..])
      && (tail[0][0] == '\0' <==> |root| == |k| - 1)
  {
    var tail := MarkLast(k)[|root|..];
    assert prefix + MarkLast(k) == (prefix + root) + tail;
    JoinConcat(prefix + root, tail);
    if |root| < |k| - 1 {
      assert tail[0] == k[|root|];
    }
  }

  /** `unwrap_key_`: strip the client prefix and the mark. */
  function Unwrap(prefix: seq<string>, full: string): string
    requires '/' in full
    requires |Join(prefix)| <= RFind(full, '/') < |full| - 1
  {
    var pos := RFind(full, '/');
    full[|Join(prefix)|..pos + 1] + full[pos + 2..]
  }

  /** Unwrapping a stored name gives back the string form of its key. */
  lemma UnwrapName(prefix: Path, k: Key)
    ensures var full := EtcdName(prefix, k);
      && '/' in full
      && |Join(prefix)| <= RFind(full, '/') < |full| - 1
      && Unwrap(prefix, full) == Join(k)
  {
    hide Join, EtcdName, Unwrap, RFind, MarkLast, ValidSegment;
    var p, q, last := Join(prefix), Join(Parent(k)), k[|k| - 1];
    ParentThenLast(k);
    MarkedKey(prefix, k);
    JoinConcat(prefix, Parent(k));
    assert EtcdName(prefix, k) == p + q + "/\0" + last;
    UnwrapString(p, q, last);
    UnwrapIs(prefix, p + q + "/\0" + last);
    JoinSnoc(Parent(k), last);
  }

  lemma UnwrapIs(prefix: Path, full: string)
    requires '/' in full && |Join(prefix)| <= RFind(full, '/') < |full| - 1
    ensures var pos := RFind(full, '/'); Unwrap(prefix, full) == full[|Join(prefix)|..pos + 1] + full[pos + 2..]
  {
    hide Join, RFind;
  }

  lemma ParentThenLast(k: Key)
    ensures k == Parent(k) + [k[|k| - 1]] && NoSlash(k[|k| - 1])
  {
  }

  lemma UnwrapString(p: string, q: string, last: string)
    requires NoSlash(last)
    ensures var full := p + q + "/\0" + last;
      && '/' in full && RFind(full, '/') == |p + q|
      && full[|p|..|p + q| + 1] + full[|p + q| + 2..] == q + "/" + last
  {
    var full, pos := p + q + "/\0" + last, |p + q|;
    assert full[pos] == '/';
    assert forall i :: pos + 1 < i < |full| ==> full[i] == last[i - pos - 2];
    assert full[|p|..pos + 1] == q + "/";
    assert full[pos + 2..] == last;
  }

  // ---------- unwrapping any name with the mark ----------

  /** Names in the children range start with the parent's string, a slash and the mark. */
  lemma ChildrenMarked(prefix: Path, k: Path, n: string)
    ensures var (lo, hi) := ChildrenRange(prefix, k); InRange(n, lo, hi) <==> Join(prefix + k) + "/\0" <= n
  {
    hide Join;
    var path := Join(prefix + k);
    RangeIsPrefix(n, path + "/", '\0', '\U{1}');
    assert path + "/\0" == path + "/" + ['\0'] && path + "/\U{1}" == path + "/" + ['\U{1}'];
  }

  /** `unwrap_key_` can cut such a name unless it ends in a slash. */
  lemma UnwrapDefined(prefix: Path, k: Path, n: string)
    requires Join(prefix + k) + "/\0" <= n && n[|n| - 1] != '/'
    ensures '/' in n && |Join(prefix)| <= |Join(prefix + k)| <= RFind(n, '/') < |n| - 1
    ensures RFind(n, '/') != |Join(prefix + k)| + 1
  {
    JoinConcat(prefix, k);
    hide Join;
    var p := Join(prefix + k);
    assert n[|p|] == (p + "/\0")[|p|] == '/';
    assert n[|p| + 1] == (p + "/\0")[|p| + 1] == '\0';
  }

  /** What unwrapping leaves is a key's string only if the name is that key's, and the key a child:
      with a further slash in the name, the mark stays in the string. */
  lemma UnwrapsToKey(prefix: Path, k: Path, n: string, j: Key)
    requires Join(prefix + k) + "/\0" <= n && n[|n| - 1] != '/'
    ensures '/' in n && |Join(prefix)| <= RFind(n, '/') < |n| - 1
    ensures Unwrap(prefix, n) == Join(j) <==> Parent(j) == k && n == EtcdName(prefix, j)
  {
    hide *;
    UnwrapDefined(prefix, k, n);
    UnwrapName(prefix, j);
    if RFind(n, '/') == |Join(prefix + k)| {
      UnwrapNear(prefix, k, n, j);
    } else {
      UnwrapFar(prefix, k, n, j);
    }
  }

  /** The last slash is the one before the mark. */
  lemma UnwrapNear(prefix: Path, k: Path, n: string, j: Key)
    requires Join(prefix + k) + "/\0" <= n
    requires '/' in n && |Join(prefix)| <= RFind(n, '/') == |Join(prefix + k)| < |n| - 1
    ensures Unwrap(prefix, n) == Join(j) ==> Parent(j) == k && n == EtcdName(prefix, j)
  {
    hide Join, EtcdName, Unwrap, RFind, MarkLast, Parent;
    var p := Join(prefix + k);
    var x := n[|p| + 2..];
    JoinConcat(prefix, k);
    assert n[..|p| + 2] == p + "/\0";
    UnwrapIs(prefix, n);
    UnwrapPlain(Join(prefix), Join(k), n, x);
    JoinSnoc(k, x);
    assert NoSlash(x) by {
      assert forall i :: 0 <= i < |x| ==> x[i] == n[|p| + 2 + i];
    }
    if Unwrap(prefix, n) == Join(j) {
      JoinInjective(j, k + [x]);
      NearIs(prefix, k, n, x, j);
    }
  }

  lemma NearIs(prefix: Path, k: Path, n: string, x: string, j: Key)
    requires j == k + [x] && |n| >= |Join(prefix + k)| + 2
    requires n[..|Join(prefix + k)| + 2] == Join(prefix + k) + "/\0" && x == n[|Join(prefix + k)| + 2..]
    ensures Parent(j) == k && n == EtcdName(prefix, j)
  {
    hide Join, EtcdName;
    MarkedKey(prefix, j);
  }

  /** There is a slash after the mark. */
  lemma UnwrapFar(prefix: Path, k: Path, n: string, j: Key)
    requires Join(prefix + k) + "/\0" <= n && '/' in n
    requires |Join(prefix)| <= RFind(n, '/') < |n| - 1 && |Join(prefix + k)| + 1 < RFind(n, '/')
    ensures Unwrap(prefix, n) != Join(j) && !(Parent(j) == k && n == EtcdName(prefix, j))
  {
    hide Join, EtcdName, Unwrap, RFind, MarkLast;
    JoinConcat(prefix, k);
    assert n[..|Join(prefix + k)| + 2] == Join(prefix + k) + "/\0";
    UnwrapIs(prefix, n);
    UnwrapMarked(Join(prefix), Join(k), n, RFind(n, '/'));
    NoMark(j);
    UnwrapName(prefix, j);
  }

  lemma UnwrapPlain(p: string, q: string, n: string, x: string)
    requires |n| >= |p| + |q| + 2 && n[..|p| + |q| + 2] == p + q + "/\0" && x == n[|p| + |q| + 2..]
    ensures n[|p|..|p| + |q| + 1] + n[|p| + |q| + 2..] == q + "/" + x
  {
    var head := p + q + "/\0";
    assert n[|p|..|p| + |q| + 1] == head[|p|..|p| + |q| + 1] == q + "/";
  }

  lemma UnwrapMarked(p: string, q: string, n: string, pos: nat)
    requires |p| + |q| + 1 < pos < |n| - 1 && n[..|p| + |q| + 2] == p + q + "/\0"
    ensures '\0' in n[|p|..pos + 1] + n[pos + 2..]
  {
    var i := |p| + |q| + 1;
    assert n[i] == n[..|p| + |q| + 2][i] == '\0';
    assert (n[|p|..pos + 1] + n[pos + 2..])[i - |p|] == '\0';
  }

  lemma {:induction false} NoMark(j: Path)
    ensures '\0' !in Join(j)
  {
    if j != [] {
      NoMark(j[1..]);
      JoinCons(j[0], j[1..]);
      assert j == [j[0]] + j[1..];
    }
  }
}
