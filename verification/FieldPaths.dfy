/** Splitting dotted field names into paths: SplitMsgpackFieldPaths of src/nats_message_decode.cpp. */
module FieldPaths {
  import opened Options
  import opened Bytes
  import opened Projection

  const DOT: byte := 46

  /** The components with a dot between each two. */
  function Joined(path: seq<Bytes>): Bytes {
    if path == [] then []
    else if |path| == 1 then path[0]
    else path[0] + [DOT] + Joined(path[1..])
  }

  predicate DotFree(path: seq<Bytes>) {
    forall component | component in path :: DOT !in component
  }

  /** `path` is the split of `name`: its components, joined again, are the name, and none contains a dot. */
  predicate SplitOf(path: Path, name: Bytes) {
    Joined(path) == name && DotFree(path)
  }

  lemma {:induction false} JoinedSnoc(path: seq<Bytes>, last: Bytes)
    requires path != []
    ensures Joined(path + [last]) == Joined(path) + [DOT] + last
    decreases |path|
  {
    assert (path + [last])[1..] == path[1..] + [last];
    if |path| > 1 {
      JoinedSnoc(path[1..], last);
    } else {
      assert path[1..] + [last] == [last];
    }
  }

  lemma FirstDot(a: Bytes, b: Bytes, rest: Bytes)
    requires DOT !in a && DOT !in b
    ensures a != b + [DOT] + rest
  {
    assert (b + [DOT] + rest)[|b|] == DOT;
  }

  function FirstDotIndex(w: Bytes): nat {
    if w == [] || w[0] == DOT then 0 else 1 + FirstDotIndex(w[1..])
  }

  lemma {:induction false} DotIndex(a: Bytes, s: Bytes)
    requires DOT !in a
    ensures FirstDotIndex(a + [DOT] + s) == |a|
  {
    if a != [] {
      assert (a + [DOT] + s)[1..] == a[1..] + [DOT] + s;
      DotIndex(a[1..], s);
    }
  }

  lemma SameFirst(a: Bytes, s: Bytes, b: Bytes, t: Bytes)
    requires DOT !in a && DOT !in b && a + [DOT] + s == b + [DOT] + t
    ensures a == b && s == t
  {
    var w := a + [DOT] + s;
    DotIndex(a, s);
    DotIndex(b, t);
    assert w[..|a|] == a && w[..|b|] == b;
    assert w[|a| + 1..] == s && w[|b| + 1..] == t;
  }

  /** A name has one split only, so splitting inverts joining. */
  lemma {:induction false} SplitUnique(p: seq<Bytes>, q: seq<Bytes>)
    requires p != [] && q != [] && DotFree(p) && DotFree(q) && Joined(p) == Joined(q)
    ensures p == q
    decreases |p|
  {
    if |p| == 1 && |q| == 1 {
      assert p == [p[0]] && q == [q[0]];
    } else if |p| == 1 {
      FirstDot(p[0], q[0], Joined(q[1..]));
    } else if |q| == 1 {
      FirstDot(q[0], p[0], Joined(p[1..]));
    } else {
      SameFirst(p[0], Joined(p[1..]), q[0], Joined(q[1..]));
      SplitUnique(p[1..], q[1..]);
      assert p == [p[0]] + p[1..] && q == [q[0]] + q[1..];
    }
  }

  /** A dot-free name is a path of its own. */
  lemma DotFreeName(path: Path, name: Bytes)
    requires SplitOf(path, name) && DOT !in name
    ensures path == [name]
  {
    SplitUnique(path, [name]);
  }

  method FindDot(name: Bytes, start: nat) returns (end: Option<nat>)
    requires start <= |name|
    ensures end.None? ==> DOT !in name[start..]
    ensures end.Some? ==> start <= end.value < |name| && name[end.value] == DOT && DOT !in name[start..end.value]
  {
    var k := start;
    while k < |name|
      invariant start <= k <= |name| && DOT !in name[start..k]
    {
      if name[k] == DOT {
        return Some(k);
      }
      assert name[start..k + 1] == name[start..k] + [name[k]];
      k := k + 1;
    }
    assert name[start..k] == name[start..];
    return None;
  }

  lemma CutAtDot(name: Bytes, start: nat, end: nat)
    requires start <= end < |name| && name[end] == DOT
    ensures name[..end + 1] == name[..start] + name[start..end] + [DOT]
  {
  }

  method SplitFieldPath(name: Bytes) returns (path: Path)
    ensures SplitOf(path, name)
  {
    var parts: seq<Bytes> := [];
    var start := 0;
    while true
      invariant 0 <= start <= |name| && DotFree(parts)
      invariant parts == [] ==> start == 0
      invariant parts != [] ==> name[..start] == Joined(parts) + [DOT]
      decreases |name| - start
    {
      var end := FindDot(name, start);
      var part := if end.None? then name[start..] else name[start..end.value];
      if parts != [] {
        JoinedSnoc(parts, part);
      }
      parts := parts + [part];
      if end.None? {
        assert name == name[..start] + part;
        return parts;
      }
      CutAtDot(name, start, end.value);
      start := end.value + 1;
    }
  }

  method SplitMsgpackFieldPaths(names: seq<Bytes>) returns (result: seq<Path>)
    ensures |result| == |names| && forall f | 0 <= f < |names| :: SplitOf(result[f], names[f])
  {
    result := [];
    for f := 0 to |names|
      invariant |result| == f && forall g | 0 <= g < f :: SplitOf(result[g], names[g])
    {
      var path := SplitFieldPath(names[f]);
      result := result + [path];
    }
  }
}
