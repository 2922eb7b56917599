/** Injective maps of finite sets of numbers. */
module Pigeonhole {
  ghost predicate MapsInto(s: set<nat>, g: map<nat, nat>, c: nat) {
    c in g && g[c] in s
  }

  ghost predicate Injective(t: set<nat>, g: map<nat, nat>)
    requires t <= g.Keys
  {
    forall a, b | a in t && b in t && a != b :: g[a] != g[b]
  }

  lemma {:induction false} NoMoreThan(t: set<nat>, g: map<nat, nat>, s: set<nat>)
    requires t <= g.Keys && Injective(t, g) && forall a {:trigger MapsInto(s, g, a)} | a in t :: MapsInto(s, g, a)
    ensures |t| <= |s|
    decreases t
  {
    if t != {} {
      var c :| c in t;
      assert MapsInto(s, g, c);
      var fewer := s - {g[c]};
      forall a | a in t - {c} ensures MapsInto(fewer, g, a) {
        assert MapsInto(s, g, a) && g[a] != g[c];
      }
      NoMoreThan(t - {c}, g, fewer);
    }
  }

  /** An injective map of a finite set into itself reaches everything. */
  lemma InjectiveIsOnto(t: set<nat>, g: map<nat, nat>, m: nat) returns (c: nat)
    requires t == g.Keys && m in t && Injective(t, g)
    requires forall a {:trigger MapsInto(t, g, a)} | a in t :: MapsInto(t, g, a)
    ensures c in t && g[c] == m
  {
    if c: nat :| c in t && g[c] == m {
      return c;
    }
    var fewer := t - {m};
    assert |fewer| == |t| - 1;
    forall a | a in t ensures MapsInto(fewer, g, a) {
      assert MapsInto(t, g, a);
    }
    NoMoreThan(t, g, fewer);
    assert false;
  }

  lemma {:induction false} Largest(t: set<nat>) returns (m: nat)
    requires t != {}
    ensures m in t && forall c | c in t :: c <= m
  {
    var c :| c in t;
    if t == {c} {
      m := c;
    } else {
      assert t - {c} != {};
      m := Largest(t - {c});
      if m < c {
        m := c;
      }
      assert forall d | d in t :: d in t - {c} || d == c;
    }
  }
}
