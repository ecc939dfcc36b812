/** Following edges, and when new edges close a circle. */
module Reachability {

  type Edges = iset<(nat, nat)>

  ghost predicate Path(e: Edges, p: seq<nat>)
  {
    |p| > 0 && forall i :: 0 <= i < |p| - 1 ==> (p[i], p[i + 1]) in e
  }

  /** In any number of steps, none included. */
  ghost predicate Reaches(e: Edges, a: nat, b: nat)
  {
    exists p: seq<nat> :: Path(e, p) && p[0] == a && p[|p| - 1] == b
  }

  /** In at least one step. */
  ghost predicate Leads(e: Edges, a: nat, b: nat)
  {
    exists x: nat :: (a, x) in e && Reaches(e, x, b)
  }

  ghost predicate Circle(e: Edges) { exists v: nat :: Leads(e, v, v) }

  lemma ReachesSelf(e: Edges, a: nat)
    ensures Reaches(e, a, a)
  {
    assert Path(e, [a]);
  }

  lemma ReachesStep(e: Edges, a: nat, b: nat)
    requires (a, b) in e
    ensures Reaches(e, a, b)
  {
    assert Path(e, [a, b]);
  }

  lemma ReachesOn(e: Edges, a: nat, b: nat, c: nat)
    requires Reaches(e, a, b) && Reaches(e, b, c)
    ensures Reaches(e, a, c)
  {
    var p: seq<nat> :| Path(e, p) && p[0] == a && p[|p| - 1] == b;
    var q: seq<nat> :| Path(e, q) && q[0] == b && q[|q| - 1] == c;
    var r := p + q[1..];
    forall i | 0 <= i < |r| - 1 ensures (r[i], r[i + 1]) in e
    {
      if i >= |p| - 1 {
        assert r[i] == q[i - (|p| - 1)] && r[i + 1] == q[i - (|p| - 1) + 1];
      }
    }
    assert Path(e, r);
  }

  lemma ReachesMore(e: Edges, e': Edges, a: nat, b: nat)
    requires e <= e' && Reaches(e, a, b)
    ensures Reaches(e', a, b)
  {
    var p: seq<nat> :| Path(e, p) && p[0] == a && p[|p| - 1] == b;
    assert Path(e', p);
  }

  lemma CircleMore(e: Edges, e': Edges)
    requires e <= e' && Circle(e)
    ensures Circle(e')
  {
    var v: nat :| Leads(e, v, v);
    var x: nat :| (v, x) in e && Reaches(e, x, v);
    ReachesMore(e, e', x, v);
    assert Leads(e', v, v);
  }

  /** Reaching something else takes a step. */
  lemma ReachesOther(e: Edges, a: nat, b: nat)
    ensures Reaches(e, a, b) <==> a == b || Leads(e, a, b)
  {
    if Reaches(e, a, b) {
      var p: seq<nat> :| Path(e, p) && p[0] == a && p[|p| - 1] == b;
      if |p| > 1 {
        assert Path(e, p[1..]);
        assert (p[0], p[1]) in e;
        assert Reaches(e, p[1], b);
      }
    }
    if a == b {
      ReachesSelf(e, a);
    } else if Leads(e, a, b) {
      var x: nat :| (a, x) in e && Reaches(e, x, b);
      ReachesStep(e, a, x);
      ReachesOn(e, a, x, b);
    }
  }

  // ----- Adding edges -----

  /** New edges with old paths between them. */
  ghost predicate Chain(kept: Edges, added: Edges, c: seq<(nat, nat)>)
  {
    && |c| > 0
    && (forall i :: 0 <= i < |c| ==> c[i] in added)
    && (forall i :: 0 <= i < |c| - 1 ==> Reaches(kept, c[i].1, c[i + 1].0))
  }

  /** And from the last one back to the first. */
  ghost predicate Ring(kept: Edges, added: Edges, c: seq<(nat, nat)>)
  {
    Chain(kept, added, c) && Reaches(kept, c[|c| - 1].1, c[0].0)
  }

  lemma {:induction false} ChainReaches(kept: Edges, added: Edges, c: seq<(nat, nat)>)
    requires Chain(kept, added, c)
    ensures Reaches(kept + added, c[0].1, c[|c| - 1].1)
  {
    hide Reaches;
    if |c| == 1 {
      ReachesSelf(kept + added, c[0].1);
    } else {
      var front, last := c[..|c| - 1], c[|c| - 1];
      ChainReaches(kept, added, front);
      var end := front[|front| - 1].1;
      ReachesMore(kept, kept + added, end, last.0);
      ReachesOn(kept + added, c[0].1, end, last.0);
      ReachesStep(kept + added, last.0, last.1);
      ReachesOn(kept + added, c[0].1, last.0, last.1);
    }
  }

  /** c stands on a walk from a to b. */
  ghost predicate Between(kept: Edges, added: Edges, a: nat, b: nat, c: seq<(nat, nat)>)
  {
    Chain(kept, added, c) && Reaches(kept, a, c[0].0) && Reaches(kept, c[|c| - 1].1, b)
  }

  ghost predicate Cut(kept: Edges, added: Edges, a: nat, b: nat)
  {
    exists c: seq<(nat, nat)> :: Between(kept, added, a, b, c)
  }

  /** A walk stays on the old edges, or is cut by new ones into old paths. */
  lemma {:induction false} Split(kept: Edges, added: Edges, p: seq<nat>)
    requires Path(kept + added, p)
    ensures Path(kept, p) || Cut(kept, added, p[0], p[|p| - 1])
  {
    hide Reaches;
    if |p| > 1 {
      var front, x, y := p[..|p| - 1], p[|p| - 2], p[|p| - 1];
      assert Path(kept + added, front);
      Split(kept, added, front);
      assert (x, y) in kept + added;
      if (x, y) in added {
        ReachesSelf(kept, y);
        if Path(kept, front) {
          PathReaches(kept, front);
          assert Between(kept, added, p[0], y, [(x, y)]);
        } else {
          var c: seq<(nat, nat)> :| Between(kept, added, p[0], x, c);
          assert Between(kept, added, p[0], y, c + [(x, y)]);
        }
      } else if !Path(kept, front) {
        var c: seq<(nat, nat)> :| Between(kept, added, p[0], x, c);
        ReachesStep(kept, x, y);
        ReachesOn(kept, c[|c| - 1].1, x, y);
        assert Between(kept, added, p[0], y, c);
      }
    }
  }

  lemma PathReaches(e: Edges, p: seq<nat>)
    requires Path(e, p)
    ensures Reaches(e, p[0], p[|p| - 1])
  {
  }

  /** New edges close a circle exactly when some of them stand in a ring, with old paths
      between them. */
  lemma CircleIsRing(kept: Edges, added: Edges)
    ensures Circle(kept + added) <==> Circle(kept) || exists c: seq<(nat, nat)> :: Ring(kept, added, c)
  {
    if Circle(kept + added) {
      var v: nat :| Leads(kept + added, v, v);
      var x: nat :| (v, x) in kept + added && Reaches(kept + added, x, v);
      var q: seq<nat> :| Path(kept + added, q) && q[0] == x && q[|q| - 1] == v;
      WalkIsRing(kept, added, [v] + q);
    }
    if Circle(kept) {
      CircleMore(kept, kept + added);
    }
    if c: seq<(nat, nat)> :| Ring(kept, added, c) {
      ChainReaches(kept, added, c);
      ReachesMore(kept, kept + added, c[|c| - 1].1, c[0].0);
      ReachesOn(kept + added, c[0].1, c[|c| - 1].1, c[0].0);
      assert c[0] in kept + added;
      assert Leads(kept + added, c[0].0, c[0].0);
    }
  }

  lemma WalkIsRing(kept: Edges, added: Edges, p: seq<nat>)
    requires Path(kept + added, p) && |p| > 1 && p[0] == p[|p| - 1]
    ensures Circle(kept) || exists c: seq<(nat, nat)> :: Ring(kept, added, c)
  {
    Split(kept, added, p);
    if Path(kept, p) {
      assert Path(kept, p[1..]);
      assert (p[0], p[1]) in kept && Reaches(kept, p[1], p[0]);
      assert Leads(kept, p[0], p[0]);
    } else {
      var c: seq<(nat, nat)> :| Between(kept, added, p[0], p[|p| - 1], c);
      ReachesOn(kept, c[|c| - 1].1, p[0], c[0].0);
      assert Ring(kept, added, c);
    }
  }

  /** Edges from `sources` redirected to one place: what is reached first of the sources is
      reached on edges that stay, so the ring is a single edge. */
  lemma RedirectedCircle(before: Edges, kept: Edges, sources: iset<nat>, target: nat)
    requires kept <= before && forall p: (nat, nat) :: p in before && p !in kept ==> p.0 in sources
    ensures Circle(kept + Redirect(sources, target)) <==>
        Circle(kept) || exists v: nat :: v in sources && Reaches(before, target, v)
  {
    var added := Redirect(sources, target);
    CircleIsRing(kept, added);
    if c: seq<(nat, nat)> :| Ring(kept, added, c) {
      assert c[0] in added && c[|c| - 1] in added;
      ReachesMore(kept, before, target, c[0].0);
    }
    if v: nat :| v in sources && Reaches(before, target, v) {
      var p: seq<nat> :| Path(before, p) && p[0] == target && p[|p| - 1] == v;
      FirstSource(before, kept, sources, p);
      var u: nat :| u in sources && Reaches(kept, target, u);
      assert Ring(kept, added, [(u, target)]);
    }
  }

  ghost function Redirect(sources: iset<nat>, target: nat): (e: Edges)
  {
    iset p: (nat, nat) | p.0 in sources && p.1 == target
  }

  lemma {:induction false} FirstSource(before: Edges, kept: Edges, sources: iset<nat>, p: seq<nat>)
    requires Path(before, p) && p[|p| - 1] in sources
    requires forall x: (nat, nat) :: x in before && x !in kept ==> x.0 in sources
    ensures exists u: nat :: u in sources && Reaches(kept, p[0], u)
  {
    if p[0] in sources {
      ReachesSelf(kept, p[0]);
    } else {
      assert Path(before, p[1..]);
      FirstSource(before, kept, sources, p[1..]);
      var u: nat :| u in sources && Reaches(kept, p[1], u);
      assert (p[0], p[1]) in kept;
      ReachesStep(kept, p[0], p[1]);
      ReachesOn(kept, p[0], p[1], u);
    }
  }
}
