/** Walks in a finite directed graph, and the nodes within a number of hops of a start. */
module Graph {
  type Id = string
  type Arrows = set<(Id, Id)>

  /** The nodes one arrow away from s. */
  function Step(arrows: Arrows, s: set<Id>): set<Id> {
    set e | e in arrows && e.0 in s :: e.1
  }

  /** The nodes within d hops of start. */
  function Ball(arrows: Arrows, start: Id, d: nat): set<Id> {
    if d == 0 then {start} else Ball(arrows, start, d - 1) + Step(arrows, Ball(arrows, start, d - 1))
  }

  ghost predicate IsWalk(arrows: Arrows, p: seq<Id>) {
    p != [] && forall i | 0 <= i < |p| - 1 :: (p[i], p[i + 1]) in arrows
  }

  /** p walks from start to end along `hops` arrows. */
  ghost predicate Walks(arrows: Arrows, start: Id, end: Id, hops: nat, p: seq<Id>) {
    IsWalk(arrows, p) && |p| == hops + 1 && p[0] == start && p[|p| - 1] == end
  }

  ghost predicate Connected(arrows: Arrows, start: Id, end: Id, hops: nat) {
    exists p :: Walks(arrows, start, end, hops, p)
  }

  /** A shortest walk from start to end has d arrows. */
  ghost predicate ShortestWalk(arrows: Arrows, start: Id, end: Id, d: nat) {
    Connected(arrows, start, end, d) && forall h: nat | h < d :: !Connected(arrows, start, end, h)
  }

  lemma {:induction false} BallMonotone(arrows: Arrows, start: Id, d: nat, e: nat)
    requires d <= e
    ensures Ball(arrows, start, d) <= Ball(arrows, start, e)
    decreases e
  {
    if d < e {
      BallMonotone(arrows, start, d, e - 1);
    }
  }

  lemma {:induction false} WalkStaysInBall(arrows: Arrows, start: Id, end: Id, hops: nat, p: seq<Id>)
    requires Walks(arrows, start, end, hops, p)
    ensures end in Ball(arrows, start, hops)
    decreases hops
  {
    if hops == 0 {
    } else {
      var q := p[..hops];
      WalkStaysInBall(arrows, start, q[hops - 1], hops - 1, q);
      assert (p[hops - 1], p[hops]) in arrows;
    }
  }

  /** One more arrow makes a walk one hop longer. */
  lemma {:induction false} WalkGrows(arrows: Arrows, start: Id, mid: Id, end: Id, h: nat)
    requires Connected(arrows, start, mid, h) && (mid, end) in arrows
    ensures Connected(arrows, start, end, h + 1)
  {
    var p :| Walks(arrows, start, mid, h, p);
    assert Walks(arrows, start, end, h + 1, p + [end]);
  }

  /** Walks, hop by hop: none leads only to oneself, and one more goes from where it was along an arrow. */
  lemma {:induction false} ConnectedForms(arrows: Arrows, start: Id, end: Id, h: nat)
    ensures Connected(arrows, start, end, 0) <==> start == end
    ensures Connected(arrows, start, end, h + 1) <==>
            exists mid :: Connected(arrows, start, mid, h) && (mid, end) in arrows
  {
    if start == end {
      assert Walks(arrows, start, end, 0, [start]);
    }
    if Connected(arrows, start, end, h + 1) {
      var p :| Walks(arrows, start, end, h + 1, p);
      assert (p[h], p[h + 1]) in arrows;
      assert Walks(arrows, start, p[h], h, p[..h + 1]);
    }
    forall mid | Connected(arrows, start, mid, h) && (mid, end) in arrows ensures Connected(arrows, start, end, h + 1) {
      WalkGrows(arrows, start, mid, end, h);
    }
  }

  lemma {:induction false} BallHasWalk(arrows: Arrows, start: Id, end: Id, d: nat) returns (h: nat)
    requires end in Ball(arrows, start, d)
    ensures h <= d && Connected(arrows, start, end, h)
    decreases d
  {
    if d == 0 {
      h := 0;
      assert Walks(arrows, start, end, 0, [start]);
    } else if end in Ball(arrows, start, d - 1) {
      h := BallHasWalk(arrows, start, end, d - 1);
    } else {
      var e :| e in arrows && e.0 in Ball(arrows, start, d - 1) && e.1 == end;
      h := BallHasWalk(arrows, start, e.0, d - 1);
      WalkGrows(arrows, start, e.0, end, h);
      h := h + 1;
    }
  }

  /** The ball is exactly the set of nodes some walk of at most d arrows reaches. */
  lemma {:induction false} BallIsWalks(arrows: Arrows, start: Id, end: Id, d: nat)
    ensures end in Ball(arrows, start, d) <==> exists h: nat :: h <= d && Connected(arrows, start, end, h)
  {
    if end in Ball(arrows, start, d) {
      var h := BallHasWalk(arrows, start, end, d);
    }
    forall h: nat | h <= d && Connected(arrows, start, end, h)
      ensures end in Ball(arrows, start, d)
    {
      var p :| Walks(arrows, start, end, h, p);
      WalkStaysInBall(arrows, start, end, h, p);
      BallMonotone(arrows, start, h, d);
    }
  }

  /** A node first appears in the ball whose radius is its distance. */
  lemma {:induction false} LayerIsDistance(arrows: Arrows, start: Id, end: Id, d: nat)
    ensures ShortestWalk(arrows, start, end, d)
       <==> end in Ball(arrows, start, d) && (d > 0 ==> end !in Ball(arrows, start, d - 1))
  {
    BallIsWalks(arrows, start, end, d);
    if d > 0 {
      BallIsWalks(arrows, start, end, d - 1);
    }
  }

  /** Once a ball stops growing it never grows again. */
  lemma {:induction false} BallFixpoint(arrows: Arrows, start: Id, d: nat, e: nat)
    requires d <= e && Step(arrows, Ball(arrows, start, d)) <= Ball(arrows, start, d)
    ensures Ball(arrows, start, e) == Ball(arrows, start, d)
    decreases e - d
  {
    if d < e {
      var ball := Ball(arrows, start, d);
      assert Ball(arrows, start, d + 1) == ball by {
        assert ball + Step(arrows, ball) == ball;
      }
      BallFixpoint(arrows, start, d + 1, e);
    }
  }
}
