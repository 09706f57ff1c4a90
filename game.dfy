/** The game component's state: the arrows in flight, the bomb crates, the
    live explosions and whether the crossbow is drawn. Each method is one of
    the handlers or per-frame callbacks that update that state; the clock
    reading, the camera's aim and the frame's `delta` come in as
    parameters. */
module ArcheryGame {
  import opened Vectors
  import opened Arrows
  import opened Crates
  import opened Explosions
  import opened Collisions

  /** The crates keep the ids and positions, in order, they were placed with. */
  predicate Placed(crates: seq<Crate>) {
    var start := InitialCrates();
    |crates| == |start|
    && forall i :: 0 <= i < |crates| ==>
         crates[i].id == start[i].id && crates[i].position == start[i].position
  }

  /** Every explosion sits where one of the placed crates is. */
  predicate AtCrates(explosions: seq<Explosion>) {
    forall e :: e in explosions ==> e.position in Positions(InitialCrates())
  }

  class Game {
    var arrows: seq<Arrow>
    var crates: seq<Crate>
    var explosions: seq<Explosion>
    var bowDrawn: bool

    /** What every handler keeps: trails hold the arrow's position and at
        most MaxTrail points, the crates never move or change identity, and
        explosions only ever appear at crates. */
    predicate Valid()
      reads this
    {
      AllTrailsValid(arrows) && Placed(crates) && AtCrates(explosions)
    }

    function State(): Scene
      reads this
    {
      Scene(arrows, crates, explosions)
    }

    /** The component after its mount effect has placed the crates. */
    constructor ()
      ensures arrows == [] && crates == InitialCrates() && explosions == [] && !bowDrawn
      ensures Valid()
    {
      arrows := [];
      crates := InitialCrates();
      explosions := [];
      bowDrawn := false;
    }

    /** The click handler. Without pointer-lock controls nothing happens;
        otherwise an arrow with the given id is launched from `start` along
        `direction` (the camera's aim) and the crossbow is drawn. */
    method Shoot(hasControls: bool, id: int, start: Vec3, direction: Vec3)
      requires Valid()
      modifies this
      ensures Valid()
      ensures !hasControls ==> arrows == old(arrows) && bowDrawn == old(bowDrawn)
      ensures hasControls ==> arrows == old(arrows) + [Launch(id, start, direction)] && bowDrawn
      ensures crates == old(crates) && explosions == old(explosions)
    {
      if !hasControls {
        return;
      }
      var a := Launch(id, start, direction);
      arrows := arrows + [a];
      bowDrawn := true;
    }

    /** The timer 200 ms after a shot: the crossbow is released. */
    method ReleaseBow()
      requires Valid()
      modifies this
      ensures Valid()
      ensures !bowDrawn
      ensures arrows == old(arrows) && crates == old(crates) && explosions == old(explosions)
    {
      bowDrawn := false;
    }

    /** One frame of every rendered arrow, in list order: each steps the
        record it was rendered with and then either replaces the live record
        with that id by its stepped record or filters that id out. With
        distinct ids this leaves exactly the survivors, stepped, in order. */
    method AdvanceArrows(delta: real)
      requires Valid()
      modifies this
      ensures Valid()
      ensures arrows == FrameArrows(old(arrows), old(arrows), |old(arrows)|, delta)
      ensures DistinctArrowIds(old(arrows)) ==> arrows == Survivors(old(arrows), delta)
      ensures crates == old(crates) && explosions == old(explosions) && bowDrawn == old(bowDrawn)
    {
      var snapshot, live := arrows, arrows;
      var i := 0;
      while i < |snapshot|
        invariant i <= |snapshot|
        invariant live == FrameArrows(snapshot, snapshot, i, delta)
        modifies {}
      {
        var a := snapshot[i];
        FrameArrowsNext(snapshot, snapshot, i, delta);
        live := ApplyOutcome(live, a.id, Step(a, delta));
        i := i + 1;
      }
      FrameFacts(snapshot, delta);
      arrows := live;
    }

    /** The collision pass at clock reading `now`: every rendered arrow
        against every rendered crate, reading those two lists as they were
        when the pass started. The updates it queues compose on the live
        lists and are committed together when the pass ends. */
    method CheckCollisions(now: int)
      requires Valid()
      modifies this
      ensures Valid()
      ensures State() == Pass(old(State()), now)
      ensures forall i :: 0 <= i < |crates| && !old(crates[i].active) ==> !crates[i].active
      ensures bowDrawn == old(bowDrawn)
    {
      var snapArrows, snapCrates := arrows, crates;
      var liveArrows, liveCrates, liveExplosions := arrows, crates, explosions;
      ghost var start := State();
      var i := 0;
      while i < |snapArrows|
        invariant i <= |snapArrows|
        invariant Scene(liveArrows, liveCrates, liveExplosions) == Resolve(start, snapArrows, snapCrates, i, now)
        modifies {}
      {
        var a := snapArrows[i];
        ghost var before := Scene(liveArrows, liveCrates, liveExplosions);
        var j := 0;
        while j < |snapCrates|
          invariant j <= |snapCrates|
          invariant Scene(liveArrows, liveCrates, liveExplosions) == ResolveArrow(before, a, snapCrates, j, now)
          modifies {}
        {
          var c := snapCrates[j];
          if c.active && DistSq(c.position, a.position) < HitRadiusSq {
            liveExplosions := liveExplosions + [Explosion(now, c.position, now)];
            liveCrates := DeactivateIds(liveCrates, {c.id});
            liveArrows := RemoveIds(liveArrows, {a.id});
          }
          j := j + 1;
        }
        i := i + 1;
      }
      PassKeepsValid(start, now);
      arrows, crates, explosions := liveArrows, liveCrates, liveExplosions;
    }

    /** The sweep every 500 ms: explosions 2000 ms old or older at `now` go. */
    method ExpireExplosions(now: int)
      requires Valid()
      modifies this
      ensures Valid()
      ensures explosions == Expire(old(explosions), now)
      ensures arrows == old(arrows) && crates == old(crates) && bowDrawn == old(bowDrawn)
    {
      explosions := Expire(explosions, now);
    }
  }

  /** A collision pass keeps the game's invariant and never reactivates a crate. */
  lemma PassKeepsValid(s: Scene, now: int)
    requires AllTrailsValid(s.arrows) && Placed(s.crates) && AtCrates(s.explosions)
    ensures var r := Pass(s, now);
      && AllTrailsValid(r.arrows) && Placed(r.crates) && AtCrates(r.explosions)
      && forall i :: 0 <= i < |r.crates| && !s.crates[i].active ==> !r.crates[i].active
  {
    var r := Pass(s, now);
    PassArrows(s, now);
    PassCrates(s, now);
    PassExplosions(s, now);
    assert Positions(s.crates) == Positions(InitialCrates()) by {
      var start := InitialCrates();
      forall p | p in Positions(s.crates) ensures p in Positions(start) {
        var c :| c in s.crates && c.position == p;
        var i :| 0 <= i < |s.crates| && s.crates[i] == c;
        assert start[i] in start;
      }
      forall p | p in Positions(start) ensures p in Positions(s.crates) {
        var c :| c in start && c.position == p;
        var i :| 0 <= i < |start| && start[i] == c;
        assert s.crates[i] in s.crates;
      }
    }
    forall e | e in r.explosions ensures e.position in Positions(InitialCrates()) {
      var k :| 0 <= k < |r.explosions| && r.explosions[k] == e;
      if k < |s.explosions| {
        assert r.explosions[..|s.explosions|][k] == e;
        assert e in s.explosions;
      }
    }
  }
}
