/** The arrow-against-crate collision pass. It compares every arrow of the
    rendered arrow list with every crate of the rendered crate list, and for
    every arrow within 1.2 of an active crate queues three updates: an
    explosion is appended at the crate, the crate is deactivated by id, and
    the arrow is filtered out by id. The lists the pass reads are snapshots:
    a crate deactivated earlier in the pass still counts as active for the
    later arrows, and an arrow already filtered out is still tested against
    the remaining crates. The queued updates apply, in order, to the live
    lists. */
module Collisions {
  import opened Vectors
  import opened Arrows
  import opened Crates
  import opened Explosions

  /** An arrow closer than 1.2 to a crate hits it; 1.2 squared. */
  const HitRadiusSq: real := 1.44

  /** Only active crates can be hit. */
  predicate Collides(a: Arrow, c: Crate) {
    c.active && DistSq(c.position, a.position) < HitRadiusSq
  }

  /** The three lists the pass updates. */
  datatype Scene = Scene(arrows: seq<Arrow>, crates: seq<Crate>, explosions: seq<Explosion>)

  /** One arrow tested against one snapshot crate. `now` stands for the
      clock reading that gives the explosion its id and creation time. */
  function Hit(s: Scene, a: Arrow, c: Crate, now: int): Scene
  {
    if Collides(a, c) then
      Scene(RemoveIds(s.arrows, {a.id}),
            DeactivateIds(s.crates, {c.id}),
            s.explosions + [Explosion(now, c.position, now)])
    else s
  }

  /** One arrow tested against the first `j` snapshot crates, in order. */
  function ResolveArrow(s: Scene, a: Arrow, crates: seq<Crate>, j: nat, now: int): Scene
    requires j <= |crates|
  {
    if j == 0 then s
    else Hit(ResolveArrow(s, a, crates, j - 1, now), a, crates[j - 1], now)
  }

  /** The first `i` snapshot arrows, in order, each against every snapshot crate. */
  function Resolve(s: Scene, arrows: seq<Arrow>, crates: seq<Crate>, i: nat, now: int): Scene
    requires i <= |arrows|
  {
    if i == 0 then s
    else ResolveArrow(Resolve(s, arrows, crates, i - 1, now), arrows[i - 1], crates, |crates|, now)
  }

  /** The crates among the first `j` that one arrow hits, in crate order. */
  function CratesHitBy(a: Arrow, crates: seq<Crate>, j: nat): seq<Crate>
    requires j <= |crates|
  {
    if j == 0 then []
    else CratesHitBy(a, crates, j - 1) + (if Collides(a, crates[j - 1]) then [crates[j - 1]] else [])
  }

  /** The arrow's id if it hits one of the first `j` crates, else nothing. */
  function ArrowHitIds(a: Arrow, crates: seq<Crate>, j: nat): set<int>
    requires j <= |crates|
  {
    if CratesHitBy(a, crates, j) == [] then {} else {a.id}
  }

  /** Every (arrow, crate) hit of the first `i` arrows of the pass, in loop
      order; a crate appears once per arrow that hits it. */
  function PassHits(arrows: seq<Arrow>, crates: seq<Crate>, i: nat): seq<Crate>
    requires i <= |arrows|
  {
    if i == 0 then []
    else PassHits(arrows, crates, i - 1) + CratesHitBy(arrows[i - 1], crates, |crates|)
  }

  /** The ids of those among the first `i` arrows that hit at least one crate. */
  function HitArrowIds(arrows: seq<Arrow>, crates: seq<Crate>, i: nat): set<int>
    requires i <= |arrows|
  {
    if i == 0 then {}
    else HitArrowIds(arrows, crates, i - 1) + ArrowHitIds(arrows[i - 1], crates, |crates|)
  }

  /** One explosion per hit, at the crate's position, created at `now`. */
  function Blasts(hits: seq<Crate>, now: int): seq<Explosion> {
    seq(|hits|, k requires 0 <= k < |hits| => Explosion(now, hits[k].position, now))
  }

  lemma BlastsAppend(x: seq<Crate>, y: seq<Crate>, now: int)
    ensures Blasts(x + y, now) == Blasts(x, now) + Blasts(y, now)
  {
    var l, r := Blasts(x + y, now), Blasts(x, now) + Blasts(y, now);
    assert |l| == |r|;
    forall i | 0 <= i < |l| ensures l[i] == r[i] {
      if i >= |x| {
        assert (x + y)[i] == y[i - |x|];
      }
    }
  }

  lemma DeactivateNone(crates: seq<Crate>)
    ensures DeactivateIds(crates, {}) == crates
  {
    var r := DeactivateIds(crates, {});
    forall i | 0 <= i < |r| ensures r[i] == crates[i] {
      DeactivateIdsLeavesOthers(crates, {}, i);
    }
  }

  /** The inner loop over the first `j` crates filters the arrow out of the
      live list exactly when it hit one of them. */
  lemma {:induction false} ResolveArrowArrows(s: Scene, a: Arrow, crates: seq<Crate>, j: nat, now: int)
    requires j <= |crates|
    ensures ResolveArrow(s, a, crates, j, now).arrows == RemoveIds(s.arrows, ArrowHitIds(a, crates, j))
  {
    if j == 0 {
      RemoveIdsAbsent(s.arrows, {});
    } else {
      var ids := ArrowHitIds(a, crates, j - 1);
      ResolveArrowArrows(s, a, crates, j - 1, now);
      if Collides(a, crates[j - 1]) {
        assert ArrowHitIds(a, crates, j) == ids + {a.id} by {
          assert |CratesHitBy(a, crates, j)| > 0;
        }
        RemoveIdsTwice(s.arrows, ids, {a.id});
      } else {
        assert CratesHitBy(a, crates, j) == CratesHitBy(a, crates, j - 1) + [];
      }
    }
  }

  /** The inner loop over the first `j` crates deactivates, by id, the
      crates among them the arrow hit. */
  lemma {:induction false} ResolveArrowCrates(s: Scene, a: Arrow, crates: seq<Crate>, j: nat, now: int)
    requires j <= |crates|
    ensures ResolveArrow(s, a, crates, j, now).crates == DeactivateIds(s.crates, CrateIds(CratesHitBy(a, crates, j)))
  {
    if j == 0 {
      DeactivateNone(s.crates);
    } else {
      var c := crates[j - 1];
      var hits := CratesHitBy(a, crates, j - 1);
      ResolveArrowCrates(s, a, crates, j - 1, now);
      if Collides(a, c) {
        DeactivateIdsTwice(s.crates, CrateIds(hits), {c.id});
        assert CrateIds(hits + [c]) == CrateIds(hits) + {c.id};
      } else {
        assert hits + [] == hits;
      }
    }
  }

  /** The inner loop over the first `j` crates appends one explosion per
      crate among them the arrow hit. */
  lemma {:induction false} ResolveArrowExplosions(s: Scene, a: Arrow, crates: seq<Crate>, j: nat, now: int)
    requires j <= |crates|
    ensures ResolveArrow(s, a, crates, j, now).explosions == s.explosions + Blasts(CratesHitBy(a, crates, j), now)
  {
    if j == 0 {
      assert s.explosions + [] == s.explosions;
    } else {
      var c := crates[j - 1];
      var hits := CratesHitBy(a, crates, j - 1);
      ResolveArrowExplosions(s, a, crates, j - 1, now);
      if Collides(a, c) {
        BlastsAppend(hits, [c], now);
        assert Blasts([c], now) == [Explosion(now, c.position, now)];
      } else {
        assert hits + [] == hits;
      }
    }
  }

  /** The first `i` arrows of the pass filter out of the live arrow list
      exactly the ids of the arrows among them that hit a crate. */
  lemma {:induction false} ResolveArrows(s: Scene, arrows: seq<Arrow>, crates: seq<Crate>, i: nat, now: int)
    requires i <= |arrows|
    ensures Resolve(s, arrows, crates, i, now).arrows == RemoveIds(s.arrows, HitArrowIds(arrows, crates, i))
  {
    if i == 0 {
      RemoveIdsAbsent(s.arrows, {});
    } else {
      var mid := Resolve(s, arrows, crates, i - 1, now);
      ResolveArrows(s, arrows, crates, i - 1, now);
      ResolveArrowArrows(mid, arrows[i - 1], crates, |crates|, now);
      RemoveIdsTwice(s.arrows, HitArrowIds(arrows, crates, i - 1), ArrowHitIds(arrows[i - 1], crates, |crates|));
    }
  }

  /** The first `i` arrows of the pass deactivate, by id, every crate they hit. */
  lemma {:induction false} ResolveCrates(s: Scene, arrows: seq<Arrow>, crates: seq<Crate>, i: nat, now: int)
    requires i <= |arrows|
    ensures Resolve(s, arrows, crates, i, now).crates == DeactivateIds(s.crates, CrateIds(PassHits(arrows, crates, i)))
  {
    if i == 0 {
      DeactivateNone(s.crates);
    } else {
      var mid := Resolve(s, arrows, crates, i - 1, now);
      var hits, mine := PassHits(arrows, crates, i - 1), CratesHitBy(arrows[i - 1], crates, |crates|);
      ResolveCrates(s, arrows, crates, i - 1, now);
      ResolveArrowCrates(mid, arrows[i - 1], crates, |crates|, now);
      DeactivateIdsTwice(s.crates, CrateIds(hits), CrateIds(mine));
      assert CrateIds(hits + mine) == CrateIds(hits) + CrateIds(mine);
    }
  }

  /** The first `i` arrows of the pass append one explosion per hit, in loop order. */
  lemma {:induction false} ResolveExplosions(s: Scene, arrows: seq<Arrow>, crates: seq<Crate>, i: nat, now: int)
    requires i <= |arrows|
    ensures Resolve(s, arrows, crates, i, now).explosions == s.explosions + Blasts(PassHits(arrows, crates, i), now)
  {
    if i == 0 {
      assert s.explosions + [] == s.explosions;
    } else {
      var mid := Resolve(s, arrows, crates, i - 1, now);
      var hits, mine := PassHits(arrows, crates, i - 1), CratesHitBy(arrows[i - 1], crates, |crates|);
      ResolveExplosions(s, arrows, crates, i - 1, now);
      ResolveArrowExplosions(mid, arrows[i - 1], crates, |crates|, now);
      BlastsAppend(hits, mine, now);
    }
  }

  /** One arrow hits, among the first `j` crates, exactly the active ones it
      is within range of. */
  lemma {:induction false} CratesHitByMembers(a: Arrow, crates: seq<Crate>, j: nat)
    requires j <= |crates|
    ensures forall c :: c in CratesHitBy(a, crates, j) <==> (exists m :: 0 <= m < j && crates[m] == c) && Collides(a, c)
  {
    if j > 0 {
      CratesHitByMembers(a, crates, j - 1);
      forall c | (exists m :: 0 <= m < j && crates[m] == c) && Collides(a, c)
        ensures c in CratesHitBy(a, crates, j)
      {
        var m :| 0 <= m < j && crates[m] == c;
        if m < j - 1 {
          assert c in CratesHitBy(a, crates, j - 1);
        }
      }
    }
  }

  /** A crate is hit by the first `i` arrows of the pass exactly when it is
      a snapshot crate and one of those arrows is within range of it while
      it is active; inactive crates never are. */
  lemma {:induction false} PassHitsExactly(arrows: seq<Arrow>, crates: seq<Crate>, i: nat, c: Crate)
    requires i <= |arrows|
    ensures c in PassHits(arrows, crates, i) <==> c in crates && exists n :: 0 <= n < i && Collides(arrows[n], c)
    ensures c in PassHits(arrows, crates, i) ==> c.active
  {
    if i > 0 {
      PassHitsExactly(arrows, crates, i - 1, c);
      CratesHitByMembers(arrows[i - 1], crates, |crates|);
      if c in crates && exists n :: 0 <= n < i && Collides(arrows[n], c) {
        var n :| 0 <= n < i && Collides(arrows[n], c);
        if n < i - 1 {
          assert c in PassHits(arrows, crates, i - 1);
        }
      }
    }
  }

  /** An arrow id is removed by the first `i` arrows of the pass exactly
      when one of those arrows carries it and is within range of an active
      snapshot crate. */
  lemma {:induction false} HitArrowIdsExactly(arrows: seq<Arrow>, crates: seq<Crate>, i: nat, id: int)
    requires i <= |arrows|
    ensures id in HitArrowIds(arrows, crates, i)
        <==> exists n, c :: 0 <= n < i && c in crates && arrows[n].id == id && Collides(arrows[n], c)
  {
    if i > 0 {
      var last := arrows[i - 1];
      HitArrowIdsExactly(arrows, crates, i - 1, id);
      CratesHitByMembers(last, crates, |crates|);
      if id in ArrowHitIds(last, crates, |crates|) {
        var c := CratesHitBy(last, crates, |crates|)[0];
        assert c in CratesHitBy(last, crates, |crates|);
        assert c in crates && last.id == id && Collides(arrows[i - 1], c);
      }
      if exists n, c :: 0 <= n < i && c in crates && arrows[n].id == id && Collides(arrows[n], c) {
        var n, c :| 0 <= n < i && c in crates && arrows[n].id == id && Collides(arrows[n], c);
        if n == i - 1 {
          assert c in CratesHitBy(last, crates, |crates|);
        }
      }
    }
  }

  /** One collision pass over a scene: the snapshots it reads are the
      scene's own arrow and crate lists. */
  function Pass(s: Scene, now: int): Scene {
    Resolve(s, s.arrows, s.crates, |s.arrows|, now)
  }

  function AllHits(s: Scene): seq<Crate> {
    PassHits(s.arrows, s.crates, |s.arrows|)
  }

  lemma PassEffect(s: Scene, now: int)
    ensures Pass(s, now)
         == Scene(RemoveIds(s.arrows, HitArrowIds(s.arrows, s.crates, |s.arrows|)),
                  DeactivateIds(s.crates, CrateIds(AllHits(s))),
                  s.explosions + Blasts(AllHits(s), now))
  {
    ResolveArrows(s, s.arrows, s.crates, |s.arrows|, now);
    ResolveCrates(s, s.arrows, s.crates, |s.arrows|, now);
    ResolveExplosions(s, s.arrows, s.crates, |s.arrows|, now);
  }

  function Positions(crates: seq<Crate>): set<Vec3> {
    set c | c in crates :: c.position
  }

  /** Some snapshot arrow hits some snapshot crate carrying `id`. */
  ghost predicate CrateIdHit(arrows: seq<Arrow>, crates: seq<Crate>, id: int) {
    exists a, c :: a in arrows && c in crates && c.id == id && Collides(a, c)
  }

  /** Some snapshot arrow carrying `id` hits some snapshot crate. */
  ghost predicate ArrowIdHit(arrows: seq<Arrow>, crates: seq<Crate>, id: int) {
    exists a, c :: a in arrows && c in crates && a.id == id && Collides(a, c)
  }

  /** A pass keeps every explosion that was there and appends one new
      explosion per (arrow, crate) hit, each created at `now` at the
      position of a crate of the scene. */
  lemma PassExplosions(s: Scene, now: int)
    ensures var r := Pass(s, now);
      && |r.explosions| == |s.explosions| + |AllHits(s)|
      && r.explosions[..|s.explosions|] == s.explosions
      && (forall k :: |s.explosions| <= k < |r.explosions| ==>
            r.explosions[k].createdAt == now && r.explosions[k].position in Positions(s.crates))
  {
    var r := Pass(s, now);
    var hits := AllHits(s);
    PassEffect(s, now);
    forall k | |s.explosions| <= k < |r.explosions|
      ensures r.explosions[k].createdAt == now && r.explosions[k].position in Positions(s.crates)
    {
      var h := hits[k - |s.explosions|];
      assert r.explosions[k] == Explosion(now, h.position, now);
      assert h in hits;
      PassHitsExactly(s.arrows, s.crates, |s.arrows|, h);
    }
  }

  /** A pass keeps every crate's id, position and place in the list, and a
      crate stays active exactly when it was active and no arrow came within
      range of an active crate carrying its id. */
  lemma PassCrates(s: Scene, now: int)
    ensures var r := Pass(s, now);
      && |r.crates| == |s.crates|
      && (forall i :: 0 <= i < |s.crates| ==>
            && r.crates[i].id == s.crates[i].id
            && r.crates[i].position == s.crates[i].position
            && (r.crates[i].active <==> s.crates[i].active && !CrateIdHit(s.arrows, s.crates, s.crates[i].id)))
  {
    var r := Pass(s, now);
    var hits := AllHits(s);
    PassEffect(s, now);
    forall i | 0 <= i < |s.crates|
      ensures r.crates[i].active <==> s.crates[i].active && !CrateIdHit(s.arrows, s.crates, s.crates[i].id)
    {
      var id := s.crates[i].id;
      if id in CrateIds(hits) {
        var h :| h in hits && h.id == id;
        PassHitsExactly(s.arrows, s.crates, |s.arrows|, h);
      }
      if CrateIdHit(s.arrows, s.crates, id) {
        var a, h :| a in s.arrows && h in s.crates && h.id == id && Collides(a, h);
        PassHitsExactly(s.arrows, s.crates, |s.arrows|, h);
        assert h in hits;
      }
    }
  }

  /** A pass keeps exactly the arrows whose id no arrow that hit a crate carries. */
  lemma PassArrows(s: Scene, now: int)
    ensures forall a :: a in Pass(s, now).arrows <==> a in s.arrows && !ArrowIdHit(s.arrows, s.crates, a.id)
  {
    PassEffect(s, now);
    RemoveIdsMembers(s.arrows, HitArrowIds(s.arrows, s.crates, |s.arrows|));
    forall a ensures a in Pass(s, now).arrows <==> a in s.arrows && !ArrowIdHit(s.arrows, s.crates, a.id) {
      HitArrowIdsExactly(s.arrows, s.crates, |s.arrows|, a.id);
    }
  }

  /** The pass reads snapshots: two arrows that both reach one active crate
      both hit it, so it explodes twice, and both arrows are removed. */
  lemma SharedCrateExplodesTwice(a1: Arrow, a2: Arrow, c: Crate, explosions: seq<Explosion>, now: int)
    requires Collides(a1, c) && Collides(a2, c)
    ensures var r := Pass(Scene([a1, a2], [c], explosions), now);
      && r.explosions == explosions + [Explosion(now, c.position, now), Explosion(now, c.position, now)]
      && r.arrows == []
      && r.crates == [c.(active := false)]
  {
    var s := Scene([a1, a2], [c], explosions);
    var e := Explosion(now, c.position, now);
    var first := Scene(RemoveIds([a1, a2], {a1.id}), DeactivateIds([c], {c.id}), explosions + [e]);
    var second := Scene(RemoveIds(first.arrows, {a2.id}), DeactivateIds(first.crates, {c.id}), first.explosions + [e]);
    assert Pass(s, now) == second by {
      assert Hit(s, a1, c, now) == first;
      assert Resolve(s, s.arrows, s.crates, 1, now) == first by {
        assert ResolveArrow(s, a1, [c], 1, now) == Hit(s, a1, c, now);
      }
      assert ResolveArrow(first, a2, [c], 1, now) == Hit(first, a2, c, now) == second;
    }
    assert second.arrows == [] by {
      RemoveIdsTwice([a1, a2], {a1.id}, {a2.id});
      var ids := {a1.id} + {a2.id};
      assert RemoveIds([a1, a2], ids) == [] by {
        assert [a1, a2][..1] == [a1] && [a1][..0] == [];
        assert RemoveIds([a1], ids) == RemoveIds([], ids) + [];
        assert RemoveIds([a1, a2], ids) == RemoveIds([a1], ids) + [];
      }
    }
    assert second.crates == [c.(active := false)] by {
      DeactivateIdsTwice([c], {c.id}, {c.id});
      assert DeactivateIds([c], {c.id})[0] == c.(active := false);
    }
  }
}
