/** Explosion records and the periodic sweep that drops the old ones. */
module Explosions {
  import opened Vectors

  /** An explosion lasts 2000 ms from its creation. */
  const Duration: int := 2000

  /** `id` and `createdAt` are both taken from the millisecond clock. */
  datatype Explosion = Explosion(id: int, position: Vec3, createdAt: int)

  predicate Fresh(e: Explosion, now: int) {
    now - e.createdAt < Duration
  }

  /** The sweep at clock reading `now`: keeps exactly the explosions
      younger than Duration, in their order. */
  function Expire(explosions: seq<Explosion>, now: int): (r: seq<Explosion>)
    ensures forall e :: e in r <==> e in explosions && Fresh(e, now)
    ensures |r| <= |explosions|
    decreases |explosions|
  {
    if explosions == [] then []
    else
      var last := explosions[|explosions| - 1];
      Expire(explosions[..|explosions| - 1], now) + (if Fresh(last, now) then [last] else [])
  }

  /** The sweep keeps the original order: it distributes over concatenation. */
  lemma {:induction false} ExpireAppend(x: seq<Explosion>, y: seq<Explosion>, now: int)
    ensures Expire(x + y, now) == Expire(x, now) + Expire(y, now)
    decreases |y|
  {
    if y == [] {
      assert x + y == x;
    } else {
      var y' := y[..|y| - 1];
      assert (x + y)[..|x + y| - 1] == x + y';
      ExpireAppend(x, y', now);
    }
  }

  /** Sweeping at `later` after sweeping at `earlier` is one sweep at
      `later`; in particular two sweeps at the same instant are one. */
  lemma {:induction false} ExpireLater(explosions: seq<Explosion>, earlier: int, later: int)
    requires earlier <= later
    ensures Expire(Expire(explosions, earlier), later) == Expire(explosions, later)
    decreases |explosions|
  {
    if explosions != [] {
      var init, last := explosions[..|explosions| - 1], explosions[|explosions| - 1];
      ExpireLater(init, earlier, later);
      var tail := if Fresh(last, earlier) then [last] else [];
      ExpireAppend(Expire(init, earlier), tail, later);
      assert Expire(tail, later) == (if Fresh(last, later) then [last] else []) by {
        if tail != [] {
          assert Expire(tail, later) == Expire([], later) + (if Fresh(last, later) then [last] else []);
        }
      }
    }
  }

  /** Sweeping twice at the same instant gives the result of one sweep. */
  lemma ExpireIdempotent(explosions: seq<Explosion>, now: int)
    ensures Expire(Expire(explosions, now), now) == Expire(explosions, now)
  {
    ExpireLater(explosions, now, now);
  }
}
