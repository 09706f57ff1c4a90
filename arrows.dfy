/** Arrows in flight: creation on a shot, the per-frame ballistic step with
    its bounded trail and its removal test, and the list updates keyed by
    arrow id that the game applies to its live arrow list. */
module Arrows {
  import opened Vectors

  /** Downward acceleration applied to every arrow, units per second squared. */
  const Gravity: real := -15.0
  /** Launch speed along the unit aiming direction. */
  const LaunchSpeed: real := 30.0
  /** Most positions a trail keeps. */
  const MaxTrail: nat := 15
  /** An arrow farther than 150 from the origin is removed; 150 squared. */
  const MaxRangeSq: real := 22500.0

  datatype Arrow = Arrow(id: int, position: Vec3, velocity: Vec3, trail: seq<Vec3>)

  /** What one frame does to one arrow: it is dropped, or replaced by its
      updated record. */
  datatype StepOutcome = Removed | Updated(arrow: Arrow)

  /** The trail is non-empty, bounded, and ends at the arrow's position. */
  predicate TrailValid(a: Arrow) {
    1 <= |a.trail| <= MaxTrail && a.trail[|a.trail| - 1] == a.position
  }

  /** The arrow record a shot creates: it starts at `start`, moves along
      `direction` at LaunchSpeed, and its trail holds only the start. */
  function Launch(id: int, start: Vec3, direction: Vec3): (a: Arrow)
    ensures a.id == id && a.position == start && a.trail == [start]
    ensures a.velocity == Scale(direction, LaunchSpeed)
    ensures TrailValid(a)
    ensures NormSq(a.velocity) == LaunchSpeed * LaunchSpeed * NormSq(direction)
  {
    Arrow(id, start, Scale(direction, LaunchSpeed), [start])
  }

  /** Appends `p` to the trail and, once the trail would exceed MaxTrail
      entries, drops its oldest one. */
  function PushTrail(trail: seq<Vec3>, p: Vec3): (r: seq<Vec3>)
    ensures |r| >= 1 && r[|r| - 1] == p
    ensures |trail| < MaxTrail ==> r == trail + [p]
    ensures |trail| >= MaxTrail ==> r == trail[1..] + [p]
    ensures |trail| <= MaxTrail ==> |r| <= MaxTrail
  {
    var t := trail + [p];
    if |t| > MaxTrail then t[1..] else t
  }

  /** The last MaxTrail entries of `s` (all of them when there are fewer). */
  function Window(s: seq<Vec3>): (r: seq<Vec3>)
    ensures |r| <= MaxTrail
  {
    if |s| <= MaxTrail then s else s[|s| - MaxTrail..]
  }

  /** Pushes the positions `ps` onto the trail one after another. */
  function PushAll(trail: seq<Vec3>, ps: seq<Vec3>): seq<Vec3>
    decreases |ps|
  {
    if ps == [] then trail else PushAll(PushTrail(trail, ps[0]), ps[1..])
  }

  lemma WindowOfWindow(s: seq<Vec3>, t: seq<Vec3>)
    ensures Window(Window(s) + t) == Window(s + t)
  {
    if |s| > MaxTrail {
      var w := Window(s);
      assert |w| == MaxTrail;
      var lhs, rhs := Window(w + t), Window(s + t);
      assert |lhs| == |rhs| == MaxTrail;
      forall k | 0 <= k < MaxTrail
        ensures lhs[k] == rhs[k]
      {
        if |t| + k < MaxTrail {
          assert lhs[k] == w[|t| + k] == s[|s| - MaxTrail + |t| + k];
        }
      }
    }
  }

  /** A trail that is no longer than MaxTrail always holds exactly the most
      recent MaxTrail positions it was given, oldest first. */
  lemma {:induction false} TrailKeepsLatest(trail: seq<Vec3>, ps: seq<Vec3>)
    requires |trail| <= MaxTrail
    ensures PushAll(trail, ps) == Window(trail + ps)
    decreases |ps|
  {
    if ps != [] {
      var pushed := PushTrail(trail, ps[0]);
      assert pushed == Window(trail + [ps[0]]);
      TrailKeepsLatest(pushed, ps[1..]);
      WindowOfWindow(trail + [ps[0]], ps[1..]);
      assert trail + [ps[0]] + ps[1..] == trail + ps;
    }
  }

  /** The record one frame produces before the removal test: gravity changes
      the vertical velocity, then the position moves by the NEW velocity
      times `delta` (semi-implicit Euler), and the new position joins the trail. */
  function Advance(a: Arrow, delta: real): (b: Arrow)
    ensures b.id == a.id
    ensures b.velocity.x == a.velocity.x && b.velocity.z == a.velocity.z
    ensures b.velocity.y == a.velocity.y + Gravity * delta
    ensures b.position == Add(a.position, Scale(b.velocity, delta))
    ensures b.position.x == a.position.x + a.velocity.x * delta
    ensures b.position.z == a.position.z + a.velocity.z * delta
    ensures b.position.y == a.position.y + a.velocity.y * delta + Gravity * delta * delta
    ensures b.trail == PushTrail(a.trail, b.position)
    ensures TrailValid(a) ==> TrailValid(b)
  {
    var v := Vec3(a.velocity.x, a.velocity.y + Gravity * delta, a.velocity.z);
    var p := Add(a.position, Scale(v, delta));
    a.(position := p, velocity := v, trail := PushTrail(a.trail, p))
  }

  /** Above the ground and no farther than 150 from the origin. */
  predicate InRange(p: Vec3) {
    0.0 <= p.y && NormSq(p) <= MaxRangeSq
  }

  /** One frame of one arrow: removed exactly when its new position is below
      the ground or beyond range, otherwise replaced by the advanced record. */
  function Step(a: Arrow, delta: real): (r: StepOutcome)
    ensures r.Removed? <==> Advance(a, delta).position.y < 0.0 || NormSq(Advance(a, delta).position) > MaxRangeSq
    ensures r.Updated? ==> r.arrow == Advance(a, delta) && InRange(r.arrow.position)
  {
    var b := Advance(a, delta);
    if b.position.y < 0.0 || NormSq(b.position) > MaxRangeSq then Removed else Updated(b)
  }

  function ArrowIds(arrows: seq<Arrow>): set<int> {
    set a | a in arrows :: a.id
  }

  predicate DistinctArrowIds(arrows: seq<Arrow>) {
    forall i, j :: 0 <= i < j < |arrows| ==> arrows[i].id != arrows[j].id
  }

  /** The live list without the arrows whose id is among `ids`, the others
      kept in order. */
  function RemoveIds(arrows: seq<Arrow>, ids: set<int>): seq<Arrow>
    decreases |arrows|
  {
    if arrows == [] then []
    else
      var last := arrows[|arrows| - 1];
      RemoveIds(arrows[..|arrows| - 1], ids) + (if last.id in ids then [] else [last])
  }

  /** The filter keeps exactly the arrows whose id is not among `ids`. */
  lemma {:induction false} RemoveIdsMembers(arrows: seq<Arrow>, ids: set<int>)
    ensures forall a :: a in RemoveIds(arrows, ids) <==> a in arrows && a.id !in ids
    decreases |arrows|
  {
    if arrows != [] {
      var init, last := arrows[..|arrows| - 1], arrows[|arrows| - 1];
      RemoveIdsMembers(init, ids);
      assert arrows == init + [last];
    }
  }

  /** Filtering keeps the order: it distributes over concatenation. */
  lemma {:induction false} RemoveIdsAppend(x: seq<Arrow>, y: seq<Arrow>, ids: set<int>)
    ensures RemoveIds(x + y, ids) == RemoveIds(x, ids) + RemoveIds(y, ids)
    decreases |y|
  {
    if y != [] {
      var y' := y[..|y| - 1];
      assert (x + y)[..|x + y| - 1] == x + y';
      RemoveIdsAppend(x, y', ids);
    } else {
      assert x + y == x;
    }
  }

  /** Two filters in a row are one filter by the union of the ids. */
  lemma {:induction false} RemoveIdsTwice(arrows: seq<Arrow>, s: set<int>, t: set<int>)
    ensures RemoveIds(RemoveIds(arrows, s), t) == RemoveIds(arrows, s + t)
    decreases |arrows|
  {
    if arrows != [] {
      var init, last := arrows[..|arrows| - 1], arrows[|arrows| - 1];
      RemoveIdsTwice(init, s, t);
      var tail := if last.id in s then [] else [last];
      RemoveIdsAppend(RemoveIds(init, s), tail, t);
      assert RemoveIds(tail, t) == (if last.id in s + t then [] else [last]) by {
        if tail != [] {
          assert RemoveIds(tail, t) == RemoveIds([], t) + (if last.id in t then [] else [last]);
        }
      }
    }
  }

  /** Filtering by ids that no arrow carries changes nothing. */
  lemma {:induction false} RemoveIdsAbsent(arrows: seq<Arrow>, ids: set<int>)
    requires forall i :: 0 <= i < |arrows| ==> arrows[i].id !in ids
    ensures RemoveIds(arrows, ids) == arrows
    decreases |arrows|
  {
    if arrows != [] {
      var init, last := arrows[..|arrows| - 1], arrows[|arrows| - 1];
      assert forall i :: 0 <= i < |init| ==> init[i] == arrows[i];
      RemoveIdsAbsent(init, ids);
      assert init + [last] == arrows;
    }
  }

  /** The live list with every entry carrying `id` replaced by `b`. */
  function ReplaceById(arrows: seq<Arrow>, id: int, b: Arrow): (r: seq<Arrow>)
    ensures |r| == |arrows|
    ensures forall i :: 0 <= i < |arrows| && arrows[i].id != id ==> r[i] == arrows[i]
    ensures forall i :: 0 <= i < |arrows| && arrows[i].id == id ==> r[i] == b
  {
    seq(|arrows|, i requires 0 <= i < |arrows| => if arrows[i].id == id then b else arrows[i])
  }

  /** What one arrow's frame does to the live list: filters it out by id,
      or replaces the entries with its id by its updated record. */
  function ApplyOutcome(arrows: seq<Arrow>, id: int, o: StepOutcome): seq<Arrow>
  {
    match o
    case Removed => RemoveIds(arrows, {id})
    case Updated(b) => ReplaceById(arrows, id, b)
  }

  /** The arrows an outcome leaves behind: none, or the updated record. */
  function Kept(o: StepOutcome): seq<Arrow> {
    match o
    case Removed => []
    case Updated(b) => [b]
  }

  /** When `id` is carried by no other entry, applying an outcome to the one
      entry with that id touches nothing else. */
  lemma ApplyOutcomeAlone(before: seq<Arrow>, a: Arrow, after: seq<Arrow>, o: StepOutcome)
    requires a.id !in ArrowIds(before) && a.id !in ArrowIds(after)
    ensures ApplyOutcome(before + [a] + after, a.id, o) == before + Kept(o) + after
  {
    var whole := before + [a] + after;
    match o
    case Removed =>
      RemoveIdsAppend(before + [a], after, {a.id});
      RemoveIdsAppend(before, [a], {a.id});
      forall i | 0 <= i < |before| ensures before[i].id !in {a.id} {
        assert before[i] in before;
      }
      forall i | 0 <= i < |after| ensures after[i].id !in {a.id} {
        assert after[i] in after;
      }
      RemoveIdsAbsent(before, {a.id});
      RemoveIdsAbsent(after, {a.id});
      assert RemoveIds([a], {a.id}) == RemoveIds([], {a.id}) + [];
    case Updated(b) =>
      var r := ReplaceById(whole, a.id, b);
      assert r == before + [b] + after by {
        forall i | 0 <= i < |whole| ensures r[i] == (before + [b] + after)[i] {
          if i < |before| {
            assert whole[i] in before;
          } else if i > |before| {
            assert whole[i] == after[i - |before| - 1];
            assert whole[i] in after;
          }
        }
      }
  }

  /** Steps that keep the arrow's id, as Step does. */
  ghost predicate KeepsIds(step: Arrow -> StepOutcome) {
    forall a :: step(a).Updated? ==> step(a).arrow.id == a.id
  }

  /** The first `k` arrows of `snapshot`, in order, each apply the outcome
      of `step` on themselves to the live list `current`. */
  function FrameBy(current: seq<Arrow>, snapshot: seq<Arrow>, k: nat, step: Arrow -> StepOutcome): seq<Arrow>
    requires k <= |snapshot|
  {
    if k == 0 then current
    else ApplyOutcome(FrameBy(current, snapshot, k - 1, step), snapshot[k - 1].id, step(snapshot[k - 1]))
  }

  /** The first `k` arrows stepped by `step`, the removed ones dropped, the
      others kept in their order. */
  function SurvivorsBy(arrows: seq<Arrow>, k: nat, step: Arrow -> StepOutcome): seq<Arrow>
    requires k <= |arrows|
  {
    if k == 0 then [] else SurvivorsBy(arrows, k - 1, step) + Kept(step(arrows[k - 1]))
  }

  lemma {:induction false} SurvivorsByIds(arrows: seq<Arrow>, k: nat, step: Arrow -> StepOutcome)
    requires KeepsIds(step) && k <= |arrows|
    ensures ArrowIds(SurvivorsBy(arrows, k, step)) <= ArrowIds(arrows[..k])
  {
    if k > 0 {
      SurvivorsByIds(arrows, k - 1, step);
      assert ArrowIds(arrows[..k - 1]) <= ArrowIds(arrows[..k]) by {
        assert forall a :: a in arrows[..k - 1] ==> a in arrows[..k];
      }
      assert arrows[k - 1] in arrows[..k];
    }
  }

  /** With distinct ids, the id of entry `j` occurs neither before nor after it. */
  lemma DistinctSplit(s: seq<Arrow>, j: nat)
    requires DistinctArrowIds(s) && j < |s|
    ensures s[j].id !in ArrowIds(s[..j]) && s[j].id !in ArrowIds(s[j + 1..])
  {
    forall c | c in s[..j] ensures c.id != s[j].id {
      var i :| 0 <= i < j && s[..j][i] == c;
    }
    forall c | c in s[j + 1..] ensures c.id != s[j].id {
      var i :| 0 <= i < |s| - j - 1 && s[j + 1..][i] == c;
      assert s[j + 1 + i] == c;
    }
  }

  /** The arrows from index `k` on, built element by element. It equals
      `s[k..]` (SuffixIsDrop); the frame proofs use it instead of the slice
      because its one-step unfolding keeps them small. */
  function Suffix(s: seq<Arrow>, k: nat): seq<Arrow>
    requires k <= |s|
    decreases |s| - k
  {
    if k == |s| then [] else [s[k]] + Suffix(s, k + 1)
  }

  lemma {:induction false} SuffixIsDrop(s: seq<Arrow>, k: nat)
    requires k <= |s|
    ensures Suffix(s, k) == s[k..]
    decreases |s| - k
  {
    if k < |s| {
      SuffixIsDrop(s, k + 1);
      assert s[k..] == [s[k]] + s[k + 1..];
    }
  }

  /** After the first `k` arrows of a frame, the list holds their
      survivors, stepped and in order, followed by the arrows not yet stepped. */
  ghost predicate SteppedPrefix(s: seq<Arrow>, k: nat, step: Arrow -> StepOutcome)
    requires k <= |s|
  {
    FrameBy(s, s, k, step) == SurvivorsBy(s, k, step) + Suffix(s, k)
  }

  /** One more arrow of the frame, when the earlier ones have already left
      their survivors in front of the untouched rest of the list. */
  lemma FrameByPrefixStep(s: seq<Arrow>, k: nat, step: Arrow -> StepOutcome)
    requires DistinctArrowIds(s) && KeepsIds(step) && 0 < k <= |s|
    requires SteppedPrefix(s, k - 1, step)
    ensures SteppedPrefix(s, k, step)
  {
    var j := k - 1;
    var a := s[j];
    var done, rest := SurvivorsBy(s, j, step), Suffix(s, k);
    var o := step(a);
    assert FrameBy(s, s, j, step) == done + [a] + rest;
    assert FrameBy(s, s, k, step) == ApplyOutcome(done + [a] + rest, a.id, o);
    assert ApplyOutcome(done + [a] + rest, a.id, o) == done + Kept(o) + rest by {
      SuffixIsDrop(s, k);
      DistinctSplit(s, j);
      SurvivorsByIds(s, j, step);
      ApplyOutcomeAlone(done, a, rest, o);
    }
    assert SurvivorsBy(s, k, step) == done + Kept(o);
  }

  lemma FrameByPrefixBase(s: seq<Arrow>, step: Arrow -> StepOutcome)
    ensures SteppedPrefix(s, 0, step)
  {
    SuffixIsDrop(s, 0);
    assert [] + Suffix(s, 0) == s;
  }

  /** With distinct ids, after the first `k` arrows of a frame the list
      holds their survivors, stepped and in order, followed by the arrows
      not yet stepped. */
  lemma {:induction false} FrameByPrefix(s: seq<Arrow>, k: nat, step: Arrow -> StepOutcome)
    requires DistinctArrowIds(s) && KeepsIds(step) && k <= |s|
    ensures SteppedPrefix(s, k, step)
  {
    if k == 0 {
      FrameByPrefixBase(s, step);
    } else {
      FrameByPrefix(s, k - 1, step);
      FrameByPrefixStep(s, k, step);
    }
  }

  /** One frame of the first `k` arrows: each steps the record it was
      rendered with (`snapshot`) and applies its outcome to the live list. */
  function FrameArrows(current: seq<Arrow>, snapshot: seq<Arrow>, k: nat, delta: real): seq<Arrow>
    requires k <= |snapshot|
  {
    FrameBy(current, snapshot, k, a => Step(a, delta))
  }

  /** The frame's next arrow applies the outcome of stepping its rendered
      record to the live list. */
  lemma FrameArrowsNext(current: seq<Arrow>, snapshot: seq<Arrow>, k: nat, delta: real)
    requires k < |snapshot|
    ensures FrameArrows(current, snapshot, k + 1, delta)
         == ApplyOutcome(FrameArrows(current, snapshot, k, delta), snapshot[k].id, Step(snapshot[k], delta))
  {
  }

  /** Reference definition of a frame: every arrow stepped, the removed ones
      dropped, the survivors kept in their order. */
  function Survivors(arrows: seq<Arrow>, delta: real): seq<Arrow>
  {
    SurvivorsBy(arrows, |arrows|, a => Step(a, delta))
  }

  /** With distinct ids, a frame of every arrow leaves exactly the surviving
      arrows, each replaced by its stepped record, in their original order. */
  lemma FrameIsSurvivors(arrows: seq<Arrow>, delta: real)
    requires DistinctArrowIds(arrows)
    ensures FrameArrows(arrows, arrows, |arrows|, delta) == Survivors(arrows, delta)
  {
    FrameByPrefix(arrows, |arrows|, a => Step(a, delta));
    assert SurvivorsBy(arrows, |arrows|, a => Step(a, delta)) + [] == Survivors(arrows, delta);
  }

  predicate AllTrailsValid(arrows: seq<Arrow>) {
    forall a :: a in arrows ==> TrailValid(a)
  }

  /** Steps that keep every trail valid, as Step does. */
  ghost predicate KeepsTrails(step: Arrow -> StepOutcome) {
    forall a :: TrailValid(a) && step(a).Updated? ==> TrailValid(step(a).arrow)
  }

  lemma {:induction false} FrameByKeepsTrails(current: seq<Arrow>, snapshot: seq<Arrow>, k: nat, step: Arrow -> StepOutcome)
    requires AllTrailsValid(current) && AllTrailsValid(snapshot) && KeepsTrails(step)
    requires k <= |snapshot|
    ensures AllTrailsValid(FrameBy(current, snapshot, k, step))
  {
    if k > 0 {
      var last := snapshot[k - 1];
      assert TrailValid(last);
      var before := FrameBy(current, snapshot, k - 1, step);
      assert AllTrailsValid(before) by {
        FrameByKeepsTrails(current, snapshot, k - 1, step);
      }
      match step(last)
      case Removed =>
        RemoveIdsMembers(before, {last.id});
      case Updated(b) =>
        var r := ReplaceById(before, last.id, b);
        forall x | x in r ensures TrailValid(x) {
          var i :| 0 <= i < |r| && r[i] == x;
          if before[i].id != last.id {
            assert before[i] in before;
          }
        }
    }
  }

  /** A whole frame keeps every trail valid, and with distinct ids it
      leaves exactly the survivors. */
  lemma FrameFacts(arrows: seq<Arrow>, delta: real)
    requires AllTrailsValid(arrows)
    ensures AllTrailsValid(FrameArrows(arrows, arrows, |arrows|, delta))
    ensures DistinctArrowIds(arrows) ==> FrameArrows(arrows, arrows, |arrows|, delta) == Survivors(arrows, delta)
  {
    FrameKeepsTrails(arrows, arrows, |arrows|, delta);
    if DistinctArrowIds(arrows) {
      FrameIsSurvivors(arrows, delta);
    }
  }

  /** A frame of the first `k` arrows keeps every trail valid. */
  lemma FrameKeepsTrails(current: seq<Arrow>, snapshot: seq<Arrow>, k: nat, delta: real)
    requires AllTrailsValid(current) && AllTrailsValid(snapshot) && k <= |snapshot|
    ensures AllTrailsValid(FrameArrows(current, snapshot, k, delta))
  {
    FrameByKeepsTrails(current, snapshot, k, a => Step(a, delta));
  }
}
