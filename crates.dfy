/** The bomb crates: their fixed starting placement and the id-keyed
    deactivation the collision pass applies to the crate list. */
module Crates {
  import opened Vectors

  datatype Crate = Crate(id: int, position: Vec3, active: bool)

  predicate DistinctCrateIds(crates: seq<Crate>) {
    forall i, j :: 0 <= i < j < |crates| ==> crates[i].id != crates[j].id
  }

  /** The five crates placed when the game mounts, all active, ids 1 to 5. */
  function InitialCrates(): (r: seq<Crate>)
    ensures |r| == 5 && DistinctCrateIds(r)
    ensures forall c :: c in r ==> c.active && c.position.y == 1.5
  {
    [ Crate(1, Vec3(8.0, 1.5, -10.0), true),
      Crate(2, Vec3(-6.0, 1.5, -8.0), true),
      Crate(3, Vec3(12.0, 1.5, -15.0), true),
      Crate(4, Vec3(-10.0, 1.5, -12.0), true),
      Crate(5, Vec3(0.0, 1.5, -20.0), true) ]
  }

  function CrateIds(crates: seq<Crate>): set<int> {
    set c | c in crates :: c.id
  }

  /** The crate list with the crates carrying one of `ids` switched off:
      those crates become inactive, every
      other crate is unchanged, and ids, positions and order are kept. */
  function DeactivateIds(crates: seq<Crate>, ids: set<int>): (r: seq<Crate>)
    ensures |r| == |crates|
    ensures forall i :: 0 <= i < |r| ==>
      r[i].id == crates[i].id && r[i].position == crates[i].position
    ensures forall i :: 0 <= i < |r| ==>
      r[i].active == (crates[i].active && crates[i].id !in ids)
  {
    seq(|crates|, i requires 0 <= i < |crates| =>
      if crates[i].id in ids then crates[i].(active := false) else crates[i])
  }

  /** Deactivating by one set of ids and then another is deactivating by
      their union. */
  lemma DeactivateIdsTwice(crates: seq<Crate>, s: set<int>, t: set<int>)
    ensures DeactivateIds(DeactivateIds(crates, s), t) == DeactivateIds(crates, s + t)
  {
    var lhs, rhs := DeactivateIds(DeactivateIds(crates, s), t), DeactivateIds(crates, s + t);
    assert |lhs| == |rhs|;
    forall i | 0 <= i < |lhs| ensures lhs[i] == rhs[i] {
      assert lhs[i].id == rhs[i].id && lhs[i].position == rhs[i].position;
      assert lhs[i].active == rhs[i].active;
    }
  }

  /** Crates that were already inactive, or whose id is not named, come out
      exactly as they went in. */
  lemma DeactivateIdsLeavesOthers(crates: seq<Crate>, ids: set<int>, i: int)
    requires 0 <= i < |crates| && (!crates[i].active || crates[i].id !in ids)
    ensures DeactivateIds(crates, ids)[i] == crates[i]
  {
    var r := DeactivateIds(crates, ids);
    assert r[i].id == crates[i].id && r[i].position == crates[i].position;
  }
}
