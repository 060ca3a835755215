/** Catalog entries (units, buildings, upgrades) as the timeline reads them. */
module Catalog {
  import opened Common

  /** One entry of the catalog data file. Only the fields the timeline reads are kept;
      an absent JSON field is `None`. */
  datatype Entity = Entity(
    name: string,
    race: string,
    buildTime: Option<real>,     // build_time
    researchTime: Option<real>,  // research_time
    minerals: Option<int>,
    gas: Option<int>)

  /** JavaScript truthiness of an optional number: present and non-zero. */
  predicate Truthy(v: Option<real>) {
    v.Some? && v.value != 0.0
  }

  /** Catalog durations are never negative. */
  predicate EntityOk(e: Entity) {
    (e.buildTime.Some? ==> e.buildTime.value >= 0.0) &&
    (e.researchTime.Some? ==> e.researchTime.value >= 0.0)
  }

  /** `build_time || research_time || 0`: the first truthy duration, build time first. */
  function GetBuildTime(e: Entity): (t: real)
    ensures t == 0.0 <==> !Truthy(e.buildTime) && !Truthy(e.researchTime)
    ensures Truthy(e.buildTime) ==> t == e.buildTime.value
    ensures !Truthy(e.buildTime) && Truthy(e.researchTime) ==> t == e.researchTime.value
    ensures EntityOk(e) ==> t >= 0.0
  {
    if Truthy(e.buildTime) then e.buildTime.value
    else if Truthy(e.researchTime) then e.researchTime.value
    else 0.0
  }

  datatype Cost = Cost(minerals: int, gas: int)

  /** `minerals || 0` and `gas || 0`: an absent cost counts as zero. */
  function GetCost(e: Entity): (c: Cost)
    ensures c.minerals == (if e.minerals.Some? then e.minerals.value else 0)
    ensures c.gas == (if e.gas.Some? then e.gas.value else 0)
  {
    Cost(if e.minerals.Some? then e.minerals.value else 0,
         if e.gas.Some? then e.gas.value else 0)
  }

  /** The chronoboost write-back: overwrite `build_time` if it is truthy, otherwise
      `research_time` if that is truthy, otherwise nothing. It writes exactly the field
      that `GetBuildTime` reads, so a non-zero duration reads back as written. */
  function SetBuildTime(e: Entity, t: real): (r: Entity)
    ensures r.name == e.name && r.race == e.race && r.minerals == e.minerals && r.gas == e.gas
    ensures GetBuildTime(e) == 0.0 ==> r == e
    ensures GetBuildTime(e) != 0.0 && t != 0.0 ==> GetBuildTime(r) == t
    ensures EntityOk(e) && t >= 0.0 ==> EntityOk(r)
  {
    if Truthy(e.buildTime) then e.(buildTime := Some(t))
    else if Truthy(e.researchTime) then e.(researchTime := Some(t))
    else e
  }
}
