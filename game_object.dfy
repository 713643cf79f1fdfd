/**
  `GameObject`, the base class of every entity of the game: a lifecycle
  state (idle, active, destroyed), a decaying "noise" timer, a destructive
  spawn queue, a jumping flag and the last floor and ceiling heights
  recorded for it.  The polygon group that draws it belongs to a 3D library
  outside this model; it is represented only by the log of elapsed times
  forwarded to its `update`.
*/
module Game {
  import opened JavaLang

  const StateIdle: Int32 := 0
  const StateActive: Int32 := 1
  const StateDestroyed: Int32 := 2

  /** The visual representation, reduced to the calls `GameObject.update` makes on it. */
  class PolygonGroup {
    /** The elapsed time of every `update(elapsedTime)` call received, oldest first. */
    var updates: seq<Int64>

    constructor ()
      ensures updates == []
    {
      updates := [];
    }

    method Update(elapsedTime: Int64)
      modifies this
      ensures updates == old(updates) + [elapsedTime]
    {
      updates := updates + [elapsedTime];
    }
  }

  class GameObject {
    /** Bound at construction and never rebound; may be null. */
    const polygonGroup: PolygonGroup?
    /** One of the three state constants in practice; the setters do not check. */
    var state: Int32
    var isJumping: bool
    /** Java `float`s that are only stored and returned, so any value type serves. */
    var floorHeight: real
    var ceilHeight: real
    var noiseDuration: Int64
    /** `null` until the first `addSpawn`, and again after each `getSpawns`. */
    var spawns: Option<seq<GameObject?>>

    /** The spawn list is never allocated without something in it. */
    ghost predicate Valid()
      reads this
    {
      spawns.Some? ==> |spawns.value| > 0
    }

    /** The objects spawned since the last `getSpawns`, in order. */
    function PendingSpawns(): seq<GameObject?>
      reads this
    {
      if spawns.Some? then spawns.value else []
    }

    /** `new GameObject(polygonGroup)`: idle, not jumping, silent, no spawns. */
    constructor (polygonGroup: PolygonGroup?)
      ensures this.polygonGroup == polygonGroup
      ensures Valid() && IsIdle() && !IsActive() && !IsDestroyed()
      ensures !isJumping && floorHeight == 0.0 && ceilHeight == 0.0
      ensures noiseDuration == 0 && !IsMakingNoise() && spawns == None
    {
      this.polygonGroup := polygonGroup;
      state := StateIdle;
      isJumping := false;
      floorHeight := 0.0;
      ceilHeight := 0.0;
      noiseDuration := 0;
      spawns := None;
    }

    method SetFloorHeight(floorHeight: real)
      modifies this`floorHeight
      ensures GetFloorHeight() == floorHeight
    {
      this.floorHeight := floorHeight;
    }

    method SetCeilHeight(ceilHeight: real)
      modifies this`ceilHeight
      ensures GetCeilHeight() == ceilHeight
    {
      this.ceilHeight := ceilHeight;
    }

    function GetFloorHeight(): real
      reads this
    {
      floorHeight
    }

    function GetCeilHeight(): real
      reads this
    {
      ceilHeight
    }

    /** `setState(state)`: stores the value as given, checked against nothing. */
    method SetState(state: Int32)
      modifies this`state
      ensures this.state == state
    {
      this.state := state;
    }

    /** `setState(object, state)`: any object may set the state of any other. */
    method SetStateOf(other: GameObject, state: Int32)
      modifies other`state
      ensures other.state == state
      ensures other != this ==> this.state == old(this.state)
    {
      other.SetState(state);
    }

    /** Flying objects get no gravity; the base class never flies. */
    function IsFlying(): (flying: bool)
      ensures !flying
    {
      false
    }

    function IsJumping(): bool
      reads this
    {
      isJumping
    }

    method SetJumping(b: bool)
      modifies this`isJumping
      ensures IsJumping() == b
    {
      isJumping := b;
    }

    predicate IsIdle()
      reads this
    {
      state == StateIdle
    }

    predicate IsActive()
      reads this
    {
      state == StateActive
    }

    predicate IsDestroyed()
      reads this
    {
      state == StateDestroyed
    }

    predicate IsMakingNoise()
      reads this
    {
      noiseDuration > 0
    }

    /** `makeNoise(duration)`: the longer of the current and the new noise wins. */
    method MakeNoise(duration: Int64)
      modifies this`noiseDuration
      ensures noiseDuration == if old(noiseDuration) < duration then duration else old(noiseDuration)
      ensures noiseDuration >= old(noiseDuration) && noiseDuration >= duration
    {
      if noiseDuration < duration {
        noiseDuration := duration;
      }
    }

    /** `addSpawn(object)`: appends to the spawn list, allocating it on first use; `null` is stored like any object. */
    method AddSpawn(spawn: GameObject?)
      requires Valid()
      modifies this`spawns
      ensures Valid() && spawns == Some(old(PendingSpawns()) + [spawn])
      ensures PendingSpawns() == old(PendingSpawns()) + [spawn]
    {
      if spawns == None {
        spawns := Some([]);
      }
      spawns := Some(spawns.value + [spawn]);
    }

    /** `getSpawns()`: hands over the spawn list (null if nothing was spawned) and drops it. */
    method GetSpawns() returns (spawned: Option<seq<GameObject?>>)
      requires Valid()
      modifies this`spawns
      ensures Valid() && spawns == None && PendingSpawns() == []
      ensures spawned == old(spawns)
      ensures spawned == if old(PendingSpawns()) == [] then None else Some(old(PendingSpawns()))
    {
      spawned := spawns;
      spawns := None;
    }

    /**
      `update(player, elapsedTime)`: a noise still sounding runs down by the
      elapsed time (in `long` arithmetic); an active object forwards the tick
      to its polygon group, which must then exist.  The player is not used.
    */
    method Update(player: GameObject?, elapsedTime: Int64)
      requires IsActive() ==> polygonGroup != null
      modifies this`noiseDuration, polygonGroup
      ensures noiseDuration == if old(noiseDuration) > 0 then ToLong(old(noiseDuration) - elapsedTime)
                               else old(noiseDuration)
      ensures polygonGroup != null ==>
                polygonGroup.updates == old(polygonGroup.updates) + if old(IsActive()) then [elapsedTime] else []
      ensures state == old(state) && spawns == old(spawns)
      ensures old(IsMakingNoise()) && elapsedTime >= 0 ==> noiseDuration == old(noiseDuration) - elapsedTime
      ensures old(IsMakingNoise()) && elapsedTime >= old(noiseDuration) ==> !IsMakingNoise()
    {
      if IsMakingNoise() {
        noiseDuration := ToLong(noiseDuration - elapsedTime);
      }
      if IsActive() {
        polygonGroup.Update(elapsedTime);
      }
    }

    /** `notifyVisible(visible)`: an idle object that is seen becomes active; nothing else changes. */
    method NotifyVisible(visible: bool)
      modifies this`state
      ensures state == if visible && old(IsIdle()) then StateActive else old(state)
    {
      if visible && IsIdle() {
        state := StateActive;
      }
    }
  }

  /** Scenarios a caller can rely on, written as clients of the contracts above. */
  method LifecycleScenario(group: PolygonGroup)
    modifies group
  {
    var e := new GameObject(group);
    assert e.IsIdle() && !e.IsActive() && !e.IsDestroyed();
    e.NotifyVisible(false);
    assert e.IsIdle();
    e.NotifyVisible(true);
    assert e.IsActive();
    e.NotifyVisible(true);
    assert e.IsActive();
    var before := group.updates;
    e.Update(null, 100);
    assert e.IsActive() && !e.IsMakingNoise();
    assert group.updates == before + [100];
    e.SetStateOf(e, StateDestroyed);
    e.NotifyVisible(true);
    assert e.IsDestroyed();
    before := group.updates;
    e.Update(null, 100);
    assert group.updates == before;
  }

  method NoiseScenario()
  {
    var e := new GameObject(null);
    e.MakeNoise(500);
    assert e.IsMakingNoise();
    e.MakeNoise(200);
    assert e.noiseDuration == 500;
    e.Update(null, 200);
    assert e.noiseDuration == 300 && e.IsMakingNoise();
    e.Update(null, 400);
    assert e.noiseDuration == -100 && !e.IsMakingNoise();
    e.Update(null, 400);
    assert e.noiseDuration == -100;
  }

  method SpawnScenario(a: GameObject, b: GameObject)
  {
    var e := new GameObject(null);
    var none := e.GetSpawns();
    assert none == None;
    e.AddSpawn(a);
    e.AddSpawn(b);
    assert e.PendingSpawns() == [a, b];
    var got := e.GetSpawns();
    assert got == Some([a, b]);
    var again := e.GetSpawns();
    assert again == None;
    e.AddSpawn(null);
    assert e.PendingSpawns() == [null];
    var nulls := e.GetSpawns();
    assert nulls == Some([null]);
  }

  /** `setState(other, s)` changes the other object only. */
  method CrossStateScenario(group: PolygonGroup?)
  {
    var shooter := new GameObject(group);
    var target := new GameObject(group);
    shooter.SetStateOf(target, StateDestroyed);
    assert target.IsDestroyed() && shooter.IsIdle();
    shooter.SetStateOf(target, 7);
    assert target.state == 7 && !target.IsIdle() && !target.IsActive() && !target.IsDestroyed();
  }
}
