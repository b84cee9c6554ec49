/** The slice of the scene the pilot's action leaves look at. Game objects
    are identified by handle; a handle that is no longer in the scene is a
    destroyed object, which Unity compares equal to null. A mecha object
    carries its actor record and, when it has one, its projectile sensor.
    The registry lists the handles of the registered mechas in its
    iteration order. */
module World {
  import opened Numeric
  import opened Geometry
  import opened Blackboard
  import Mecha
  import Sensor

  datatype Entity =
    | Prop(pos: Vec3, sensor: Option<Sensor.SensorState>)
    | Pilot(mecha: Mecha.Mecha, sensor: Option<Sensor.SensorState>)

  /** transform.position; a mecha's position is its own record's. */
  function Position(e: Entity): Vec3 {
    match e
    case Prop(p, _) => p
    case Pilot(m, _) => m.position
  }

  datatype Scene = Scene(objects: map<nat, Entity>, registry: seq<nat>)

  /** The flattened offset from one object to another, z dropped. */
  function FlatOffset(scene: Scene, self: nat, target: nat): Vec2
    requires self in scene.objects && target in scene.objects
  {
    Sub(XY(Position(scene.objects[target])), XY(Position(scene.objects[self])))
  }


  /** Blackboard.GetTransform(key), compared against null. */
  function ResolveTransform(b: Board, key: string, scene: Scene): (r: Option<nat>)
    ensures r.Some? <==> GetTransform(b, key).TransformV? && GetTransform(b, key).transform in scene.objects
    ensures r.Some? ==> key in b && b[key] == TransformV(r.value)
  {
    var v := GetTransform(b, key);
    if v.TransformV? && v.transform in scene.objects then Some(v.transform) else None
  }

  /** Blackboard.GetGameObject(key), compared against null. */
  function ResolveGameObject(b: Board, key: string, scene: Scene): (r: Option<nat>)
    ensures r.Some? <==> GetGameObject(b, key).GameObjectV? && GetGameObject(b, key).obj in scene.objects
    ensures r.Some? ==> key in b && b[key] == GameObjectV(r.value)
  {
    var v := GetGameObject(b, key);
    if v.GameObjectV? && v.obj in scene.objects then Some(v.obj) else None
  }

  /** GetComponent<Mecha>() on a resolved object. */
  function MechaOf(scene: Scene, h: nat): Option<Mecha.Mecha> {
    if h in scene.objects && scene.objects[h].Pilot? then Some(scene.objects[h].mecha) else None
  }

  /** The registry as the nearest-enemy query sees it. */
  function Roster(scene: Scene): (all: seq<Option<Mecha.Mecha>>)
    ensures |all| == |scene.registry|
    ensures forall i :: 0 <= i < |all| ==> all[i] == MechaOf(scene, scene.registry[i])
  {
    seq(|scene.registry|, i requires 0 <= i < |scene.registry| => MechaOf(scene, scene.registry[i]))
  }

  /** GetComponent<MechaProjectileSensor>() on a resolved object. */
  function SensorOf(scene: Scene, h: nat): Option<Sensor.SensorState> {
    if h in scene.objects then scene.objects[h].sensor else None
  }

  /** Writes back a mecha that an action moved or made dash. */
  function Replace(scene: Scene, h: nat, m: Mecha.Mecha): (r: Scene)
    requires MechaOf(scene, h).Some?
    ensures MechaOf(r, h) == Some(m)
    ensures r.registry == scene.registry && r.objects.Keys == scene.objects.Keys
    ensures forall k :: k in scene.objects && k != h ==> r.objects[k] == scene.objects[k]
  {
    scene.(objects := scene.objects[h := Pilot(m, scene.objects[h].sensor)])
  }

  /** The longest attack range over the mecha's weapons, scanning in list
      order, skipping empty slots and keeping a running maximum from 0. */
  function LongestRange(weapons: seq<Option<Mecha.Weapon>>): real
  {
    if |weapons| == 0 then 0.0
    else
      var longest := LongestRange(weapons[..|weapons| - 1]);
      var w := weapons[|weapons| - 1];
      if w.Some? && w.value.attackRange > longest then w.value.attackRange else longest
  }

  /** The scan's result is 0 or the range of a weapon, and no weapon
      reaches further. */
  lemma {:induction false} LongestRangeIsMax(weapons: seq<Option<Mecha.Weapon>>)
    ensures 0.0 <= LongestRange(weapons)
    ensures forall i :: 0 <= i < |weapons| && weapons[i].Some? ==>
      weapons[i].value.attackRange <= LongestRange(weapons)
    ensures LongestRange(weapons) == 0.0 ||
      (exists i :: 0 <= i < |weapons| && weapons[i].Some? &&
         weapons[i].value.attackRange == LongestRange(weapons))
  {
    if |weapons| > 0 {
      var init := weapons[..|weapons| - 1];
      LongestRangeIsMax(init);
      var l := LongestRange(init);
      if LongestRange(weapons) != 0.0 && LongestRange(weapons) == l {
        var i :| 0 <= i < |init| && init[i].Some? && init[i].value.attackRange == l;
        assert weapons[i] == init[i];
      }
      forall i | 0 <= i < |weapons| && weapons[i].Some?
        ensures weapons[i].value.attackRange <= LongestRange(weapons)
      {
        if i < |init| { assert weapons[i] == init[i]; }
      }
    }
  }
}
