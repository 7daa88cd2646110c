/** The four scopes a summary or a device list is asked for, and the devices each one
    covers, found by following a device's gate, floor and building. */
module Topology {
  import opened Common
  import opened Entities

  datatype Scope = SiteScope(siteId: int) | BuildingScope(buildingId: int) | FloorScope(floorId: int) | GateScope(gateId: int)

  /** The floor, building and site a device's gate leads to, None (null) where a link is missing. */
  function FloorOf(db: Db, d: Device): Option<Floor>
  {
    match GateById(db.gates, d.gateId)
    case None => None
    case Some(g) => FloorById(db.floors, g.floorId)
  }

  function BuildingOf(db: Db, d: Device): Option<Building>
  {
    match FloorOf(db, d)
    case None => None
    case Some(f) => BuildingById(db.buildings, f.buildingId)
  }

  /** The scope predicates: `x.Gate.Floor.Building.SiteId == id`, `x.Gate.Floor.BuildingId == id`,
      `x.Gate.FloorId == id` and `x.GateId == id`; a comparison through a null link is false. */
  predicate InScope(db: Db, d: Device, scope: Scope)
  {
    match scope
    case GateScope(id) => d.gateId == id
    case FloorScope(id) => GateById(db.gates, d.gateId).Some? && GateById(db.gates, d.gateId).value.floorId == id
    case BuildingScope(id) => FloorOf(db, d).Some? && FloorOf(db, d).value.buildingId == id
    case SiteScope(id) => BuildingOf(db, d).Some? && BuildingOf(db, d).value.siteId == id
  }

  /** `Devices.Where(scope).Select(x => x.DeviceId).Distinct()` */
  function ScopeDevices(db: Db, scope: Scope): (r: set<string>)
    ensures forall id :: id in r <==> exists d :: d in db.devices && d.deviceId == id && InScope(db, d, scope)
  {
    set d | d in db.devices && InScope(db, d, scope) :: d.deviceId
  }

  /** A gate's devices lie on its floor, a floor's in its building, a building's on its site. */
  lemma {:induction false} ScopesNest(db: Db, g: Gate, f: Floor, b: Building)
    requires KeysUnique(db)
    ensures g in db.gates ==> ScopeDevices(db, GateScope(g.gateId)) <= ScopeDevices(db, FloorScope(g.floorId))
    ensures f in db.floors ==> ScopeDevices(db, FloorScope(f.floorId)) <= ScopeDevices(db, BuildingScope(f.buildingId))
    ensures b in db.buildings ==> ScopeDevices(db, BuildingScope(b.buildingId)) <= ScopeDevices(db, SiteScope(b.siteId))
  {
    var anyDevice := Device("", "", 0, false);
    LookupIsUnique(db, anyDevice, g, f, b);
    if g in db.gates {
      forall id | id in ScopeDevices(db, GateScope(g.gateId)) ensures id in ScopeDevices(db, FloorScope(g.floorId)) {
        var d :| d in db.devices && d.deviceId == id && InScope(db, d, GateScope(g.gateId));
        assert InScope(db, d, FloorScope(g.floorId));
      }
    }
    if f in db.floors {
      forall id | id in ScopeDevices(db, FloorScope(f.floorId)) ensures id in ScopeDevices(db, BuildingScope(f.buildingId)) {
        var d :| d in db.devices && d.deviceId == id && InScope(db, d, FloorScope(f.floorId));
        assert FloorOf(db, d) == Some(f);
        assert InScope(db, d, BuildingScope(f.buildingId));
      }
    }
    if b in db.buildings {
      forall id | id in ScopeDevices(db, BuildingScope(b.buildingId)) ensures id in ScopeDevices(db, SiteScope(b.siteId)) {
        var d :| d in db.devices && d.deviceId == id && InScope(db, d, BuildingScope(b.buildingId));
        assert BuildingOf(db, d) == Some(b);
        assert InScope(db, d, SiteScope(b.siteId));
      }
    }
  }
}
