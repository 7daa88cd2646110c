/** The rows of the tables the core reads, with the fields the queries use, and the
    navigation from a record to its device, gate, floor and building. Nullable text
    columns are `string`s in which the empty string also stands for null. */
module Entities {
  import opened Common

  datatype Building = Building(buildingId: int, buildingName: string, buildingDescription: string, siteId: int)

  datatype Floor = Floor(floorId: int, floorNumber: string, floorDetails: string, additionalDetails: string, buildingId: int)

  datatype Gate = Gate(gateId: int, gateNumber: string, additionalDetails: string, floorId: int)

  /** `updatedThreshold` says whether the device has picked up the current threshold. */
  datatype Device = Device(deviceId: string, deviceDetails: string, gateId: int, updatedThreshold: bool)

  /** `uid` is the face-recognition identity that records carry as PersonUID;
      `imageBase64` is the one column whose null the queries distinguish from "". */
  datatype Employee = Employee(
    employeeId: string, employeeName: string, mobile: string, siteId: int,
    departmentId: int, imageBase64: Option<string>, role: string, uid: string)

  /** `temperature` is the `decimal(5,3)` column in thousandths of a degree. */
  datatype TemperatureRecord = TemperatureRecord(
    personUid: string, personName: string, deviceId: string, temperature: int,
    timestamp: Timestamp, imagePath: string, imageBase64: string, ic: string, mobile: string)

  datatype MaskRecord = MaskRecord(
    personUid: string, personName: string, deviceId: string, maskValue: int,
    timestamp: Timestamp, imagePath: string, imageBase64: string, ic: string, mobile: string)

  /** The tables, each in the order the store enumerates it. */
  datatype Db = Db(
    buildings: seq<Building>, floors: seq<Floor>, gates: seq<Gate>, devices: seq<Device>,
    employees: seq<Employee>, temperatureRecords: seq<TemperatureRecord>, maskRecords: seq<MaskRecord>)

  /** Primary keys: no two rows of a topology table share their id. */
  predicate KeysUnique(db: Db)
  {
    && (forall i, j :: 0 <= i < j < |db.buildings| ==> db.buildings[i].buildingId != db.buildings[j].buildingId)
    && (forall i, j :: 0 <= i < j < |db.floors| ==> db.floors[i].floorId != db.floors[j].floorId)
    && (forall i, j :: 0 <= i < j < |db.gates| ==> db.gates[i].gateId != db.gates[j].gateId)
    && (forall i, j :: 0 <= i < j < |db.devices| ==> db.devices[i].deviceId != db.devices[j].deviceId)
  }

  // Navigation properties: the row a foreign key refers to, or None (null) when there is none.

  function DeviceById(devices: seq<Device>, id: string): (r: Option<Device>)
    ensures r.Some? ==> r.value in devices && r.value.deviceId == id
    ensures r.None? <==> forall d :: d in devices ==> d.deviceId != id
  {
    if devices == [] then None
    else if devices[0].deviceId == id then Some(devices[0])
    else DeviceById(devices[1..], id)
  }

  function GateById(gates: seq<Gate>, id: int): (r: Option<Gate>)
    ensures r.Some? ==> r.value in gates && r.value.gateId == id
    ensures r.None? <==> forall g :: g in gates ==> g.gateId != id
  {
    if gates == [] then None
    else if gates[0].gateId == id then Some(gates[0])
    else GateById(gates[1..], id)
  }

  function FloorById(floors: seq<Floor>, id: int): (r: Option<Floor>)
    ensures r.Some? ==> r.value in floors && r.value.floorId == id
    ensures r.None? <==> forall f :: f in floors ==> f.floorId != id
  {
    if floors == [] then None
    else if floors[0].floorId == id then Some(floors[0])
    else FloorById(floors[1..], id)
  }

  function BuildingById(buildings: seq<Building>, id: int): (r: Option<Building>)
    ensures r.Some? ==> r.value in buildings && r.value.buildingId == id
    ensures r.None? <==> forall b :: b in buildings ==> b.buildingId != id
  {
    if buildings == [] then None
    else if buildings[0].buildingId == id then Some(buildings[0])
    else BuildingById(buildings[1..], id)
  }

  /** `record.Device.Gate.AdditionalDetails`, "" (null) when the device or gate is missing. */
  function Location(db: Db, deviceId: string): string
  {
    match DeviceById(db.devices, deviceId)
    case None => ""
    case Some(d) =>
      match GateById(db.gates, d.gateId)
      case None => ""
      case Some(g) => g.additionalDetails
  }

  /** With unique keys, the row a lookup finds is the only row with that key. */
  lemma {:induction false} LookupIsUnique(db: Db, d: Device, g: Gate, f: Floor, b: Building)
    requires KeysUnique(db)
    ensures d in db.devices ==> DeviceById(db.devices, d.deviceId) == Some(d)
    ensures g in db.gates ==> GateById(db.gates, g.gateId) == Some(g)
    ensures f in db.floors ==> FloorById(db.floors, f.floorId) == Some(f)
    ensures b in db.buildings ==> BuildingById(db.buildings, b.buildingId) == Some(b)
  {
    if d in db.devices { DeviceUnique(db.devices, d); }
    if g in db.gates { GateUnique(db.gates, g); }
    if f in db.floors { FloorUnique(db.floors, f); }
    if b in db.buildings { BuildingUnique(db.buildings, b); }
  }

  lemma {:induction false} DeviceUnique(ds: seq<Device>, d: Device)
    requires forall i, j :: 0 <= i < j < |ds| ==> ds[i].deviceId != ds[j].deviceId
    requires d in ds
    ensures DeviceById(ds, d.deviceId) == Some(d)
  {
    if ds[0] != d {
      assert ds[0].deviceId != d.deviceId by {
        var j :| 0 <= j < |ds| && ds[j] == d;
      }
      DeviceUnique(ds[1..], d);
    }
  }

  lemma {:induction false} GateUnique(gs: seq<Gate>, g: Gate)
    requires forall i, j :: 0 <= i < j < |gs| ==> gs[i].gateId != gs[j].gateId
    requires g in gs
    ensures GateById(gs, g.gateId) == Some(g)
  {
    if gs[0] != g {
      assert gs[0].gateId != g.gateId by {
        var j :| 0 <= j < |gs| && gs[j] == g;
      }
      GateUnique(gs[1..], g);
    }
  }

  lemma {:induction false} FloorUnique(fs: seq<Floor>, f: Floor)
    requires forall i, j :: 0 <= i < j < |fs| ==> fs[i].floorId != fs[j].floorId
    requires f in fs
    ensures FloorById(fs, f.floorId) == Some(f)
  {
    if fs[0] != f {
      assert fs[0].floorId != f.floorId by {
        var j :| 0 <= j < |fs| && fs[j] == f;
      }
      FloorUnique(fs[1..], f);
    }
  }

  lemma {:induction false} BuildingUnique(bs: seq<Building>, b: Building)
    requires forall i, j :: 0 <= i < j < |bs| ==> bs[i].buildingId != bs[j].buildingId
    requires b in bs
    ensures BuildingById(bs, b.buildingId) == Some(b)
  {
    if bs[0] != b {
      assert bs[0].buildingId != b.buildingId by {
        var j :| 0 <= j < |bs| && bs[j] == b;
      }
      BuildingUnique(bs[1..], b);
    }
  }
}
