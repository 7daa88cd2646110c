/** The site endpoints: the device list of a site, the daily summary of a site, building,
    floor or gate, and the entrance log of a site for today. "Today" is a parameter, the
    midnight that `DateTime.Today` returns. */
module Site {
  import opened Common
  import opened Decimals
  import opened Entities
  import opened Linq
  import opened Timeline
  import opened Topology
  import ConfigReader

  // ---------------------------------------------------------------------------
  // GetSiteDevices

  datatype SiteDeviceRow = SiteDeviceRow(
    buildingId: int, buildingName: string, floorId: int, floorNumber: string, floorDetails: string,
    gateId: int, gateNumber: string, deviceId: string, deviceDetails: string)

  function DeviceRow(b: Building, f: Floor, g: Gate, d: Device): SiteDeviceRow
  {
    SiteDeviceRow(b.buildingId, b.buildingName, f.floorId, f.floorNumber, f.floorDetails, g.gateId, g.gateNumber, d.deviceId, d.deviceDetails)
  }

  /** The inner join Buildings ⋈ Floors ⋈ Gates ⋈ Devices, restricted to the site. */
  predicate Chained(b: Building, f: Floor, g: Gate, d: Device, siteId: int)
  {
    b.buildingId == f.buildingId && f.floorId == g.floorId && g.gateId == d.gateId && b.siteId == siteId
  }

  /** The rows of the join, one per chained building, floor, gate and device. */
  function SiteDeviceJoin(db: Db, siteId: int): set<SiteDeviceRow>
  {
    set b, f, g, d | b in db.buildings && f in db.floors && g in db.gates && d in db.devices && Chained(b, f, g, d, siteId)
      :: DeviceRow(b, f, g, d)
  }

  /** GetSiteDevices: with unique keys, the devices the join lists are exactly the site's
      devices as the summaries select them through the navigation links. */
  function GetSiteDevices(db: Db, siteId: int): (r: set<SiteDeviceRow>)
    ensures KeysUnique(db) ==> (set row | row in r :: row.deviceId) == ScopeDevices(db, SiteScope(siteId))
  {
    SiteDevicesMatchScope(db, siteId);
    SiteDeviceJoin(db, siteId)
  }

  lemma {:induction false} SiteDevicesMatchScope(db: Db, siteId: int)
    ensures KeysUnique(db) ==> (set row | row in SiteDeviceJoin(db, siteId) :: row.deviceId) == ScopeDevices(db, SiteScope(siteId))
  {
    if !KeysUnique(db) {
      return;
    }
    var listed := set row | row in SiteDeviceJoin(db, siteId) :: row.deviceId;
    forall id | id in listed ensures id in ScopeDevices(db, SiteScope(siteId)) {
      var row :| row in SiteDeviceJoin(db, siteId) && row.deviceId == id;
      var b, f, g, d :| b in db.buildings && f in db.floors && g in db.gates && d in db.devices &&
                        Chained(b, f, g, d, siteId) && row == DeviceRow(b, f, g, d);
      LookupIsUnique(db, d, g, f, b);
      assert BuildingOf(db, d) == Some(b);
    }
    forall id | id in ScopeDevices(db, SiteScope(siteId)) ensures id in listed {
      var d :| d in db.devices && d.deviceId == id && InScope(db, d, SiteScope(siteId));
      var g := GateById(db.gates, d.gateId).value;
      var f := FloorById(db.floors, g.floorId).value;
      var b := BuildingById(db.buildings, f.buildingId).value;
      assert Chained(b, f, g, d, siteId);
      assert DeviceRow(b, f, g, d) in SiteDeviceJoin(db, siteId);
    }
  }

  // ---------------------------------------------------------------------------
  // The daily summary

  predicate TemperatureToday(x: TemperatureRecord, devices: set<string>, today: Timestamp)
  {
    x.deviceId in devices && DateOf(x.timestamp) == today
  }

  predicate MaskToday(x: MaskRecord, devices: set<string>, today: Timestamp)
  {
    x.deviceId in devices && DateOf(x.timestamp) == today
  }

  /** The EmployeeIds of employees with a temperature or a mask record today on the devices. */
  function EmployeesPresent(db: Db, devices: set<string>, today: Timestamp): set<string>
  {
    set a | a in db.employees &&
      ((exists x :: x in db.temperatureRecords && x.personUid == a.uid && TemperatureToday(x, devices, today)) ||
       (exists x :: x in db.maskRecords && x.personUid == a.uid && MaskToday(x, devices, today)))
      :: a.employeeId
  }

  /** The non-empty mobiles of visitor temperature records today on the devices. */
  function VisitorTemperatureMobiles(db: Db, devices: set<string>, today: Timestamp): set<string>
  {
    set x | x in db.temperatureRecords && x.personUid == ConfigReader.VisitorUid &&
      TemperatureToday(x, devices, today) && x.mobile != "" :: x.mobile
  }

  /** The non-empty mobiles of visitor mask records today on the devices. The visitor
      no-mask alerts are this same set: the query that counts them does not look at MaskValue. */
  function VisitorMaskMobiles(db: Db, devices: set<string>, today: Timestamp): set<string>
  {
    set x | x in db.maskRecords && x.personUid == ConfigReader.VisitorUid &&
      MaskToday(x, devices, today) && x.mobile != "" :: x.mobile
  }

  /** `visitorsInTemperatureTable.Concat(visitorsInMaskTable).Distinct()` */
  function VisitorsPresent(db: Db, devices: set<string>, today: Timestamp): set<string>
  {
    VisitorTemperatureMobiles(db, devices, today) + VisitorMaskMobiles(db, devices, today)
  }

  predicate Abnormal(x: TemperatureRecord, threshold: Decimal)
  {
    Greater(FromThousandths(x.temperature), threshold)
  }

  /** The EmployeeIds of employees with a temperature record today above the threshold. */
  function EmployeeTemperatureAlerts(db: Db, devices: set<string>, today: Timestamp, threshold: Decimal): set<string>
  {
    set a | a in db.employees &&
      (exists x :: x in db.temperatureRecords && x.personUid == a.uid && Abnormal(x, threshold) && TemperatureToday(x, devices, today))
      :: a.employeeId
  }

  function VisitorTemperatureAlerts(db: Db, devices: set<string>, today: Timestamp, threshold: Decimal): set<string>
  {
    set x | x in db.temperatureRecords && x.personUid == ConfigReader.VisitorUid &&
      TemperatureToday(x, devices, today) && Abnormal(x, threshold) && x.mobile != "" :: x.mobile
  }

  /** The EmployeeIds of employees with a mask record today whose MaskValue is the no-mask value. */
  function EmployeeMaskAlerts(db: Db, devices: set<string>, today: Timestamp): set<string>
  {
    set a | a in db.employees &&
      (exists x :: x in db.maskRecords && x.personUid == a.uid && x.maskValue == ConfigReader.NoMaskValue && MaskToday(x, devices, today))
      :: a.employeeId
  }

  datatype Summary = Summary(employees: nat, visitors: nat, alerts: nat, abnormalTemperatureAlerts: nat, noMaskAlerts: nat)

  lemma SubsetCardinality<T>(a: set<T>, b: set<T>)
    requires a <= b
    ensures |a| <= |b|
  {
    assert b == a + (b - a);
    assert a * (b - a) == {};
  }

  /** GetSiteSummary, GetBuildingSummary, GetFloorSummary and GetGateSummary: the counts of
      people seen today in the scope and of their alerts. Each alert set is a subset of the
      matching presence set (employees alerted are employees seen, visitors alerted are
      visitors seen), so neither kind of alert outnumbers the people seen. */
  function GetSummary(db: Db, scope: Scope, today: Timestamp, src: ConfigReader.Sources): (r: Summary)
    ensures var devices := ScopeDevices(db, scope);
            var threshold := ConfigReader.GetTemperatureThreshold(src);
            && r.employees == |EmployeesPresent(db, devices, today)|
            && r.visitors == |VisitorsPresent(db, devices, today)|
            && r.abnormalTemperatureAlerts ==
                 |EmployeeTemperatureAlerts(db, devices, today, threshold)| + |VisitorTemperatureAlerts(db, devices, today, threshold)|
            && r.noMaskAlerts == |EmployeeMaskAlerts(db, devices, today)| + |VisitorMaskMobiles(db, devices, today)|
    ensures var devices := ScopeDevices(db, scope);
            var threshold := ConfigReader.GetTemperatureThreshold(src);
            && EmployeeTemperatureAlerts(db, devices, today, threshold) <= EmployeesPresent(db, devices, today)
            && VisitorTemperatureAlerts(db, devices, today, threshold) <= VisitorsPresent(db, devices, today)
            && EmployeeMaskAlerts(db, devices, today) <= EmployeesPresent(db, devices, today)
            && VisitorMaskMobiles(db, devices, today) <= VisitorsPresent(db, devices, today)
    ensures r.alerts == r.abnormalTemperatureAlerts + r.noMaskAlerts
    ensures r.abnormalTemperatureAlerts <= r.employees + r.visitors
    ensures r.noMaskAlerts <= r.employees + r.visitors
  {
    var devices := ScopeDevices(db, scope);
    var threshold := ConfigReader.GetTemperatureThreshold(src);
    var employees := EmployeesPresent(db, devices, today);
    var visitors := VisitorsPresent(db, devices, today);
    var employeeTemperature := EmployeeTemperatureAlerts(db, devices, today, threshold);
    var visitorTemperature := VisitorTemperatureAlerts(db, devices, today, threshold);
    var employeeMask := EmployeeMaskAlerts(db, devices, today);
    var visitorMask := VisitorMaskMobiles(db, devices, today);
    SubsetCardinality(employeeTemperature, employees);
    SubsetCardinality(visitorTemperature, visitors);
    SubsetCardinality(employeeMask, employees);
    SubsetCardinality(visitorMask, visitors);
    var abnormal := |employeeTemperature| + |visitorTemperature|;
    var noMask := |employeeMask| + |visitorMask|;
    Summary(|employees|, |visitors|, abnormal + noMask, abnormal, noMask)
  }

  /** Two databases with the same employees and the same records today on the devices. */
  ghost predicate SameDay(db: Db, db': Db, devices: set<string>, today: Timestamp)
  {
    && db'.employees == db.employees
    && (forall r :: r in db'.temperatureRecords && TemperatureToday(r, devices, today) <==>
                    r in db.temperatureRecords && TemperatureToday(r, devices, today))
    && (forall r :: r in db'.maskRecords && MaskToday(r, devices, today) <==>
                    r in db.maskRecords && MaskToday(r, devices, today))
  }

  lemma {:induction false} SameDayPresence(db: Db, db': Db, devices: set<string>, today: Timestamp)
    requires SameDay(db, db', devices, today)
    ensures EmployeesPresent(db', devices, today) == EmployeesPresent(db, devices, today)
    ensures VisitorTemperatureMobiles(db', devices, today) == VisitorTemperatureMobiles(db, devices, today)
    ensures VisitorMaskMobiles(db', devices, today) == VisitorMaskMobiles(db, devices, today)
  {
    assert forall id :: id in EmployeesPresent(db', devices, today) <==> id in EmployeesPresent(db, devices, today);
    assert forall m :: m in VisitorTemperatureMobiles(db', devices, today) <==> m in VisitorTemperatureMobiles(db, devices, today);
    assert forall m :: m in VisitorMaskMobiles(db', devices, today) <==> m in VisitorMaskMobiles(db, devices, today);
  }

  lemma {:induction false} SameDayAlerts(db: Db, db': Db, devices: set<string>, today: Timestamp, threshold: Decimal)
    requires SameDay(db, db', devices, today)
    ensures EmployeeTemperatureAlerts(db', devices, today, threshold) == EmployeeTemperatureAlerts(db, devices, today, threshold)
    ensures VisitorTemperatureAlerts(db', devices, today, threshold) == VisitorTemperatureAlerts(db, devices, today, threshold)
    ensures EmployeeMaskAlerts(db', devices, today) == EmployeeMaskAlerts(db, devices, today)
  {
    assert forall id :: id in EmployeeTemperatureAlerts(db', devices, today, threshold) <==>
                        id in EmployeeTemperatureAlerts(db, devices, today, threshold);
    assert forall m :: m in VisitorTemperatureAlerts(db', devices, today, threshold) <==>
                       m in VisitorTemperatureAlerts(db, devices, today, threshold);
    assert forall id :: id in EmployeeMaskAlerts(db', devices, today) <==> id in EmployeeMaskAlerts(db, devices, today);
  }

  /** A record from another day, or from a device outside the scope, changes no count. */
  lemma {:induction false} SummaryIgnoresOtherRecords(db: Db, scope: Scope, today: Timestamp, src: ConfigReader.Sources,
                                                     x: TemperatureRecord, y: MaskRecord)
    requires DateOf(x.timestamp) != today || x.deviceId !in ScopeDevices(db, scope)
    requires DateOf(y.timestamp) != today || y.deviceId !in ScopeDevices(db, scope)
    ensures GetSummary(db.(temperatureRecords := db.temperatureRecords + [x], maskRecords := db.maskRecords + [y]), scope, today, src)
            == GetSummary(db, scope, today, src)
  {
    var db' := db.(temperatureRecords := db.temperatureRecords + [x], maskRecords := db.maskRecords + [y]);
    var devices := ScopeDevices(db, scope);
    assert ScopeDevices(db', scope) == devices;
    assert SameDay(db, db', devices, today);
    SameDaySummary(db, db', scope, today, src);
  }

  lemma SameDaySummary(db: Db, db': Db, scope: Scope, today: Timestamp, src: ConfigReader.Sources)
    requires ScopeDevices(db', scope) == ScopeDevices(db, scope)
    requires SameDay(db, db', ScopeDevices(db, scope), today)
    ensures GetSummary(db', scope, today, src) == GetSummary(db, scope, today, src)
  {
    var devices := ScopeDevices(db, scope);
    SameDayPresence(db, db', devices, today);
    SameDayAlerts(db, db', devices, today, ConfigReader.GetTemperatureThreshold(src));
  }

  function WithMaskValue(ms: seq<MaskRecord>, v: int): (r: seq<MaskRecord>)
    ensures |r| == |ms|
    ensures forall i :: 0 <= i < |ms| ==> r[i] == ms[i].(maskValue := v)
  {
    if ms == [] then [] else [ms[0].(maskValue := v)] + WithMaskValue(ms[1..], v)
  }

  lemma {:induction false} WithMaskValueMembers(ms: seq<MaskRecord>, v: int)
    ensures forall x :: x in WithMaskValue(ms, v) ==> x.maskValue == v
    ensures forall x :: x in ms ==> x.(maskValue := v) in WithMaskValue(ms, v)
    ensures forall x :: x in WithMaskValue(ms, v) ==> exists y :: y in ms && x == y.(maskValue := v)
  {
    var r := WithMaskValue(ms, v);
    forall x | x in ms ensures x.(maskValue := v) in r {
      var i :| 0 <= i < |ms| && ms[i] == x;
      assert r[i] == x.(maskValue := v);
    }
    forall x | x in r ensures exists y :: y in ms && x == y.(maskValue := v) {
      var i :| 0 <= i < |r| && r[i] == x;
      assert ms[i] in ms;
    }
  }

  lemma NoMaskValueNoEmployeeAlert(db: Db, devices: set<string>, today: Timestamp)
    requires forall x :: x in db.maskRecords ==> x.maskValue != ConfigReader.NoMaskValue
    ensures EmployeeMaskAlerts(db, devices, today) == {}
  {
  }

  /** The no-mask count is asymmetric: with every MaskValue replaced by one that is not the
      no-mask value, no employee is a no-mask alert any more, but every visitor seen at a mask
      camera still is. */
  lemma {:induction false} VisitorMaskAlertsIgnoreMaskValue(db: Db, scope: Scope, today: Timestamp, src: ConfigReader.Sources, v: int)
    requires v != ConfigReader.NoMaskValue
    ensures var db' := db.(maskRecords := WithMaskValue(db.maskRecords, v));
            var devices := ScopeDevices(db, scope);
            && EmployeeMaskAlerts(db', devices, today) == {}
            && VisitorMaskMobiles(db', devices, today) == VisitorMaskMobiles(db, devices, today)
            && GetSummary(db', scope, today, src).noMaskAlerts == |VisitorMaskMobiles(db, devices, today)|
  {
    var db' := db.(maskRecords := WithMaskValue(db.maskRecords, v));
    var devices := ScopeDevices(db, scope);
    assert ScopeDevices(db', scope) == devices;
    WithMaskValueMembers(db.maskRecords, v);
    NoMaskValueNoEmployeeAlert(db', devices, today);
    VisitorMobilesIgnoreMaskValue(db, devices, today, v);
  }

  lemma VisitorMobilesIgnoreMaskValue(db: Db, devices: set<string>, today: Timestamp, v: int)
    ensures var db' := db.(maskRecords := WithMaskValue(db.maskRecords, v));
            VisitorMaskMobiles(db', devices, today) == VisitorMaskMobiles(db, devices, today)
  {
    var db' := db.(maskRecords := WithMaskValue(db.maskRecords, v));
    WithMaskValueMembers(db.maskRecords, v);
    forall m | m in VisitorMaskMobiles(db', devices, today) ensures m in VisitorMaskMobiles(db, devices, today) {
      var x :| x in db'.maskRecords && x.personUid == ConfigReader.VisitorUid && MaskToday(x, devices, today) && x.mobile != "" && x.mobile == m;
      var y :| y in db.maskRecords && x == y.(maskValue := v);
      assert y.mobile == m;
    }
    forall m | m in VisitorMaskMobiles(db, devices, today) ensures m in VisitorMaskMobiles(db', devices, today) {
      var x :| x in db.maskRecords && x.personUid == ConfigReader.VisitorUid && MaskToday(x, devices, today) && x.mobile != "" && x.mobile == m;
      assert x.(maskValue := v) in db'.maskRecords;
    }
  }

  // ---------------------------------------------------------------------------
  // GetEntranceLogForToday

  /** `GroupBy(x => x.ImagePath)` then `Max(y => y.Timestamp)` of one group: the latest
      timestamp among the (image path, timestamp) pairs of that path, None for no pair. */
  function GroupLatest(log: seq<(string, Timestamp)>, path: string): (r: Option<Timestamp>)
    ensures r.None? <==> forall p :: p in log ==> p.0 != path
    ensures r.Some? ==> (path, r.value) in log && forall p :: p in log && p.0 == path ==> p.1 <= r.value
  {
    if log == [] then None
    else
      var rest := GroupLatest(log[1..], path);
      assert forall p :: p in log <==> p == log[0] || p in log[1..];
      if log[0].0 != path then rest
      else if rest.Some? && rest.value > log[0].1 then rest
      else Some(log[0].1)
  }

  /** The rendered latest timestamp of every image group. */
  function LatestStamps(log: seq<(string, Timestamp)>): (r: set<nat>)
    ensures forall k :: k in r <==> exists p :: p in log && k == StampOf(GroupLatest(log, p.0).value)
  {
    set p | p in log :: StampOf(GroupLatest(log, p.0).value)
  }

  function TemperatureLog(db: Db, devices: set<string>, today: Timestamp): (r: seq<(string, Timestamp)>)
    ensures forall p :: p in r <==> exists x :: x in db.temperatureRecords && TemperatureToday(x, devices, today) && p == (x.imagePath, x.timestamp)
  {
    Select(Where(db.temperatureRecords, (x: TemperatureRecord) => TemperatureToday(x, devices, today)),
      (x: TemperatureRecord) => (x.imagePath, x.timestamp))
  }

  function MaskLog(db: Db, devices: set<string>, today: Timestamp): (r: seq<(string, Timestamp)>)
    ensures forall p :: p in r <==> exists x :: x in db.maskRecords && MaskToday(x, devices, today) && p == (x.imagePath, x.timestamp)
  {
    Select(Where(db.maskRecords, (x: MaskRecord) => MaskToday(x, devices, today)),
      (x: MaskRecord) => (x.imagePath, x.timestamp))
  }

  /** Every temperature record, of any day and device, whose rendered timestamp is the
      latest of some image group of today, projected and distinct. */
  function EntranceTemperatureRows(db: Db, devices: set<string>, today: Timestamp): (r: seq<TemperatureRow>)
    ensures forall row :: row in r <==>
              (exists x :: x in db.temperatureRecords && StampOf(x.timestamp) in LatestStamps(TemperatureLog(db, devices, today)) &&
                 row == TemperatureRowOf(db, x))
  {
    var latest := LatestStamps(TemperatureLog(db, devices, today));
    Distinct(Select(Where(db.temperatureRecords, (x: TemperatureRecord) => StampOf(x.timestamp) in latest),
      (x: TemperatureRecord) => TemperatureRowOf(db, x)))
  }

  function EntranceMaskRows(db: Db, devices: set<string>, today: Timestamp): (r: seq<MaskRow>)
    ensures forall row :: row in r <==>
              (exists x :: x in db.maskRecords && StampOf(x.timestamp) in LatestStamps(MaskLog(db, devices, today)) &&
                 row == MaskRowOf(db, x))
  {
    var latest := LatestStamps(MaskLog(db, devices, today));
    Distinct(Select(Where(db.maskRecords, (x: MaskRecord) => StampOf(x.timestamp) in latest),
      (x: MaskRecord) => MaskRowOf(db, x)))
  }

  /** The site's entrance log for today: the full outer join of the latest capture of each
      image, most recent first, each row once, visitors told by PersonUID. */
  function GetEntranceLogForToday(db: Db, siteId: int, today: Timestamp, fetch: string -> string): (r: seq<Entry>)
    ensures SortedByTimestampDesc(r)
    ensures NoDuplicates(r)
    ensures var devices := ScopeDevices(db, SiteScope(siteId));
            forall e :: e in r <==> IsJoinedEntry(e, EntranceTemperatureRows(db, devices, today), EntranceMaskRows(db, devices, today), BySentinel, fetch)
  {
    var devices := ScopeDevices(db, SiteScope(siteId));
    var ts, ms := EntranceTemperatureRows(db, devices, today), EntranceMaskRows(db, devices, today);
    FullOuterJoin(ts, ms, BySentinel, fetch)
  }

  /** For every temperature record of today on the site, a record of the same image at
      least as late, and itself of today on the site, is in the log's temperature rows, and
      its row is an entry of the entrance log. */
  lemma {:induction false} EntranceLogKeepsLatestCapture(db: Db, siteId: int, today: Timestamp, fetch: string -> string, x: TemperatureRecord)
    requires x in db.temperatureRecords && TemperatureToday(x, ScopeDevices(db, SiteScope(siteId)), today)
    ensures var devices := ScopeDevices(db, SiteScope(siteId));
            var ms := EntranceMaskRows(db, devices, today);
            exists y :: y in db.temperatureRecords && TemperatureToday(y, devices, today) &&
              y.imagePath == x.imagePath && x.timestamp <= y.timestamp &&
              TemperatureRowOf(db, y) in EntranceTemperatureRows(db, devices, today) &&
              LeftEntry(TemperatureRowOf(db, y), HasMaskAt(ms, TemperatureRowOf(db, y).stamp), BySentinel, fetch)
                in GetEntranceLogForToday(db, siteId, today, fetch)
  {
    var devices := ScopeDevices(db, SiteScope(siteId));
    var log := TemperatureLog(db, devices, today);
    var p := (x.imagePath, x.timestamp);
    assert p in log;
    var latest := GroupLatest(log, x.imagePath).value;
    assert (x.imagePath, latest) in log && x.timestamp <= latest;
    var y :| y in db.temperatureRecords && TemperatureToday(y, devices, today) && (x.imagePath, latest) == (y.imagePath, y.timestamp);
    assert StampOf(y.timestamp) == StampOf(GroupLatest(log, p.0).value);
    assert StampOf(y.timestamp) in LatestStamps(log);
    var ts, ms := EntranceTemperatureRows(db, devices, today), EntranceMaskRows(db, devices, today);
    var a := TemperatureRowOf(db, y);
    assert a in ts;
    JoinKeepsEveryRow(ts, ms, BySentinel, fetch);
    assert LeftEntry(a, HasMaskAt(ms, a.stamp), BySentinel, fetch) in GetEntranceLogForToday(db, siteId, today, fetch);
  }

  /** A temperature record whose second is not the latest second of any of today's image
      groups is not in the log. */
  lemma {:induction false} EntranceLogDropsEarlierCaptures(db: Db, siteId: int, today: Timestamp, x: TemperatureRecord)
    requires var log := TemperatureLog(db, ScopeDevices(db, SiteScope(siteId)), today);
             forall p :: p in log ==> StampOf(GroupLatest(log, p.0).value) != StampOf(x.timestamp)
    ensures TemperatureRowOf(db, x) !in EntranceTemperatureRows(db, ScopeDevices(db, SiteScope(siteId)), today)
  {
    var devices := ScopeDevices(db, SiteScope(siteId));
    var latest := LatestStamps(TemperatureLog(db, devices, today));
    assert StampOf(x.timestamp) !in latest;
    assert forall y :: y in db.temperatureRecords && StampOf(y.timestamp) in latest ==>
                       TemperatureRowOf(db, y).stamp != TemperatureRowOf(db, x).stamp;
  }
}
