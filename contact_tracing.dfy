/** The contact-tracing endpoints: resolving an alert timestamp to its record, the
    details of the person alerted on, that person's timeline, the people seen at the
    same gate in a time window, and a site's alerts between two dates. */
module ContactTracing {
  import opened Common
  import opened Decimals
  import opened Entities
  import opened Linq
  import opened Timeline
  import opened Topology
  import ConfigReader

  // ---------------------------------------------------------------------------
  // Resolving an alert timestamp

  /** The record an alert timestamp names. */
  datatype Anchor = TemperatureAlert(t: TemperatureRecord) | MaskAlert(m: MaskRecord)
  {
    function PersonUid(): string
    {
      match this
      case TemperatureAlert(t) => t.personUid
      case MaskAlert(m) => m.personUid
    }

    function PersonName(): string
    {
      match this
      case TemperatureAlert(t) => t.personName
      case MaskAlert(m) => m.personName
    }

    function Mobile(): string
    {
      match this
      case TemperatureAlert(t) => t.mobile
      case MaskAlert(m) => m.mobile
    }

    function DeviceId(): string
    {
      match this
      case TemperatureAlert(t) => t.deviceId
      case MaskAlert(m) => m.deviceId
    }

    function ImageBase64(): string
    {
      match this
      case TemperatureAlert(t) => t.imageBase64
      case MaskAlert(m) => m.imageBase64
    }
  }

  /** `x.Timestamp.AddMilliseconds(-x.Timestamp.Millisecond) == alert` */
  predicate InSecond(t: Timestamp, alert: Timestamp)
  {
    WithoutMilliseconds(t) == alert
  }

  /** The first temperature record in the alert's second; failing that, the first mask record. */
  function ResolveAlert(db: Db, alert: Timestamp): (r: Option<Anchor>)
    ensures r.None? <==>
              (forall x :: x in db.temperatureRecords ==> !InSecond(x.timestamp, alert)) &&
              (forall x :: x in db.maskRecords ==> !InSecond(x.timestamp, alert))
    ensures r.Some? && r.value.TemperatureAlert? ==>
              exists i :: 0 <= i < |db.temperatureRecords| && db.temperatureRecords[i] == r.value.t &&
                InSecond(r.value.t.timestamp, alert) &&
                forall j :: 0 <= j < i ==> !InSecond(db.temperatureRecords[j].timestamp, alert)
    ensures r.Some? && r.value.MaskAlert? ==>
              (forall x :: x in db.temperatureRecords ==> !InSecond(x.timestamp, alert)) &&
              exists i :: 0 <= i < |db.maskRecords| && db.maskRecords[i] == r.value.m &&
                InSecond(r.value.m.timestamp, alert) &&
                forall j :: 0 <= j < i ==> !InSecond(db.maskRecords[j].timestamp, alert)
  {
    match FirstWhere(db.temperatureRecords, (x: TemperatureRecord) => InSecond(x.timestamp, alert))
    case Some(t) => Some(TemperatureAlert(t))
    case None =>
      match FirstWhere(db.maskRecords, (x: MaskRecord) => InSecond(x.timestamp, alert))
      case Some(m) => Some(MaskAlert(m))
      case None => None
  }

  /** A temperature record in the alert's second always wins over any mask record. */
  lemma TemperatureTakesPrecedence(db: Db, alert: Timestamp, x: TemperatureRecord)
    requires x in db.temperatureRecords && InSecond(x.timestamp, alert)
    ensures ResolveAlert(db, alert).Some? && ResolveAlert(db, alert).value.TemperatureAlert?
  {
  }

  // ---------------------------------------------------------------------------
  // GetQueriedPersonDetails

  /** `Employees.Where(x => x.UID == uid).Select(x => x.ImageBase64).FirstOrDefault()`:
      null both when no employee has the uid and when the first one has no image. */
  function EmployeeImage(db: Db, uid: string): (r: Option<string>)
    ensures (forall e :: e in db.employees ==> e.uid != uid) ==> r.None?
    ensures (exists e :: e in db.employees && e.uid == uid) ==>
              exists i :: 0 <= i < |db.employees| && db.employees[i].uid == uid &&
                (forall j :: 0 <= j < i ==> db.employees[j].uid != uid) && r == db.employees[i].imageBase64
  {
    match FirstWhere(db.employees, (e: Employee) => e.uid == uid)
    case None => None
    case Some(e) => e.imageBase64
  }

  datatype QueriedPerson = QueriedPerson(personName: string, personImage: string, personAlertImage: string, isVisitor: bool)

  function PersonDetails(db: Db, a: Anchor): QueriedPerson
  {
    var image := EmployeeImage(db, a.PersonUid());
    QueriedPerson(a.PersonName(), if image.Some? then image.value else a.ImageBase64(), a.ImageBase64(), image.None?)
  }

  /** The alerted person's name and images. With no record in the alert's second the
      mask branch dereferences the missing record and the handler answers 1201. */
  function GetQueriedPersonDetails(db: Db, alert: Timestamp): (r: Response<QueriedPerson>)
    ensures !r.Unhandled?
    ensures r.Successful? <==> ResolveAlert(db, alert).Some?
    ensures r.SystemError? ==> r.message == NullReference
    ensures r.Successful? ==>
              var a := ResolveAlert(db, alert).value;
              var image := EmployeeImage(db, a.PersonUid());
              && r.payload.personName == a.PersonName()
              && r.payload.personAlertImage == a.ImageBase64()
              && (r.payload.isVisitor <==> image.None?)
              && (image.Some? ==> r.payload.personImage == image.value)
              && (image.None? ==> r.payload.personImage == a.ImageBase64())
  {
    match ResolveAlert(db, alert)
    case None => SystemError(NullReference)
    case Some(a) => Successful(PersonDetails(db, a))
  }

  /** Someone no employee row names is a visitor shown with the captured image, whatever
      their PersonUID; an employee row without an image also makes its person a visitor. */
  lemma UnknownPersonIsVisitor(db: Db, alert: Timestamp)
    requires ResolveAlert(db, alert).Some?
    requires EmployeeImage(db, ResolveAlert(db, alert).value.PersonUid()).None?
    ensures GetQueriedPersonDetails(db, alert).Successful?
    ensures GetQueriedPersonDetails(db, alert).payload.isVisitor
    ensures GetQueriedPersonDetails(db, alert).payload.personImage == GetQueriedPersonDetails(db, alert).payload.personAlertImage
  {
  }

  // ---------------------------------------------------------------------------
  // GetPersonRecord

  /** Whose records the timeline gathers: an employee's by PersonUID, a visitor's by mobile. */
  datatype Subject = ByUid(uid: string) | ByMobile(mobile: string)

  function SubjectOf(a: Anchor): (s: Subject)
    ensures s.ByMobile? <==> a.PersonUid() == ConfigReader.VisitorUid
  {
    if a.PersonUid() == ConfigReader.VisitorUid then ByMobile(a.Mobile()) else ByUid(a.PersonUid())
  }

  predicate Concerns(s: Subject, personUid: string, mobile: string)
  {
    match s
    case ByUid(u) => personUid == u
    case ByMobile(m) => mobile == m
  }

  /** The visitor branch flags every row as a visitor; the employee branch flags the
      temperature side false and the mask side true. */
  function TimelineRule(s: Subject): VisitorRule
  {
    if s.ByMobile? then Fixed(true, true) else Fixed(false, true)
  }

  predicate TemperatureSince(x: TemperatureRecord, s: Subject, start: Timestamp)
  {
    x.timestamp >= start && Concerns(s, x.personUid, x.mobile)
  }

  predicate MaskSince(x: MaskRecord, s: Subject, start: Timestamp)
  {
    x.timestamp >= start && Concerns(s, x.personUid, x.mobile)
  }

  /** The subject's temperature rows from start on, projected and distinct. */
  function SubjectTemperatureRows(db: Db, s: Subject, start: Timestamp): (r: seq<TemperatureRow>)
    ensures NoDuplicates(r)
    ensures forall row :: row in r <==>
              exists x :: x in db.temperatureRecords && TemperatureSince(x, s, start) && row == TemperatureRowOf(db, x)
  {
    Distinct(Select(Where(db.temperatureRecords, (x: TemperatureRecord) => TemperatureSince(x, s, start)),
      (x: TemperatureRecord) => TemperatureRowOf(db, x)))
  }

  function SubjectMaskRows(db: Db, s: Subject, start: Timestamp): (r: seq<MaskRow>)
    ensures NoDuplicates(r)
    ensures forall row :: row in r <==>
              exists x :: x in db.maskRecords && MaskSince(x, s, start) && row == MaskRowOf(db, x)
  {
    Distinct(Select(Where(db.maskRecords, (x: MaskRecord) => MaskSince(x, s, start)),
      (x: MaskRecord) => MaskRowOf(db, x)))
  }

  /** The subject's timeline from start on: most recent first, each row once, and exactly
      the rows of the full outer join of their temperature and mask rows. */
  function PersonTimeline(db: Db, s: Subject, start: Timestamp, fetch: string -> string): (r: seq<Entry>)
    ensures SortedByTimestampDesc(r)
    ensures NoDuplicates(r)
    ensures forall e :: e in r <==>
              IsJoinedEntry(e, SubjectTemperatureRows(db, s, start), SubjectMaskRows(db, s, start), TimelineRule(s), fetch)
  {
    var ts, ms := SubjectTemperatureRows(db, s, start), SubjectMaskRows(db, s, start);
    FullOuterJoin(ts, ms, TimelineRule(s), fetch)
  }

  /** The timeline of the person an alert names; with no record in the alert's second the
      mask branch dereferences the missing record and the handler answers 1201. */
  function GetPersonRecord(db: Db, alert: Timestamp, start: Timestamp, fetch: string -> string): (r: Response<seq<Entry>>)
    ensures !r.Unhandled?
    ensures r.Successful? <==> ResolveAlert(db, alert).Some?
    ensures r.SystemError? ==> r.message == NullReference
    ensures r.Successful? ==> r.payload == PersonTimeline(db, SubjectOf(ResolveAlert(db, alert).value), start, fetch)
  {
    match ResolveAlert(db, alert)
    case None => SystemError(NullReference)
    case Some(a) => Successful(PersonTimeline(db, SubjectOf(a), start, fetch))
  }

  /** Every row of a timeline stands for one of the subject's records from start on, at
      that record's second and under its name. */
  lemma {:induction false} TimelineOnlyShowsSubject(db: Db, s: Subject, start: Timestamp, fetch: string -> string, e: Entry)
    requires e in PersonTimeline(db, s, start, fetch)
    ensures || (exists x :: x in db.temperatureRecords && TemperatureSince(x, s, start) &&
                  StampOf(x.timestamp) == e.timestamp && x.personName == e.person)
            || (exists x :: x in db.maskRecords && MaskSince(x, s, start) &&
                  StampOf(x.timestamp) == e.timestamp && x.personName == e.person)
  {
    var ts, ms := SubjectTemperatureRows(db, s, start), SubjectMaskRows(db, s, start);
    JoinedEntryOrigin(ts, ms, TimelineRule(s), fetch, e);
    if exists a :: a in ts && a.stamp == e.timestamp && a.personName == e.person {
      var a :| a in ts && a.stamp == e.timestamp && a.personName == e.person;
      var x :| x in db.temperatureRecords && TemperatureSince(x, s, start) && a == TemperatureRowOf(db, x);
    } else {
      var b :| b in ms && b.stamp == e.timestamp && b.personName == e.person;
      var x :| x in db.maskRecords && MaskSince(x, s, start) && b == MaskRowOf(db, x);
    }
  }

  /** Every temperature record of the subject from start on appears, marked "no mask" (false)
      exactly when a mask record of theirs shares its second; every such mask record
      appears marked "no mask". */
  lemma {:induction false} TimelineShowsAllOfSubject(db: Db, s: Subject, start: Timestamp, fetch: string -> string)
    ensures var ms := SubjectMaskRows(db, s, start);
            forall x :: x in db.temperatureRecords && TemperatureSince(x, s, start) ==>
              var a := TemperatureRowOf(db, x);
              LeftEntry(a, HasMaskAt(ms, a.stamp), TimelineRule(s), fetch) in PersonTimeline(db, s, start, fetch)
    ensures forall x :: x in db.maskRecords && MaskSince(x, s, start) ==>
              exists e :: e in PersonTimeline(db, s, start, fetch) &&
                !e.mask && e.timestamp == StampOf(x.timestamp) && e.person == x.personName
  {
    var ts, ms := SubjectTemperatureRows(db, s, start), SubjectMaskRows(db, s, start);
    JoinKeepsEveryRow(ts, ms, TimelineRule(s), fetch);
    forall x | x in db.maskRecords && MaskSince(x, s, start)
      ensures exists e :: e in PersonTimeline(db, s, start, fetch) &&
                !e.mask && e.timestamp == StampOf(x.timestamp) && e.person == x.personName
    {
      assert MaskRowOf(db, x) in ms;
      JoinShowsEveryMaskRow(ts, ms, TimelineRule(s), fetch, MaskRowOf(db, x));
    }
  }

  /** A visitor's rows are all flagged visitor. An employee's temperature rows are flagged
      non-visitor, but a row from one of their mask records is flagged visitor. */
  lemma {:induction false} TimelineVisitorFlag(db: Db, s: Subject, start: Timestamp, fetch: string -> string, e: Entry)
    requires e in PersonTimeline(db, s, start, fetch)
    ensures s.ByMobile? ==> e.visitor
    ensures s.ByUid? && e.visitor ==> !e.mask && HasMaskAt(SubjectMaskRows(db, s, start), e.timestamp)
    ensures s.ByUid? && !e.visitor ==> HasTemperatureAt(SubjectTemperatureRows(db, s, start), e.timestamp)
  {
    var ts, ms := SubjectTemperatureRows(db, s, start), SubjectMaskRows(db, s, start);
    JoinedEntryOrigin(ts, ms, TimelineRule(s), fetch, e);
  }

  // ---------------------------------------------------------------------------
  // Co-location: GetPotentialView and GetPotentialContacts

  /** `Devices.Where(x => x.GateId == anchor.Device.GateId).Select(x => x.DeviceId)`;
      None when the anchor's device is missing, the null `Device` being dereferenced. */
  function SiblingDevices(db: Db, a: Anchor): (r: Option<set<string>>)
    ensures r.None? <==> DeviceById(db.devices, a.DeviceId()).None?
    ensures r.Some? ==> forall id :: id in r.value <==>
              exists d :: d in db.devices && d.deviceId == id && d.gateId == DeviceById(db.devices, a.DeviceId()).value.gateId
  {
    match DeviceById(db.devices, a.DeviceId())
    case None => None
    case Some(anchorDevice) => Some(set d | d in db.devices && d.gateId == anchorDevice.gateId :: d.deviceId)
  }

  /** The anchor's own device is among its siblings. */
  lemma AnchorDeviceIsSibling(db: Db, a: Anchor)
    requires SiblingDevices(db, a).Some?
    ensures a.DeviceId() in SiblingDevices(db, a).value
  {
    var d := DeviceById(db.devices, a.DeviceId()).value;
    assert d in db.devices;
  }

  /** Temperature records on one of the devices with `start <= Timestamp <= end`. */
  predicate CoLocatedRecord(x: TemperatureRecord, devices: set<string>, start: Timestamp, end: Timestamp)
  {
    start <= x.timestamp <= end && x.deviceId in devices
  }

  function CoLocated(db: Db, devices: set<string>, start: Timestamp, end: Timestamp): (r: seq<TemperatureRecord>)
    ensures forall x :: x in r <==> x in db.temperatureRecords && CoLocatedRecord(x, devices, start, end)
  {
    Where(db.temperatureRecords, (x: TemperatureRecord) => CoLocatedRecord(x, devices, start, end))
  }

  /** `join b in Employees on a.PersonUID equals b.UID into bb from c in bb.DefaultIfEmpty()`:
      every employee with the uid, or a single null. */
  function EmployeeMatches(db: Db, uid: string): (r: seq<Option<Employee>>)
    ensures |r| >= 1
    ensures forall c :: c in r <==>
              (c.None? && forall e :: e in db.employees ==> e.uid != uid) ||
              (c.Some? && c.value in db.employees && c.value.uid == uid)
  {
    var bb := Where(db.employees, (e: Employee) => e.uid == uid);
    assert bb == [] <==> forall e :: e in db.employees ==> e.uid != uid by {
      if bb != [] { assert bb[0] in bb; }
    }
    if bb == [] then [None]
    else
      var r := Select(bb, (e: Employee) => Some(e));
      assert forall c :: c in r <==> c.Some? && c.value in bb by {
        forall c ensures c in r <==> c.Some? && c.value in bb {
          if c.Some? && c.value in bb { assert c == Some(c.value); }
        }
      }
      r
  }

  /** The records, each paired with every employee it joins to. */
  function JoinEmployees(db: Db, rs: seq<TemperatureRecord>): (r: seq<(TemperatureRecord, Option<Employee>)>)
    ensures |r| >= |rs|
    ensures forall p :: p in r <==> p.0 in rs && p.1 in EmployeeMatches(db, p.0.personUid)
  {
    if rs == [] then []
    else
      var matches := EmployeeMatches(db, rs[0].personUid);
      var here := Select(matches, (c: Option<Employee>) => (rs[0], c));
      var rest := JoinEmployees(db, rs[1..]);
      assert forall p :: p in here <==> p.0 == rs[0] && p.1 in matches by {
        forall p ensures p in here <==> p.0 == rs[0] && p.1 in matches {
          if p.0 == rs[0] && p.1 in matches {
            assert p == (rs[0], p.1);
          }
        }
      }
      assert forall x :: x in rs <==> x == rs[0] || x in rs[1..];
      here + rest
  }

  /** A co-located record x joined to c, one of the employees it names or null. */
  predicate JoinedSource(db: Db, devices: set<string>, start: Timestamp, end: Timestamp, x: TemperatureRecord, c: Option<Employee>)
  {
    x in db.temperatureRecords && CoLocatedRecord(x, devices, start, end) && c in EmployeeMatches(db, x.personUid)
  }

  /** The co-located records joined to the employees and projected by f. */
  function MapCoLocated<U(!new)>(db: Db, devices: set<string>, start: Timestamp, end: Timestamp,
                                 f: (TemperatureRecord, Option<Employee>) -> U): (r: seq<U>)
    ensures |r| >= |CoLocated(db, devices, start, end)|
    ensures forall y :: y in r <==> exists x, c :: JoinedSource(db, devices, start, end, x, c) && y == f(x, c)
  {
    var joined := JoinEmployees(db, CoLocated(db, devices, start, end));
    var r := Select(joined, (p: (TemperatureRecord, Option<Employee>)) => f(p.0, p.1));
    assert forall y :: y in r <==> exists x, c :: JoinedSource(db, devices, start, end, x, c) && y == f(x, c) by {
      forall y ensures y in r <==> exists x, c :: JoinedSource(db, devices, start, end, x, c) && y == f(x, c) {
        if exists x, c :: JoinedSource(db, devices, start, end, x, c) && y == f(x, c) {
          var x, c :| JoinedSource(db, devices, start, end, x, c) && y == f(x, c);
          assert (x, c) in joined;
        }
      }
    }
    r
  }

  /** The potential view's dedup key (ID, Name, Visitor); a null employee gives null fields. */
  datatype ViewKey = ViewKey(id: Option<string>, name: Option<string>, visitor: bool)

  datatype ViewRow = ViewRow(name: Option<string>, visitor: bool)

  /** The (id, name, visitor) key of a co-located record: the mobile and captured name of a
      visitor, the matched employee's id and name, or a null id and name for a non-visitor
      no employee joins to. */
  function ViewKeyOf(x: TemperatureRecord, c: Option<Employee>): (k: ViewKey)
    ensures k.visitor <==> x.personUid == ConfigReader.VisitorUid
  {
    if x.personUid == ConfigReader.VisitorUid then ViewKey(Some(x.mobile), Some(x.personName), true)
    else if c.Some? then ViewKey(Some(c.value.employeeId), Some(c.value.employeeName), false)
    else ViewKey(None, None, false)
  }

  /** The co-located keys, each once. */
  function PotentialViewKeys(db: Db, devices: set<string>, start: Timestamp, end: Timestamp): (r: seq<ViewKey>)
    ensures NoDuplicates(r)
    ensures forall k :: k in r <==> exists x, c :: JoinedSource(db, devices, start, end, x, c) && k == ViewKeyOf(x, c)
  {
    Distinct(MapCoLocated(db, devices, start, end, ViewKeyOf))
  }

  function DropId(k: ViewKey): ViewRow
  {
    ViewRow(k.name, k.visitor)
  }

  /** The people seen on the devices between start and end: one row per distinct
      (mobile or EmployeeId, name, visitor), the id then dropped. */
  function PotentialView(db: Db, devices: set<string>, start: Timestamp, end: Timestamp): (r: seq<ViewRow>)
    ensures var keys := PotentialViewKeys(db, devices, start, end);
            |r| == |keys| && forall i :: 0 <= i < |keys| ==> r[i] == DropId(keys[i])
  {
    Select(PotentialViewKeys(db, devices, start, end), DropId)
  }

  /** The potential view of the anchor's gate; an anchor that cannot be found is reported
      as such, and a missing anchor device fails while the response is written. */
  function GetPotentialView(db: Db, alert: Timestamp, start: Timestamp, end: Timestamp): (r: Response<seq<ViewRow>>)
    ensures r.SystemError? <==> ResolveAlert(db, alert).None?
    ensures r.SystemError? ==> r.message == CouldNotFindAlert
    ensures r.Unhandled? <==> ResolveAlert(db, alert).Some? && SiblingDevices(db, ResolveAlert(db, alert).value).None?
    ensures r.Unhandled? ==> r.message == NullReference
    ensures r.Successful? ==>
              r.payload == PotentialView(db, SiblingDevices(db, ResolveAlert(db, alert).value).value, start, end)
  {
    match ResolveAlert(db, alert)
    case None => SystemError(CouldNotFindAlert)
    case Some(a) =>
      match SiblingDevices(db, a)
      case None => Unhandled(NullReference)
      case Some(devices) => Successful(PotentialView(db, devices, start, end))
  }

  /** Each co-located record and employee it joins to give a row of the view. */
  lemma {:induction false} PotentialViewRow(db: Db, devices: set<string>, start: Timestamp, end: Timestamp,
                                            x: TemperatureRecord, c: Option<Employee>)
    requires JoinedSource(db, devices, start, end, x, c)
    ensures DropId(ViewKeyOf(x, c)) in PotentialView(db, devices, start, end)
  {
    var keys := PotentialViewKeys(db, devices, start, end);
    assert ViewKeyOf(x, c) in keys;
    var i :| 0 <= i < |keys| && keys[i] == ViewKeyOf(x, c);
    assert PotentialView(db, devices, start, end)[i] == DropId(keys[i]);
  }

  /** A visitor seen on the devices in the window is in the view under their captured name,
      and an employee under their employee name. */
  lemma {:induction false} PotentialViewShowsEveryone(db: Db, devices: set<string>, start: Timestamp, end: Timestamp, x: TemperatureRecord)
    requires x in db.temperatureRecords && CoLocatedRecord(x, devices, start, end)
    ensures x.personUid == ConfigReader.VisitorUid ==>
              ViewRow(Some(x.personName), true) in PotentialView(db, devices, start, end)
    ensures forall e :: e in db.employees && e.uid == x.personUid && x.personUid != ConfigReader.VisitorUid ==>
              ViewRow(Some(e.employeeName), false) in PotentialView(db, devices, start, end)
  {
    var matches := EmployeeMatches(db, x.personUid);
    assert matches[0] in matches;
    PotentialViewRow(db, devices, start, end, x, matches[0]);
    forall e | e in db.employees && e.uid == x.personUid && x.personUid != ConfigReader.VisitorUid
      ensures ViewRow(Some(e.employeeName), false) in PotentialView(db, devices, start, end)
    {
      PotentialViewRow(db, devices, start, end, x, Some(e));
    }
  }

  /** One potential contact: name (null for a PersonUID no employee has), location,
      captured image, timestamp and one-decimal temperature. */
  datatype Contact = Contact(visitor: bool, name: Option<string>, location: string, image: string, timestamp: nat, temperature: OneDecimal)

  function ContactOf(db: Db, x: TemperatureRecord, c: Option<Employee>, fetch: string -> string): Contact
  {
    var visitor := x.personUid == ConfigReader.VisitorUid;
    Contact(visitor, if visitor then Some(x.personName) else if c.Some? then Some(c.value.employeeName) else None,
      Location(db, x.deviceId), Image(x.imageBase64, x.imagePath, fetch), StampOf(x.timestamp),
      RenderOneDecimal(FromThousandths(x.temperature)))
  }

  /** Every record at the anchor's gate in the window, once per employee it joins to, not
      deduplicated. */
  function GetPotentialContacts(db: Db, alert: Timestamp, start: Timestamp, end: Timestamp, fetch: string -> string): (r: Response<seq<Contact>>)
    ensures r.SystemError? <==> ResolveAlert(db, alert).None?
    ensures r.SystemError? ==> r.message == CouldNotFindAlert
    ensures r.Unhandled? <==> ResolveAlert(db, alert).Some? && SiblingDevices(db, ResolveAlert(db, alert).value).None?
    ensures r.Unhandled? ==> r.message == NullReference
    ensures r.Successful? ==>
              var devices := SiblingDevices(db, ResolveAlert(db, alert).value).value;
              && |r.payload| >= |CoLocated(db, devices, start, end)|
              && forall k :: k in r.payload <==>
                   exists x, c :: JoinedSource(db, devices, start, end, x, c) && k == ContactOf(db, x, c, fetch)
  {
    match ResolveAlert(db, alert)
    case None => SystemError(CouldNotFindAlert)
    case Some(a) =>
      match SiblingDevices(db, a)
      case None => Unhandled(NullReference)
      case Some(devices) =>
        Successful(MapCoLocated(db, devices, start, end, (x: TemperatureRecord, c: Option<Employee>) => ContactOf(db, x, c, fetch)))
  }

  // ---------------------------------------------------------------------------
  // GetAlertsByTimestamp

  /** On one of the site's devices, dated from start to end inclusive. */
  predicate AlertWindow(t: Timestamp, deviceId: string, devices: set<string>, start: Timestamp, end: Timestamp)
  {
    start <= DateOf(t) <= end && deviceId in devices
  }

  function SiteTemperatureRows(db: Db, devices: set<string>, start: Timestamp, end: Timestamp): (r: seq<TemperatureRow>)
    ensures forall row :: row in r <==>
              exists x :: x in db.temperatureRecords && AlertWindow(x.timestamp, x.deviceId, devices, start, end) && row == TemperatureRowOf(db, x)
  {
    Distinct(Select(Where(db.temperatureRecords, (x: TemperatureRecord) => AlertWindow(x.timestamp, x.deviceId, devices, start, end)),
      (x: TemperatureRecord) => TemperatureRowOf(db, x)))
  }

  function SiteMaskRows(db: Db, devices: set<string>, start: Timestamp, end: Timestamp): (r: seq<MaskRow>)
    ensures forall row :: row in r <==>
              exists x :: x in db.maskRecords && AlertWindow(x.timestamp, x.deviceId, devices, start, end) && row == MaskRowOf(db, x)
  {
    Distinct(Select(Where(db.maskRecords, (x: MaskRecord) => AlertWindow(x.timestamp, x.deviceId, devices, start, end)),
      (x: MaskRecord) => MaskRowOf(db, x)))
  }

  /** `allAlerts`: the joined rows of the site between the two dates, visitors told by PersonUID. */
  function AllAlerts(db: Db, siteId: int, start: Timestamp, end: Timestamp, fetch: string -> string): (r: seq<Entry>)
    ensures NoDuplicates(r)
    ensures forall e :: e in r <==>
              var devices := ScopeDevices(db, SiteScope(siteId));
              IsJoinedEntry(e, SiteTemperatureRows(db, devices, start, end), SiteMaskRows(db, devices, start, end), BySentinel, fetch)
  {
    var devices := ScopeDevices(db, SiteScope(siteId));
    var ts, ms := SiteTemperatureRows(db, devices, start, end), SiteMaskRows(db, devices, start, end);
    FullOuterJoin(ts, ms, BySentinel, fetch)
  }

  /** `!x.Mask || Convert.ToDecimal(x.Temperature) > threshold`, for a row whose conversion succeeds. */
  predicate IsAlert(e: Entry, threshold: Decimal)
  {
    !e.mask || (e.temperature.Shown? && Greater(Decimal(e.temperature.tenths, 1), threshold))
  }

  /** A row the filter converts although its temperature text is empty. */
  predicate Unconvertible(e: Entry)
  {
    e.mask && e.temperature.Blank?
  }

  /** The site's alerts: the joined rows that report a mask (false) or a temperature above the
      threshold, most recent first. The filter runs while the response is written; an
      empty temperature text meets `Convert.ToDecimal` there and fails outside the handler. */
  function GetAlertsByTimestamp(db: Db, siteId: int, start: Timestamp, end: Timestamp, src: ConfigReader.Sources, fetch: string -> string): (r: Response<seq<Entry>>)
    ensures !r.SystemError?
    ensures r.Unhandled? <==> exists e :: e in AllAlerts(db, siteId, start, end, fetch) && Unconvertible(e)
    ensures r.Unhandled? ==> r.message == BadFormat
    ensures r.Successful? ==>
              && SortedByTimestampDesc(r.payload)
              && NoDuplicates(r.payload)
              && forall e :: e in r.payload <==>
                   e in AllAlerts(db, siteId, start, end, fetch) && IsAlert(e, ConfigReader.GetTemperatureThreshold(src))
  {
    var all := AllAlerts(db, siteId, start, end, fetch);
    var threshold := ConfigReader.GetTemperatureThreshold(src);
    if exists e :: e in all && Unconvertible(e) then Unhandled(BadFormat)
    else
      var kept := Where(all, (e: Entry) => IsAlert(e, threshold));
      OrderKeepsDistinct(kept);
      Successful(OrderByTimestampDesc(kept))
  }

  /** Every mask record of the site in the window is reported, whatever the threshold. */
  lemma {:induction false} AlertsKeepMaskRecords(db: Db, siteId: int, start: Timestamp, end: Timestamp, src: ConfigReader.Sources, fetch: string -> string, x: MaskRecord)
    requires GetAlertsByTimestamp(db, siteId, start, end, src, fetch).Successful?
    requires x in db.maskRecords && AlertWindow(x.timestamp, x.deviceId, ScopeDevices(db, SiteScope(siteId)), start, end)
    ensures exists e :: e in GetAlertsByTimestamp(db, siteId, start, end, src, fetch).payload &&
              !e.mask && e.timestamp == StampOf(x.timestamp) && (e.visitor <==> x.personUid == ConfigReader.VisitorUid)
  {
    var devices := ScopeDevices(db, SiteScope(siteId));
    var ts, ms := SiteTemperatureRows(db, devices, start, end), SiteMaskRows(db, devices, start, end);
    assert MaskRowOf(db, x) in ms;
    JoinShowsEveryMaskRow(ts, ms, BySentinel, fetch, MaskRowOf(db, x));
  }

  /** A temperature record with no mask record in its second is reported exactly when its
      one-decimal temperature is above the threshold. */
  lemma {:induction false} AlertsFilterUnmatchedTemperatures(db: Db, siteId: int, start: Timestamp, end: Timestamp, src: ConfigReader.Sources, fetch: string -> string, x: TemperatureRecord)
    requires GetAlertsByTimestamp(db, siteId, start, end, src, fetch).Successful?
    requires x in db.temperatureRecords && AlertWindow(x.timestamp, x.deviceId, ScopeDevices(db, SiteScope(siteId)), start, end)
    requires !HasMaskAt(SiteMaskRows(db, ScopeDevices(db, SiteScope(siteId)), start, end), StampOf(x.timestamp))
    ensures var e := LeftEntry(TemperatureRowOf(db, x), false, BySentinel, fetch);
            && e.mask
            && e.temperature.Shown?
            && (e in GetAlertsByTimestamp(db, siteId, start, end, src, fetch).payload <==>
                  Greater(Decimal(e.temperature.tenths, 1), ConfigReader.GetTemperatureThreshold(src)))
  {
    var devices := ScopeDevices(db, SiteScope(siteId));
    var ts, ms := SiteTemperatureRows(db, devices, start, end), SiteMaskRows(db, devices, start, end);
    var a := TemperatureRowOf(db, x);
    assert a in ts;
    JoinKeepsEveryRow(ts, ms, BySentinel, fetch);
    assert LeftEntry(a, false, BySentinel, fetch) in AllAlerts(db, siteId, start, end, fetch);
  }
}
