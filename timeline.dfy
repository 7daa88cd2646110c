/** The hand-built full outer join that the person record, the alerts list and the
    entrance log share: temperature rows left-joined to mask rows on the rendered
    timestamp, mask rows left-joined to temperature rows, the two unioned and
    ordered by timestamp, most recent first. */
module Timeline {
  import opened Common
  import opened Decimals
  import opened Entities
  import opened Linq
  import ConfigReader

  /** A temperature record projected to PersonUID, PersonName, Location,
      Temperature (`"#.#"`), Timestamp (`ToString()`), ImagePath and ImageBase64. */
  datatype TemperatureRow = TemperatureRow(
    personUid: string, personName: string, location: string, temperature: OneDecimal,
    stamp: nat, imagePath: string, imageBase64: string)

  /** A mask record projected likewise; its constant `Mask = false` is left implicit. */
  datatype MaskRow = MaskRow(
    personUid: string, personName: string, location: string,
    stamp: nat, imagePath: string, imageBase64: string)

  /** One joined row. `mask == false` means "no mask", as the source's comment says. */
  datatype Entry = Entry(
    visitor: bool, person: string, location: string, temperature: OneDecimal,
    mask: bool, timestamp: nat, image: string)

  /** How each side of the join sets `Visitor`: a constant per side, or
      `PersonUID == VisitorUID`. */
  datatype VisitorRule = Fixed(onTemperatureSide: bool, onMaskSide: bool) | BySentinel

  function VisitorFlag(rule: VisitorRule, temperatureSide: bool, personUid: string): bool
  {
    match rule
    case Fixed(t, m) => if temperatureSide then t else m
    case BySentinel => personUid == ConfigReader.VisitorUid
  }

  function TemperatureRowOf(db: Db, r: TemperatureRecord): TemperatureRow
  {
    TemperatureRow(r.personUid, r.personName, Location(db, r.deviceId),
      RenderOneDecimal(FromThousandths(r.temperature)), StampOf(r.timestamp), r.imagePath, r.imageBase64)
  }

  function MaskRowOf(db: Db, r: MaskRecord): MaskRow
  {
    MaskRow(r.personUid, r.personName, Location(db, r.deviceId), StampOf(r.timestamp), r.imagePath, r.imageBase64)
  }

  /** The captured image: the inline capture, or the stored path fetched and encoded. */
  function Image(base64: string, path: string, fetch: string -> string): string
  {
    if base64 != "" then base64 else fetch(path)
  }

  predicate HasMaskAt(ms: seq<MaskRow>, stamp: nat)
  {
    exists b :: b in ms && b.stamp == stamp
  }

  predicate HasTemperatureAt(ts: seq<TemperatureRow>, stamp: nat)
  {
    exists a :: a in ts && a.stamp == stamp
  }

  function LeftEntry(a: TemperatureRow, maskFound: bool, rule: VisitorRule, fetch: string -> string): Entry
  {
    Entry(VisitorFlag(rule, true, a.personUid), a.personName, a.location, a.temperature,
      !maskFound, a.stamp, Image(a.imageBase64, a.imagePath, fetch))
  }

  function RightEntry(b: MaskRow, temperature: OneDecimal, rule: VisitorRule, fetch: string -> string): Entry
  {
    Entry(VisitorFlag(rule, false, b.personUid), b.personName, b.location, temperature,
      false, b.stamp, Image(b.imageBase64, b.imagePath, fetch))
  }

  // ---------------------------------------------------------------------------
  // join ... into bb from c in bb.DefaultIfEmpty()

  /** The rows one temperature row contributes: one per mask row at its timestamp,
      or a single row when there is none. */
  function LeftRows(a: TemperatureRow, ms: seq<MaskRow>, rule: VisitorRule, fetch: string -> string): seq<Entry>
  {
    var bb := Where(ms, (b: MaskRow) => b.stamp == a.stamp);
    if bb == [] then [LeftEntry(a, false, rule, fetch)]
    else seq(|bb|, _ => LeftEntry(a, true, rule, fetch))
  }

  function LeftOuterJoin(ts: seq<TemperatureRow>, ms: seq<MaskRow>, rule: VisitorRule, fetch: string -> string): seq<Entry>
  {
    if ts == [] then [] else LeftRows(ts[0], ms, rule, fetch) + LeftOuterJoin(ts[1..], ms, rule, fetch)
  }

  /** The rows one mask row contributes: one per temperature row at its timestamp,
      carrying that row's temperature, or a single row with an empty temperature. */
  function RightRows(b: MaskRow, ts: seq<TemperatureRow>, rule: VisitorRule, fetch: string -> string): seq<Entry>
  {
    var bb := Where(ts, (a: TemperatureRow) => a.stamp == b.stamp);
    if bb == [] then [RightEntry(b, Blank, rule, fetch)]
    else seq(|bb|, i requires 0 <= i < |bb| => RightEntry(b, bb[i].temperature, rule, fetch))
  }

  function RightOuterJoin(ms: seq<MaskRow>, ts: seq<TemperatureRow>, rule: VisitorRule, fetch: string -> string): seq<Entry>
  {
    if ms == [] then [] else RightRows(ms[0], ts, rule, fetch) + RightOuterJoin(ms[1..], ts, rule, fetch)
  }

  // ---------------------------------------------------------------------------
  // orderby Timestamp descending

  predicate SortedByTimestampDesc(s: seq<Entry>)
  {
    forall i, j :: 0 <= i < j < |s| ==> s[i].timestamp >= s[j].timestamp
  }

  lemma SortedCons(h: Entry, t: seq<Entry>)
    requires SortedByTimestampDesc(t)
    requires t != [] ==> h.timestamp >= t[0].timestamp
    ensures SortedByTimestampDesc([h] + t)
  {
    var r := [h] + t;
    forall i, j | 0 <= i < j < |r| ensures r[i].timestamp >= r[j].timestamp {
      if i == 0 && j > 1 { assert t[0].timestamp >= t[j - 1].timestamp; }
    }
  }

  /** Inserts x before the first entry that is not more recent, so that among equal
      timestamps the earlier input stays first. */
  function InsertByTimestamp(x: Entry, s: seq<Entry>): (r: seq<Entry>)
    requires SortedByTimestampDesc(s)
    ensures SortedByTimestampDesc(r)
    ensures multiset(r) == multiset(s) + multiset{x}
    ensures r[0] == x || (s != [] && r[0] == s[0])
  {
    if s == [] || x.timestamp >= s[0].timestamp then
      SortedCons(x, s);
      [x] + s
    else
      var rest := InsertByTimestamp(x, s[1..]);
      assert s == [s[0]] + s[1..];
      SortedCons(s[0], rest);
      [s[0]] + rest
  }

  lemma {:induction false} InsertKeepsDistinct(x: Entry, s: seq<Entry>)
    requires SortedByTimestampDesc(s) && NoDuplicates(s) && x !in s
    ensures NoDuplicates(InsertByTimestamp(x, s))
  {
    if s == [] || x.timestamp >= s[0].timestamp {
      NoDuplicatesCons(x, s);
    } else {
      assert s == [s[0]] + s[1..];
      InsertKeepsDistinct(x, s[1..]);
      var rest := InsertByTimestamp(x, s[1..]);
      assert s[0] !in rest by {
        assert s[0] !in s[1..];
        assert s[0] !in multiset(s[1..]) + multiset{x};
      }
      NoDuplicatesCons(s[0], rest);
    }
  }

  /** `OrderByDescending(x => x.Timestamp)`, a stable sort. */
  function OrderByTimestampDesc(s: seq<Entry>): (r: seq<Entry>)
    ensures SortedByTimestampDesc(r)
    ensures multiset(r) == multiset(s)
    ensures forall e :: e in r <==> e in s
  {
    if s == [] then []
    else
      assert s == [s[0]] + s[1..];
      var r := InsertByTimestamp(s[0], OrderByTimestampDesc(s[1..]));
      assert forall e :: e in r <==> e in s by {
        forall e ensures e in r <==> e in s {
          assert e in r <==> e in multiset(r);
          assert e in s <==> e in multiset(s);
        }
      }
      r
  }

  lemma {:induction false} OrderKeepsDistinct(s: seq<Entry>)
    requires NoDuplicates(s)
    ensures NoDuplicates(OrderByTimestampDesc(s))
  {
    if s != [] {
      assert s == [s[0]] + s[1..];
      OrderKeepsDistinct(s[1..]);
      var rest := OrderByTimestampDesc(s[1..]);
      assert s[0] !in rest by {
        assert s[0] !in s[1..];
        assert s[0] !in multiset(s[1..]);
      }
      InsertKeepsDistinct(s[0], rest);
    }
  }

  /** `leftOuterJoin.Union(rightOuterJoin)` ordered by timestamp, most recent first: sorted
      most recent first, each row once, and exactly the rows `IsJoinedEntry` describes. */
  function FullOuterJoin(ts: seq<TemperatureRow>, ms: seq<MaskRow>, rule: VisitorRule, fetch: string -> string): (r: seq<Entry>)
    ensures SortedByTimestampDesc(r)
    ensures NoDuplicates(r)
    ensures forall e :: e in r <==> IsJoinedEntry(e, ts, ms, rule, fetch)
  {
    FullOuterJoinShape(ts, ms, rule, fetch);
    OrderByTimestampDesc(Union(LeftOuterJoin(ts, ms, rule, fetch), RightOuterJoin(ms, ts, rule, fetch)))
  }

  // ---------------------------------------------------------------------------
  // What the join produces, stated without the join

  /** e is the row of a temperature row, marked "no mask" (false) exactly when a mask row
      shares its timestamp; or the row of a mask row, carrying the temperature of a
      temperature row at the same timestamp, or an empty temperature when there is none. */
  predicate IsJoinedEntry(e: Entry, ts: seq<TemperatureRow>, ms: seq<MaskRow>, rule: VisitorRule, fetch: string -> string)
  {
    FromTemperatureRow(e, ts, ms, rule, fetch) || FromLoneMaskRow(e, ts, ms, rule, fetch) || FromMatchedMaskRow(e, ts, ms, rule, fetch)
  }

  predicate FromTemperatureRow(e: Entry, ts: seq<TemperatureRow>, ms: seq<MaskRow>, rule: VisitorRule, fetch: string -> string)
  {
    exists a :: a in ts && e == LeftEntry(a, HasMaskAt(ms, a.stamp), rule, fetch)
  }

  predicate FromLoneMaskRow(e: Entry, ts: seq<TemperatureRow>, ms: seq<MaskRow>, rule: VisitorRule, fetch: string -> string)
  {
    exists b :: b in ms && !HasTemperatureAt(ts, b.stamp) && e == RightEntry(b, Blank, rule, fetch)
  }

  predicate FromMatchedMaskRow(e: Entry, ts: seq<TemperatureRow>, ms: seq<MaskRow>, rule: VisitorRule, fetch: string -> string)
  {
    exists a, b :: a in ts && b in ms && a.stamp == b.stamp && e == RightEntry(b, a.temperature, rule, fetch)
  }

  lemma {:induction false} LeftRowsMembers(a: TemperatureRow, ms: seq<MaskRow>, rule: VisitorRule, fetch: string -> string)
    ensures forall e :: e in LeftRows(a, ms, rule, fetch) <==> e == LeftEntry(a, HasMaskAt(ms, a.stamp), rule, fetch)
  {
    var bb := Where(ms, (b: MaskRow) => b.stamp == a.stamp);
    assert bb == [] <==> !HasMaskAt(ms, a.stamp) by {
      if bb != [] { assert bb[0] in bb; }
    }
    if bb != [] {
      assert LeftRows(a, ms, rule, fetch)[0] == LeftEntry(a, true, rule, fetch);
    }
  }

  lemma {:induction false} LeftOuterJoinMembers(ts: seq<TemperatureRow>, ms: seq<MaskRow>, rule: VisitorRule, fetch: string -> string)
    ensures forall e :: e in LeftOuterJoin(ts, ms, rule, fetch) <==>
              exists a :: a in ts && e == LeftEntry(a, HasMaskAt(ms, a.stamp), rule, fetch)
  {
    if ts != [] {
      LeftRowsMembers(ts[0], ms, rule, fetch);
      LeftOuterJoinMembers(ts[1..], ms, rule, fetch);
      assert forall a :: a in ts <==> a == ts[0] || a in ts[1..];
    }
  }

  lemma {:induction false} RightRowsMembers(b: MaskRow, ts: seq<TemperatureRow>, rule: VisitorRule, fetch: string -> string)
    ensures forall e :: e in RightRows(b, ts, rule, fetch) <==>
              (!HasTemperatureAt(ts, b.stamp) && e == RightEntry(b, Blank, rule, fetch)) ||
              (exists a :: a in ts && a.stamp == b.stamp && e == RightEntry(b, a.temperature, rule, fetch))
  {
    var bb := Where(ts, (a: TemperatureRow) => a.stamp == b.stamp);
    assert bb == [] <==> !HasTemperatureAt(ts, b.stamp) by {
      if bb != [] { assert bb[0] in bb; }
    }
    if bb != [] {
      var rows := RightRows(b, ts, rule, fetch);
      forall e ensures e in rows <==> exists a :: a in ts && a.stamp == b.stamp && e == RightEntry(b, a.temperature, rule, fetch) {
        if e in rows {
          var i :| 0 <= i < |rows| && rows[i] == e;
          assert bb[i] in bb;
        }
        if exists a :: a in ts && a.stamp == b.stamp && e == RightEntry(b, a.temperature, rule, fetch) {
          var a :| a in ts && a.stamp == b.stamp && e == RightEntry(b, a.temperature, rule, fetch);
          assert a in bb;
          var i :| 0 <= i < |bb| && bb[i] == a;
          assert rows[i] == e;
        }
      }
    }
  }

  lemma {:induction false} RightOuterJoinMembers(ms: seq<MaskRow>, ts: seq<TemperatureRow>, rule: VisitorRule, fetch: string -> string)
    ensures forall e :: e in RightOuterJoin(ms, ts, rule, fetch) <==>
              (exists b :: b in ms && !HasTemperatureAt(ts, b.stamp) && e == RightEntry(b, Blank, rule, fetch)) ||
              (exists a, b :: a in ts && b in ms && a.stamp == b.stamp && e == RightEntry(b, a.temperature, rule, fetch))
  {
    if ms != [] {
      RightRowsMembers(ms[0], ts, rule, fetch);
      RightOuterJoinMembers(ms[1..], ts, rule, fetch);
      assert forall b :: b in ms <==> b == ms[0] || b in ms[1..];
    }
  }

  /** The union of the two outer joins, ordered, has the shape `FullOuterJoin` promises. */
  lemma {:induction false} FullOuterJoinShape(ts: seq<TemperatureRow>, ms: seq<MaskRow>, rule: VisitorRule, fetch: string -> string)
    ensures var left, right := LeftOuterJoin(ts, ms, rule, fetch), RightOuterJoin(ms, ts, rule, fetch);
            && SortedByTimestampDesc(OrderByTimestampDesc(Union(left, right)))
            && NoDuplicates(OrderByTimestampDesc(Union(left, right)))
            && forall e :: e in OrderByTimestampDesc(Union(left, right)) <==> IsJoinedEntry(e, ts, ms, rule, fetch)
  {
    LeftOuterJoinMembers(ts, ms, rule, fetch);
    RightOuterJoinMembers(ms, ts, rule, fetch);
    var left, right := LeftOuterJoin(ts, ms, rule, fetch), RightOuterJoin(ms, ts, rule, fetch);
    OrderKeepsDistinct(Union(left, right));
    forall e ensures e in OrderByTimestampDesc(Union(left, right)) <==> IsJoinedEntry(e, ts, ms, rule, fetch) {
      assert e in left <==> FromTemperatureRow(e, ts, ms, rule, fetch);
      assert e in right <==> FromLoneMaskRow(e, ts, ms, rule, fetch) || FromMatchedMaskRow(e, ts, ms, rule, fetch);
    }
  }

  /** Every temperature row appears, marked "no mask" (false) exactly when some mask row
      has its timestamp; every mask row appears marked "no mask", with an empty
      temperature exactly when no temperature row has its timestamp. */
  lemma {:induction false} JoinKeepsEveryRow(ts: seq<TemperatureRow>, ms: seq<MaskRow>, rule: VisitorRule, fetch: string -> string)
    ensures forall a :: a in ts ==> LeftEntry(a, HasMaskAt(ms, a.stamp), rule, fetch) in FullOuterJoin(ts, ms, rule, fetch)
    ensures forall b :: b in ms && !HasTemperatureAt(ts, b.stamp) ==> RightEntry(b, Blank, rule, fetch) in FullOuterJoin(ts, ms, rule, fetch)
    ensures forall a, b :: a in ts && b in ms && a.stamp == b.stamp ==>
              RightEntry(b, a.temperature, rule, fetch) in FullOuterJoin(ts, ms, rule, fetch)
  {
  }

  /** An entry reports "no mask" (false) exactly when some mask row lies in its second. */
  lemma {:induction false} MaskFlagMeansNoMaskRecord(ts: seq<TemperatureRow>, ms: seq<MaskRow>, rule: VisitorRule, fetch: string -> string, e: Entry)
    requires e in FullOuterJoin(ts, ms, rule, fetch)
    ensures e.mask <==> !HasMaskAt(ms, e.timestamp)
  {
    if FromLoneMaskRow(e, ts, ms, rule, fetch) {
      var b :| b in ms && !HasTemperatureAt(ts, b.stamp) && e == RightEntry(b, Blank, rule, fetch);
      assert HasMaskAt(ms, e.timestamp);
    } else if FromMatchedMaskRow(e, ts, ms, rule, fetch) {
      var a, b :| a in ts && b in ms && a.stamp == b.stamp && e == RightEntry(b, a.temperature, rule, fetch);
      assert HasMaskAt(ms, e.timestamp);
    }
  }

  /** Every entry is a temperature row's, at its timestamp, under its name and flagged by the
      temperature side's rule; or a mask row's, likewise, reporting "no mask" (false). */
  lemma {:induction false} JoinedEntryOrigin(ts: seq<TemperatureRow>, ms: seq<MaskRow>, rule: VisitorRule, fetch: string -> string, e: Entry)
    requires e in FullOuterJoin(ts, ms, rule, fetch)
    ensures || (exists a :: a in ts && a.stamp == e.timestamp && a.personName == e.person &&
                  e.visitor == VisitorFlag(rule, true, a.personUid))
            || (exists b :: b in ms && b.stamp == e.timestamp && b.personName == e.person && !e.mask &&
                  e.visitor == VisitorFlag(rule, false, b.personUid))
  {
    if FromTemperatureRow(e, ts, ms, rule, fetch) {
      var a :| a in ts && e == LeftEntry(a, HasMaskAt(ms, a.stamp), rule, fetch);
    } else if FromLoneMaskRow(e, ts, ms, rule, fetch) {
      var b :| b in ms && !HasTemperatureAt(ts, b.stamp) && e == RightEntry(b, Blank, rule, fetch);
    } else {
      var a, b :| a in ts && b in ms && a.stamp == b.stamp && e == RightEntry(b, a.temperature, rule, fetch);
    }
  }

  /** Every mask row is reported in its second, marked "no mask" (false). */
  lemma {:induction false} JoinShowsEveryMaskRow(ts: seq<TemperatureRow>, ms: seq<MaskRow>, rule: VisitorRule, fetch: string -> string, b: MaskRow)
    requires b in ms
    ensures exists e :: e in FullOuterJoin(ts, ms, rule, fetch) && !e.mask && e.timestamp == b.stamp &&
              e.person == b.personName && e.visitor == VisitorFlag(rule, false, b.personUid)
  {
    JoinKeepsEveryRow(ts, ms, rule, fetch);
    if HasTemperatureAt(ts, b.stamp) {
      var a :| a in ts && a.stamp == b.stamp;
      assert RightEntry(b, a.temperature, rule, fetch) in FullOuterJoin(ts, ms, rule, fetch);
    } else {
      assert RightEntry(b, Blank, rule, fetch) in FullOuterJoin(ts, ms, rule, fetch);
    }
  }
}
