/**
 * The three stored entities of the utilities app and the uniqueness constraints the
 * database enforces on them.
 */
module Models {
  import opened Calendar

  /** A meter's primary key. */
  type MeterId = nat

  datatype Meter = Meter(id: MeterId, name: string, unit: string)

  /** One dated meter reading; `reading` is the value read off the meter. */
  datatype Reading = Reading(date: CalDate, reading: real, meter: MeterId, remark: string)

  /** The unique key of a Usage row: (year, month, meter). */
  datatype UsageKey = UsageKey(year: int, month: int, meter: MeterId)

  /** The Usage table: one usage amount per key, so at most one row per (year, month, meter). */
  type UsageTable = map<UsageKey, real>

  /** `meter_name` is unique, and so is the primary key. */
  ghost predicate MetersUnique(ms: seq<Meter>) {
    forall i, j :: 0 <= i < j < |ms| ==> ms[i].name != ms[j].name && ms[i].id != ms[j].id
  }

  /** At most one Reading per (date, meter). */
  ghost predicate ReadingsUnique(rs: seq<Reading>) {
    forall i, j :: 0 <= i < j < |rs| ==> !(rs[i].date == rs[j].date && rs[i].meter == rs[j].meter)
  }

  /** Whether a reading with the same (date, meter) is already stored. */
  function ReadingClash(rs: seq<Reading>, r: Reading): (clash: bool)
    ensures clash <==> exists x :: x in rs && x.date == r.date && x.meter == r.meter
  {
    if rs == [] then false
    else (rs[0].date == r.date && rs[0].meter == r.meter) || ReadingClash(rs[1..], r)
  }

  /** Whether a meter with the same name is already stored. */
  function NameTaken(ms: seq<Meter>, name: string): (taken: bool)
    ensures taken <==> exists m :: m in ms && m.name == name
  {
    if ms == [] then false else ms[0].name == name || NameTaken(ms[1..], name)
  }

  /** Whether `id` is the key of a stored meter. */
  function MeterKnown(ms: seq<Meter>, id: MeterId): (known: bool)
    ensures known <==> exists m :: m in ms && m.id == id
  {
    if ms == [] then false else ms[0].id == id || MeterKnown(ms[1..], id)
  }

  /** Appending a reading the constraint admits keeps the readings unique. */
  lemma InsertKeepsReadingsUnique(rs: seq<Reading>, r: Reading)
    requires ReadingsUnique(rs) && !ReadingClash(rs, r)
    ensures ReadingsUnique(rs + [r])
  {
    var rs' := rs + [r];
    forall i, j | 0 <= i < j < |rs'|
      ensures !(rs'[i].date == rs'[j].date && rs'[i].meter == rs'[j].meter)
    {
      if j == |rs| {
        assert rs'[i] in rs;
      }
    }
  }

  /** A second reading on the same date for the same meter is refused. */
  lemma SecondReadingSameDayRefused(rs: seq<Reading>, r: Reading, r': Reading)
    requires r in rs && r'.date == r.date && r'.meter == r.meter
    ensures ReadingClash(rs, r')
  {
  }

  /** Appending a meter with a new name and a new key keeps the meters unique. */
  lemma InsertKeepsMetersUnique(ms: seq<Meter>, m: Meter)
    requires MetersUnique(ms) && !NameTaken(ms, m.name) && !MeterKnown(ms, m.id)
    ensures MetersUnique(ms + [m])
  {
    var ms' := ms + [m];
    forall i, j | 0 <= i < j < |ms'|
      ensures ms'[i].name != ms'[j].name && ms'[i].id != ms'[j].id
    {
      if j == |ms| {
        assert ms'[i] in ms;
      }
    }
  }
}
