/** The earthquake record (model/QuakeEntry.java) as an immutable value.
    A setter returns the updated record instead of changing it in place. */
module Quake {
  import opened Outcomes

  /** A latitude/longitude pair in degrees. */
  datatype Location = Location(latitude: real, longitude: real)

  /** One earthquake. `id`, `dateTime` and `link` are references the short
      constructor leaves null; `title` doubles as the record's "info". */
  datatype QuakeEntry = QuakeEntry(
    id: Option<string>,
    location: Location,
    title: string,
    depth: real,
    magnitude: real,
    dateTime: Option<string>,
    link: Option<string>)

  /** The five-argument constructor. */
  function NewQuakeEntry(lat: real, lon: real, mag: real, t: string, d: real): (e: QuakeEntry)
    ensures e.location.latitude == lat && e.location.longitude == lon
    ensures e.magnitude == mag && e.title == t && e.depth == d
    ensures e.id.None? && e.dateTime.None? && e.link.None?
  {
    QuakeEntry(None, Location(lat, lon), t, d, mag, None, None)
  }

  /** The eight-argument constructor. */
  function NewFullQuakeEntry(id: Option<string>, lat: real, lon: real, mag: real, t: string, d: real,
                             date: Option<string>, link: Option<string>): (e: QuakeEntry)
    ensures e.id == id && e.location == Location(lat, lon)
    ensures e.magnitude == mag && e.title == t && e.depth == d
    ensures e.dateTime == date && e.link == link
  {
    QuakeEntry(id, Location(lat, lon), t, d, mag, date, link)
  }

  function SetMyLocation(e: QuakeEntry, loc: Location): (r: QuakeEntry)
    ensures r.location == loc
    ensures r.id == e.id && r.title == e.title && r.depth == e.depth && r.magnitude == e.magnitude
    ensures r.dateTime == e.dateTime && r.link == e.link
  {
    e.(location := loc)
  }

  function SetTitle(e: QuakeEntry, t: string): (r: QuakeEntry)
    ensures r.title == t
    ensures r.id == e.id && r.location == e.location && r.depth == e.depth && r.magnitude == e.magnitude
    ensures r.dateTime == e.dateTime && r.link == e.link
  {
    e.(title := t)
  }

  function SetDepth(e: QuakeEntry, d: real): (r: QuakeEntry)
    ensures r.depth == d
    ensures r.id == e.id && r.location == e.location && r.title == e.title && r.magnitude == e.magnitude
    ensures r.dateTime == e.dateTime && r.link == e.link
  {
    e.(depth := d)
  }

  function SetMagnitude(e: QuakeEntry, m: real): (r: QuakeEntry)
    ensures r.magnitude == m
    ensures r.id == e.id && r.location == e.location && r.title == e.title && r.depth == e.depth
    ensures r.dateTime == e.dateTime && r.link == e.link
  {
    e.(magnitude := m)
  }

  function SetId(e: QuakeEntry, id: Option<string>): (r: QuakeEntry)
    ensures r.id == id
    ensures r.location == e.location && r.title == e.title && r.depth == e.depth && r.magnitude == e.magnitude
    ensures r.dateTime == e.dateTime && r.link == e.link
  {
    e.(id := id)
  }

  function SetDateTime(e: QuakeEntry, date: Option<string>): (r: QuakeEntry)
    ensures r.dateTime == date
    ensures r.id == e.id && r.location == e.location && r.title == e.title && r.depth == e.depth
    ensures r.magnitude == e.magnitude && r.link == e.link
  {
    e.(dateTime := date)
  }

  function SetLink(e: QuakeEntry, link: Option<string>): (r: QuakeEntry)
    ensures r.link == link
    ensures r.id == e.id && r.location == e.location && r.title == e.title && r.depth == e.depth
    ensures r.magnitude == e.magnitude && r.dateTime == e.dateTime
  {
    e.(link := link)
  }

  /** The record's natural order: every location-based comparison is
      commented out, so any two records compare as equal. */
  function CompareTo(a: QuakeEntry, b: QuakeEntry): int
  {
    0
  }

  /** The natural order ranks every record alike, so it is not consistent
      with equality: records that differ in every field still compare as 0. */
  lemma NaturalOrderIgnoresFields(a: QuakeEntry, b: QuakeEntry)
    ensures CompareTo(a, b) == 0 && CompareTo(b, a) == 0
    ensures a.title != b.title ==> a != b && CompareTo(a, b) == 0
  {
  }
}
