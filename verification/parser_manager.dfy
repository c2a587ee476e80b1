/** ParserManager/EarthQuakeParser.java: `read`, `getPaginatedEarthquakeData`
    and `readTitles` over an already loaded document. Only the checked
    exceptions of loading are caught; an exception raised while an entry is
    read escapes to the caller. */
module ParserManager {
  import opened Outcomes
  import opened Seqs
  import opened Quake
  import opened Feed
  import opened XmlParsing

  /** The loop body of `read` for one `entry` element. The fields are read
      in the source's order (point, date, depth, id, link, magnitude,
      title), so the first field that throws decides the exception. The
      magnitude reader's null is unboxed into a `double`, which throws for
      an entry without a title. */
  function ParseEntry(n: Node, parse: ParseDouble): (r: Result<QuakeEntry>)
    ensures n.title.Missing? ==> r.Failure?
  {
    var loc :- ReadPoint(n.point, parse);
    var dateTime := ReadDateTime(n.summary);
    var depth :- ReadDepth(n.elev, parse);
    var id :- ReadId(n.id);
    var link := ReadLink(n.link);
    var mag :- ReadMagnitude(n.title, parse);
    if mag.None? then
      Failure(NullPointer)
    else
      // The magnitude reader succeeded on this title, so the title reader does too.
      var title := ReadTitle(n.title, parse);
      assert title.Success? && title.value.Some?;
      Success(NewFullQuakeEntry(id, loc.latitude, loc.longitude, mag.value, title.value.value, depth, dateTime, Some(link)))
  }

  /** An entry is read exactly when each of its field readers succeeds and
      it has a title, and the record then holds what each reader returned. */
  lemma ParseEntryReadsFields(n: Node, parse: ParseDouble)
    ensures var r := ParseEntry(n, parse);
            r.Success? <==>
              && ReadPoint(n.point, parse).Success?
              && ReadDepth(n.elev, parse).Success?
              && ReadId(n.id).Success?
              && ReadMagnitude(n.title, parse).Success?
              && n.title.Text?
    ensures var r := ParseEntry(n, parse);
            r.Success? ==>
              && ReadPoint(n.point, parse) == Success(r.value.location)
              && ReadDepth(n.elev, parse) == Success(r.value.depth)
              && ReadId(n.id) == Success(r.value.id)
              && ReadMagnitude(n.title, parse) == Success(Some(r.value.magnitude))
              && ReadTitle(n.title, parse) == Success(Some(r.value.title))
              && r.value.dateTime == ReadDateTime(n.summary)
              && r.value.link == Some(ReadLink(n.link))
  {
  }

  /** An entry with only a USGS title "M <mag> - <place>" is placed at
      (0, 0) with depth 0, no id and an empty link, and is titled with the
      place. */
  lemma TitleOnlyEntry(n: Node, parse: ParseDouble, mag: string, place: string, m: real)
    requires n.point.Missing? && n.elev.Missing? && n.id.Missing? && n.link.None?
    requires n.title == Text("M " + mag + " - " + place)
    requires |mag| >= 3 && ' ' !in mag && '?' !in mag && parse(mag) == Some(m)
    ensures ParseEntry(n, parse) == Success(NewFullQuakeEntry(None, 0.0, 0.0, m, place, 0.0, ReadDateTime(n.summary), Some("")))
  {
    UsgsTitleSplits(mag, place);
  }

  /** `ParseEntry` as the function the entry loop applies. */
  function EntryParser(parse: ParseDouble): Node -> Result<QuakeEntry> {
    n => ParseEntry(n, parse)
  }

  /** `read`: a document that cannot be loaded yields an empty list;
      otherwise one record per root child named `entry`. */
  function Read(loaded: Loaded, parse: ParseDouble): (r: Result<seq<QuakeEntry>>)
    ensures loaded.LoadFailed? ==> r == Success([])
  {
    match loaded
    case LoadFailed(_) => Success([])
    case Loaded(d) => ParseEntries(d.children, EntryParser(parse))
  }

  /** `read` succeeds exactly when every entry can be read, and then returns
      one record per entry, in document order. */
  lemma ReadOneRecordPerEntry(d: Document, parse: ParseDouble)
    ensures Read(Loaded(d), parse).Success? <==>
            forall i :: 0 <= i < |Entries(d)| ==> ParseEntry(Entries(d)[i], parse).Success?
    ensures Read(Loaded(d), parse).Success? ==>
            var v := Read(Loaded(d), parse).value;
            && |v| == |Entries(d)|
            && forall i :: 0 <= i < |v| ==> ParseEntry(Entries(d)[i], parse) == Success(v[i])
  {
    var es := Entries(d);
    ParseEntriesOfEntries(d.children, EntryParser(parse));
    ParseEntriesSucceedsIff(es, EntryParser(parse));
    if Read(Loaded(d), parse).Success? {
      ParseEntriesValues(d.children, EntryParser(parse));
    }
  }

  /** A failing `read` reports the exception of the first entry that fails. */
  lemma ReadFailsAtFirstBadEntry(d: Document, parse: ParseDouble)
    requires Read(Loaded(d), parse).Failure?
    ensures exists i :: FirstFailing(d.children, EntryParser(parse), i)
                        && Read(Loaded(d), parse).error == ParseEntry(d.children[i], parse).error
  {
    ParseEntriesFirstFailure(d.children, EntryParser(parse));
  }

  /** One entry without a `title` element makes the whole `read` throw. */
  lemma EntryWithoutTitleFailsRead(d: Document, i: int, parse: ParseDouble)
    requires 0 <= i < |d.children| && IsEntry(d.children[i]) && d.children[i].title.Missing?
    ensures Read(Loaded(d), parse).Failure?
  {
    ParseEntriesSucceedsIff(d.children, EntryParser(parse));
  }

  /** An entry without a `georss:point` is placed at latitude and longitude 0. */
  lemma MissingPointReadsAsOrigin(d: Document, i: int, parse: ParseDouble)
    requires Read(Loaded(d), parse).Success?
    requires 0 <= i < |Entries(d)| && Entries(d)[i].point.Missing?
    ensures i < |Read(Loaded(d), parse).value|
    ensures Read(Loaded(d), parse).value[i].location == Location(0.0, 0.0)
  {
    ReadOneRecordPerEntry(d, parse);
  }

  // ---------------------------------------------------------------------
  // getPaginatedEarthquakeData

  function Min(a: int, b: int): int {
    if a < b then a else b
  }

  /** The page `[p*s, min(p*s + s, total))` of the `entry` elements, each
      read with `entry`. The page lemmas are stated for any entry reader. */
  function PageOf<T>(d: Document, pageNumber: int, pageSize: int, entry: Node -> Result<T>): Result<seq<T>>
  {
    var es := Entries(d);
    var start := pageNumber * pageSize;
    ParseWindow(es, start, Min(start + pageSize, |es|), entry)
  }

  /** The page as `getPaginatedEarthquakeData` returns it: empty when the
      document cannot be loaded. */
  function Page(loaded: Loaded, pageNumber: int, pageSize: int, parse: ParseDouble): Result<seq<QuakeEntry>>
  {
    match loaded
    case LoadFailed(_) => Success([])
    case Loaded(d) => PageOf(d, pageNumber, pageSize, EntryParser(parse))
  }

  /** `getPaginatedEarthquakeData`: the loop visits every `entry` element and
      reads those whose index falls in the page. */
  method GetPaginatedEarthquakeData(loaded: Loaded, pageNumber: int, pageSize: int, parse: ParseDouble)
    returns (r: Result<seq<QuakeEntry>>)
    ensures r == Page(loaded, pageNumber, pageSize, parse)
    ensures loaded.LoadFailed? ==> r == Success([])
    ensures r.Success? ==> |r.value| <= if pageSize < 0 then 0 else pageSize
    ensures r.Failure? ==> Read(loaded, parse).Failure?
  {
    match loaded {
      case LoadFailed(_) =>
        r := Success([]);
      case Loaded(d) =>
        r := ScanPage(d, pageNumber, pageSize, EntryParser(parse));
    }
  }

  /** The loop of `getPaginatedEarthquakeData` for any entry reader. */
  method ScanPage<T>(d: Document, pageNumber: int, pageSize: int, entry: Node -> Result<T>)
    returns (r: Result<seq<T>>)
    ensures r == PageOf(d, pageNumber, pageSize, entry)
    ensures r.Success? ==> |r.value| <= if pageSize < 0 then 0 else pageSize
    ensures r.Failure? ==> ParseEntries(d.children, entry).Failure?
  {
    var es := Entries(d);
    var start := pageNumber * pageSize;
    var end := Min(start + pageSize, |es|);
    r := ScanWindow(es, start, end, entry);
    PageOfLength(d, pageNumber, pageSize, entry);
    if r.Failure? {
      PageOfFailure(d, pageNumber, pageSize, entry);
    }
  }

  lemma PageOfLength<T>(d: Document, pageNumber: int, pageSize: int, entry: Node -> Result<T>)
    ensures var r := PageOf(d, pageNumber, pageSize, entry);
            r.Success? ==> |r.value| <= if pageSize < 0 then 0 else pageSize
  {
  }

  lemma PageOfFailure<T>(d: Document, pageNumber: int, pageSize: int, entry: Node -> Result<T>)
    requires PageOf(d, pageNumber, pageSize, entry).Failure?
    ensures ParseEntries(d.children, entry).Failure?
  {
    var start := pageNumber * pageSize;
    EntryWindowFailure(d.children, start, Min(start + pageSize, |Entries(d)|), entry);
  }

  /** A page holds at most `pageSize` records. */
  lemma PageLength(loaded: Loaded, pageNumber: int, pageSize: int, parse: ParseDouble)
    ensures var r := Page(loaded, pageNumber, pageSize, parse);
            r.Success? ==> |r.value| <= if pageSize < 0 then 0 else pageSize
  {
    if loaded.Loaded? {
      PageOfLength(loaded.doc, pageNumber, pageSize, EntryParser(parse));
    }
  }

  /** A page past the last entry is empty, whatever the entries hold. */
  lemma PageOutOfRange(d: Document, pageNumber: int, pageSize: int, parse: ParseDouble)
    requires pageNumber * pageSize >= |Entries(d)|
    ensures Page(Loaded(d), pageNumber, pageSize, parse) == Success([])
  {
    var start := pageNumber * pageSize;
    WindowPastEnd(Entries(d), start, Min(start + pageSize, |Entries(d)|), EntryParser(parse));
  }

  /** A page can only throw where `read` throws too. */
  lemma PageFailureMeansReadFailure(d: Document, pageNumber: int, pageSize: int, parse: ParseDouble)
    requires Page(Loaded(d), pageNumber, pageSize, parse).Failure?
    ensures Read(Loaded(d), parse).Failure?
  {
    PageOfFailure(d, pageNumber, pageSize, EntryParser(parse));
  }

  /** When `read` succeeds, page `p` is the stretch `[p*s, min(p*s + s, total))`
      of its result, cut to the list. */
  lemma PageIsSliceOfRead(d: Document, pageNumber: int, pageSize: int, parse: ParseDouble)
    requires Read(Loaded(d), parse).Success?
    ensures var all := Read(Loaded(d), parse).value;
            var start := pageNumber * pageSize;
            var w := Window(|all|, start, Min(start + pageSize, |all|));
            Page(Loaded(d), pageNumber, pageSize, parse) == Success(all[w.0..w.1])
  {
    PageOfIsSlice(d, pageNumber, pageSize, EntryParser(parse), Read(Loaded(d), parse).value);
  }

  lemma PageOfIsSlice<T>(d: Document, pageNumber: int, pageSize: int, entry: Node -> Result<T>, all: seq<T>)
    requires ParseEntries(d.children, entry) == Success(all)
    ensures var start := pageNumber * pageSize;
            var w := Window(|all|, start, Min(start + pageSize, |all|));
            PageOf(d, pageNumber, pageSize, entry) == Success(all[w.0..w.1])
  {
    var start := pageNumber * pageSize;
    EntryWindowOfSuccess(d.children, start, Min(start + pageSize, |Entries(d)|), entry);
  }

  /** The records of pages `0 .. count - 1`, one after the other. */
  function PagesOf<T>(d: Document, pageSize: int, count: nat, entry: Node -> Result<T>): Result<seq<T>>
  {
    if count == 0 then
      Success([])
    else
      var before :- PagesOf(d, pageSize, count - 1, entry);
      var page :- PageOf(d, count - 1, pageSize, entry);
      Success(before + page)
  }

  /** A page that starts inside or past the list, as a slice of a loop that succeeded. */
  lemma PageOfSlice<T>(d: Document, pageNumber: nat, pageSize: int, entry: Node -> Result<T>, all: seq<T>, a: int, b: int)
    requires ParseEntries(d.children, entry) == Success(all) && pageSize > 0
    requires a == Min(pageNumber * pageSize, |all|) && b == Min(pageNumber * pageSize + pageSize, |all|)
    ensures 0 <= a <= b <= |all|
    ensures PageOf(d, pageNumber, pageSize, entry) == Success(all[a..b])
  {
    var start := pageNumber * pageSize;
    NonNegativeProduct(pageNumber, pageSize);
    EntryWindowOfSuccess(d.children, start, Min(start + pageSize, |Entries(d)|), entry);
  }

  lemma NonNegativeProduct(a: nat, b: int)
    requires b > 0
    ensures a * b >= 0
  {
  }

  /** The first `count` pages are the first `count * s` records, so pages
      never overlap and leave no gap. */
  lemma {:induction false} PagesOfArePrefix<T>(d: Document, pageSize: int, count: nat, entry: Node -> Result<T>, all: seq<T>)
    requires ParseEntries(d.children, entry) == Success(all) && pageSize > 0
    ensures PagesOf(d, pageSize, count, entry) == Success(all[..Min(count * pageSize, |all|)])
  {
    if count > 0 {
      PagesOfArePrefix(d, pageSize, count - 1, entry, all);
      var start := (count - 1) * pageSize;
      NextPage(count, pageSize);
      var a := Min(start, |all|);
      var b := Min(start + pageSize, |all|);
      PageOfSlice(d, count - 1, pageSize, entry, all, a, b);
      assert PagesOf(d, pageSize, count, entry) == Success(all[..a] + all[a..b]);
      PrefixThenSlice(all, a, b);
    }
  }

  lemma NextPage(count: nat, pageSize: int)
    requires count > 0
    ensures (count - 1) * pageSize + pageSize == count * pageSize
  {
  }

  /** The pages of `getPaginatedEarthquakeData`, one after the other. */
  function Pages(d: Document, pageSize: int, count: nat, parse: ParseDouble): Result<seq<QuakeEntry>>
  {
    PagesOf(d, pageSize, count, EntryParser(parse))
  }

  /** The number of pages needed for `total` records, `ceil(total / s)`. */
  function PageCount(total: nat, pageSize: int): nat
    requires pageSize > 0
  {
    CeilingCovers(total, pageSize);
    (total + pageSize - 1) / pageSize
  }

  /** Pages `0 .. ceil(total / s) - 1` together are exactly what `read`
      returns: consecutive pages neither overlap nor leave a gap. */
  lemma PagesCoverRead(d: Document, pageSize: int, parse: ParseDouble)
    requires pageSize > 0 && Read(Loaded(d), parse).Success?
    ensures var all := Read(Loaded(d), parse).value;
            Pages(d, pageSize, PageCount(|all|, pageSize), parse) == Success(all)
  {
    PagesOfCoverAll(d, pageSize, EntryParser(parse), Read(Loaded(d), parse).value);
  }

  lemma PagesOfCoverAll<T>(d: Document, pageSize: int, entry: Node -> Result<T>, all: seq<T>)
    requires ParseEntries(d.children, entry) == Success(all) && pageSize > 0
    ensures PagesOf(d, pageSize, PageCount(|all|, pageSize), entry) == Success(all)
  {
    var count := PageCount(|all|, pageSize);
    CeilingCovers(|all|, pageSize);
    PagesOfArePrefix(d, pageSize, count, entry, all);
    assert all[..Min(count * pageSize, |all|)] == all;
  }

  lemma CeilingCovers(n: nat, s: int)
    requires s > 0
    ensures (n + s - 1) / s >= 0 && (n + s - 1) / s * s >= n
  {
    var q := (n + s - 1) / s;
    assert n + s - 1 == q * s + (n + s - 1) % s;
  }

  // ---------------------------------------------------------------------
  // readTitles

  /** `readTitles`: the loop of `read` with only the title reader. */
  function ReadTitles(loaded: Loaded, parse: ParseDouble): (r: Result<seq<Option<string>>>)
    ensures loaded.LoadFailed? ==> r == Success([])
  {
    match loaded
    case LoadFailed(_) => Success([])
    case Loaded(d) => ParseEntries(d.children, (n: Node) => ReadTitle(n.title, parse))
  }

  /** When `read` succeeds, `readTitles` returns one title per record, in the
      same order, equal to that record's title. */
  lemma ReadTitlesMatchRead(d: Document, parse: ParseDouble)
    requires Read(Loaded(d), parse).Success?
    ensures ReadTitles(Loaded(d), parse).Success?
    ensures var es := Read(Loaded(d), parse).value;
            var ts := ReadTitles(Loaded(d), parse).value;
            |ts| == |es| && forall i :: 0 <= i < |ts| ==> ts[i] == Some(es[i].title)
  {
    var entry := EntryParser(parse);
    forall n: Node | entry(n).Success?
      ensures ReadTitle(n.title, parse) == Success(Some(entry(n).value.title))
    {
      ParseEntryReadsFields(n, parse);
    }
    TitlesFollowRecords(d.children, entry, (n: Node) => ReadTitle(n.title, parse));
  }

  /** A title reader that agrees with the record reader on every record it
      can make gives, over the same nodes, the titles of those records. */
  lemma {:induction false} TitlesFollowRecords(nodes: seq<Node>, entry: Node -> Result<QuakeEntry>,
                                               titles: Node -> Result<Option<string>>)
    requires forall n :: entry(n).Success? ==> titles(n) == Success(Some(entry(n).value.title))
    requires ParseEntries(nodes, entry).Success?
    ensures ParseEntries(nodes, titles).Success?
    ensures var es := ParseEntries(nodes, entry).value;
            var ts := ParseEntries(nodes, titles).value;
            |ts| == |es| && forall i :: 0 <= i < |ts| ==> ts[i] == Some(es[i].title)
    decreases |nodes|
  {
    if |nodes| > 0 {
      var init := nodes[..|nodes| - 1];
      TitlesFollowRecords(init, entry, titles);
    }
  }

  /** `readTitles` can only throw where `read` throws too. */
  lemma ReadTitlesFailureMeansReadFailure(d: Document, parse: ParseDouble)
    requires ReadTitles(Loaded(d), parse).Failure?
    ensures Read(Loaded(d), parse).Failure?
  {
    var titles := (n: Node) => ReadTitle(n.title, parse);
    ParseEntriesSucceedsIff(d.children, EntryParser(parse));
    ParseEntriesSucceedsIff(d.children, titles);
  }
}
