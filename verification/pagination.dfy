/** pagination/EarthQuakeParserForPagination.java: the static `read`. Its
    window `[p*s, min((p+1)*s, childCount))` is laid over ALL children of the
    root element, text nodes and other elements included, and only the
    `entry` children inside it are read, with the ParserManager's loop body. */
module Pagination {
  import opened Outcomes
  import opened Seqs
  import opened Quake
  import opened Feed
  import opened XmlParsing
  import ParserManager

  /** The window over the root children, each entry read with `entry`. The
      lemmas below are stated for any entry reader. */
  function WindowOf<T>(d: Document, pageNumber: int, pageSize: int, entry: Node -> Result<T>): Result<seq<T>>
  {
    var n := |d.children|;
    ParseWindow(d.children, pageNumber * pageSize, ParserManager.Min((pageNumber + 1) * pageSize, n), entry)
  }

  /** `read(source, pageNumber, pageSize)` as a value: empty when the
      document cannot be loaded. */
  function Page(loaded: Loaded, pageNumber: int, pageSize: int, parse: ParseDouble): Result<seq<QuakeEntry>>
  {
    match loaded
    case LoadFailed(_) => Success([])
    case Loaded(d) => WindowOf(d, pageNumber, pageSize, ParserManager.EntryParser(parse))
  }

  /** The loop of `read`: every root child is visited, those inside the
      window are looked at, and the entries among them are read. */
  method Read(loaded: Loaded, pageNumber: int, pageSize: int, parse: ParseDouble)
    returns (r: Result<seq<QuakeEntry>>)
    ensures r == Page(loaded, pageNumber, pageSize, parse)
    ensures loaded.LoadFailed? ==> r == Success([])
    ensures r.Success? ==> |r.value| <= if pageSize < 0 then 0 else pageSize
    ensures r.Failure? ==> ParserManager.Read(loaded, parse).Failure?
  {
    match loaded {
      case LoadFailed(_) =>
        r := Success([]);
      case Loaded(d) =>
        var startIndex := pageNumber * pageSize;
        var endIndex := ParserManager.Min((pageNumber + 1) * pageSize, |d.children|);
        r := ScanWindow(d.children, startIndex, endIndex, ParserManager.EntryParser(parse));
        WindowOfLength(d, pageNumber, pageSize, ParserManager.EntryParser(parse));
        if r.Failure? {
          WindowOfFailure(d, pageNumber, pageSize, ParserManager.EntryParser(parse));
        }
    }
  }

  lemma NextPageStart(pageNumber: int, pageSize: int)
    ensures (pageNumber + 1) * pageSize == pageNumber * pageSize + pageSize
  {
  }

  lemma WindowOfLength<T>(d: Document, pageNumber: int, pageSize: int, entry: Node -> Result<T>)
    ensures var r := WindowOf(d, pageNumber, pageSize, entry);
            r.Success? ==> |r.value| <= if pageSize < 0 then 0 else pageSize
  {
    NextPageStart(pageNumber, pageSize);
  }

  lemma WindowOfFailure<T>(d: Document, pageNumber: int, pageSize: int, entry: Node -> Result<T>)
    requires WindowOf(d, pageNumber, pageSize, entry).Failure?
    ensures ParseEntries(d.children, entry).Failure?
  {
    ParseWindowFailure(d.children, pageNumber * pageSize,
                       ParserManager.Min((pageNumber + 1) * pageSize, |d.children|), entry);
  }

  /** A page holds at most `pageSize` records. */
  lemma PageLength(loaded: Loaded, pageNumber: int, pageSize: int, parse: ParseDouble)
    ensures var r := Page(loaded, pageNumber, pageSize, parse);
            r.Success? ==> |r.value| <= if pageSize < 0 then 0 else pageSize
  {
    if loaded.Loaded? {
      WindowOfLength(loaded.doc, pageNumber, pageSize, ParserManager.EntryParser(parse));
    }
  }

  /** A window that starts at or past the last root child is empty. */
  lemma PageOutOfRange(d: Document, pageNumber: int, pageSize: int, parse: ParseDouble)
    requires pageNumber * pageSize >= |d.children|
    ensures Page(Loaded(d), pageNumber, pageSize, parse) == Success([])
  {
    WindowPastEnd(d.children, pageNumber * pageSize,
                  ParserManager.Min((pageNumber + 1) * pageSize, |d.children|), ParserManager.EntryParser(parse));
  }

  /** A page can only throw where the ParserManager's `read` throws too. */
  lemma PageFailureMeansReadFailure(d: Document, pageNumber: int, pageSize: int, parse: ParseDouble)
    requires Page(Loaded(d), pageNumber, pageSize, parse).Failure?
    ensures ParserManager.Read(Loaded(d), parse).Failure?
  {
    WindowOfFailure(d, pageNumber, pageSize, ParserManager.EntryParser(parse));
  }

  /** When the full read succeeds, a page is the contiguous stretch of its
      result made of the entries whose child index falls in the window: it
      starts after the entries that precede the window. */
  lemma PageIsStretchOfRead(d: Document, pageNumber: int, pageSize: int, parse: ParseDouble)
    requires ParserManager.Read(Loaded(d), parse).Success?
    ensures var all := ParserManager.Read(Loaded(d), parse).value;
            var w := Window(|d.children|, pageNumber * pageSize,
                            ParserManager.Min((pageNumber + 1) * pageSize, |d.children|));
            var a := |Keep(d.children[..w.0], IsEntry)|;
            var b := |Keep(d.children[..w.1], IsEntry)|;
            && a <= b <= |all|
            && b - a <= w.1 - w.0
            && Page(Loaded(d), pageNumber, pageSize, parse) == Success(all[a..b])
  {
    var w := Window(|d.children|, pageNumber * pageSize,
                    ParserManager.Min((pageNumber + 1) * pageSize, |d.children|));
    ParseWindowOfSuccess(d.children, w.0, w.1, ParserManager.EntryParser(parse));
  }

  /** A full page can come back short: with a text node before two entries,
      the first page of two holds one record here and two in the
      ParserManager's pagination. */
  lemma OtherChildrenTakeRoom(parse: ParseDouble)
    requires parse("1.7") == Some(1.7)
    ensures var e := Node("entry", Missing, Text("M " + "1.7" + " - " + "Alaska"), Missing, Missing, None, NoSummary);
            var text := Node("#text", Missing, Missing, Missing, Missing, None, NoSummary);
            var d := Document([text, e, e]);
            var rec := NewFullQuakeEntry(None, 0.0, 0.0, 1.7, "Alaska", 0.0, None, Some(""));
            && Page(Loaded(d), 0, 2, parse) == Success([rec])
            && ParserManager.Page(Loaded(d), 0, 2, parse) == Success([rec, rec])
  {
    var e := Node("entry", Missing, Text("M " + "1.7" + " - " + "Alaska"), Missing, Missing, None, NoSummary);
    var text := Node("#text", Missing, Missing, Missing, Missing, None, NoSummary);
    var rec := NewFullQuakeEntry(None, 0.0, 0.0, 1.7, "Alaska", 0.0, None, Some(""));
    var read := ParserManager.EntryParser(parse);
    SampleEntry(parse);
    assert read(e) == Success(rec);
    FirstPages(text, e, e, read);
    OtherThenEntry(text, e, read, rec);
    TwoEntries(e, e, read, rec, rec);
  }

  lemma SampleEntry(parse: ParseDouble)
    requires parse("1.7") == Some(1.7)
    ensures var e := Node("entry", Missing, Text("M " + "1.7" + " - " + "Alaska"), Missing, Missing, None, NoSummary);
            ParserManager.ParseEntry(e, parse) == Success(NewFullQuakeEntry(None, 0.0, 0.0, 1.7, "Alaska", 0.0, None, Some("")))
  {
    var e := Node("entry", Missing, Text("M " + "1.7" + " - " + "Alaska"), Missing, Missing, None, NoSummary);
    ParserManager.TitleOnlyEntry(e, parse, "1.7", "Alaska", 1.7);
  }

  /** The first page of two over `[x, y, z]` looks at `x` and `y` here, and
      at the first two entries in the ParserManager. */
  lemma FirstPages<T>(x: Node, y: Node, z: Node, entry: Node -> Result<T>)
    requires !IsEntry(x) && IsEntry(y) && IsEntry(z)
    ensures WindowOf(Document([x, y, z]), 0, 2, entry) == ParseEntries([x, y], entry)
    ensures ParserManager.PageOf(Document([x, y, z]), 0, 2, entry) == ParseEntries([y, z], entry)
  {
    assert [x, y, z][0..2] == [x, y];
    assert [z][1..] == [];
    assert Keep([z], IsEntry) == [z];
    assert [y, z][1..] == [z];
    assert Keep([y, z], IsEntry) == [y, z];
    assert [x, y, z][1..] == [y, z];
    assert Entries(Document([x, y, z])) == [y, z];
    assert [y, z][0..2] == [y, z];
  }

  lemma OtherThenEntry<T>(x: Node, y: Node, read: Node -> Result<T>, v: T)
    requires !IsEntry(x) && IsEntry(y) && read(y) == Success(v)
    ensures ParseEntries([x, y], read) == Success([v])
  {
    assert [x][..0] == [];
    assert ParseEntries([x], read) == Success([]);
    assert [x, y][..1] == [x];
    assert [] + [v] == [v];
  }

  lemma TwoEntries<T>(x: Node, y: Node, read: Node -> Result<T>, v: T, w: T)
    requires IsEntry(x) && IsEntry(y) && read(x) == Success(v) && read(y) == Success(w)
    ensures ParseEntries([x, y], read) == Success([v, w])
  {
    assert [x][..0] == [];
    assert [] + [v] == [v];
    assert ParseEntries([x], read) == Success([v]);
    assert [x, y][..1] == [x];
    assert [v] + [w] == [v, w];
  }
}
