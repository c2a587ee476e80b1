/** csv/EarthQuakeParser.java: `read`. Unlike the ParserManager it does not
    check that a sub-element exists before taking its first item, so every
    entry needs a point, a title, an elevation and an id; and a document
    that cannot be loaded gives null instead of an empty list. */
module CsvParser {
  import opened Outcomes
  import opened JavaString
  import opened Quake
  import opened Feed
  import opened XmlParsing
  import ParserManager

  /** `t.item(0).getChildNodes().item(0).getNodeValue()` on a NodeList that
      is never null: the text, or a NullPointerException when the element
      or its text child is missing. */
  function Required(f: Field): (r: Result<string>)
    ensures r.Success? <==> f.Text?
    ensures r.Success? ==> r.value == f.value
    ensures r.Failure? ==> r.error == NullPointer
  {
    match f
    case Text(s) => Success(s)
    case _ => Failure(NullPointer)
  }

  /** What the csv parser puts for the `&deg;` entity: the degree sign. */
  const DegreeSign: string := "\U{B0}"

  /** The date: the trimmed text of the first `dd` of the first `dl` in the
      summary, with each degree entity replaced by "°", and "" when there is
      none. */
  function CsvDate(s: Summary): string
  {
    match s
    case DescriptionList(Some(dd)) => Trim(Render(dd, DegreeSign))
    case _ => ""
  }

  /** A `dd` text is blank exactly when it holds no degree entity and only
      characters at or below the space character, whatever non-blank text
      replaces the entity. */
  lemma {:induction false} RenderBlank(dd: seq<DdPiece>, degree: string)
    requires |degree| > 0 && degree[0] > ' '
    ensures var r := Render(dd, degree);
            Blank(r, 0, |r|) <==> forall i :: 0 <= i < |dd| ==> dd[i].Plain? && dd[i].c <= ' '
  {
    if dd != [] {
      RenderBlank(dd[1..], degree);
      var head := if dd[0].Plain? then [dd[0].c] else degree;
      var r := Render(dd, degree);
      assert r == head + Render(dd[1..], degree);
      assert r[0] == head[0];
      if forall i :: 0 <= i < |dd| ==> dd[i].Plain? && dd[i].c <= ' ' {
        assert forall i :: 0 <= i < |dd[1..]| ==> dd[1..][i] == dd[i + 1];
        forall j | 0 <= j < |r|
          ensures r[j] <= ' '
        {
          if j > 0 {
            assert r[j] == Render(dd[1..], degree)[j - 1];
          }
        }
      }
      if Blank(r, 0, |r|) {
        assert r[0] <= ' ';
        forall j | 0 <= j < |Render(dd[1..], degree)|
          ensures Render(dd[1..], degree)[j] <= ' '
        {
          assert Render(dd[1..], degree)[j] == r[j + 1];
        }
        forall i | 0 <= i < |dd|
          ensures dd[i].Plain? && dd[i].c <= ' '
        {
          if i > 0 {
            assert dd[i] == dd[1..][i - 1];
          }
        }
      }
    }
  }

  /** The two date readers agree on when a record gets a date text: the csv
      date is "" exactly when the DateTimeParser gives null or "". */
  lemma CsvDateEmptyIff(s: Summary)
    ensures CsvDate(s) == "" <==> ReadDateTime(s).None? || ReadDateTime(s).value == ""
  {
    if s.DescriptionList? && s.firstDd.Some? {
      var dd := s.firstDd.value;
      TrimEmptyIffBlank(Render(dd, DegreeSign));
      TrimEmptyIffBlank(Render(dd, MisreadDegreeSign));
      RenderBlank(dd, DegreeSign);
      RenderBlank(dd, MisreadDegreeSign);
    }
  }

  /** Without a degree entity in the first `dd` the csv date is the
      DateTimeParser's date with null turned into ""; with one, the two
      differ (see `CsvDateDegreeDiffers`). */
  lemma CsvDateIsDateTimeOrEmpty(s: Summary)
    ensures DegreeFree(s) ==> CsvDate(s) == if ReadDateTime(s).Some? then ReadDateTime(s).value else ""
    ensures DegreeFree(s) && CsvDate(s) != "" ==> ReadDateTime(s) == Some(CsvDate(s))
  {
    if DegreeFree(s) && s.DescriptionList? && s.firstDd.Some? {
      assert Render(s.firstDd.value, DegreeSign) == Render(s.firstDd.value, MisreadDegreeSign);
    }
  }

  /** A `dd` of "5&deg;" gives "5°" in the csv parser and "5Â°" in the
      DateTimeParser. */
  lemma CsvDateDegreeDiffers()
    ensures var s := DescriptionList(Some([Plain('5'), DegreeEntity]));
            CsvDate(s) == "5\U{B0}" && ReadDateTime(s) == Some("5\U{C2}\U{B0}")
  {
    var dd := [Plain('5'), DegreeEntity];
    assert Render(dd, DegreeSign) == "5\U{B0}" by {
      assert dd[1..] == [DegreeEntity];
      assert Render(dd[1..], DegreeSign) == DegreeSign;
    }
    assert Render(dd, MisreadDegreeSign) == "5\U{C2}\U{B0}" by {
      assert dd[1..] == [DegreeEntity];
      assert Render(dd[1..], MisreadDegreeSign) == MisreadDegreeSign;
    }
    assert Trim("5\U{B0}") == "5\U{B0}";
    assert Trim("5\U{C2}\U{B0}") == "5\U{C2}\U{B0}";
  }

  /** The loop body for one `entry`, reading point, title, elevation and id
      in that order; the record gets the stripped description as its title
      and no link. */
  function CsvEntry(n: Node, parse: ParseDouble): (r: Result<QuakeEntry>)
    ensures r.Success? ==> r.value.link.None? && r.value.dateTime == Some(CsvDate(n.summary))
  {
    var point :- Required(n.point);
    var loc :- PointText(point, parse);
    var title :- Required(n.title);
    var token :- MagnitudeToken(title);
    var mag :- MagnitudeValue(token, parse);
    var elev :- Required(n.elev);
    var depth :- ParseNumber(elev, parse);
    var raw :- Required(n.id);
    var date := CsvDate(n.summary);
    Success(NewFullQuakeEntry(Some(ExtractId(raw)), loc.latitude, loc.longitude, mag, Description(title), depth, Some(date), None))
  }

  function CsvEntryParser(parse: ParseDouble): Node -> Result<QuakeEntry> {
    n => CsvEntry(n, parse)
  }

  /** `read`: None (null) when the document cannot be loaded, otherwise the
      records of the entry loop. */
  function Read(loaded: Loaded, parse: ParseDouble): (r: Result<Option<seq<QuakeEntry>>>)
    ensures loaded.LoadFailed? ==> r == Success(None)
    ensures loaded.Loaded? && r.Success? ==> r.value.Some?
  {
    match loaded
    case LoadFailed(_) => Success(None)
    case Loaded(d) =>
      var v :- ParseEntries(d.children, CsvEntryParser(parse));
      Success(Some(v))
  }

  /** An entry is read exactly when it has all four fields and each of them
      parses; the record then holds the point, the magnitude of the title's
      token, the description, the elevation and the id after the third colon. */
  lemma CsvEntryReadsFields(n: Node, parse: ParseDouble)
    ensures var r := CsvEntry(n, parse);
            r.Success? <==>
              && n.point.Text? && PointText(n.point.value, parse).Success?
              && n.title.Text? && MagnitudeToken(n.title.value).Success?
              && MagnitudeValue(MagnitudeToken(n.title.value).value, parse).Success?
              && n.elev.Text? && parse(n.elev.value).Some?
              && n.id.Text?
    ensures var r := CsvEntry(n, parse);
            r.Success? ==>
              && PointText(n.point.value, parse) == Success(r.value.location)
              && MagnitudeValue(MagnitudeToken(n.title.value).value, parse) == Success(r.value.magnitude)
              && r.value.title == Description(n.title.value)
              && parse(n.elev.value) == Some(r.value.depth)
              && r.value.id == Some(ExtractId(n.id.value))
  {
  }

  /** A missing field of any of the four makes the entry throw a
      NullPointerException, unless an earlier field has already thrown. */
  lemma CsvEntryNeedsEveryField(n: Node, parse: ParseDouble)
    requires !n.point.Text? || !n.title.Text? || !n.elev.Text? || !n.id.Text?
    ensures CsvEntry(n, parse).Failure?
    ensures !n.point.Text? ==> CsvEntry(n, parse) == Failure(NullPointer)
  {
    CsvEntryReadsFields(n, parse);
  }

  /** On an entry that has all four fields the csv parser and the
      ParserManager agree on whether it can be read, and then produce the
      same record except for the date ("" instead of null) and the link
      (never set). */
  lemma CsvAgreesWithParserManager(n: Node, parse: ParseDouble)
    requires n.point.Text? && n.title.Text? && n.elev.Text? && n.id.Text?
    ensures CsvEntry(n, parse).Success? <==> ParserManager.ParseEntry(n, parse).Success?
    ensures CsvEntry(n, parse).Success? ==>
            CsvEntry(n, parse).value
            == ParserManager.ParseEntry(n, parse).value.(dateTime := Some(CsvDate(n.summary)), link := None)
  {
    CsvEntryReadsFields(n, parse);
    ParserManager.ParseEntryReadsFields(n, parse);
  }

  /** Where the ParserManager falls back to 0.0 for a missing elevation, the
      csv parser throws. */
  lemma MissingElevationDiffers(n: Node, parse: ParseDouble)
    requires n.elev.Missing?
    ensures CsvEntry(n, parse).Failure?
    ensures ParserManager.ParseEntry(n, parse).Success? ==> ParserManager.ParseEntry(n, parse).value.depth == 0.0
  {
    CsvEntryNeedsEveryField(n, parse);
    ParserManager.ParseEntryReadsFields(n, parse);
  }

  /** When `read` succeeds it returns one record per root child named
      `entry`, in document order, and it succeeds exactly when every entry
      can be read. */
  lemma CsvReadOneRecordPerEntry(d: Document, parse: ParseDouble)
    ensures Read(Loaded(d), parse).Success? <==>
            forall i :: 0 <= i < |Entries(d)| ==> CsvEntry(Entries(d)[i], parse).Success?
    ensures Read(Loaded(d), parse).Success? ==>
            var v := Read(Loaded(d), parse).value.value;
            && |v| == |Entries(d)|
            && forall i :: 0 <= i < |v| ==> CsvEntry(Entries(d)[i], parse) == Success(v[i])
  {
    var es := Entries(d);
    ParseEntriesOfEntries(d.children, CsvEntryParser(parse));
    ParseEntriesSucceedsIff(es, CsvEntryParser(parse));
    if Read(Loaded(d), parse).Success? {
      ParseEntriesValues(d.children, CsvEntryParser(parse));
    }
  }
}
