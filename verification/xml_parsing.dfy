/** The per-field readers of the XMLParsing package, and the string rules
    they share with the csv parser: the id after the third colon, the
    magnitude token of a title, the description that follows it, and the
    "lat lon" pair of a GeoRSS point. */
module XmlParsing {
  import opened Outcomes
  import opened JavaString
  import opened Quake
  import opened Feed

  /** `Double.parseDouble`, left abstract: None stands for a
      NumberFormatException. */
  type ParseDouble = string -> Option<real>

  /** `Double.parseDouble(s)` with its exception. */
  function ParseNumber(s: string, parse: ParseDouble): (r: Result<real>)
    ensures r.Success? <==> parse(s).Some?
    ensures r.Success? ==> parse(s) == Some(r.value)
    ensures r.Failure? ==> r.error == NumberFormat
  {
    match parse(s)
    case None => Failure(NumberFormat)
    case Some(x) => Success(x)
  }

  // ---------------------------------------------------------------------
  // Id: IdParser.parseElement and csv/EarthQuakeParser.java line 95

  /** `s.substring(s.indexOf(':', s.indexOf(':', s.indexOf(':') + 1) + 1) + 1)`.
      A search that fails yields -1, and the next one then starts from 0, so
      the call never throws and always returns a suffix of `raw`. */
  function ExtractId(raw: string): (r: string)
    ensures |r| <= |raw| && r == raw[|raw| - |r|..]
  {
    var a := IndexOf(raw, ':', 0);
    var b := IndexOf(raw, ':', a + 1);
    var c := IndexOf(raw, ':', b + 1);
    raw[c + 1..]
  }

  /** `raw` has a colon exactly at the positions in `ps` that lie below `bound`. */
  predicate ColonsBelow(raw: string, ps: set<int>, bound: int) {
    forall i :: 0 <= i < |raw| && i < bound ==> (raw[i] == ':' <==> i in ps)
  }

  lemma ExtractIdNoColon(raw: string)
    requires ColonsBelow(raw, {}, |raw|)
    ensures ExtractId(raw) == raw
  {
  }

  lemma ExtractIdOneColon(raw: string, p: int)
    requires 0 <= p < |raw| && ColonsBelow(raw, {p}, |raw|)
    ensures ExtractId(raw) == raw[p + 1..]
  {
    assert raw[p] == ':';
    IndexOfFirst(raw, ':', 0, p);
    assert IndexOf(raw, ':', p + 1) == -1;
  }

  /** Two colons send the third search back to the start: the whole id comes back. */
  lemma ExtractIdTwoColons(raw: string, p: int, q: int)
    requires 0 <= p < q < |raw| && ColonsBelow(raw, {p, q}, |raw|)
    ensures ExtractId(raw) == raw
  {
    assert raw[p] == ':' && raw[q] == ':';
    IndexOfFirst(raw, ':', 0, p);
    IndexOfFirst(raw, ':', p + 1, q);
    assert IndexOf(raw, ':', q + 1) == -1;
  }

  /** With a third colon at `r`, the id is what follows it, whatever comes later. */
  lemma ExtractIdThirdColon(raw: string, p: int, q: int, r: int)
    requires 0 <= p < q < r < |raw| && raw[r] == ':' && ColonsBelow(raw, {p, q}, r)
    ensures ExtractId(raw) == raw[r + 1..]
  {
    assert raw[p] == ':' && raw[q] == ':';
    IndexOfFirst(raw, ':', 0, p);
    IndexOfFirst(raw, ':', p + 1, q);
    forall i | q + 1 <= i < r
      ensures raw[i] != ':'
    {
      assert i !in {p, q};
    }
    IndexOfFirst(raw, ':', q + 1, r);
    ExtractIdAt(raw, p, q, r);
  }

  lemma ExtractIdAt(raw: string, a: int, b: int, c: int)
    requires IndexOf(raw, ':', 0) == a && IndexOf(raw, ':', a + 1) == b && IndexOf(raw, ':', b + 1) == c
    ensures ExtractId(raw) == raw[c + 1..]
  {
    var a' := IndexOf(raw, ':', 0);
    var b' := IndexOf(raw, ':', a' + 1);
    var c' := IndexOf(raw, ':', b' + 1);
    assert a' == a && b' == b && c' == c;
  }

  /** IdParser.parseElement: null without an `id` element. */
  function ReadId(f: Field): (r: Result<Option<string>>)
    ensures f.Missing? <==> r == Success(None)
    ensures f.Childless? <==> r == Failure(NullPointer)
    ensures f.Text? ==> r.Success? && r.value.Some? && EndsWith(f.value, r.value.value)
  {
    match f
    case Missing => Success(None)
    case Childless => Failure(NullPointer)
    case Text(raw) => Success(Some(ExtractId(raw)))
  }

  // ---------------------------------------------------------------------
  // Magnitude: MagnitudeParser.parseElement and csv/EarthQuakeParser.java lines 71-79

  /** `s.substring(2, s.indexOf(" ", 2))`: throws unless a space follows index 2. */
  function MagnitudeToken(s: string): (r: Result<string>)
    ensures r.Success? <==> exists j :: 2 <= j < |s| && s[j] == ' '
    ensures r.Failure? ==> r.error == IndexOutOfBounds
    ensures r.Success? ==> var t := r.value;
              && 2 + |t| < |s| && s[2..2 + |t|] == t && s[2 + |t|] == ' '
              && ' ' !in t
  {
    var j := IndexOf(s, ' ', 2);
    if j == -1 then
      Failure(IndexOutOfBounds)
    else
      assert forall k :: 0 <= k < j - 2 ==> s[2..j][k] == s[2 + k];
      Success(s[2..j])
  }

  /** A token holding '?' stands for an unknown magnitude, read as 0.0. */
  function MagnitudeValue(token: string, parse: ParseDouble): (r: Result<real>)
    ensures '?' in token ==> r == Success(0.0)
    ensures '?' !in token && parse(token).Some? ==> r == Success(parse(token).value)
    ensures '?' !in token && parse(token).None? ==> r == Failure(NumberFormat)
  {
    if '?' in token then Success(0.0) else ParseNumber(token, parse)
  }

  /** MagnitudeParser.parseElement: null without a `title` element. */
  function ReadMagnitude(f: Field, parse: ParseDouble): (r: Result<Option<real>>)
    ensures f.Missing? <==> r == Success(None)
    ensures f.Childless? ==> r == Failure(NullPointer)
    ensures r.Success? && r.value.Some? ==>
              && f.Text? && MagnitudeToken(f.value).Success?
              && MagnitudeValue(MagnitudeToken(f.value).value, parse) == Success(r.value.value)
  ensures f.Text? ==>
            (r.Success? <==> MagnitudeToken(f.value).Success?
                             && MagnitudeValue(MagnitudeToken(f.value).value, parse).Success?)
  ensures f.Text? && MagnitudeToken(f.value).Failure? ==> r == Failure(IndexOutOfBounds)
  ensures (f.Text? && MagnitudeToken(f.value).Success?
           && MagnitudeValue(MagnitudeToken(f.value).value, parse).Failure?) ==> r == Failure(NumberFormat)
  {
    match f
    case Missing => Success(None)
    case Childless => Failure(NullPointer)
    case Text(s) =>
      var token :- MagnitudeToken(s);
      var m :- MagnitudeValue(token, parse);
      Success(Some(m))
  }

  // ---------------------------------------------------------------------
  // Description: csv/EarthQuakeParser.java lines 81-87 (TitleParser repeats them)

  /** The text after the first space at or after index 5, without a leading
      "-word " token. Both searches fall back to the whole string when they
      fail, so the rule never throws. */
  function Description(s: string): (r: string)
    ensures |r| <= |s| && r == s[|s| - |r|..]
  {
    var sp := IndexOf(s, ' ', 5);
    var t := s[sp + 1..];
    if StartsWith(t, "-") then t[IndexOf(t, ' ', 0) + 1..] else t
  }

  /** A USGS title "M <mag> - <place>": the token is the magnitude and the
      description is the place. A magnitude shorter than three characters
      puts the separating dash at or after index 5, where it is still dropped
      unless the place itself starts with a dash. */
  lemma UsgsTitleSplits(mag: string, place: string)
    requires |mag| > 0 && ' ' !in mag
    requires |mag| >= 3 || !StartsWith(place, "-")
    ensures MagnitudeToken("M " + mag + " - " + place) == Success(mag)
    ensures Description("M " + mag + " - " + place) == place
  {
    var s := "M " + mag + " - " + place;
    var n := |mag|;
    UsgsTitleLayout(mag, place);
    assert IndexOf(s, ' ', 2) == 2 + n;
    assert s[2..2 + n] == mag;
    if n >= 3 {
      UsgsLongMagnitude(mag, place);
    } else if n == 2 {
      assert IndexOf(s, ' ', 5) == 6;
      assert s[7..] == place;
    } else {
      assert IndexOf(s, ' ', 5) == 5;
      assert s[6..] == place;
    }
  }

  /** Where the pieces of a USGS title sit. */
  lemma UsgsTitleLayout(mag: string, place: string)
    ensures var s := "M " + mag + " - " + place;
            var n := |mag|;
            && |s| == n + 5 + |place|
            && s[1] == ' ' && s[2 + n] == ' ' && s[3 + n] == '-' && s[4 + n] == ' '
            && (forall k :: 0 <= k < n ==> s[2 + k] == mag[k])
            && s[3 + n..] == "- " + place
            && s[5 + n..] == place
  {
  }

  /** With a magnitude of three characters or more the first space at or
      after index 5 is the one before the dash, which is then dropped. */
  lemma UsgsLongMagnitude(mag: string, place: string)
    requires |mag| >= 3 && ' ' !in mag
    ensures Description("M " + mag + " - " + place) == place
  {
    var s := "M " + mag + " - " + place;
    var n := |mag|;
    UsgsTitleLayout(mag, place);
    forall i | 5 <= i < 2 + n
      ensures s[i] != ' '
    {
      assert s[i] == mag[i - 2];
    }
    IndexOfFirst(s, ' ', 5, 2 + n);
    var t := s[3 + n..];
    assert StartsWith(t, "-");
    assert IndexOf(t, ' ', 0) == 1;
    assert t[2..] == place;
  }

  /** The example title of csv/EarthQuakeParser.java line 171,
      "M 1.7 - 75km WSW of Cantwell, Alaska". */
  lemma SampleTitle()
    ensures var title := "M " + "1.7" + " - " + "75km WSW of Cantwell, Alaska";
            && MagnitudeToken(title) == Success("1.7")
            && Description(title) == "75km WSW of Cantwell, Alaska"
  {
    UsgsTitleSplits("1.7", "75km WSW of Cantwell, Alaska");
  }

  /** Without a space at or after index 5 the search yields -1 and the whole
      title is the description. */
  lemma DescriptionWithoutLateSpace(s: string)
    requires forall i :: 5 <= i < |s| ==> s[i] != ' '
    requires !StartsWith(s, "-")
    ensures Description(s) == s
  {
    assert IndexOf(s, ' ', 5) == -1;
  }

  // ---------------------------------------------------------------------
  // Point: `s.split(" ")`, then parseDouble on the first two pieces

  /** The "lat lon" text of a `georss:point`. */
  function PointText(s: string, parse: ParseDouble): (r: Result<Location>)
    ensures r.Success? ==>
              && |SplitOnSpace(s)| >= 2
              && parse(SplitOnSpace(s)[0]) == Some(r.value.latitude)
              && parse(SplitOnSpace(s)[1]) == Some(r.value.longitude)
    ensures r.Success? <==>
              && |SplitOnSpace(s)| >= 2
              && parse(SplitOnSpace(s)[0]).Some? && parse(SplitOnSpace(s)[1]).Some?
    ensures |SplitOnSpace(s)| == 0 ==> r == Failure(IndexOutOfBounds)
    ensures r.Failure? ==> r.error in {IndexOutOfBounds, NumberFormat}
  {
    var args := SplitOnSpace(s);
    if |args| == 0 then
      Failure(IndexOutOfBounds)
    else
      var lat :- ParseNumber(args[0], parse);
      if |args| < 2 then
        Failure(IndexOutOfBounds)
      else
        var lon :- ParseNumber(args[1], parse);
        Success(Location(lat, lon))
  }

  /** Two numbers separated by one space give the location they denote. */
  lemma PointOfTwoNumbers(a: string, b: string, lat: real, lon: real, parse: ParseDouble)
    requires |a| > 0 && |b| > 0 && ' ' !in a && ' ' !in b
    requires parse(a) == Some(lat) && parse(b) == Some(lon)
    ensures PointText(a + " " + b, parse) == Success(Location(lat, lon))
  {
    SplitTwoWords(a, b);
  }

  /** A point text without a space has one piece, so reading the longitude
      always throws. */
  lemma PointNeedsTwoPieces(s: string, parse: ParseDouble)
    requires ' ' !in s
    ensures PointText(s, parse).Failure?
    ensures parse(s).Some? ==> PointText(s, parse) == Failure(IndexOutOfBounds)
  {
    SplitOnSpaceShape(s);
  }

  /** The point as ParserManager reads it: (0, 0) without a `georss:point`. */
  function ReadPoint(f: Field, parse: ParseDouble): (r: Result<Location>)
    ensures f.Missing? ==> r == Success(Location(0.0, 0.0))
    ensures f.Childless? ==> r == Failure(NullPointer)
    ensures f.Text? ==> r == PointText(f.value, parse)
  {
    match f
    case Missing => Success(Location(0.0, 0.0))
    case Childless => Failure(NullPointer)
    case Text(s) => PointText(s, parse)
  }

  // ---------------------------------------------------------------------
  // DepthParser, LinkParser, DateTimeParser, TitleParser

  /** DepthParser.parseElement: 0.0 without a `georss:elev`. */
  function ReadDepth(f: Field, parse: ParseDouble): (r: Result<real>)
    ensures f.Missing? ==> r == Success(0.0)
    ensures f.Childless? ==> r == Failure(NullPointer)
    ensures f.Text? ==> (r.Success? <==> parse(f.value).Some?)
    ensures f.Text? && r.Success? ==> parse(f.value) == Some(r.value)
    ensures r.Failure? ==> r.error in {NullPointer, NumberFormat}
  {
    match f
    case Missing => Success(0.0)
    case Childless => Failure(NullPointer)
    case Text(s) => ParseNumber(s, parse)
  }

  /** LinkParser.parseElement: the `href` of the first `link`, or "". */
  function ReadLink(link: Option<string>): (r: string)
    ensures link.Some? ==> r == link.value
    ensures link.None? ==> r == ""
  {
    match link
    case None => ""
    case Some(href) => href
  }

  /** What DateTimeParser puts for the `&deg;` entity: the two characters
      that the UTF-8 bytes of the degree sign give when read as Latin-1. */
  const MisreadDegreeSign: string := "\U{C2}\U{B0}"

  /** DateTimeParser.parseElement: the trimmed text of the first `dd` of the
      first `dl`, with each degree entity replaced by "Â°", "" when that `dl`
      has no `dd`, and null in every other case (no summary, a summary that
      does not parse, no `dl`). */
  function ReadDateTime(s: Summary): (r: Option<string>)
    ensures r.Some? <==> s.DescriptionList?
    ensures r.Some? && s.firstDd.Some? ==> r.value == Trim(Render(s.firstDd.value, MisreadDegreeSign))
    ensures r.Some? && s.firstDd.None? ==> r.value == ""
  {
    match s
    case DescriptionList(dd) => Some(if dd.Some? then Trim(Render(dd.value, MisreadDegreeSign)) else "")
    case _ => None
  }

  /** The title reader: null without a `title` element. Like the csv
      parser's title rule it first cuts out and parses the magnitude token,
      so it throws wherever the magnitude reader throws, and then returns
      the description. */
  function ReadTitle(f: Field, parse: ParseDouble): (r: Result<Option<string>>)
    ensures f.Missing? <==> r == Success(None)
    ensures r.Failure? <==> ReadMagnitude(f, parse).Failure?
    ensures r.Failure? ==> r.error == ReadMagnitude(f, parse).error
    ensures f.Text? && r.Success? ==> r.value.Some? && EndsWith(f.value, r.value.value)
  {
    match f
    case Missing => Success(None)
    case Childless => Failure(NullPointer)
    case Text(s) =>
      var token :- MagnitudeToken(s);
      var mag :- MagnitudeValue(token, parse);
      Success(Some(Description(s)))
  }
}
