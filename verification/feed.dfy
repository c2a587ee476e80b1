/** The Atom feed as the parsers see it (RFC 4287 with the GeoRSS point and
    elev extensions), and the entry loop they share: walk the children of
    the root element, act on those named `entry`, and stop at the first
    exception. */
module Feed {
  import opened Outcomes
  import opened Seqs

  /** What `getElementsByTagName(tag).item(0).getChildNodes().item(0)` finds
      inside an entry: no such element (`item(0)` is null), an element
      without a text child (its `item(0)` is null), or a text value. */
  datatype Field = Missing | Childless | Text(value: string)

  /** One piece of a `dd`'s text as the summary holds it: a character, or
      the `&deg;` entity, which each date reader replaces with its own text
      before it re-parses the summary. */
  datatype DdPiece = Plain(c: char) | DegreeEntity

  /** The `summary` element as the date readers see it after re-parsing its
      text: absent, not well-formed, without a `dl`, or a `dl` whose first
      `dd` child (if any) has the given text content, with the degree
      entities still in place. */
  datatype Summary =
    | NoSummary
    | MalformedSummary
    | NoDescriptionList
    | DescriptionList(firstDd: Option<seq<DdPiece>>)

  /** The text of a `dd` once every degree entity is replaced by `degree`
      (`String.replace`); without an entity the text is the same whatever
      the replacement. */
  function Render(dd: seq<DdPiece>, degree: string): (r: string)
    ensures (forall i :: 0 <= i < |dd| ==> dd[i].Plain?) ==>
              |r| == |dd| && forall i :: 0 <= i < |dd| ==> r[i] == dd[i].c
  {
    if dd == [] then ""
    else (if dd[0].Plain? then [dd[0].c] else degree) + Render(dd[1..], degree)
  }

  /** The first `dd` holds no degree entity. */
  predicate DegreeFree(s: Summary) {
    s.DescriptionList? && s.firstDd.Some? ==>
      forall i :: 0 <= i < |s.firstDd.value| ==> s.firstDd.value[i].Plain?
  }

  /** One child of the root element. `link` is the `href` of the first
      `link` element, "" when that element has no `href`, and None when
      there is no `link` element. */
  datatype Node = Node(
    name: string,
    id: Field,
    title: Field,
    point: Field,
    elev: Field,
    link: Option<string>,
    summary: Summary)

  /** The children of the root element, in document order. Entries are not
      nested, so every element named `entry` is one of them. */
  datatype Document = Document(children: seq<Node>)

  /** The checked exceptions `DocumentBuilder.parse` may raise. */
  datatype LoadFailure = ParserConfiguration | Sax | Io

  /** The outcome of building and parsing the document. */
  datatype Loaded = Loaded(doc: Document) | LoadFailed(reason: LoadFailure)

  predicate IsEntry(n: Node) {
    n.name == "entry"
  }

  /** The root children named `entry`, in document order. */
  function Entries(d: Document): (r: seq<Node>)
    ensures forall i :: 0 <= i < |r| ==> IsEntry(r[i])
  {
    Keep(d.children, IsEntry)
  }

  /** The entries are the root children named `entry`, each as often as it
      occurs and in document order. */
  lemma EntriesSelects(d: Document)
    ensures IsSubsequence(Entries(d), d.children)
    ensures forall n :: multiset(Entries(d))[n] == if IsEntry(n) then multiset(d.children)[n] else 0
  {
    KeepSelects(d.children, IsEntry);
  }

  // ---------------------------------------------------------------------
  // The entry loop

  /** The state of the loop after it has looked at `nodes`: every entry
      among them parsed and appended in order, or the exception of the
      first entry that failed. */
  function ParseEntries<T>(nodes: seq<Node>, parse: Node -> Result<T>): (r: Result<seq<T>>)
    ensures r.Success? ==> |r.value| <= |nodes|
    decreases |nodes|
  {
    if |nodes| == 0 then
      Success([])
    else
      var last := nodes[|nodes| - 1];
      var before := ParseEntries(nodes[..|nodes| - 1], parse);
      if before.Failure? then
        Failure(before.error)
      else if !IsEntry(last) then
        before
      else
        var v := parse(last);
        if v.Failure? then Failure(v.error) else Success(before.value + [v.value])
  }

  /** Position `i` holds the first entry whose parse fails. */
  predicate FirstFailing<T>(nodes: seq<Node>, parse: Node -> Result<T>, i: int) {
    && 0 <= i < |nodes|
    && IsEntry(nodes[i])
    && parse(nodes[i]).Failure?
    && forall j :: 0 <= j < i && IsEntry(nodes[j]) ==> parse(nodes[j]).Success?
  }

  /** The loop succeeds exactly when every entry parses. */
  lemma {:induction false} ParseEntriesSucceedsIff<T>(nodes: seq<Node>, parse: Node -> Result<T>)
    ensures ParseEntries(nodes, parse).Success? <==>
            forall i :: 0 <= i < |nodes| && IsEntry(nodes[i]) ==> parse(nodes[i]).Success?
    decreases |nodes|
  {
    if |nodes| > 0 {
      var init := nodes[..|nodes| - 1];
      ParseEntriesSucceedsIff(init, parse);
      assert forall i :: 0 <= i < |init| ==> init[i] == nodes[i];
    }
  }

  /** On failure the loop reports the exception of the first entry that fails. */
  lemma {:induction false} ParseEntriesFirstFailure<T>(nodes: seq<Node>, parse: Node -> Result<T>)
    requires ParseEntries(nodes, parse).Failure?
    ensures exists i :: FirstFailing(nodes, parse, i) && ParseEntries(nodes, parse).error == parse(nodes[i]).error
    decreases |nodes|
  {
    var init := nodes[..|nodes| - 1];
    var last := nodes[|nodes| - 1];
    if ParseEntries(init, parse).Failure? {
      ParseEntriesFirstFailure(init, parse);
      var i :| FirstFailing(init, parse, i) && ParseEntries(init, parse).error == parse(init[i]).error;
      assert init[i] == nodes[i];
      assert FirstFailing(nodes, parse, i);
    } else {
      var i := |nodes| - 1;
      ParseEntriesSucceedsIff(init, parse);
      assert forall j :: 0 <= j < i ==> init[j] == nodes[j];
      assert FirstFailing(nodes, parse, i);
    }
  }

  /** Once the loop has failed, the nodes after the failure do not matter. */
  lemma {:induction false} ParseEntriesFailureSticks<T>(nodes: seq<Node>, m: nat, parse: Node -> Result<T>)
    requires m <= |nodes| && ParseEntries(nodes[..m], parse).Failure?
    ensures ParseEntries(nodes, parse) == ParseEntries(nodes[..m], parse)
    decreases |nodes| - m
  {
    if m < |nodes| {
      var init := nodes[..|nodes| - 1];
      assert init[..m] == nodes[..m];
      ParseEntriesFailureSticks(init, m, parse);
    } else {
      assert nodes[..m] == nodes;
    }
  }

  /** On success the loop returns, for each entry in order, what `parse` made of it. */
  lemma {:induction false} ParseEntriesValues<T>(nodes: seq<Node>, parse: Node -> Result<T>)
    requires ParseEntries(nodes, parse).Success?
    ensures var v := ParseEntries(nodes, parse).value;
            && |v| == |Keep(nodes, IsEntry)|
            && forall i :: 0 <= i < |v| ==> parse(Keep(nodes, IsEntry)[i]) == Success(v[i])
    decreases |nodes|
  {
    if |nodes| > 0 {
      var init := nodes[..|nodes| - 1];
      var last := nodes[|nodes| - 1];
      ParseEntriesValues(init, parse);
      assert nodes == init + [last];
      KeepSnoc(init, last, IsEntry);
      var vi := ParseEntries(init, parse).value;
      var v := ParseEntries(nodes, parse).value;
      if IsEntry(last) {
        assert v == vi + [parse(last).value];
        forall i | 0 <= i < |v|
          ensures parse(Keep(nodes, IsEntry)[i]) == Success(v[i])
        {
          if i < |vi| {
            assert Keep(nodes, IsEntry)[i] == Keep(init, IsEntry)[i];
          } else {
            assert Keep(nodes, IsEntry)[i] == last;
          }
        }
      } else {
        assert v == vi;
      }
    }
  }

  /** The loop ignores everything but entries: running it over the entries
      alone gives the same outcome. */
  lemma {:induction false} ParseEntriesOfEntries<T>(nodes: seq<Node>, parse: Node -> Result<T>)
    ensures ParseEntries(Keep(nodes, IsEntry), parse) == ParseEntries(nodes, parse)
    decreases |nodes|
  {
    if |nodes| > 0 {
      var init := nodes[..|nodes| - 1];
      var last := nodes[|nodes| - 1];
      ParseEntriesOfEntries(init, parse);
      assert nodes == init + [last];
      KeepSnoc(init, last, IsEntry);
      if IsEntry(last) {
        var kept := Keep(init, IsEntry) + [last];
        assert kept[..|kept| - 1] == Keep(init, IsEntry);
      }
    }
  }

  // ---------------------------------------------------------------------
  // Windows over the loop index

  /** The loop `for k in [0, n): if (k >= start && k < end) ...` visits
      exactly the positions `[lo, hi)` returned here. */
  predicate Within(k: int, lo: int, hi: int) {
    lo <= k < hi
  }

  function Window(n: nat, start: int, end: int): (w: (nat, nat))
    ensures w.0 <= w.1 <= n
    ensures forall k :: 0 <= k < n ==> (Within(k, w.0, w.1) <==> Within(k, start, end))
  {
    var lo := if start < 0 then 0 else if start > n then n else start;
    var hi := if end < lo then lo else if end > n then n else end;
    (lo, hi)
  }

  /** The loop restricted to the positions `[start, end)`. */
  function ParseWindow<T>(nodes: seq<Node>, start: int, end: int, parse: Node -> Result<T>): Result<seq<T>>
  {
    var w := Window(|nodes|, start, end);
    ParseEntries(nodes[w.0..w.1], parse)
  }

  /** The windowed loop as written: every position is visited, and only
      those inside the window are looked at. */
  method ScanWindow<T>(nodes: seq<Node>, start: int, end: int, parse: Node -> Result<T>)
    returns (r: Result<seq<T>>)
    ensures r == ParseWindow(nodes, start, end, parse)
  {
    var w := Window(|nodes|, start, end);
    var list: seq<T> := [];
    var k := 0;
    while k < |nodes|
      invariant 0 <= k <= |nodes|
      invariant ParseEntries(nodes[w.0..Clamp(k, w.0, w.1)], parse) == Success(list)
    {
      if k >= start && k < end {
        assert Within(k, w.0, w.1);
        assert Clamp(k, w.0, w.1) == k && Clamp(k + 1, w.0, w.1) == k + 1;
        var node := nodes[k];
        ParseEntriesStep(nodes, w.0, k, parse);
        if node.name == "entry" {
          var v := parse(node);
          if v.Failure? {
            assert nodes[w.0..w.1][..k + 1 - w.0] == nodes[w.0..k + 1];
            ParseEntriesFailureSticks(nodes[w.0..w.1], k + 1 - w.0, parse);
            return Failure(v.error);
          }
          list := list + [v.value];
        }
      } else {
        assert !Within(k, w.0, w.1);
        assert Clamp(k, w.0, w.1) == Clamp(k + 1, w.0, w.1);
      }
      k := k + 1;
    }
    assert nodes[w.0..Clamp(k, w.0, w.1)] == nodes[w.0..w.1];
    return Success(list);
  }

  function Clamp(k: int, lo: int, hi: int): int
    requires lo <= hi
  {
    if k < lo then lo else if k > hi then hi else k
  }

  /** One more position of the loop: a non-entry leaves the state alone, an
      entry appends its value or ends the loop with its exception. */
  lemma ParseEntriesStep<T>(nodes: seq<Node>, lo: nat, k: nat, parse: Node -> Result<T>)
    requires lo <= k < |nodes|
    ensures var before := ParseEntries(nodes[lo..k], parse);
            var after := ParseEntries(nodes[lo..k + 1], parse);
            var v := parse(nodes[k]);
            && (before.Failure? ==> after == before)
            && (before.Success? && !IsEntry(nodes[k]) ==> after == before)
            && (before.Success? && IsEntry(nodes[k]) && v.Failure? ==> after == Failure(v.error))
            && (before.Success? && IsEntry(nodes[k]) && v.Success? ==> after == Success(before.value + [v.value]))
  {
    assert nodes[lo..k + 1][..k - lo] == nodes[lo..k];
  }

  /** A window of a loop that succeeded is the matching stretch of its
      result: the entries before the window are skipped, those inside kept. */
  lemma ParseWindowOfSuccess<T>(nodes: seq<Node>, lo: nat, hi: nat, parse: Node -> Result<T>)
    requires lo <= hi <= |nodes|
    requires ParseEntries(nodes, parse).Success?
    ensures var all := ParseEntries(nodes, parse).value;
            var a := |Keep(nodes[..lo], IsEntry)|;
            var b := |Keep(nodes[..hi], IsEntry)|;
            a <= b <= |all| && ParseEntries(nodes[lo..hi], parse) == Success(all[a..b])
  {
    var all := ParseEntries(nodes, parse).value;
    ParseEntriesValues(nodes, parse);
    KeepWindow(nodes, lo, hi, IsEntry);
    var a := |Keep(nodes[..lo], IsEntry)|;
    var b := |Keep(nodes[..hi], IsEntry)|;
    var part := ParseEntries(nodes[lo..hi], parse);
    ParseEntriesSucceedsIff(nodes, parse);
    ParseEntriesSucceedsIff(nodes[lo..hi], parse);
    assert part.Success? by {
      forall i | 0 <= i < |nodes[lo..hi]| && IsEntry(nodes[lo..hi][i])
        ensures parse(nodes[lo..hi][i]).Success?
      {
        assert nodes[lo..hi][i] == nodes[lo + i];
      }
    }
    ParseEntriesValues(nodes[lo..hi], parse);
    assert part.value == all[a..b];
  }

  /** A window can only fail where the whole loop fails too. */
  lemma ParseWindowFailure<T>(nodes: seq<Node>, start: int, end: int, parse: Node -> Result<T>)
    requires ParseWindow(nodes, start, end, parse).Failure?
    ensures ParseEntries(nodes, parse).Failure?
  {
    var w := Window(|nodes|, start, end);
    var part := nodes[w.0..w.1];
    ParseEntriesSucceedsIff(nodes, parse);
    ParseEntriesSucceedsIff(part, parse);
    var i :| 0 <= i < |part| && IsEntry(part[i]) && parse(part[i]).Failure?;
    assert part[i] == nodes[w.0 + i];
  }

  /** A window over the entries alone, when the loop over all nodes
      succeeds: the same stretch of the loop's result. */
  lemma EntryWindowOfSuccess<T>(nodes: seq<Node>, start: int, end: int, parse: Node -> Result<T>)
    requires ParseEntries(nodes, parse).Success?
    ensures var all := ParseEntries(nodes, parse).value;
            var es := Keep(nodes, IsEntry);
            var w := Window(|es|, start, end);
            |all| == |es| && ParseWindow(es, start, end, parse) == Success(all[w.0..w.1])
  {
    var es := Keep(nodes, IsEntry);
    ParseEntriesValues(nodes, parse);
    ParseEntriesOfEntries(nodes, parse);
    var w := Window(|es|, start, end);
    ParseWindowOfSuccess(es, w.0, w.1, parse);
    KeepAll(es[..w.0], IsEntry);
    KeepAll(es[..w.1], IsEntry);
  }

  /** A window over the entries alone can only fail where the loop over
      all nodes fails too. */
  lemma EntryWindowFailure<T>(nodes: seq<Node>, start: int, end: int, parse: Node -> Result<T>)
    requires ParseWindow(Keep(nodes, IsEntry), start, end, parse).Failure?
    ensures ParseEntries(nodes, parse).Failure?
  {
    ParseWindowFailure(Keep(nodes, IsEntry), start, end, parse);
    ParseEntriesOfEntries(nodes, parse);
  }

  /** A window that starts at or after the last node is empty. */
  lemma WindowPastEnd<T>(nodes: seq<Node>, start: int, end: int, parse: Node -> Result<T>)
    requires start >= |nodes|
    ensures ParseWindow(nodes, start, end, parse) == Success([])
  {
    assert nodes[|nodes|..|nodes|] == [];
  }
}
