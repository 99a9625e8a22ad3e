/** The processing loop (Processing.java): every image of the retriever is
    analysed on its own, a failure is logged and the loop goes on, the
    summary rows of the images that went through are collected, and the
    parent table is written once at the end. The analysis, the sender's
    effects and the retriever are inputs: each item says how far it gets. */
module Processing {
  import opened Results
  import opened JavaLang
  import opened Channels

  // ---------------------------------------------------------------------------
  // The loop

  /** What a retriever call gives: a value, null, or an exception. */
  datatype Fetch = Present | Null | Fails

  /** The step of the loop body that throws. */
  datatype Stage = Analysis | Initialize | SendTags | SendResults | SummaryTable

  /** One entry of an image's summaryForParentTable map: column headers and
      one row of values per channel. */
  datatype MetricsEntry = MetricsEntry(headers: seq<string>, rows: seq<seq<Cell>>)

  /** Everything the loop body meets for one image:
      fetch      getImage(i) and getImageWrapper(i) together;
      slideName  getArgoSlideName() (None: null, the name did not parse);
      failsAt    the first analysis or sender step that throws, if any;
      metrics    the summary map's entries in iteration order;
      retry      getImage(i) once more, as the catch block calls it for the
                 message. */
  datatype Item = Item(fetch: Fetch, slideName: Option<string>, failsAt: Option<Stage>,
                       metrics: seq<MetricsEntry>, retry: Fetch)

  datatype Protocol = NewProtocol | OldProtocol

  /** The old analysis runs iff the slide name contains "ArgoSimOld". */
  function ProtocolFor(slideName: string): (p: Protocol)
    ensures p == OldProtocol <==> Contains(slideName, "ArgoSimOld")
  {
    if Contains(slideName, "ArgoSimOld") then OldProtocol else NewProtocol
  }

  /** Both objects were fetched and neither is null: the body goes on. */
  predicate Fetched(item: Item) {
    item.fetch == Present
  }

  /** The body throws: a fetch throws, the slide name is null, a step
      throws, or the summary map is empty and its first key set is read. */
  predicate Raises(item: Item) {
    item.fetch == Fails ||
    (Fetched(item) && (item.slideName.None? || item.failsAt.Some? || |item.metrics| == 0))
  }

  /** The catch block's own getImage(i).getTitle() throws, so the exception
      leaves the loop. */
  predicate Escapes(item: Item) {
    Raises(item) && item.retry != Present
  }

  /** The body gets past sendTags. */
  predicate Tagged(item: Item) {
    Fetched(item) && item.slideName.Some? &&
    (item.failsAt.None? || item.failsAt.value == SendResults || item.failsAt.value == SummaryTable)
  }

  /** The body runs to the end and puts a summary entry. */
  predicate Contributes(item: Item) {
    Fetched(item) && !Raises(item)
  }

  /** What the loop has gathered so far: the summary entries by image
      index, the headers last read, and the images whose tags were sent. */
  datatype Gathered = Gathered(summary: seq<(nat, seq<seq<Cell>>)>, headers: seq<string>, tagged: seq<nat>)

  function Keys(summary: seq<(nat, seq<seq<Cell>>)>): seq<nat> {
    seq(|summary|, k requires 0 <= k < |summary| => summary[k].0)
  }

  predicate Increasing(xs: seq<nat>) {
    forall a, b :: 0 <= a < b < |xs| ==> xs[a] < xs[b]
  }

  /** The last contributing image among the first n, if any. */
  function LastContributor(items: seq<Item>, n: nat): (r: Option<nat>)
    requires n <= |items|
    ensures r.Some? ==> (r.value < n && Contributes(items[r.value]) &&
      forall k :: r.value < k < n ==> !Contributes(items[k]))
    ensures r.None? ==> forall k :: 0 <= k < n ==> !Contributes(items[k])
  {
    if n == 0 then None
    else if Contributes(items[n - 1]) then Some(n - 1)
    else LastContributor(items, n - 1)
  }

  /** One pass of the loop body for image i. */
  function Step(g: Gathered, i: nat, item: Item): Gathered
    requires !Escapes(item)
  {
    var tagged := if Tagged(item) then g.tagged + [i] else g.tagged;
    if Contributes(item) then
      Gathered(g.summary + [(i, item.metrics[0].rows)], item.metrics[0].headers, tagged)
    else Gathered(g.summary, g.headers, tagged)
  }

  /** The loop over images 0..n-1. An escaping exception ends the run;
      otherwise an image has a summary entry iff its body ran to the end, and
      was tagged iff its body got past sendTags. */
  function Loop(items: seq<Item>, n: nat): (r: Result<Gathered>)
    requires n <= |items|
    ensures r.Ok? <==> forall k :: 0 <= k < n ==> !Escapes(items[k])
    ensures r.Ok? ==> forall i :: 0 <= i < n ==>
      (i in Keys(r.value.summary) <==> Contributes(items[i])) &&
      (i in r.value.tagged <==> Tagged(items[i]))
    ensures r.Ok? ==> forall k :: 0 <= k < |r.value.summary| ==> r.value.summary[k].0 < n
    ensures r.Ok? ==> forall k :: 0 <= k < |r.value.tagged| ==> r.value.tagged[k] < n
  {
    if n == 0 then Ok(Gathered([], [], []))
    else
      match Loop(items, n - 1)
      case Throws(e) => Throws(e)
      case Ok(g) =>
        var item := items[n - 1];
        if Escapes(item) then Throws(if item.retry == Null then NullPointer else Backend)
        else
          var r := Step(g, n - 1, item);
          assert Keys(r.summary) == Keys(g.summary) + (if Contributes(item) then [n - 1] else []);
          Ok(r)
  }

  /** The images are visited once each in index order: summary entries
      come in increasing index order. */
  lemma {:induction false} LoopKeysIncreasing(items: seq<Item>, n: nat)
    requires n <= |items| && Loop(items, n).Ok?
    ensures Increasing(Keys(Loop(items, n).value.summary))
    decreases n
  {
    if n > 0 {
      LoopKeysIncreasing(items, n - 1);
      var g := Loop(items, n - 1).value;
      var r := Loop(items, n).value;
      assert r == Step(g, n - 1, items[n - 1]);
      if Contributes(items[n - 1]) {
        var keys := Keys(g.summary);
        KeysAppend(g.summary, (n - 1, items[n - 1].metrics[0].rows));
        assert forall k :: 0 <= k < |keys| ==> keys[k] == g.summary[k].0 < n - 1;
        AppendIncreasing(keys, n - 1);
      } else {
        assert r.summary == g.summary;
      }
    }
  }

  /** Tags are sent in increasing index order. */
  lemma {:induction false} LoopTagsIncreasing(items: seq<Item>, n: nat)
    requires n <= |items| && Loop(items, n).Ok?
    ensures Increasing(Loop(items, n).value.tagged)
    decreases n
  {
    if n > 0 {
      LoopTagsIncreasing(items, n - 1);
      var g := Loop(items, n - 1).value;
      var r := Loop(items, n).value;
      assert r == Step(g, n - 1, items[n - 1]);
      if Tagged(items[n - 1]) {
        AppendIncreasing(g.tagged, n - 1);
      } else {
        assert r.tagged == g.tagged;
      }
    }
  }

  /** Each summary entry holds the rows of its image's first metrics entry. */
  lemma {:induction false} LoopRows(items: seq<Item>, n: nat)
    requires n <= |items| && Loop(items, n).Ok?
    ensures var g := Loop(items, n).value;
      forall k :: 0 <= k < |g.summary| ==> (Contributes(items[g.summary[k].0]) &&
        g.summary[k].1 == items[g.summary[k].0].metrics[0].rows)
    decreases n
  {
    if n > 0 {
      LoopRows(items, n - 1);
      var g := Loop(items, n - 1).value;
      var r := Loop(items, n).value;
      var item := items[n - 1];
      assert r == Step(g, n - 1, item);
      if Contributes(item) {
        assert r.summary == g.summary + [(n - 1, item.metrics[0].rows)];
        forall k | 0 <= k < |r.summary|
          ensures Contributes(items[r.summary[k].0]) && r.summary[k].1 == items[r.summary[k].0].metrics[0].rows
        {
          if k < |g.summary| {
            assert r.summary[k] == g.summary[k];
          }
        }
      } else {
        assert r.summary == g.summary;
      }
    }
  }

  lemma KeysAppend(summary: seq<(nat, seq<seq<Cell>>)>, e: (nat, seq<seq<Cell>>))
    ensures Keys(summary + [e]) == Keys(summary) + [e.0]
  {
  }

  lemma AppendIncreasing(xs: seq<nat>, x: nat)
    requires Increasing(xs) && forall k :: 0 <= k < |xs| ==> xs[k] < x
    ensures Increasing(xs + [x])
  {
  }

  /** The headers handed to the table are those of the last image that ran
      to the end, or none when no image did. */
  lemma {:induction false} LoopHeaders(items: seq<Item>, n: nat)
    requires n <= |items| && Loop(items, n).Ok?
    ensures Loop(items, n).value.headers ==
      match LastContributor(items, n)
      case None => []
      case Some(j) => items[j].metrics[0].headers
    decreases n
  {
    if n > 0 {
      LoopHeaders(items, n - 1);
      assert Loop(items, n).value == Step(Loop(items, n - 1).value, n - 1, items[n - 1]);
    }
  }

  /** The parent-table call made after the loop. */
  datatype TableCall = TableCall(summary: seq<(nat, seq<seq<Cell>>)>, headers: seq<string>, populateExisting: bool)

  /** Processing.run: the loop, then exactly one populateParentTable call
      with populateExistingTable = !isProcessingAllRawImages(); no call when
      an exception escaped the loop. */
  function Run(items: seq<Item>, processingAll: bool): (r: Result<TableCall>)
    ensures r.Ok? <==> forall k :: 0 <= k < |items| ==> !Escapes(items[k])
    ensures r.Ok? ==> r.value.populateExisting == !processingAll
    ensures r.Ok? ==> forall i :: 0 <= i < |items| ==> (i in Keys(r.value.summary) <==> Contributes(items[i]))
  {
    match Loop(items, |items|)
    case Throws(e) => Throws(e)
    case Ok(g) => Ok(TableCall(g.summary, g.headers, !processingAll))
  }

  /** Failure isolation: an image that throws inside the body, while the
      catch block's message works, changes nothing for the others. */
  lemma {:induction false} FailureIsolated(items: seq<Item>, i: nat, failing: Item, n: nat)
    requires i < n <= |items| && Raises(failing) && !Escapes(failing) && !Tagged(failing)
    requires Loop(items, n).Ok? && !Contributes(items[i]) && !Tagged(items[i])
    ensures Loop(items[i := failing], n) == Loop(items, n)
    decreases n
  {
    var other := items[i := failing];
    if n - 1 > i {
      FailureIsolated(items, i, failing, n - 1);
      assert other[n - 1] == items[n - 1];
    } else {
      assert n - 1 == i;
      if i > 0 {
        LoopPrefix(items, other, i);
      }
    }
  }

  /** The loop over a prefix depends only on that prefix. */
  lemma {:induction false} LoopPrefix(a: seq<Item>, b: seq<Item>, n: nat)
    requires n <= |a| && n <= |b| && a[..n] == b[..n]
    ensures Loop(a, n) == Loop(b, n)
    decreases n
  {
    if n > 0 {
      assert a[..n - 1] == a[..n][..n - 1] && b[..n - 1] == b[..n][..n - 1];
      LoopPrefix(a, b, n - 1);
      assert a[n - 1] == a[..n][n - 1] && b[n - 1] == b[..n][n - 1];
    }
  }

  /** Tags go out before the results: an image whose sendResults throws is
      tagged and still has no summary row. */
  lemma TaggedWithoutSummary(items: seq<Item>, i: nat, processingAll: bool)
    requires i < |items| && Run(items, processingAll).Ok?
    requires Fetched(items[i]) && items[i].slideName.Some? && items[i].failsAt == Some(SendResults)
    ensures i in Loop(items, |items|).value.tagged
    ensures i !in Keys(Run(items, processingAll).value.summary)
  {
  }

  /** Every image with a summary row was tagged first. */
  lemma SummaryImpliesTagged(items: seq<Item>, i: nat)
    requires i < |items| && Loop(items, |items|).Ok?
    requires i in Keys(Loop(items, |items|).value.summary)
    ensures i in Loop(items, |items|).value.tagged
  {
  }

  // ---------------------------------------------------------------------------
  // sendResults

  /** What the sender is asked to do, in order. */
  datatype Action =
    | PccTable(nChannels: nat)
    | GridPoints(channel: int, ideal: bool)
    | HeatMapOf(metric: Metric, channel: int)
    | ResultsTable(metric: Metric)
    | KeyValues(entries: map<string, string>)

  /** The metrics a field of view is reported with: distortion and
      uniformity for the full field of view, FWHM otherwise. */
  function Reported(fullFoV: bool): (ms: set<Metric>)
    ensures fullFoV ==> ms == {Distortion, Uniformity}
    ensures !fullFoV ==> ms == {Fwhm}
  {
    if fullFoV then {Distortion, Uniformity} else {Fwhm}
  }

  /** The heat maps of one channel, in the order they are drawn. */
  function HeatMapsOf(fullFoV: bool, id: int): (r: seq<Action>)
    ensures forall a :: a in r <==> a.HeatMapOf? && a.channel == id && a.metric in Reported(fullFoV)
  {
    if fullFoV then [HeatMapOf(Distortion, id), HeatMapOf(Uniformity, id)] else [HeatMapOf(Fwhm, id)]
  }

  /** The results tables, in the order they are sent. */
  function TablesOf(fullFoV: bool): (r: seq<Action>)
    ensures forall a :: a in r <==> a.ResultsTable? && a.metric in Reported(fullFoV)
  {
    if fullFoV then [ResultsTable(Distortion), ResultsTable(Uniformity)] else [ResultsTable(Fwhm)]
  }

  /** The channels' key-values put over the image's, channel by channel. */
  function MergeKeyValues(base: map<string, string>, channels: seq<Channel>): (r: map<string, string>)
    ensures r.Keys >= base.Keys
    ensures forall k :: k in r ==> k in base || exists c :: 0 <= c < |channels| && k in channels[c].keyValues
    ensures |channels| > 0 ==> (channels[|channels| - 1].keyValues.Keys <= r.Keys &&
      forall k :: k in channels[|channels| - 1].keyValues ==> r[k] == channels[|channels| - 1].keyValues[k])
    decreases |channels|
  {
    if |channels| == 0 then base
    else
      var prev := MergeKeyValues(base, channels[..|channels| - 1]);
      assert forall c :: 0 <= c < |channels| - 1 ==> channels[..|channels| - 1][c] == channels[c];
      prev + channels[|channels| - 1].keyValues
  }

  /** The per-channel part of the body: grid points, then the heat maps the
      protocol and field of view ask for. */
  function ChannelActions(channels: seq<Channel>, saving: bool, protocol: Protocol, fullFoV: bool): (r: seq<Action>)
    ensures forall m, id :: HeatMapOf(m, id) in r <==>
      saving && protocol == NewProtocol && m in Reported(fullFoV) &&
      exists c :: 0 <= c < |channels| && channels[c].id == id
    ensures forall a :: a in r ==> !a.PccTable? && !a.ResultsTable? && !a.KeyValues?
    ensures forall c :: 0 <= c < |channels| ==> GridPoints(channels[c].id, false) in r && GridPoints(channels[c].id, true) in r
  {
    if |channels| == 0 then []
    else
      var prev := ChannelActions(channels[..|channels| - 1], saving, protocol, fullFoV);
      var ch := channels[|channels| - 1];
      var maps := if saving && protocol == NewProtocol then HeatMapsOf(fullFoV, ch.id) else [];
      assert forall c :: 0 <= c < |channels| - 1 ==> channels[..|channels| - 1][c] == channels[c];
      prev + [GridPoints(ch.id, false), GridPoints(ch.id, true)] + maps
  }

  /** The part of an image the body reads. `fov` is getImagedFoV(), null
      when unknown. */
  datatype ImageView = ImageView(id: int, keyValues: map<string, string>, channels: seq<Channel>, fov: Option<string>)

  datatype Sent = Sent(actions: seq<Action>, error: Option<JavaException>)

  /** The sender's work after the PCC table when a null field of view stops
      the new protocol: the grid points sent before the first equals call. */
  function StoppedActions(image: ImageView, saving: bool): (r: seq<Action>)
    ensures forall a :: a in r ==> a.GridPoints?
  {
    if saving && |image.channels| > 0
    then [GridPoints(image.channels[0].id, false), GridPoints(image.channels[0].id, true)]
    else ChannelActions(image.channels, false, NewProtocol, false)
  }

  /** The sender's work after the PCC table when the body runs through: the
      per-channel actions, the results tables, and the key-values last. */
  function CompletedActions(image: ImageView, saving: bool, protocol: Protocol, local: bool): (r: seq<Action>)
    requires protocol == OldProtocol || image.fov.Some?
    ensures |r| > 0 && r[|r| - 1].KeyValues?
    ensures var merged := MergeKeyValues(image.keyValues, image.channels);
      (local ==> r[|r| - 1].entries == merged["Image_ID" := IntToString(image.id)]) &&
      (!local ==> r[|r| - 1].entries == merged)
    ensures forall a :: a in r ==> !a.PccTable?
    ensures forall m, id :: HeatMapOf(m, id) in r <==>
      saving && protocol == NewProtocol && m in Reported(image.fov.Some? && image.fov.value == "fullFoV") &&
      exists c :: 0 <= c < |image.channels| && image.channels[c].id == id
    ensures forall m :: ResultsTable(m) in r <==>
      protocol == NewProtocol && m in Reported(image.fov.Some? && image.fov.value == "fullFoV")
  {
    var fullFoV := image.fov.Some? && image.fov.value == "fullFoV";
    var perChannel := ChannelActions(image.channels, saving, protocol, fullFoV);
    var tables := if protocol == NewProtocol then TablesOf(fullFoV) else [];
    var merged := MergeKeyValues(image.keyValues, image.channels);
    var entries := if local then merged["Image_ID" := IntToString(image.id)] else merged;
    var actions := perChannel + tables + [KeyValues(entries)];
    assert forall a :: a in actions <==> a in perChannel || a in tables || a == KeyValues(entries);
    actions
  }

  /** Processing.sendResults. The PCC table needs more than one channel. The
      field-of-view test of the new protocol calls equals on getImagedFoV(),
      so a null field of view throws there (the old protocol never reads it).
      The key-values go last, with "Image_ID" added only by the local
      sender. */
  function SendResultsOf(image: ImageView, saving: bool, protocol: Protocol, local: bool): (r: Sent)
    ensures r.error.Some? <==> protocol == NewProtocol && image.fov.None?
    ensures r.error.Some? ==> r.error.value == NullPointer
    ensures (|r.actions| > 0 && r.actions[0] == PccTable(|image.channels|)) <==> |image.channels| > 1
    ensures r.error.Some? ==> forall a :: a in r.actions ==> !a.HeatMapOf? && !a.ResultsTable? && !a.KeyValues?
  {
    var pcc := if |image.channels| > 1 then [PccTable(|image.channels|)] else [];
    var rest := if protocol == NewProtocol && image.fov.None? then StoppedActions(image, saving)
                else CompletedActions(image, saving, protocol, local);
    assert forall a :: a in rest ==> !a.PccTable?;
    assert |rest| > 0 ==> rest[0] in rest;
    Sent(pcc + rest, if protocol == NewProtocol && image.fov.None? then Some(NullPointer) else None)
  }

  /** The heat maps sent: with saving on, under the new protocol and a known
      field of view, those of the reported metrics for every channel; none
      otherwise. */
  lemma HeatMapsSent(image: ImageView, saving: bool, protocol: Protocol, local: bool, m: Metric, id: int)
    ensures var r := SendResultsOf(image, saving, protocol, local);
      HeatMapOf(m, id) in r.actions <==>
        saving && protocol == NewProtocol && image.fov.Some? &&
        m in Reported(image.fov.value == "fullFoV") &&
        exists c :: 0 <= c < |image.channels| && image.channels[c].id == id
  {
    var pcc := if |image.channels| > 1 then [PccTable(|image.channels|)] else [];
    var r := SendResultsOf(image, saving, protocol, local);
    if protocol == NewProtocol && image.fov.None? {
      assert r.actions == pcc + StoppedActions(image, saving);
    } else {
      assert r.actions == pcc + CompletedActions(image, saving, protocol, local);
    }
  }

  /** The results tables sent: under the new protocol and a known field of
      view, one per reported metric; none otherwise. */
  lemma TablesSent(image: ImageView, saving: bool, protocol: Protocol, local: bool, m: Metric)
    ensures var r := SendResultsOf(image, saving, protocol, local);
      ResultsTable(m) in r.actions <==>
        protocol == NewProtocol && image.fov.Some? && m in Reported(image.fov.value == "fullFoV")
  {
    var pcc := if |image.channels| > 1 then [PccTable(|image.channels|)] else [];
    var r := SendResultsOf(image, saving, protocol, local);
    if protocol == NewProtocol && image.fov.None? {
      assert r.actions == pcc + StoppedActions(image, saving);
    } else {
      assert r.actions == pcc + CompletedActions(image, saving, protocol, local);
    }
  }

  /** The decision table of sendResults under the new protocol, per field
      of view: distortion and uniformity for the full field of view, FWHM
      for any other. */
  lemma DecisionTable(image: ImageView, saving: bool, local: bool)
    requires image.fov.Some?
    ensures var r := SendResultsOf(image, saving, NewProtocol, local);
      image.fov.value == "fullFoV" ==>
        ResultsTable(Distortion) in r.actions && ResultsTable(Uniformity) in r.actions && ResultsTable(Fwhm) !in r.actions
    ensures var r := SendResultsOf(image, saving, NewProtocol, local);
      image.fov.value != "fullFoV" ==>
        ResultsTable(Fwhm) in r.actions && ResultsTable(Distortion) !in r.actions && ResultsTable(Uniformity) !in r.actions
  {
    TablesSent(image, saving, NewProtocol, local, Distortion);
    TablesSent(image, saving, NewProtocol, local, Uniformity);
    TablesSent(image, saving, NewProtocol, local, Fwhm);
  }

  /** The old protocol sends neither results tables nor heat maps. */
  lemma OldProtocolSendsNoMetrics(image: ImageView, saving: bool, local: bool, m: Metric, id: int)
    ensures var r := SendResultsOf(image, saving, OldProtocol, local);
      ResultsTable(m) !in r.actions && HeatMapOf(m, id) !in r.actions
  {
    TablesSent(image, saving, OldProtocol, local, m);
    HeatMapsSent(image, saving, OldProtocol, local, m, id);
  }
}
