/**
 * `makeLite`: copy a NeXus event file, relabel the event pixel ids of every
 * detector panel to super-pixel ids, and rewrite the embedded instrument
 * definition to match. The HDF5 file is modelled by the two kinds of dataset
 * the conversion touches: integer event-id arrays keyed by their dataset path,
 * and the instrument-definition text.
 */
module LiteFile {
  import opened Wrappers
  import opened SuperPixel
  import opened DetectorPanels
  import opened InstrumentDefinition

  /** Dataset path of a panel's event pixel ids. */
  function EventIdPath(panel: string): string {
    "entry/bank" + panel + "_events/event_id"
  }

  /**
   * The datasets of a NeXus file the conversion touches: `instrumentXml` stands for the
   * dataset `entry/instrument/instrument_xml/data`; `eventIds` maps each event-id
   * dataset path to its ids.
   */
  datatype NexusImage = NexusImage(eventIds: map<string, seq<int>>, instrumentXml: Option<string>)

  /** Why a conversion stopped: the dataset it could not find or the IDF line it could not rewrite. */
  datatype LiteFailure =
    | PanelMissing(panel: string)
    | IdfMissing
    | IdfUnreadable(fault: IdfError)

  /** What `makeLite` did. */
  datatype LiteOutcome =
    | AlreadyExists
    | SourceMissing
    | Built(path: string)
    | Failed(failure: LiteFailure)

  /** The event-id paths of the first n panels. */
  function PanelPaths(n: nat): set<string>
    requires n <= |Panels()|
  {
    if n == 0 then {} else PanelPaths(n - 1) + {EventIdPath(Panels()[n - 1])}
  }

  /** The arrays at the given paths relabelled with the lite (8, 8) aggregation; the others kept. */
  function Relabelled(m: map<string, seq<int>>, done: set<string>): map<string, seq<int>> {
    map p | p in m :: if p in done then SuperIds(m[p], SumNeigh, SumNeigh) else m[p]
  }

  /** The number of leading panels whose event-id dataset is present. */
  function PresentFrom(m: map<string, seq<int>>, n: nat): (k: nat)
    requires n <= |Panels()|
    ensures n <= k <= |Panels()|
    ensures forall q :: n <= q < k ==> EventIdPath(Panels()[q]) in m
    ensures k < |Panels()| ==> EventIdPath(Panels()[k]) !in m
    decreases |Panels()| - n
  {
    if n == |Panels()| || EventIdPath(Panels()[n]) !in m then n else PresentFrom(m, n + 1)
  }

  function PresentPrefix(m: map<string, seq<int>>): nat {
    PresentFrom(m, 0)
  }

  /** The state the destination is left in after the copy, and why the conversion stopped, if it did. */
  datatype Conversion = Conversion(image: NexusImage, failure: Option<LiteFailure>)

  function Convert(src: NexusImage): Conversion {
    var k := PresentPrefix(src.eventIds);
    var events := Relabelled(src.eventIds, PanelPaths(k));
    if k < |Panels()| then Conversion(NexusImage(events, src.instrumentXml), Some(PanelMissing(Panels()[k])))
    else match src.instrumentXml
      case None => Conversion(NexusImage(events, None), Some(IdfMissing))
      case Some(text) =>
        match RewriteIdf(text)
        case Ok(newText) => Conversion(NexusImage(events, Some(newText)), None)
        case Err(e) => Conversion(NexusImage(events, src.instrumentXml), Some(IdfUnreadable(e)))
  }

  /** The conversion stops at the first missing panel; with all panels present it
   * depends only on the instrument definition. */
  lemma ConvertUnfold(src: NexusImage)
    ensures var k := PresentPrefix(src.eventIds);
      var c := Convert(src);
      && c.image.eventIds == Relabelled(src.eventIds, PanelPaths(k))
      && (k < |Panels()| ==> c.image.instrumentXml == src.instrumentXml && c.failure == Some(PanelMissing(Panels()[k])))
      && (k == |Panels()| && src.instrumentXml.None? ==> c.image.instrumentXml == None && c.failure == Some(IdfMissing))
      && (k == |Panels()| && src.instrumentXml.Some? && RewriteIdf(src.instrumentXml.value).Ok? ==>
            c.image.instrumentXml == Some(RewriteIdf(src.instrumentXml.value).value) && c.failure == None)
      && (k == |Panels()| && src.instrumentXml.Some? && RewriteIdf(src.instrumentXml.value).Err? ==>
            c.image.instrumentXml == src.instrumentXml && c.failure == Some(IdfUnreadable(RewriteIdf(src.instrumentXml.value).error)))
  {
    var k := PresentPrefix(src.eventIds);
    var events := Relabelled(src.eventIds, PanelPaths(k));
    if k < |Panels()| {
      assert Convert(src) == Conversion(NexusImage(events, src.instrumentXml), Some(PanelMissing(Panels()[k])));
    } else if src.instrumentXml.None? {
      assert Convert(src) == Conversion(NexusImage(events, None), Some(IdfMissing));
    } else {
      var r := RewriteIdf(src.instrumentXml.value);
      if r.Ok? {
        assert Convert(src) == Conversion(NexusImage(events, Some(r.value)), None);
      } else {
        assert Convert(src) == Conversion(NexusImage(events, src.instrumentXml), Some(IdfUnreadable(r.error)));
      }
    }
  }

  lemma EventIdPathInjective(a: string, b: string)
    requires EventIdPath(a) == EventIdPath(b)
    ensures a == b
  {
    var pa, pb := EventIdPath(a), EventIdPath(b);
    assert |a| == |b|;
    assert pa[10..10 + |a|] == a;
    assert pb[10..10 + |b|] == b;
  }

  /** The paths of the first n panels are those of panels 0 .. n - 1, and no later panel's. */
  lemma {:induction false} PanelPathsMembers(n: nat)
    requires n <= |Panels()|
    ensures forall q :: 0 <= q < n ==> EventIdPath(Panels()[q]) in PanelPaths(n)
    ensures forall q :: n <= q < |Panels()| ==> EventIdPath(Panels()[q]) !in PanelPaths(n)
    decreases n
  {
    if n > 0 {
      PanelPathsMembers(n - 1);
      PanelsFacts();
      forall q | n <= q < |Panels()| ensures EventIdPath(Panels()[q]) != EventIdPath(Panels()[n - 1]) {
        if EventIdPath(Panels()[q]) == EventIdPath(Panels()[n - 1]) {
          EventIdPathInjective(Panels()[q], Panels()[n - 1]);
        }
      }
    }
  }

  /** Relabelling one more panel extends the relabelled prefix by that panel. */
  lemma RelabelStep(m0: map<string, seq<int>>, m: map<string, seq<int>>, n: nat)
    requires n < |Panels()| && m == Relabelled(m0, PanelPaths(n))
    requires EventIdPath(Panels()[n]) in m
    ensures var path := EventIdPath(Panels()[n]);
      m[path := SuperIds(m[path], SumNeigh, SumNeigh)] == Relabelled(m0, PanelPaths(n + 1))
  {
    PanelPathsMembers(n);
  }

  /** Relabelling keeps the set of datasets, so a panel's array is present exactly when it was at the start. */
  lemma RelabelPresence(m0: map<string, seq<int>>, m: map<string, seq<int>>, n: nat)
    requires n < |Panels()| && m == Relabelled(m0, PanelPaths(n))
    requires forall q :: 0 <= q < n ==> EventIdPath(Panels()[q]) in m0
    ensures EventIdPath(Panels()[n]) in m <==> EventIdPath(Panels()[n]) in m0
    ensures EventIdPath(Panels()[n]) in m ==> forall q :: 0 <= q < n + 1 ==> EventIdPath(Panels()[q]) in m0
  {
  }

  lemma {:induction false} PresentFromExact(m: map<string, seq<int>>, j: nat, n: nat)
    requires j <= n <= |Panels()|
    requires forall q :: 0 <= q < n ==> EventIdPath(Panels()[q]) in m
    requires n < |Panels()| ==> EventIdPath(Panels()[n]) !in m
    ensures PresentFrom(m, j) == n
    decreases n - j
  {
    if j < n {
      PresentFromExact(m, j + 1, n);
    }
  }

  /** A conversion succeeds exactly when all eighteen panel datasets and the IDF are present and the IDF rewrites. */
  lemma ConvertSucceeds(src: NexusImage)
    ensures Convert(src).failure.None? <==>
      && (forall q :: 0 <= q < |Panels()| ==> EventIdPath(Panels()[q]) in src.eventIds)
      && src.instrumentXml.Some?
      && RewriteIdf(src.instrumentXml.value).Ok?
  {
    ConvertUnfold(src);
  }

  /** A missing panel dataset is reported by naming the first panel, in panel order, whose dataset is absent. */
  lemma ConvertNamesFirstMissingPanel(src: NexusImage)
    ensures forall q ::
      (0 <= q < |Panels()| && EventIdPath(Panels()[q]) !in src.eventIds &&
       forall r :: 0 <= r < q ==> EventIdPath(Panels()[r]) in src.eventIds) ==>
        Convert(src).failure == Some(PanelMissing(Panels()[q]))
    ensures Convert(src).failure.Some? && Convert(src).failure.value.PanelMissing? ==>
      exists q :: 0 <= q < |Panels()| && Convert(src).failure.value.panel == Panels()[q]
        && EventIdPath(Panels()[q]) !in src.eventIds
  {
    ConvertUnfold(src);
    var k := PresentPrefix(src.eventIds);
    forall q | 0 <= q < |Panels()| && EventIdPath(Panels()[q]) !in src.eventIds &&
      (forall r :: 0 <= r < q ==> EventIdPath(Panels()[r]) in src.eventIds)
      ensures Convert(src).failure == Some(PanelMissing(Panels()[q]))
    {
      assert q == k;
    }
  }

  /**
   * The destination keeps the source's datasets. Every panel up to the first
   * missing one has its event ids replaced by their super-pixel ids; every
   * later panel and every other dataset keeps its array.
   */
  lemma ConvertRelabels(src: NexusImage)
    ensures var out := Convert(src).image.eventIds;
      && out.Keys == src.eventIds.Keys
      && (forall q :: 0 <= q < PresentPrefix(src.eventIds) ==>
            out[EventIdPath(Panels()[q])] == SuperIds(src.eventIds[EventIdPath(Panels()[q])], SumNeigh, SumNeigh))
      && (forall q :: PresentPrefix(src.eventIds) <= q < |Panels()| && EventIdPath(Panels()[q]) in src.eventIds ==>
            out[EventIdPath(Panels()[q])] == src.eventIds[EventIdPath(Panels()[q])])
      && (forall p :: p in src.eventIds && p !in PanelPaths(|Panels()|) ==> out[p] == src.eventIds[p])
  {
    ConvertUnfold(src);
    var k := PresentPrefix(src.eventIds);
    PanelPathsMembers(k);
    PanelPathsMembers(|Panels()|);
    forall p | p in src.eventIds && p !in PanelPaths(|Panels()|) ensures p !in PanelPaths(k) {
      PanelPathsGrow(k, |Panels()|);
    }
  }

  /** On a converted panel, ids that all lie in native panel k become ids that all lie in super-pixel panel k. */
  lemma ConvertKeepsPanels(src: NexusImage, q: nat, k: int)
    requires q < |Panels()| && Convert(src).failure.None?
    requires var ids := src.eventIds[EventIdPath(Panels()[q])];
      forall n :: 0 <= n < |ids| ==> k * NNat <= ids[n] < (k + 1) * NNat
    ensures var ids := Convert(src).image.eventIds[EventIdPath(Panels()[q])];
      && |ids| == |src.eventIds[EventIdPath(Panels()[q])]|
      && forall n :: 0 <= n < |ids| ==> k * 1024 <= ids[n] < (k + 1) * 1024
  {
    ConvertSucceeds(src);
    ConvertRelabels(src);
    var path := EventIdPath(Panels()[q]);
    SuperIdsWithinPanel(src.eventIds[path], k, SumNeigh, SumNeigh);
  }

  lemma {:induction false} PanelPathsGrow(n: nat, m: nat)
    requires n <= m <= |Panels()|
    ensures PanelPaths(n) <= PanelPaths(m)
    decreases m - n
  {
    if n < m {
      PanelPathsGrow(n, m - 1);
    }
  }

  /** The open destination file (`h5obj`), mutated dataset by dataset. */
  class DataFile {
    var eventIds: map<string, seq<int>>
    var instrumentXml: Option<string>

    function Image(): NexusImage
      reads this
    {
      NexusImage(eventIds, instrumentXml)
    }

    constructor Open(image: NexusImage)
      ensures Image() == image
    {
      eventIds := image.eventIds;
      instrumentXml := image.instrumentXml;
    }

    /**
     * Step 2 of `makeLite`: each panel's event-id array, in panel order, is
     * overwritten by its super-pixel ids; a missing dataset stops the loop.
     */
    method RelabelPixelIds() returns (missing: Option<string>)
      modifies this
      ensures instrumentXml == old(instrumentXml)
      ensures var k := PresentPrefix(old(eventIds));
        && eventIds == Relabelled(old(eventIds), PanelPaths(k))
        && missing == (if k < |Panels()| then Some(Panels()[k]) else None)
    {
      var detpanel := PanelNames();
      ghost var original := eventIds;
      for n := 0 to |detpanel|
        invariant eventIds == Relabelled(original, PanelPaths(n))
        invariant forall q :: 0 <= q < n ==> EventIdPath(detpanel[q]) in original
        invariant instrumentXml == old(instrumentXml)
      {
        var path := EventIdPath(detpanel[n]);
        RelabelPresence(original, eventIds, n);
        if path !in eventIds {
          PresentFromExact(original, 0, n);
          return Some(detpanel[n]);
        }
        RelabelStep(original, eventIds, n);
        var superEventIds := SuperIds(eventIds[path], SumNeigh, SumNeigh);
        eventIds := eventIds[path := superEventIds];
      }
      PresentFromExact(original, 0, |detpanel|);
      return None;
    }

    /** Step 3 of `makeLite`: the instrument definition is replaced by its rewrite. */
    method UpdateInstrumentDefinition() returns (failure: Option<LiteFailure>)
      modifies this
      ensures eventIds == old(eventIds)
      ensures old(instrumentXml).None? ==> failure == Some(IdfMissing) && instrumentXml == old(instrumentXml)
      ensures old(instrumentXml).Some? ==>
        match RewriteIdf(old(instrumentXml).value)
        case Ok(newText) => failure == None && instrumentXml == Some(newText)
        case Err(e) => failure == Some(IdfUnreadable(e)) && instrumentXml == old(instrumentXml)
    {
      if instrumentXml.None? {
        return Some(IdfMissing);
      }
      var newXmlString := RewriteInstrumentText(instrumentXml.value);
      if newXmlString.Err? {
        return Some(IdfUnreadable(newXmlString.error));
      }
      instrumentXml := Some(newXmlString.value);
      return None;
    }
  }

  /** The files the conversion can see, by path. */
  class FileStore {
    var files: map<string, NexusImage>

    constructor (files: map<string, NexusImage>)
      ensures this.files == files
    {
      this.files := files;
    }

    /**
     * `makeLite(inFileName, outFileName)`: nothing happens when the destination
     * exists; otherwise the source is copied and the copy converted. The
     * writes made before a failure stay in the destination.
     */
    method MakeLite(inFileName: string, outFileName: string) returns (outcome: LiteOutcome)
      modifies this
      ensures outFileName in old(files) ==> outcome == AlreadyExists && files == old(files)
      ensures outFileName !in old(files) && inFileName !in old(files) ==>
        outcome == SourceMissing && files == old(files)
      ensures outFileName !in old(files) && inFileName in old(files) ==>
        var c := Convert(old(files)[inFileName]);
        && files == old(files)[outFileName := c.image]
        && outcome == (if c.failure.None? then Built(outFileName) else Failed(c.failure.value))
      ensures outcome != SourceMissing ==> outFileName in files
    {
      if outFileName in files {
        return AlreadyExists;
      }
      if inFileName !in files {
        return SourceMissing;
      }
      var failure := CopyAndConvert(files[inFileName], outFileName);
      if failure.Some? {
        return Failed(failure.value);
      }
      return Built(outFileName);
    }

    /** The copy to `outFileName` followed by the three conversion steps on the open copy. */
    method CopyAndConvert(src: NexusImage, outFileName: string) returns (failure: Option<LiteFailure>)
      modifies this
      ensures files == old(files)[outFileName := Convert(src).image]
      ensures failure == Convert(src).failure
    {
      ghost var c := Convert(src);
      ConvertUnfold(src);
      var h5obj := new DataFile.Open(src);
      var missing := h5obj.RelabelPixelIds();
      if missing.Some? {
        assert h5obj.Image() == c.image && c.failure == Some(PanelMissing(missing.value));
        files := files[outFileName := h5obj.Image()];
        return Some(PanelMissing(missing.value));
      }
      failure := h5obj.UpdateInstrumentDefinition();
      assert h5obj.Image() == c.image && failure == c.failure;
      files := files[outFileName := h5obj.Image()];
    }
  }
}
