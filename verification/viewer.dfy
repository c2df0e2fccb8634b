/** The session of the IFC / fragment viewer: the `state` record, the page
    elements that reflect it, the set of models the fragments runtime holds,
    and the handlers that load a dropped or picked file.

    Every call into the 3D-components library is replaced by an abstract
    outcome (it returns a value or it throws), supplied by the caller in an
    `Outcomes` record. A handler runs to completion as one step; an exception
    stops it where it is thrown and leaves every write made so far in place,
    exactly as an `await` that rejects does. */
module Viewer {
  import opened Text

  type Bytes = seq<bv8>

  /** Identifier of a model held by the fragments runtime. The source derives
      ids from the clock; here every load takes the next unused number. */
  type ModelId = nat

  datatype Option<T> = None | Some(value: T)

  /** A file from the picker or a drop; its bytes come from `arrayBuffer()`. */
  datatype File = File(name: string)

  /** The `state` record: the fragment bytes offered for download, the
      download file name, and the source shown in the statistics cards. */
  datatype State = State(
    fragBuffer: Option<Bytes>,
    downloadName: string,
    sourceName: string,
    sourceType: string)

  /** What the page shows: status line, viewer overlay, statistics cards and
      whether the download button is enabled. */
  datatype View = View(
    statusText: string,
    overlayText: string,
    overlayShown: bool,
    shownSourceName: string,
    shownSourceType: string,
    fragStatus: string,
    fragHint: string,
    downloadEnabled: bool)

  /** `resident` is the key set of `fragments.list`; `nextId` is the first id
      no load has used yet. */
  datatype Session = Session(state: State, view: View, resident: set<ModelId>, nextId: ModelId)

  /** The outcome of one awaited library call. */
  datatype Call<T> = Returns(value: T) | Throws

  /** The outcome of the dispose loop in `clearModels`: every resident model is
      disposed, or one `disposeModel` throws after the ones in `disposedBefore`
      were disposed; the model whose disposal threw stays resident. */
  datatype ClearOutcome = AllDisposed | DisposeThrows(disposedBefore: set<ModelId>)

  /** What each library call does during one handler run. */
  datatype Outcomes = Outcomes(
    clear: ClearOutcome,       // fragments.core.disposeModel in clearModels
    setup: Call<()>,           // ifcLoader.setup in ensureIfcLoader
    read: Call<Bytes>,         // file.arrayBuffer()
    ifcLoad: Call<()>,         // ifcLoader.load
    getBuffer: Call<Bytes>,    // model.getBuffer()
    disposeIfc: Call<()>,      // fragments.core.disposeModel of the IFC model
    fragLoad: Call<()>)        // fragments.core.load

  /** A handler that ran to its end, or one stopped by an exception. */
  datatype Run = Completed(after: Session) | Threw(after: Session) {
    predicate IsFailure() {
      Threw?
    }

    function PropagateFailure(): Run
      requires Threw?
    {
      this
    }

    function Extract(): Session
      requires Completed?
    {
      after
    }
  }

  datatype FileKind = FragFile | IfcFile | UnknownFile

  /** A download handed to the browser: the bytes and the file name. */
  datatype Download = Download(bytes: Bytes, name: string)

  const DefaultDownloadName := "model.frag"
  const Unset := "-"
  const FragSourceType := "Fragment (.frag)"
  const IfcSourceType := "IFC (.ifc)"

  const StatusIdle := "Nog geen bestand geladen."
  const StatusFragLoading := "Fragment wordt geladen."
  const StatusFragLoaded := "Fragment geladen."
  const StatusIfcLoading := "IFC wordt geladen."
  const StatusIfcNoConvert := "IFC geladen. Auto-conversie uitgeschakeld."
  const StatusIfcConverting := "IFC geladen. Converteren naar fragments op de achtergrond..."
  const StatusIfcConverted := "IFC omgezet naar fragments en geladen."
  const StatusUnknownType := "Onbekend bestandstype. Gebruik .ifc of .frag."
  const StatusFailed := "Er ging iets mis bij het laden van het bestand."

  const OverlayWaiting := "Wachten op bestand..."
  const OverlayFragLoading := "Fragment laden..."
  const OverlayFragLoaded := "Fragment geladen"
  const OverlayIfcLoading := "IFC laden..."
  const OverlayIfcLoaded := "IFC geladen"
  const OverlayConverting := "Converteer IFC naar fragments..."
  const OverlayConverted := "Fragments geladen"
  const OverlayFailed := "Laden mislukt"

  const FragReady := "Fragment klaar"
  const FragReadyHint := "Je kunt de .frag downloaden of herladen."
  const FragMissing := "Nog niet beschikbaar"
  const FragMissingHint := "Laad een IFC om te converteren."

  /** The statistics cards and the download button show `s.state`: this is
      what `updateStats` establishes. */
  predicate StatsCurrent(s: Session) {
    && CardsCurrent(s)
    && (s.view.downloadEnabled <==> s.state.fragBuffer.Some?)
  }

  /** The source cards show the recorded source, and the fragment card agrees
      with the download button. */
  predicate CardsCurrent(s: Session) {
    && s.view.shownSourceName == s.state.sourceName
    && s.view.shownSourceType == s.state.sourceType
    && FragCardAgrees(s.view)
  }

  /** The fragment card texts go with the download button. */
  predicate FragCardAgrees(v: View) {
    if v.downloadEnabled then v.fragStatus == FragReady && v.fragHint == FragReadyHint
    else v.fragStatus == FragMissing && v.fragHint == FragMissingHint
  }

  /** Two page states whose cards and download button read the same. */
  predicate SameCards(a: View, b: View) {
    && a.shownSourceName == b.shownSourceName
    && a.shownSourceType == b.shownSourceType
    && a.fragStatus == b.fragStatus
    && a.fragHint == b.fragHint
    && a.downloadEnabled == b.downloadEnabled
  }

  /** `setOverlay`: the overlay shows `text`, and is visible exactly while busy. */
  function SetOverlay(s: Session, text: string, busy: bool): (r: Session)
    ensures r.view.overlayText == text && (r.view.overlayShown <==> busy)
    ensures r.view.(overlayText := s.view.overlayText, overlayShown := s.view.overlayShown) == s.view
    ensures r.state == s.state && r.resident == s.resident && r.nextId == s.nextId
  {
    s.(view := s.view.(overlayText := text, overlayShown := busy))
  }

  /** `setStatus`: the status line shows `text`; nothing else changes. */
  function SetStatus(s: Session, text: string): (r: Session)
    ensures r.view.statusText == text
    ensures r.view.(statusText := s.view.statusText) == s.view
    ensures r.state == s.state && r.resident == s.resident && r.nextId == s.nextId
  {
    s.(view := s.view.(statusText := text))
  }

  /** `updateStats`: copies the source name and type to the cards and derives
      the fragment card and the download button from the buffer. */
  function UpdateStats(s: Session): (r: Session)
    ensures StatsCurrent(r)
    ensures r.view.downloadEnabled <==> s.state.fragBuffer.Some?
    ensures r.state == s.state && r.resident == s.resident && r.nextId == s.nextId
    ensures r.view.statusText == s.view.statusText
    ensures r.view.overlayText == s.view.overlayText && r.view.overlayShown == s.view.overlayShown
  {
    var ready := s.state.fragBuffer.Some?;
    s.(view := s.view.(
      shownSourceName := s.state.sourceName,
      shownSourceType := s.state.sourceType,
      fragStatus := if ready then FragReady else FragMissing,
      fragHint := if ready then FragReadyHint else FragMissingHint,
      downloadEnabled := ready))
  }

  /** The page right after start-up: the markup's initial texts, the waiting
      overlay, and one `updateStats`. */
  function Init(): (s: Session)
    ensures s.state == State(None, DefaultDownloadName, Unset, Unset)
    ensures s.resident == {} && !s.view.downloadEnabled
    ensures StatsCurrent(s)
  {
    var page := View(StatusIdle, OverlayWaiting, true, Unset, Unset, FragMissing, FragMissingHint, false);
    var s0 := Session(State(None, DefaultDownloadName, Unset, Unset), page, {}, 0);
    UpdateStats(SetOverlay(s0, OverlayWaiting, true))
  }

  /** Dispatch on the lower-cased name: `.frag` is checked before `.ifc`. */
  function Classify(name: string): (k: FileKind)
    ensures k == FragFile <==> EndsWith(ToLower(name), ".frag")
    ensures k == IfcFile <==> EndsWith(ToLower(name), ".ifc")
    ensures k == UnknownFile <==> !EndsWith(ToLower(name), ".frag") && !EndsWith(ToLower(name), ".ifc")
  {
    FragAndIfcSuffixesExclusive(ToLower(name));
    var lower := ToLower(name);
    if EndsWith(lower, ".frag") then FragFile
    else if EndsWith(lower, ".ifc") then IfcFile
    else UnknownFile
  }

  /** Whether the dispose loop of `clearModels` runs to its end. It can only
      throw while some resident model is still to be disposed, so with nothing
      resident, or everything disposed before the throw, it completes. */
  predicate ClearSucceeds(resident: set<ModelId>, c: ClearOutcome) {
    c.AllDisposed? || resident <= c.disposedBefore
  }

  /** `clearModels`: disposes every resident model, then empties the buffer,
      restores the default download name and refreshes the statistics. */
  function ClearModels(s: Session, c: ClearOutcome): (r: Run)
    ensures r.Completed? <==> ClearSucceeds(s.resident, c)
    ensures r.Completed? ==>
      && r.after.resident == {}
      && r.after.state == s.state.(fragBuffer := None, downloadName := DefaultDownloadName)
      && StatsCurrent(r.after) && !r.after.view.downloadEnabled
      && r.after.view.statusText == s.view.statusText
      && r.after.view.overlayText == s.view.overlayText
      && r.after.view.overlayShown == s.view.overlayShown
    ensures r.Threw? ==>
      && r.after.state == s.state && r.after.view == s.view
      && r.after.resident == s.resident - c.disposedBefore
      && r.after.resident != {}
    ensures r.after.nextId == s.nextId
  {
    if ClearSucceeds(s.resident, c) then
      var emptied := s.(resident := {}, state := s.state.(fragBuffer := None, downloadName := DefaultDownloadName));
      Completed(UpdateStats(emptied))
    else
      var left := s.resident - c.disposedBefore;
      assert left != {} by {
        var id :| id in s.resident && id !in c.disposedBefore;
        assert id in left;
      }
      Threw(s.(resident := left))
  }

  /** A model the fragments runtime has just loaded: it becomes resident under
      the next unused id. */
  function Admit(s: Session): (r: Session)
    ensures s.nextId !in s.resident ==> |r.resident| == |s.resident| + 1
    ensures r.resident - s.resident <= {s.nextId} && s.resident <= r.resident
    ensures r.nextId > s.nextId && s.nextId in r.resident
    ensures r.state == s.state && r.view == s.view
  {
    s.(resident := s.resident + {s.nextId}, nextId := s.nextId + 1)
  }

  /** `loadFragBuffer`: `fragments.core.load` under a fresh id. */
  function LoadFragBuffer(s: Session, c: Call<()>): (r: Run)
    ensures r.Completed? <==> c.Returns?
    ensures r.Completed? ==> r.after == Admit(s)
    ensures r.Threw? ==> r.after == s
  {
    if c.Throws? then Threw(s) else Completed(Admit(s))
  }

  /** `fragments.core.disposeModel(id)`. */
  function DisposeModel(s: Session, id: ModelId, c: Call<()>): (r: Run)
    ensures r.Completed? <==> c.Returns?
    ensures r.Completed? ==> id !in r.after.resident && r.after.resident + {id} >= s.resident
    ensures r.after.resident <= s.resident
    ensures r.after.state == s.state && r.after.view == s.view && r.after.nextId == s.nextId
  {
    if c.Throws? then Threw(s) else Completed(s.(resident := s.resident - {id}))
  }

  /** The resident models after a handler are either some of the ones before
      it, or at most one, and every id is below the next unused one. */
  predicate ResidentEvolves(s: Session, r: Session) {
    && r.nextId >= s.nextId
    && (forall id :: id in r.resident ==> id in s.resident || s.nextId <= id < r.nextId)
    && (r.resident <= s.resident || |r.resident| <= 1)
  }

  /** `loadFragFile`: clear, read the bytes, load them, and keep them as the
      download under the file's own name. */
  function LoadFragFile(s: Session, f: File, o: Outcomes): (r: Run)
    ensures r.Completed? <==> ClearSucceeds(s.resident, o.clear) && o.read.Returns? && o.fragLoad.Returns?
    ensures r.Completed? ==>
      && o.read.Returns?
      && r.after.state == State(Some(o.read.value), f.name, f.name, FragSourceType)
      && r.after.resident == {s.nextId}
      && StatsCurrent(r.after) && r.after.view.downloadEnabled
      && r.after.view.statusText == StatusFragLoaded
      && r.after.view.overlayText == OverlayFragLoaded && !r.after.view.overlayShown
    ensures r.Threw? && ClearSucceeds(s.resident, o.clear) ==>
      && r.after.state == s.state.(fragBuffer := None, downloadName := DefaultDownloadName)
      && r.after.resident == {}
      && StatsCurrent(r.after) && !r.after.view.downloadEnabled
    ensures !ClearSucceeds(s.resident, o.clear) ==> r.Threw? && r.after.state == s.state && r.after.view == s.view
    ensures ResidentEvolves(s, r.after)
  {
    var cleared :- ClearModels(s, o.clear);
    var busy := SetStatus(SetOverlay(cleared, OverlayFragLoading, true), StatusFragLoading);
    match o.read
    case Throws => Threw(busy)
    case Returns(buffer) =>
      var loaded :- LoadFragBuffer(busy, o.fragLoad);
      var stored := loaded.(state := loaded.state.(
        sourceName := f.name,
        sourceType := FragSourceType,
        fragBuffer := Some(buffer),
        downloadName := f.name));
      Completed(SetOverlay(SetStatus(UpdateStats(stored), StatusFragLoaded), OverlayFragLoaded, false))
  }

  /** `loadIfcFile`: clear, configure the loader, read and parse the IFC (the
      parsed model becomes resident), record the source, and, when
      auto-conversion is on, export the fragment bytes, rename the download,
      dispose the IFC model and reload the bytes as a fragment model. */
  function LoadIfcFile(s: Session, f: File, autoConvert: bool, o: Outcomes): (r: Run)
    ensures r.Completed? <==>
      && ClearSucceeds(s.resident, o.clear) && o.setup.Returns? && o.read.Returns? && o.ifcLoad.Returns?
      && (autoConvert ==> o.getBuffer.Returns? && o.disposeIfc.Returns? && o.fragLoad.Returns?)
    ensures r.Completed? && !autoConvert ==>
      && r.after.state == State(None, DefaultDownloadName, f.name, IfcSourceType)
      && r.after.resident == {s.nextId}
      && StatsCurrent(r.after) && !r.after.view.downloadEnabled
      && r.after.view.statusText == StatusIfcNoConvert
      && r.after.view.overlayText == OverlayIfcLoaded && !r.after.view.overlayShown
    ensures r.Completed? && autoConvert ==>
      && o.getBuffer.Returns?
      && r.after.state == State(Some(o.getBuffer.value), IfcToFragName(f.name), f.name, IfcSourceType)
      && r.after.resident == {s.nextId + 1}
      && StatsCurrent(r.after) && r.after.view.downloadEnabled
      && r.after.view.statusText == StatusIfcConverted
      && r.after.view.overlayText == OverlayConverted && !r.after.view.overlayShown
    ensures !ClearSucceeds(s.resident, o.clear) ==> r.Threw? && r.after.state == s.state && r.after.view == s.view
    ensures ClearSucceeds(s.resident, o.clear) ==> forall id :: id in r.after.resident ==> s.nextId <= id
    ensures ResidentEvolves(s, r.after)
  {
    var cleared :- ClearModels(s, o.clear);
    var described :- ParseIfc(cleared, f, o);
    var ifcId := cleared.nextId;
    assert described.resident == {ifcId};
    if !autoConvert then
      Completed(SetOverlay(SetStatus(described, StatusIfcNoConvert), OverlayIfcLoaded, false))
    else
      var converted := ConvertIfc(described, ifcId, f.name, o);
      assert converted.Completed? ==> converted.after.resident == {ifcId + 1};
      assert converted.Threw? ==> converted.after.resident <= {ifcId};
      converted
  }

  /** The part of `loadIfcFile` between the clear and the auto-conversion
      test: announce the load, configure the loader, read and parse the file
      (the parsed model becomes resident under a fresh id), and record the
      source. */
  function ParseIfc(s: Session, f: File, o: Outcomes): (r: Run)
    ensures r.Completed? <==> o.setup.Returns? && o.read.Returns? && o.ifcLoad.Returns?
    ensures r.Completed? ==>
      && r.after.state == s.state.(sourceName := f.name, sourceType := IfcSourceType)
      && r.after.resident == s.resident + {s.nextId} && r.after.nextId == s.nextId + 1
      && StatsCurrent(r.after)
    ensures r.Threw? ==>
      && r.after.state == s.state && r.after.resident == s.resident && r.after.nextId == s.nextId
      && SameCards(r.after.view, s.view)
  {
    var busy := SetStatus(SetOverlay(s, OverlayIfcLoading, true), StatusIfcLoading);
    if o.setup.Throws? || o.read.Throws? || o.ifcLoad.Throws? then Threw(busy)
    else
      var parsed := Admit(busy);
      Completed(UpdateStats(parsed.(state := parsed.state.(sourceName := f.name, sourceType := IfcSourceType))))
  }

  /** The auto-conversion tail of `loadIfcFile`: announce the conversion,
      export the parsed model `ifcId` to fragment bytes, rename the download,
      dispose the IFC model and reload the bytes as a fragment model. */
  function ConvertIfc(s: Session, ifcId: ModelId, name: string, o: Outcomes): (r: Run)
    ensures r.Completed? <==> o.getBuffer.Returns? && o.disposeIfc.Returns? && o.fragLoad.Returns?
    ensures o.getBuffer.Throws? ==> r.after.state == s.state
    ensures o.getBuffer.Returns? ==>
      r.after.state == s.state.(fragBuffer := Some(o.getBuffer.value), downloadName := IfcToFragName(name))
    ensures r.Completed? ==>
      && r.after.resident == s.resident - {ifcId} + {s.nextId}
      && StatsCurrent(r.after) && r.after.view.downloadEnabled
      && r.after.view.statusText == StatusIfcConverted
      && r.after.view.overlayText == OverlayConverted && !r.after.view.overlayShown
    ensures r.Threw? ==> SameCards(r.after.view, s.view) && r.after.resident <= s.resident
    ensures s.nextId <= r.after.nextId <= s.nextId + 1
  {
    var converting := SetOverlay(SetStatus(s, StatusIfcConverting), OverlayConverting, true);
    match o.getBuffer
    case Throws => Threw(converting)
    case Returns(fragBuffer) =>
      var exported := converting.(state := converting.state.(
        fragBuffer := Some(fragBuffer),
        downloadName := IfcToFragName(name)));
      var disposed :- DisposeModel(exported, ifcId, o.disposeIfc);
      var reloaded :- LoadFragBuffer(disposed, o.fragLoad);
      Completed(SetOverlay(SetStatus(UpdateStats(reloaded), StatusIfcConverted), OverlayConverted, false))
  }

  /** The `try` block of `handleFile` for a file that is present. An unknown
      extension only sets the status line. */
  function Dispatch(s: Session, f: File, autoConvert: bool, o: Outcomes): (r: Run)
    ensures Classify(f.name) == UnknownFile ==> r.Completed?
    ensures ResidentEvolves(s, r.after)
  {
    match Classify(f.name)
    case FragFile => LoadFragFile(s, f, o)
    case IfcFile => LoadIfcFile(s, f, autoConvert, o)
    case UnknownFile => Completed(SetStatus(s, StatusUnknownType))
  }

  /** `handleFile`: nothing without a file; otherwise dispatch, and report any
      exception with the generic failure status and a hidden overlay. */
  function HandleFile(s: Session, file: Option<File>, autoConvert: bool, o: Outcomes): (r: Session)
    ensures file.None? ==> r == s
    ensures file.Some? && Dispatch(s, file.value, autoConvert, o).Threw? ==>
      && r.view.statusText == StatusFailed
      && r.view.overlayText == OverlayFailed && !r.view.overlayShown
    ensures file.Some? ==>
      && r.state == Dispatch(s, file.value, autoConvert, o).after.state
      && r.resident == Dispatch(s, file.value, autoConvert, o).after.resident
      && SameCards(r.view, Dispatch(s, file.value, autoConvert, o).after.view)
    ensures ResidentEvolves(s, r)
  {
    match file
    case None => s
    case Some(f) =>
      match Dispatch(s, f, autoConvert, o)
      case Completed(done) => done
      case Threw(failed) => SetOverlay(SetStatus(failed, StatusFailed), OverlayFailed, false)
  }

  /** `downloadFrag`: nothing without a buffer; otherwise the stored bytes
      under the current download name. The session is not changed. */
  function DownloadFrag(s: Session): (r: Option<Download>)
    ensures r.None? <==> s.state.fragBuffer.None?
    ensures r.Some? ==> r.value.bytes == s.state.fragBuffer.value && r.value.name == s.state.downloadName
  {
    match s.state.fragBuffer
    case None => None
    case Some(bytes) => Some(Download(bytes, s.state.downloadName))
  }
}
