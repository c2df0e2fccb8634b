/** What one `handleFile` call does to the session, path by path: the missing
    file, the unknown extension, the fragment path, the IFC path with and
    without auto-conversion, and the failures of each. */
module ViewerProperties {
  import opened Text
  import opened Viewer

  /** An unrecognised extension sets the status line and nothing else: no
      clear, no load, the buffer, names, cards and resident models untouched. */
  lemma UnknownExtensionOnlySetsStatus(s: Session, f: File, autoConvert: bool, o: Outcomes)
    requires !EndsWith(ToLower(f.name), ".frag") && !EndsWith(ToLower(f.name), ".ifc")
    ensures HandleFile(s, Some(f), autoConvert, o) == s.(view := s.view.(statusText := StatusUnknownType))
  {
  }

  /** The first test wins: a name such as `X.FRAG` goes down the fragment path
      even though it is upper case. */
  lemma UpperCaseFragExample()
    ensures Classify("X.FRAG") == FragFile
  {
    var name := "X.FRAG";
    var lower := ToLower(name);
    assert lower[1] == '.' && lower[2] == 'f' && lower[3] == 'r' && lower[4] == 'a' && lower[5] == 'g';
    assert lower[1..] == ".frag";
  }

  /** `Tower.IFC` goes down the IFC path and `notes.txt` is rejected. */
  lemma IfcAndUnknownExamples()
    ensures Classify("Tower.IFC") == IfcFile
    ensures Classify("notes.txt") == UnknownFile
  {
    var tower, notes := "Tower.IFC", "notes.txt";
    assert tower[5] == '.' && tower[6] == 'I' && tower[7] == 'F' && tower[8] == 'C';
    assert MatchesIfcSuffix(tower);
    IfcDispatchMatchesRegex(tower);
    assert ToLower(notes)[8] == LowerChar(notes[8]) == 't';
  }

  /** A successful `.frag` load keeps exactly the bytes read, under the file's
      own name with its case, so the download hands back the upload; the one
      model now resident is fresh. */
  lemma FragUploadRoundTrip(s: Session, f: File, bytes: Bytes, autoConvert: bool, o: Outcomes)
    requires Classify(f.name) == FragFile
    requires ClearSucceeds(s.resident, o.clear) && o.read == Returns(bytes) && o.fragLoad.Returns?
    ensures var r := HandleFile(s, Some(f), autoConvert, o);
      && DownloadFrag(r) == Some(Download(bytes, f.name))
      && r.state.sourceType == FragSourceType && r.state.sourceName == f.name
      && r.view.downloadEnabled
      && |r.resident| == 1 && s.nextId in r.resident
  {
  }

  /** The IFC path always renames: a name sent down it by the dispatch ends in
      `.ifc` up to case, and its download name is the same stem with `.frag`.
      Picking that download again takes the fragment path. */
  lemma {:induction false} IfcDownloadNameIsFrag(name: string)
    requires Classify(name) == IfcFile
    ensures MatchesIfcSuffix(name)
    ensures IfcToFragName(name) == name[..|name| - 4] + ".frag"
    ensures Classify(IfcToFragName(name)) == FragFile
  {
    IfcDispatchMatchesRegex(name);
    FragSuffixLowered(IfcToFragName(name));
  }

  /** A successful IFC load with auto-conversion offers the exported fragment
      bytes under the renamed file name; the IFC model is gone and exactly one
      fresh fragment model is resident. */
  lemma IfcConvertedDownload(s: Session, f: File, fragBytes: Bytes, o: Outcomes)
    requires Classify(f.name) == IfcFile
    requires ClearSucceeds(s.resident, o.clear) && o.setup.Returns? && o.read.Returns? && o.ifcLoad.Returns?
    requires o.getBuffer == Returns(fragBytes) && o.disposeIfc.Returns? && o.fragLoad.Returns?
    ensures var r := HandleFile(s, Some(f), true, o);
      && DownloadFrag(r) == Some(Download(fragBytes, f.name[..|f.name| - 4] + ".frag"))
      && r.state.sourceName == f.name && r.state.sourceType == IfcSourceType
      && r.view.downloadEnabled
      && s.nextId !in r.resident && |r.resident| == 1
  {
    IfcDownloadNameIsFrag(f.name);
    assert Dispatch(s, f, true, o).Completed?;
  }

  /** `Tower.IFC`, converted, downloads as `Tower.frag`. */
  lemma TowerExample(s: Session, fragBytes: Bytes, o: Outcomes)
    requires ClearSucceeds(s.resident, o.clear) && o.setup.Returns? && o.read.Returns? && o.ifcLoad.Returns?
    requires o.getBuffer == Returns(fragBytes) && o.disposeIfc.Returns? && o.fragLoad.Returns?
    ensures DownloadFrag(HandleFile(s, Some(File("Tower.IFC")), true, o)) == Some(Download(fragBytes, "Tower.frag"))
  {
    var f := File("Tower.IFC");
    IfcAndUnknownExamples();
    RenameExamples();
    IfcDownloadNameIsFrag(f.name);
    IfcConvertedDownload(s, f, fragBytes, o);
  }

  /** With auto-conversion off a parsed IFC records its source but produces no
      fragment: no buffer, the default name, the button disabled, nothing to
      download, and the IFC model itself stays resident. */
  lemma AutoConvertOffKeepsNoBuffer(s: Session, f: File, o: Outcomes)
    requires Classify(f.name) == IfcFile
    requires ClearSucceeds(s.resident, o.clear) && o.setup.Returns? && o.read.Returns? && o.ifcLoad.Returns?
    ensures var r := HandleFile(s, Some(f), false, o);
      && r.state == State(None, DefaultDownloadName, f.name, IfcSourceType)
      && !r.view.downloadEnabled && DownloadFrag(r).None?
      && r.resident == {s.nextId}
  {
  }

  /** A handler that runs to its end leaves the cards and the download button
      showing the state: enabled exactly when a buffer is held. The unknown
      extension path writes only the status, so there it keeps what held before. */
  lemma CompletedRunShowsState(s: Session, f: File, autoConvert: bool, o: Outcomes)
    requires Dispatch(s, f, autoConvert, o).Completed?
    requires Classify(f.name) == UnknownFile ==> StatsCurrent(s)
    ensures StatsCurrent(Dispatch(s, f, autoConvert, o).after)
  {
  }

  /** Every load first clears: when the clear succeeds the earlier models are
      all gone afterwards, whatever else fails, provided their ids were issued
      before this call. */
  lemma LoadReplacesResidentModels(s: Session, f: File, autoConvert: bool, o: Outcomes)
    requires Classify(f.name) != UnknownFile && ClearSucceeds(s.resident, o.clear)
    requires forall id :: id in s.resident ==> id < s.nextId
    ensures HandleFile(s, Some(f), autoConvert, o).resident !! s.resident
  {
    var r := HandleFile(s, Some(f), autoConvert, o);
    forall id | id in r.resident
      ensures id !in s.resident
    {
      assert s.nextId <= id;
    }
  }

  /** A failing `.frag` load after a successful clear leaves no buffer and the
      default name, not the previous ones, and the page reports the failure. */
  lemma FragFailureAfterClear(s: Session, f: File, autoConvert: bool, o: Outcomes)
    requires Classify(f.name) == FragFile
    requires ClearSucceeds(s.resident, o.clear) && (o.read.Throws? || o.fragLoad.Throws?)
    ensures var r := HandleFile(s, Some(f), autoConvert, o);
      && r.state == s.state.(fragBuffer := None, downloadName := DefaultDownloadName)
      && !r.view.downloadEnabled && DownloadFrag(r).None? && r.resident == {}
      && r.view.statusText == StatusFailed && !r.view.overlayShown
  {
  }

  /** A failing clear stops the handler before anything else: buffer, names
      and cards stay as they were; only the models disposed so far are gone. */
  lemma ClearFailureKeepsState(s: Session, f: File, autoConvert: bool, o: Outcomes)
    requires Classify(f.name) != UnknownFile && !ClearSucceeds(s.resident, o.clear)
    ensures var r := HandleFile(s, Some(f), autoConvert, o);
      && r.state == s.state
      && r.view == s.view.(statusText := StatusFailed, overlayText := OverlayFailed, overlayShown := false)
      && r.resident == s.resident - o.clear.disposedBefore
  {
  }

  /** The IFC path's failures after a successful clear, by where they happen.
      Before `getBuffer` returns there is no buffer. Once it has returned, a
      failing dispose or reload leaves the exported bytes and the renamed
      download name stored while the button is still disabled from the
      `updateStats` after parsing: the button agrees with the buffer only on
      runs that complete. */
  lemma IfcFailureAfterClear(s: Session, f: File, autoConvert: bool, o: Outcomes)
    requires Classify(f.name) == IfcFile && ClearSucceeds(s.resident, o.clear)
    requires LoadIfcFile(s, f, autoConvert, o).Threw?
    ensures var r := HandleFile(s, Some(f), autoConvert, o);
      && r.view.statusText == StatusFailed && !r.view.overlayShown
      && CardsCurrent(r) && !r.view.downloadEnabled
      && (o.setup.Throws? || o.read.Throws? || o.ifcLoad.Throws? ==>
            r.state == s.state.(fragBuffer := None, downloadName := DefaultDownloadName) && r.resident == {})
      && (o.setup.Returns? && o.read.Returns? && o.ifcLoad.Returns? && o.getBuffer.Throws? ==>
            r.state == State(None, DefaultDownloadName, f.name, IfcSourceType) && r.resident == {s.nextId})
      && (o.setup.Returns? && o.read.Returns? && o.ifcLoad.Returns? && o.getBuffer.Returns? ==>
            r.state == State(Some(o.getBuffer.value), IfcToFragName(f.name), f.name, IfcSourceType)
            && r.resident <= {s.nextId})
  {
  }

  /** A concrete run where the reload after conversion throws: the session
      then holds a buffer that `downloadFrag` would hand out, while the
      download button is disabled. */
  lemma StaleButtonAfterReloadFailure()
    ensures var o := Outcomes(AllDisposed, Returns(()), Returns([]), Returns(()), Returns([1]), Returns(()), Throws);
      var r := HandleFile(Init(), Some(File("a.ifc")), true, o);
      && !r.view.downloadEnabled
      && DownloadFrag(r) == Some(Download([1], "a.frag"))
  {
    var o := Outcomes(AllDisposed, Returns(()), Returns([]), Returns(()), Returns([1]), Returns(()), Throws);
    var f := File("a.ifc");
    ShortIfcNameExample();
    assert LoadIfcFile(Init(), f, true, o).Threw?;
    IfcFailureAfterClear(Init(), f, true, o);
  }

  /** The unknown-extension path completes as well, but writes only the status,
      so a stale button from the run above survives it: after a completed run
      the button is not always in step with the buffer. */
  lemma StaleButtonSurvivesUnknownFile()
    ensures var o := Outcomes(AllDisposed, Returns(()), Returns([]), Returns(()), Returns([1]), Returns(()), Throws);
      var first := HandleFile(Init(), Some(File("a.ifc")), true, o);
      && Dispatch(first, File("notes.txt"), true, o).Completed?
      && var second := HandleFile(first, Some(File("notes.txt")), true, o);
      && !second.view.downloadEnabled && second.state.fragBuffer.Some?
  {
    var o := Outcomes(AllDisposed, Returns(()), Returns([]), Returns(()), Returns([1]), Returns(()), Throws);
    var first := HandleFile(Init(), Some(File("a.ifc")), true, o);
    StaleButtonAfterReloadFailure();
    IfcAndUnknownExamples();
    UnknownExtensionOnlySetsStatus(first, File("notes.txt"), true, o);
  }

  lemma ShortIfcNameExample()
    ensures Classify("a.ifc") == IfcFile
    ensures IfcToFragName("a.ifc") == "a.frag"
  {
    assert ToLower("a.ifc") == "a.ifc";
    assert "a.ifc"[1..] == ".ifc";
    assert MatchesIfcSuffix("a.ifc");
    assert "a.ifc"[..1] == "a";
  }

  /** Loading does not keep an earlier buffer when the new parse fails: the
      clear at the start of the IFC path has already discarded it. */
  lemma FailedParseDiscardsPreviousBuffer(s: Session, f: File, autoConvert: bool, o: Outcomes)
    requires s.state.fragBuffer.Some?
    requires Classify(f.name) == IfcFile
    requires ClearSucceeds(s.resident, o.clear) && o.setup.Returns? && o.read.Returns? && o.ifcLoad.Throws?
    ensures var r := HandleFile(s, Some(f), autoConvert, o);
      && r.state.fragBuffer.None? && r.state.downloadName == DefaultDownloadName
      && DownloadFrag(r).None?
  {
  }
}
