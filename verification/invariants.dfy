/** Facts about every session the page can reach: start from `Init` and feed
    `handleFile` any sequence of picked or dropped files with any library
    outcomes. `downloadFrag` and the camera reset do not change the session,
    so they need no place in the sequence. */
module SessionInvariants {
  import opened Text
  import opened Viewer
  import opened ViewerProperties

  /** One file-picker change or drop: the first file, if any, the state of the
      auto-convert checkbox, and what the library calls do. */
  datatype Pick = Pick(file: Option<File>, autoConvert: bool, outcomes: Outcomes)

  /** The session after handling `picks` in order. The id counter never goes
      back, and every model resident at the end that was not resident at the
      start got its id from the counter during the replay, so no new model
      takes the id of one still resident. */
  function Replay(s: Session, picks: seq<Pick>): (r: Session)
    ensures r.nextId >= s.nextId
    ensures forall id :: id in r.resident && id !in s.resident ==> s.nextId <= id < r.nextId
    decreases |picks|
  {
    if picks == [] then s
    else
      var p := picks[0];
      Replay(HandleFile(s, p.file, p.autoConvert, p.outcomes), picks[1..])
  }

  /** What holds of every reachable session. */
  predicate Inv(s: Session) {
    // resident ids were issued earlier, so a new load never reuses one
    && (forall id :: id in s.resident ==> id < s.nextId)
    // at most one model is resident
    && |s.resident| <= 1
    && PageInv(s)
  }

  /** The part of the invariant about the state record and the page. */
  predicate PageInv(s: Session) {
    // without a buffer the download name is the default
    && (s.state.fragBuffer.None? ==> s.state.downloadName == DefaultDownloadName)
    // an enabled button always has bytes behind it
    && (s.view.downloadEnabled ==> s.state.fragBuffer.Some?)
    // the download name is one the dispatch sends down the fragment path
    && Classify(s.state.downloadName) == FragFile
    && CardsCurrent(s)
  }

  lemma DefaultNameIsFrag()
    ensures Classify(DefaultDownloadName) == FragFile
  {
    assert ToLower("model.frag") == "model.frag";
    assert "model.frag"[5..] == ".frag";
  }

  lemma InitSatisfiesInv()
    ensures Inv(Init())
  {
    DefaultNameIsFrag();
  }

  /** A subset of a set with at most one element has at most one element. */
  lemma SubsetOfSingleton<T>(a: set<T>, b: set<T>)
    requires a <= b && |b| <= 1
    ensures |a| <= 1
  {
    if a != {} {
      var x :| x in a;
      assert |b - {x}| == |b| - 1;
      assert b - {x} == {};
      assert a == {x};
    }
  }

  /** The models resident after one `handleFile` keep the invariant's shape. */
  lemma StepKeepsResident(s: Session, r: Session)
    requires Inv(s) && ResidentEvolves(s, r)
    ensures forall id :: id in r.resident ==> id < r.nextId
    ensures |r.resident| <= 1
  {
    if r.resident <= s.resident {
      SubsetOfSingleton(r.resident, s.resident);
    }
  }

  /** The fragment path keeps the page part of the invariant. */
  lemma FragLoadKeepsPage(s: Session, f: File, o: Outcomes)
    requires PageInv(s) && Classify(f.name) == FragFile
    ensures PageInv(LoadFragFile(s, f, o).after)
  {
    DefaultNameIsFrag();
  }

  /** The IFC path keeps the page part of the invariant, failures included. */
  lemma IfcLoadKeepsPage(s: Session, f: File, autoConvert: bool, o: Outcomes)
    requires PageInv(s) && Classify(f.name) == IfcFile
    ensures PageInv(LoadIfcFile(s, f, autoConvert, o).after)
  {
    DefaultNameIsFrag();
    IfcDownloadNameIsFrag(f.name);
    var run := LoadIfcFile(s, f, autoConvert, o);
    if ClearSucceeds(s.resident, o.clear) && run.Threw? {
      IfcFailureAfterClear(s, f, autoConvert, o);
      assert Dispatch(s, f, autoConvert, o) == run;
    }
  }

  /** `handleFile`'s `catch` writes only the status and the overlay, so the
      page part of the invariant is the dispatched run's. */
  lemma HandleFileKeepsPage(s: Session, f: File, autoConvert: bool, o: Outcomes)
    requires PageInv(Dispatch(s, f, autoConvert, o).after)
    ensures PageInv(HandleFile(s, Some(f), autoConvert, o))
  {
  }

  /** `handleFile` keeps the invariant on every path, failures included. */
  lemma StepPreservesInv(s: Session, p: Pick)
    requires Inv(s)
    ensures Inv(HandleFile(s, p.file, p.autoConvert, p.outcomes))
  {
    var r := HandleFile(s, p.file, p.autoConvert, p.outcomes);
    StepKeepsResident(s, r);
    if p.file.Some? {
      var f := p.file.value;
      var o := p.outcomes;
      match Classify(f.name) {
        case FragFile => FragLoadKeepsPage(s, f, o);
        case IfcFile => IfcLoadKeepsPage(s, f, p.autoConvert, o);
        case UnknownFile =>
      }
      HandleFileKeepsPage(s, f, p.autoConvert, o);
    }
  }

  lemma {:induction false} ReplayPreservesInv(s: Session, picks: seq<Pick>)
    requires Inv(s)
    ensures Inv(Replay(s, picks))
    decreases |picks|
  {
    if picks != [] {
      var p := picks[0];
      StepPreservesInv(s, p);
      ReplayPreservesInv(HandleFile(s, p.file, p.autoConvert, p.outcomes), picks[1..]);
    }
  }

  /** Whatever files are picked and whatever the library does: at most one
      model is ever resident, the enabled download button always hands out
      bytes, and the offered name is always a `.frag` name. */
  lemma ReachableSessions(picks: seq<Pick>)
    ensures var r := Replay(Init(), picks);
      && |r.resident| <= 1
      && (r.view.downloadEnabled ==> DownloadFrag(r).Some?)
      && (DownloadFrag(r).Some? ==> Classify(DownloadFrag(r).value.name) == FragFile)
      && (DownloadFrag(r).None? ==> r.state.downloadName == DefaultDownloadName)
  {
    InitSatisfiesInv();
    ReplayPreservesInv(Init(), picks);
  }
}
