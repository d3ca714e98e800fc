/**
 * `stateFromRunFunction`: find a run's NeXus file, read the five instrument
 * logs that fix the instrument state, and either hand them to the state-id
 * generator or report which of them are missing. The Mantid IPTS lookup, the
 * file system and the state-id hash are collaborators given as parameters.
 */
module RunState {
  import opened Wrappers
  import opened PyInt

  /** The instrument-configuration attributes the function reads. */
  datatype InstConfig = InstConfig(name: string, nexusDirectory: string, nexusFileExtension: string)

  /** An entry of `errorState['parameters']`: a run number or a string. */
  datatype ErrorParam = RunNumber(run: int) | Text(text: string)

  /** The `errorState` dictionary: its value, function, message and parameters entries. */
  datatype ErrorState = ErrorState(value: int, functionName: string, message: string, parameters: seq<ErrorParam>)

  /** A NeXus file as seen by the function: dataset path to its values. */
  type NexusLogs = map<string, seq<real>>

  /** The state id returned whenever the state cannot be determined. */
  const NoState: string := "00000-00"

  const FunctionName: string := "StateFromRunFunction"

  /** The five state logs, named by their `stateDict` key. */
  datatype StateLog = DetArc1 | DetArc2 | Wav | Freq | GuideStat

  /** The log's key in `stateDict` and in the missing-log list. */
  function Key(log: StateLog): string {
    match log
    case DetArc1 => "det_arc1"
    case DetArc2 => "det_arc2"
    case Wav => "wav"
    case Freq => "freq"
    case GuideStat => "GuideStat"
  }

  /** The log's dataset path in the NeXus file. */
  function Path(log: StateLog): string {
    match log
    case DetArc1 => "entry/DASlogs/det_arc1/value"
    case DetArc2 => "entry/DASlogs/det_arc2/value"
    case Wav => "entry/DASlogs/BL3:Chop:Skf1:WavelengthUserReq/value"
    case Freq => "entry/DASlogs/BL3:Det:TH:BL:Frequency/value"
    case GuideStat => "entry/DASlogs/BL3:Mot:OpticsPos:Pos/value"
  }

  /** Position of a log in the order the function reads them; distinct logs have distinct positions. */
  function Rank(log: StateLog): (r: nat)
    ensures r < 5
  {
    match log
    case DetArc1 => 0
    case DetArc2 => 1
    case Wav => 2
    case Freq => 3
    case GuideStat => 4
  }

  /** Distinct logs have distinct keys and distinct dataset paths. */
  lemma KeysAndPathsDistinct(a: StateLog, b: StateLog)
    requires a != b
    ensures Key(a) != Key(b) && Path(a) != Path(b)
  {
    var ka, kb, pa, pb := Key(a), Key(b), Path(a), Path(b);
    if |ka| == |kb| {
      assert ka[0] != kb[0] || ka[|ka| - 1] != kb[|kb| - 1];
    }
    if |pa| == |pb| {
      assert pa[|pa| - 7] != pb[|pb| - 7];
    }
  }

  /** The run's NeXus file name: IPTS directory, NeXus sub-directory, `SNAP_<run>` and the extension. */
  function NexusFileName(ipts: string, inst: InstConfig, runNum: int): string {
    ipts + inst.nexusDirectory + "/SNAP_" + IntToString(runNum) + inst.nexusFileExtension
  }

  /** Distinct runs in the same IPTS and configuration have distinct NeXus files. */
  lemma NexusFileNameInjective(ipts: string, inst: InstConfig, a: int, b: int)
    requires NexusFileName(ipts, inst, a) == NexusFileName(ipts, inst, b)
    ensures a == b
  {
    var prefix := ipts + inst.nexusDirectory + "/SNAP_";
    var sa, sb := IntToString(a), IntToString(b);
    var na, nb := NexusFileName(ipts, inst, a), NexusFileName(ipts, inst, b);
    assert na == prefix + sa + inst.nexusFileExtension;
    assert nb == prefix + sb + inst.nexusFileExtension;
    assert |sa| == |sb|;
    assert na[|prefix|..|prefix| + |sa|] == sa;
    assert nb[|prefix|..|prefix| + |sb|] == sb;
    IntToStringInjective(a, b);
  }

  /**
   * `f.get(path)[0]`: the first value of a dataset. An absent dataset (`None`)
   * and an empty one both raise, which the function treats alike.
   */
  function FirstSample(f: NexusLogs, path: string): (v: Option<real>)
    ensures v.Some? <==> path in f && |f[path]| > 0
    ensures v.Some? ==> v.value == f[path][0]
  {
    if path in f && |f[path]| > 0 then Some(f[path][0]) else None
  }

  /** One `try` block's contribution to `missingLogVal`. */
  function MissingIf(f: NexusLogs, log: StateLog): (m: seq<StateLog>)
    ensures m == [] || m == [log]
  {
    if FirstSample(f, Path(log)).None? then [log] else []
  }

  /** `missingLogVal` after the five reads, as logs, in read order. */
  function MissingLogs(f: NexusLogs): seq<StateLog> {
    MissingIf(f, DetArc1) + MissingIf(f, DetArc2) + MissingIf(f, Wav) + MissingIf(f, Freq) + MissingIf(f, GuideStat)
  }

  /** A log is in `missingLogVal` exactly when it cannot be read: every read is tried. */
  lemma MissingLogsIff(f: NexusLogs)
    ensures forall log :: log in MissingLogs(f) <==> FirstSample(f, Path(log)).None?
  {
    forall log ensures log in MissingLogs(f) <==> FirstSample(f, Path(log)).None? {
      assert log in MissingLogs(f) <==> log in MissingIf(f, log);
    }
  }

  /** Strictly increasing read positions: every log at most once, in read order. */
  predicate InReadOrder(m: seq<StateLog>) {
    forall a, b :: 0 <= a < b < |m| ==> Rank(m[a]) < Rank(m[b])
  }

  predicate RanksBelow(m: seq<StateLog>, r: nat) {
    forall a :: 0 <= a < |m| ==> Rank(m[a]) < r
  }

  /** `missingLogVal` lists the missing logs in read order, each once. */
  lemma MissingLogsOrdered(f: NexusLogs)
    ensures InReadOrder(MissingLogs(f))
  {
    var m1 := MissingIf(f, DetArc1);
    ReadOfLaterLog(m1, f, DetArc2);
    var m2 := m1 + MissingIf(f, DetArc2);
    ReadOfLaterLog(m2, f, Wav);
    var m3 := m2 + MissingIf(f, Wav);
    ReadOfLaterLog(m3, f, Freq);
    var m4 := m3 + MissingIf(f, Freq);
    ReadOfLaterLog(m4, f, GuideStat);
  }

  /** Appending the result of a later read keeps the list in read order. */
  lemma ReadOfLaterLog(m: seq<StateLog>, f: NexusLogs, log: StateLog)
    requires InReadOrder(m) && RanksBelow(m, Rank(log))
    ensures InReadOrder(m + MissingIf(f, log)) && RanksBelow(m + MissingIf(f, log), Rank(log) + 1)
  {
    var m' := m + MissingIf(f, log);
    if MissingIf(f, log) == [] {
      assert m' == m;
    } else {
      assert m'[|m|] == log;
      assert forall a :: 0 <= a < |m| ==> m'[a] == m[a];
    }
  }

  /** With `det_arc1` and `freq` absent and the rest present, those two are reported, in that order. */
  lemma MissingLogsExample(x: real)
    ensures MissingLogs(map[Path(DetArc2) := [x], Path(Wav) := [x], Path(GuideStat) := [x, x]]) == [DetArc1, Freq]
    ensures KeyNames(MissingLogs(map[Path(DetArc2) := [x], Path(Wav) := [x], Path(GuideStat) := [x, x]])) == ["det_arc1", "freq"]
  {
    var f := map[Path(DetArc2) := [x], Path(Wav) := [x], Path(GuideStat) := [x, x]];
    KeysAndPathsDistinct(DetArc1, DetArc2);
    KeysAndPathsDistinct(DetArc1, Wav);
    KeysAndPathsDistinct(DetArc1, GuideStat);
    KeysAndPathsDistinct(Freq, DetArc2);
    KeysAndPathsDistinct(Freq, Wav);
    KeysAndPathsDistinct(Freq, GuideStat);
  }

  /** `stateDict` after one `try` block: the log's first sample stored under its key when it can be read. */
  function Recorded(f: NexusLogs, log: StateLog, stateDict: map<StateLog, real>): (d: map<StateLog, real>)
    ensures FirstSample(f, Path(log)).Some? ==> d == stateDict[log := FirstSample(f, Path(log)).value]
    ensures FirstSample(f, Path(log)).None? ==> d == stateDict
  {
    match FirstSample(f, Path(log))
    case Some(v) => stateDict[log := v]
    case None => stateDict
  }

  /** One `try` block: read a log's first sample into `stateDict`, or record it as missing. */
  method TryRead(f: NexusLogs, log: StateLog, stateDict: map<StateLog, real>, missingLogVal: seq<StateLog>, fail: bool)
    returns (stateDict': map<StateLog, real>, missingLogVal': seq<StateLog>, fail': bool)
    ensures stateDict' == Recorded(f, log, stateDict)
    ensures missingLogVal' == missingLogVal + MissingIf(f, log)
    ensures fail' == (fail || FirstSample(f, Path(log)).None?)
  {
    var v := FirstSample(f, Path(log));
    if v.Some? {
      return stateDict[log := v.value], missingLogVal, fail;
    }
    return stateDict, missingLogVal + [log], true;
  }

  /** `stateDict` after the five reads when none failed. */
  function AllRecorded(f: NexusLogs): map<StateLog, real> {
    Recorded(f, GuideStat, Recorded(f, Freq, Recorded(f, Wav, Recorded(f, DetArc2, Recorded(f, DetArc1, map[])))))
  }

  /** When no read fails, `stateDict` holds every log's first sample. */
  lemma AllRecordedFacts(f: NexusLogs)
    requires MissingLogs(f) == []
    ensures forall log :: log in AllRecorded(f) && FirstSample(f, Path(log)) == Some(AllRecorded(f)[log])
  {
    MissingLogsIff(f);
    forall log ensures log in AllRecorded(f) && FirstSample(f, Path(log)) == Some(AllRecorded(f)[log]) {
      assert FirstSample(f, Path(log)).Some?;
    }
  }

  /**
   * The five reads of the state logs. None short-circuits; `fail` is set
   * exactly when some log is missing, and then `missingLogVal` names them.
   */
  method ReadStateLogs(f: NexusLogs) returns (stateDict: map<StateLog, real>, missingLogVal: seq<StateLog>, fail: bool)
    ensures missingLogVal == MissingLogs(f)
    ensures fail <==> missingLogVal != []
    ensures !fail ==> forall log :: log in stateDict && FirstSample(f, Path(log)) == Some(stateDict[log])
  {
    fail := false;
    stateDict := map[];
    missingLogVal := [];
    stateDict, missingLogVal, fail := TryRead(f, DetArc1, stateDict, missingLogVal, fail);
    stateDict, missingLogVal, fail := TryRead(f, DetArc2, stateDict, missingLogVal, fail);
    stateDict, missingLogVal, fail := TryRead(f, Wav, stateDict, missingLogVal, fail);
    stateDict, missingLogVal, fail := TryRead(f, Freq, stateDict, missingLogVal, fail);
    stateDict, missingLogVal, fail := TryRead(f, GuideStat, stateDict, missingLogVal, fail);
    assert missingLogVal == MissingLogs(f);
    MissingLogsIff(f);
    if !fail {
      AllRecordedFacts(f);
    }
  }

  /**
   * `stateFromRunFunction(runNum, inst)`. `ipts` is the result of Mantid's
   * `GetIPTS` (`None` when it raises), `files` the NeXus files that exist and
   * `genState` the state-id generator `genSNAPState`.
   */
  method StateFromRun(runNum: int, inst: InstConfig, ipts: Option<string>,
                      files: map<string, NexusLogs>, genState: (seq<real>, seq<real>) -> string)
    returns (stateId: string, stateDict: map<StateLog, real>, errorState: ErrorState)
    ensures errorState.functionName == FunctionName
    ensures errorState.value != 0 ==> stateId == NoState && stateDict == map[]
    ensures ipts.None? ==>
      errorState == ErrorState(1, FunctionName, "mantid GetIPTS algorithm failed", [RunNumber(runNum)])
    ensures ipts.Some? && NexusFileName(ipts.value, inst, runNum) !in files ==>
      errorState == ErrorState(2, FunctionName, "error opening run nexus file", [Text(NexusFileName(ipts.value, inst, runNum))])
    ensures ipts.Some? && NexusFileName(ipts.value, inst, runNum) in files ==>
      var f := files[NexusFileName(ipts.value, inst, runNum)];
      && (MissingLogs(f) != [] ==>
            errorState == ErrorState(3, FunctionName, "Insufficient log data, can't determine state", TextParams(KeyNames(MissingLogs(f)))))
      && (MissingLogs(f) == [] ==>
            && errorState == ErrorState(0, FunctionName, "", [])
            && (forall log :: log in stateDict && FirstSample(f, Path(log)) == Some(stateDict[log]))
            && stateId == genState([stateDict[DetArc1], stateDict[DetArc2], stateDict[Wav], stateDict[Freq], 0.0],
                                   [stateDict[GuideStat], 0.0]))
  {
    errorState := ErrorState(0, FunctionName, "", []);

    if ipts.None? {
      errorState := errorState.(value := 1, message := "mantid GetIPTS algorithm failed", parameters := [RunNumber(runNum)]);
      return NoState, map[], errorState;
    }

    var fName := NexusFileName(ipts.value, inst, runNum);
    if fName !in files {
      errorState := errorState.(value := 2, message := "error opening run nexus file", parameters := [Text(fName)]);
      return NoState, map[], errorState;
    }
    var f := files[fName];

    var missingLogVal, fail;
    stateDict, missingLogVal, fail := ReadStateLogs(f);

    if fail {
      errorState := errorState.(value := 3, message := "Insufficient log data, can't determine state",
                                parameters := TextParams(KeyNames(missingLogVal)));
      return NoState, map[], errorState;
    }
    stateId := genState([stateDict[DetArc1], stateDict[DetArc2], stateDict[Wav], stateDict[Freq], 0.0],
                        [stateDict[GuideStat], 0.0]);
  }

  /** The keys of the given logs, in order. */
  function KeyNames(logs: seq<StateLog>): (keys: seq<string>)
    ensures |keys| == |logs|
    ensures forall i :: 0 <= i < |logs| ==> keys[i] == Key(logs[i])
  {
    seq(|logs|, i requires 0 <= i < |logs| => Key(logs[i]))
  }

  /** Log keys as entries of `errorState['parameters']`. */
  function TextParams(keys: seq<string>): (params: seq<ErrorParam>)
    ensures |params| == |keys|
    ensures forall i :: 0 <= i < |keys| ==> params[i] == Text(keys[i])
  {
    seq(|keys|, i requires 0 <= i < |keys| => Text(keys[i]))
  }
}
