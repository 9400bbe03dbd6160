/**
 * The hsync command line: `Start` picks one action from the parsed options
 * by a fixed-priority chain, and `ProcessStart` / `ProcessCompress` run a
 * fixed sequence of calls into the synchronisers and database creators,
 * whose own code is not part of this model: only the order of the calls is.
 */
module Dispatch {
  import opened Wrappers

  /** The parsed options; an argument list that was not given is None (null). */
  datatype Options = Options(
    help: bool,
    version: bool,
    recoverSettings: bool,
    relatedTagTest: Option<seq<string>>,
    characterTest: Option<seq<string>>,
    seriesTest: Option<seq<string>>,
    createEHentaiInverseTable: bool,
    createDateTimeEstimator: bool,
    initServer: bool,
    start: bool,
    compress: bool,
    includeExHentaiData: bool,
    lowPerf: bool,
    syncOnly: bool,
    hitomiSyncRange: Option<seq<string>>,
    hitomiSyncLookupRange: Option<seq<string>>,
    exHentaiLookupPage: Option<seq<string>>,
    useServer: bool,
    error: bool,
    errorMessage: string,
    helpMessage: Option<string>)

  /** The arguments `Start` passes on to ProcessStart. */
  datatype StartRequest = StartRequest(
    includeExHentai: bool,
    lowPerf: bool,
    syncOnly: bool,
    useServer: bool,
    hitomiSyncRange: Option<seq<string>>,
    hitomiSyncLookupRange: Option<seq<string>>,
    exHentaiLookupPage: Option<seq<string>>)

  /** The one branch `Start` takes. */
  datatype Action =
    | ShowHelp
    | ShowVersion
    | RecoverSettings
    | RelatedTagTest(args: seq<string>)
    | CharacterTest(args: seq<string>)
    | SeriesTest(args: seq<string>)
    | RunStart(request: StartRequest)
    | Compress(includeExHentai: bool, lowPerf: bool)
    | CreateEHentaiInverseTable(lowPerf: bool)
    | CreateDateTimeEstimator(lowPerf: bool)
    | InitServer
    | ReportError(lines: seq<string>)
    | NothingToWorkOn(lines: seq<string>)

  function StartRequestOf(o: Options): StartRequest
  {
    StartRequest(o.includeExHentaiData, o.lowPerf, o.syncOnly, o.useServer,
                 o.hitomiSyncRange, o.hitomiSyncLookupRange, o.exHentaiLookupPage)
  }

  /** `Start`: the first option set, in the order of the if-chain, decides. */
  function Dispatch(o: Options): (a: Action)
    ensures a.RelatedTagTest? ==> o.relatedTagTest == Some(a.args)
    ensures a.CharacterTest? ==> o.characterTest == Some(a.args)
    ensures a.SeriesTest? ==> o.seriesTest == Some(a.args)
    ensures a.RunStart? ==> a.request == StartRequestOf(o)
    ensures a.Compress? ==> a.includeExHentai == o.includeExHentaiData && a.lowPerf == o.lowPerf
    ensures a.CreateEHentaiInverseTable? || a.CreateDateTimeEstimator? ==> a.lowPerf == o.lowPerf
    ensures a.ReportError? ==> |a.lines| == (if o.helpMessage.Some? then 2 else 1) && a.lines[0] == o.errorMessage
                               && (o.helpMessage.Some? ==> a.lines[1] == o.helpMessage.value)
  {
    if o.help then ShowHelp
    else if o.version then ShowVersion
    else if o.recoverSettings then RecoverSettings
    else if o.relatedTagTest.Some? then RelatedTagTest(o.relatedTagTest.value)
    else if o.characterTest.Some? then CharacterTest(o.characterTest.value)
    else if o.seriesTest.Some? then SeriesTest(o.seriesTest.value)
    else if o.start then RunStart(StartRequestOf(o))
    else if o.compress then Compress(o.includeExHentaiData, o.lowPerf)
    else if o.createEHentaiInverseTable then CreateEHentaiInverseTable(o.lowPerf)
    else if o.createDateTimeEstimator then CreateDateTimeEstimator(o.lowPerf)
    else if o.initServer then InitServer
    else if o.error then
      ReportError([o.errorMessage] + (if o.helpMessage.Some? then [o.helpMessage.value] else []))
    else NothingToWorkOn(["Nothing to work on.", "Enter './hsync --help' to get more information"])
  }

  /** The position of each branch in the chain. */
  function Rank(a: Action): nat
  {
    match a
    case ShowHelp => 0
    case ShowVersion => 1
    case RecoverSettings => 2
    case RelatedTagTest(_) => 3
    case CharacterTest(_) => 4
    case SeriesTest(_) => 5
    case RunStart(_) => 6
    case Compress(_, _) => 7
    case CreateEHentaiInverseTable(_) => 8
    case CreateDateTimeEstimator(_) => 9
    case InitServer => 10
    case ReportError(_) => 11
    case NothingToWorkOn(_) => 12
  }

  /** The condition of the branch of rank k. */
  predicate Flag(o: Options, k: nat)
    requires k < 12
  {
    match k
    case 0 => o.help
    case 1 => o.version
    case 2 => o.recoverSettings
    case 3 => o.relatedTagTest.Some?
    case 4 => o.characterTest.Some?
    case 5 => o.seriesTest.Some?
    case 6 => o.start
    case 7 => o.compress
    case 8 => o.createEHentaiInverseTable
    case 9 => o.createDateTimeEstimator
    case 10 => o.initServer
    case 11 => o.error
  }

  /**
   * Exactly one branch runs: the first whose condition holds, or the
   * "nothing to work on" branch when none does.
   */
  lemma {:induction false} DispatchTakesFirstFlag(o: Options)
    ensures Rank(Dispatch(o)) < 12 ==> Flag(o, Rank(Dispatch(o)))
    ensures forall j :: 0 <= j < Rank(Dispatch(o)) && j < 12 ==> !Flag(o, j)
  {
    var m := Rank(Dispatch(o));
    forall j | 0 <= j < m && j < 12
      ensures !Flag(o, j)
    {
    }
  }

  /** A set `start` hides every option after it in the chain. */
  lemma {:induction false} StartShadowsLaterOptions(o: Options, compress: bool, invTable: bool, estimator: bool,
                                                    initServer: bool, error: bool)
    requires Rank(Dispatch(o)) == 6
    ensures Dispatch(o.(compress := compress, createEHentaiInverseTable := invTable,
                        createDateTimeEstimator := estimator, initServer := initServer, error := error))
         == RunStart(StartRequestOf(o))
  {
  }

  /** Options as parsed from an empty command line: only `start`, whose declared default is true. */
  const DefaultOptions: Options :=
    Options(false, false, false, None, None, None, false, false, false, true, false, false, false, false,
            None, None, None, false, false, "", None)

  /** With no arguments hsync synchronises. */
  lemma DefaultRunsStart()
    ensures Dispatch(DefaultOptions).RunStart?
    ensures Dispatch(DefaultOptions).request == StartRequest(false, false, false, false, None, None, None)
  {
  }

  // ---------------------------------------------------------------------------
  // ProcessStart and ProcessCompress

  /** A call ProcessStart or ProcessCompress makes, in the order it is made. */
  datatype Step =
    | Download(url: string, file: string)
    | NewSyncronizer(lowPerf: bool, range: Option<seq<string>>, lookupRange: Option<seq<string>>,
                     lookupPage: Option<seq<string>>)
    | SyncHitomi
    | SyncExHentai
    | FlushToMainDatabase
    | FlushToServerDatabase
    | CloseSyncronizer
    | NewDataBaseCreator(lowPerf: bool)
    | Integrate
    | ExtractRawDatabase(name: string, language: Option<string>, includeExHentai: bool)

  const ReleaseUrl: string := "https://github.com/project-violet/database/releases/download/rd2020.06.07/"

  /** The data files the full synchroniser needs, in the order they are fetched. */
  const RequiredFiles: seq<string> := ["hiddendata.json", "metadata.json", "ex-hentai-archive.json"]

  /** The downloads of the missing required files, in order. */
  function Downloads(present: set<string>): seq<Step>
  {
    (if "hiddendata.json" in present then [] else [Download(ReleaseUrl + "hiddendata.json", "hiddendata.json")])
    + (if "metadata.json" in present then [] else [Download(ReleaseUrl + "metadata.json", "metadata.json")])
    + (if "ex-hentai-archive.json" in present then []
       else [Download(ReleaseUrl + "ex-hentai-archive.json", "ex-hentai-archive.json")])
  }

  /** The five extractions: everything, then one file per language. */
  function Extractions(includeExHentai: bool): seq<Step>
  {
    [ExtractRawDatabase("rawdata", None, includeExHentai),
     ExtractRawDatabase("rawdata-chinese", Some("chinese"), includeExHentai),
     ExtractRawDatabase("rawdata-english", Some("english"), includeExHentai),
     ExtractRawDatabase("rawdata-japanese", Some("japanese"), includeExHentai),
     ExtractRawDatabase("rawdata-korean", Some("korean"), includeExHentai)]
  }

  /**
   * `ProcessStart`: fetch missing data (full mode only), synchronise, flush
   * (low-performance mode only, to the server when asked), and unless
   * `syncOnly` rebuild the extracted databases.
   */
  function ProcessStart(r: StartRequest, present: set<string>): seq<Step>
  {
    var sync := NewSyncronizer(r.lowPerf, r.hitomiSyncRange, r.hitomiSyncLookupRange, r.exHentaiLookupPage);
    if !r.lowPerf then Downloads(present) + AfterDownloads(r)
    else
      [sync, SyncHitomi, SyncExHentai, FlushToMainDatabase]
      + (if r.useServer then [FlushToServerDatabase] else [])
      + [CloseSyncronizer]
      + (if r.syncOnly then [] else [NewDataBaseCreator(true)] + Extractions(r.includeExHentai))
  }

  /** `ProcessCompress`: the database rebuild alone. */
  function ProcessCompress(includeExHentai: bool, lowPerf: bool): seq<Step>
  {
    [NewDataBaseCreator(lowPerf)] + (if lowPerf then [] else [Integrate]) + Extractions(includeExHentai)
  }

  predicate Rebuilds(s: Step)
  {
    s.NewDataBaseCreator? || s.Integrate? || s.ExtractRawDatabase?
  }

  /** With `syncOnly` no database creator is made and nothing is integrated or extracted. */
  lemma {:induction false} SyncOnlyStopsBeforeExtraction(r: StartRequest, present: set<string>)
    requires r.syncOnly
    ensures forall i :: 0 <= i < |ProcessStart(r, present)| ==> !Rebuilds(ProcessStart(r, present)[i])
  {
    var steps := ProcessStart(r, present);
    var d := Downloads(present);
    assert forall i :: 0 <= i < |d| ==> d[i].Download?;
  }

  /** Without `syncOnly`, ProcessStart is its sync-only run followed by exactly what compress does. */
  lemma {:induction false} StartIsSyncThenCompress(r: StartRequest, present: set<string>)
    requires !r.syncOnly
    ensures ProcessStart(r, present) == ProcessStart(r.(syncOnly := true), present)
                                        + ProcessCompress(r.includeExHentai, r.lowPerf)
  {
    var sync := NewSyncronizer(r.lowPerf, r.hitomiSyncRange, r.hitomiSyncLookupRange, r.exHentaiLookupPage);
    var e := Extractions(r.includeExHentai);
    if r.lowPerf {
      var head := [sync, SyncHitomi, SyncExHentai, FlushToMainDatabase]
        + (if r.useServer then [FlushToServerDatabase] else []) + [CloseSyncronizer];
      assert ProcessStart(r, present) == head + ([NewDataBaseCreator(true)] + e);
      assert ProcessStart(r.(syncOnly := true), present) == head + [];
    } else {
      var d, head := Downloads(present), [sync, SyncHitomi, SyncExHentai];
      assert ProcessStart(r, present) == d + (head + ([NewDataBaseCreator(false), Integrate] + e));
      assert ProcessStart(r.(syncOnly := true), present) == d + (head + []);
    }
  }

  /** The server flush happens exactly in low-performance mode with `useServer`. */
  lemma {:induction false} ServerFlushOnlyWhenAsked(r: StartRequest, present: set<string>)
    ensures FlushToServerDatabase in ProcessStart(r, present) <==> r.lowPerf && r.useServer
  {
    var steps := ProcessStart(r, present);
    var d := Downloads(present);
    assert forall i :: 0 <= i < |d| ==> d[i].Download?;
    if r.lowPerf && r.useServer {
      assert steps[4] == FlushToServerDatabase;
    }
  }

  /** A file is downloaded exactly when full mode needs it and it is missing. */
  lemma {:induction false} DownloadsOnlyMissing(r: StartRequest, present: set<string>, file: string)
    ensures (exists i :: 0 <= i < |ProcessStart(r, present)| && ProcessStart(r, present)[i] == Download(ReleaseUrl + file, file))
        <==> !r.lowPerf && file in RequiredFiles && file !in present
  {
    var steps := ProcessStart(r, present);
    var d := Downloads(present);
    DownloadsAreMissing(present);
    StartDownloadsFirst(r, present);
    if exists i :: 0 <= i < |steps| && steps[i] == Download(ReleaseUrl + file, file) {
      var i :| 0 <= i < |steps| && steps[i] == Download(ReleaseUrl + file, file);
      assert steps[i].Download?;
      assert d[i] == steps[i];
    }
    if !r.lowPerf && file in RequiredFiles && file !in present {
      var j := MissingIsDownloaded(present, file);
      assert steps[j] == d[j];
    }
  }

  /** Every download is of a required file that is missing. */
  lemma {:induction false} DownloadsAreMissing(present: set<string>)
    ensures forall i :: 0 <= i < |Downloads(present)| ==>
      && Downloads(present)[i].Download?
      && Downloads(present)[i].file in RequiredFiles
      && Downloads(present)[i].file !in present
  {
  }

  /** A missing required file is downloaded. */
  lemma {:induction false} MissingIsDownloaded(present: set<string>, file: string) returns (j: nat)
    requires file in RequiredFiles && file !in present
    ensures j < |Downloads(present)| && Downloads(present)[j] == Download(ReleaseUrl + file, file)
  {
    var d := Downloads(present);
    j := if file == "hiddendata.json" then 0
         else if file == "metadata.json" then (if "hiddendata.json" in present then 0 else 1)
         else |d| - 1;
  }

  /** The full run starts with the downloads and has no other; the low-performance run has none. */
  lemma {:induction false} StartDownloadsFirst(r: StartRequest, present: set<string>)
    ensures !r.lowPerf ==> |Downloads(present)| <= |ProcessStart(r, present)|
    ensures !r.lowPerf ==> forall i :: 0 <= i < |Downloads(present)| ==> ProcessStart(r, present)[i] == Downloads(present)[i]
    ensures forall i :: 0 <= i < |ProcessStart(r, present)| && ProcessStart(r, present)[i].Download? ==>
      !r.lowPerf && i < |Downloads(present)|
  {
    if r.lowPerf {
      LowPerfDownloadsNothing(r, present);
    } else {
      var rest := AfterDownloads(r);
      assert forall i :: 0 <= i < |rest| ==> !rest[i].Download?;
    }
  }

  /** What the full run does once the files are there: synchronise, then rebuild unless `syncOnly`. */
  function AfterDownloads(r: StartRequest): seq<Step>
  {
    [NewSyncronizer(r.lowPerf, r.hitomiSyncRange, r.hitomiSyncLookupRange, r.exHentaiLookupPage), SyncHitomi, SyncExHentai]
    + (if r.syncOnly then [] else [NewDataBaseCreator(false), Integrate] + Extractions(r.includeExHentai))
  }

  lemma {:induction false} LowPerfDownloadsNothing(r: StartRequest, present: set<string>)
    requires r.lowPerf
    ensures forall i :: 0 <= i < |ProcessStart(r, present)| ==> !ProcessStart(r, present)[i].Download?
  {
  }



}
