/** The analysis behind the upload endpoint: parse the log lines, classify
    the first 5000 events and give each a severity, cluster the
    unclassified errors, turn the cluster labels into strings and add the
    incident summary. The upload itself, the temporary file and the HTTP
    transport are not modelled; the severity table, the clusterer and the
    model's client are parameters. */
module Api {
  import opened Wrappers
  import opened Text
  import opened Records
  import opened ErrorClassifier
  import LogParser
  import MlCluster
  import LlmSummary

  /** The most events one analysis looks at. */
  const MaxEvents: nat := 5000

  /** A parsed log as the endpoint reads it: the component may be absent. */
  datatype ParsedLog = ParsedLog(timestamp: string, level: Level, component: Option<string>, message: string)

  /** A parsed line as a record with all four fields present. */
  function FromEvent(ev: LogEvent): ParsedLog
  {
    ParsedLog(ev.timestamp, ev.level, Some(ev.component), ev.message)
  }

  /** The events after the conversion, in order. */
  function FromEvents(evs: seq<LogEvent>): (r: seq<ParsedLog>)
  {
    Map(FromEvent, evs)
  }

  /** What the endpoint answers with. */
  datatype Analysis = Analysis(logs: seq<Entry>, clusters: map<string, seq<string>>, summary: string)

  // ---------------------------------------------------------------------
  // The entries

  /** The first `MaxEvents` logs (all of them when there are fewer). */
  function Capped(logs: seq<ParsedLog>): (r: seq<ParsedLog>)
  {
    if |logs| <= MaxEvents then logs else logs[..MaxEvents]
  }

  /** One entry of the result: the log's fields, the missing component
      read as "unknown", the message's category, and the severity the
      table `assign` gives the level and category. */
  function BuildEntry(log: ParsedLog, assign: (Level, Category) -> string): Entry
  {
    var category := Classify(log.message);
    Entry(log.timestamp, log.level,
          if log.component.Some? then log.component.value else "unknown",
          log.message, category, assign(log.level, category))
  }

  /** The entries of a list of logs, one per log, in order. */
  function Entries(logs: seq<ParsedLog>, assign: (Level, Category) -> string): (r: seq<Entry>)
    ensures |r| == |logs|
  {
    if logs == [] then []
    else Entries(logs[..|logs| - 1], assign) + [BuildEntry(logs[|logs| - 1], assign)]
  }

  /** Entry `i` is built from log `i`. */
  lemma {:induction false} EntriesAt(logs: seq<ParsedLog>, assign: (Level, Category) -> string)
    ensures forall i :: 0 <= i < |logs| ==> Entries(logs, assign)[i] == BuildEntry(logs[i], assign)
  {
    if logs != [] {
      var n := |logs| - 1;
      EntriesAt(logs[..n], assign);
      assert forall i :: 0 <= i < n ==> logs[..n][i] == logs[i];
    }
  }

  /** An entry that the keyword rule could not place and that is an
      error. */
  predicate IsUnknownError(e: Entry) {
    e.category == UNKNOWN && e.level == ERROR
  }

  /** The message an entry contributes to clustering, if any. */
  function UnknownMessage(e: Entry): Option<string>
  {
    if IsUnknownError(e) then Some(e.message) else None
  }

  /** The messages of the unclassified errors, in order. */
  function UnknownMessages(entries: seq<Entry>): seq<string>
  {
    Somes(Map(UnknownMessage, entries))
  }

  // ---------------------------------------------------------------------
  // Clusters

  /** The clusters as the endpoint computes them: none when there is no
      unclassified error, the clusterer's grouping otherwise (`None` when
      the clusterer raises). */
  function RawClusters(unknown: seq<string>, fit: (seq<string>, nat) -> Option<seq<nat>>)
    : Option<map<nat, seq<string>>>
    requires MlCluster.FitContract(fit)
  {
    if unknown != [] then MlCluster.Clusters(unknown, 2, fit) else Some(map[])
  }

  /** The clusters keyed by the decimal string of their label. */
  function StringKeys(raw: map<nat, seq<string>>): map<string, seq<string>>
  {
    DecimalInjective();
    map l | l in raw :: Decimal(l) := raw[l]
  }

  // ---------------------------------------------------------------------
  // The whole analysis

  /** The answer of the endpoint for these parsed logs, or `None` when
      the clusterer raised (the endpoint then reports a server error). */
  function AnalysisOf(parsedLogs: seq<ParsedLog>, assign: (Level, Category) -> string,
                      fit: (seq<string>, nat) -> Option<seq<nat>>,
                      clientInstalled: bool, apiKey: Option<string>,
                      request: (string, string) -> LlmSummary.LlmOutcome): Option<Analysis>
    requires MlCluster.FitContract(fit)
  {
    var results := Entries(Capped(parsedLogs), assign);
    match RawClusters(UnknownMessages(results), fit)
    case None => None
    case Some(raw) =>
      Some(Analysis(results, StringKeys(raw),
                    LlmSummary.GenerateIncidentSummary(results, clientInstalled, apiKey, request)))
  }

  /** `analyze_log` from the parsed logs on: one pass over the first 5000
      logs builds the entries and collects the unclassified error
      messages, which are then clustered when there are any; the cluster
      labels become strings and the summary covers the same entries. */
  method AnalyzeParsed(parsedLogs: seq<ParsedLog>, assign: (Level, Category) -> string,
                       fit: (seq<string>, nat) -> Option<seq<nat>>,
                       clientInstalled: bool, apiKey: Option<string>,
                       request: (string, string) -> LlmSummary.LlmOutcome)
    returns (r: Option<Analysis>)
    requires MlCluster.FitContract(fit)
    ensures r == AnalysisOf(parsedLogs, assign, fit, clientInstalled, apiKey, request)
  {
    var capped := if |parsedLogs| <= MaxEvents then parsedLogs else parsedLogs[..MaxEvents];
    var results: seq<Entry> := [];
    var unknownMessages: seq<string> := [];
    for i := 0 to |capped|
      invariant results == Entries(capped[..i], assign)
      invariant unknownMessages == UnknownMessages(results)
    {
      EntriesSnoc(capped, i, assign);
      var entry := BuildEntry(capped[i], assign);
      UnknownMessagesSnoc(results, entry);
      results := results + [entry];
      if entry.category == UNKNOWN && entry.level == ERROR {
        unknownMessages := unknownMessages + [entry.message];
      }
    }
    assert results == Entries(Capped(parsedLogs), assign) by {
      assert capped[..|capped|] == capped;
    }
    var rawClusters: map<nat, seq<string>> := map[];
    if unknownMessages != [] {
      var clustered := MlCluster.ClusterUnknownErrors(unknownMessages, 2, fit);
      if clustered.None? {
        AnalysisOfNone(parsedLogs, assign, fit, clientInstalled, apiKey, request);
        return None;
      }
      rawClusters := clustered.value;
    }
    var clusters := StringKeys(rawClusters);
    var summary := LlmSummary.GenerateIncidentSummary(results, clientInstalled, apiKey, request);
    AnalysisOfSome(parsedLogs, assign, fit, clientInstalled, apiKey, request, rawClusters);
    return Some(Analysis(results, clusters, summary));
  }

  lemma AnalysisOfNone(parsedLogs: seq<ParsedLog>, assign: (Level, Category) -> string,
                       fit: (seq<string>, nat) -> Option<seq<nat>>,
                       clientInstalled: bool, apiKey: Option<string>,
                       request: (string, string) -> LlmSummary.LlmOutcome)
    requires MlCluster.FitContract(fit)
    requires RawClusters(UnknownMessages(Entries(Capped(parsedLogs), assign)), fit).None?
    ensures AnalysisOf(parsedLogs, assign, fit, clientInstalled, apiKey, request).None?
  {
  }

  lemma AnalysisOfSome(parsedLogs: seq<ParsedLog>, assign: (Level, Category) -> string,
                       fit: (seq<string>, nat) -> Option<seq<nat>>,
                       clientInstalled: bool, apiKey: Option<string>,
                       request: (string, string) -> LlmSummary.LlmOutcome,
                       raw: map<nat, seq<string>>)
    requires MlCluster.FitContract(fit)
    requires RawClusters(UnknownMessages(Entries(Capped(parsedLogs), assign)), fit) == Some(raw)
    ensures var results := Entries(Capped(parsedLogs), assign);
      AnalysisOf(parsedLogs, assign, fit, clientInstalled, apiKey, request)
      == Some(Analysis(results, StringKeys(raw),
                       LlmSummary.GenerateIncidentSummary(results, clientInstalled, apiKey, request)))
  {
  }

  /** `analyze_log` over the lines of the uploaded file. */
  method AnalyzeLog(lines: seq<string>, assign: (Level, Category) -> string,
                    fit: (seq<string>, nat) -> Option<seq<nat>>,
                    clientInstalled: bool, apiKey: Option<string>,
                    request: (string, string) -> LlmSummary.LlmOutcome)
    returns (r: Option<Analysis>)
    requires MlCluster.FitContract(fit)
    ensures r == AnalysisOf(FromEvents(LogParser.ParsedEvents(lines)), assign, fit,
                            clientInstalled, apiKey, request)
  {
    var parsed := LogParser.ParseLogs(lines);
    r := AnalyzeParsed(FromEvents(parsed), assign, fit, clientInstalled, apiKey, request);
  }

  lemma EntriesSnoc(logs: seq<ParsedLog>, i: nat, assign: (Level, Category) -> string)
    requires i < |logs|
    ensures Entries(logs[..i + 1], assign) == Entries(logs[..i], assign) + [BuildEntry(logs[i], assign)]
  {
    assert logs[..i + 1][..i] == logs[..i];
  }

  /** One more entry adds its message when it is an unclassified error. */
  lemma UnknownMessagesSnoc(entries: seq<Entry>, e: Entry)
    ensures UnknownMessages(entries + [e])
            == if IsUnknownError(e) then UnknownMessages(entries) + [e.message] else UnknownMessages(entries)
  {
    MapSnoc(UnknownMessage, entries, e);
    SomesSnoc(Map(UnknownMessage, entries), UnknownMessage(e));
  }

  // ---------------------------------------------------------------------
  // Properties

  /** The result holds one entry per log among the first 5000, in order;
      each copies the log's timestamp, level and message, reads a missing
      component as "unknown", carries the message's category and the
      severity the table gives the level and that category. */
  lemma EntriesFaithful(parsedLogs: seq<ParsedLog>, assign: (Level, Category) -> string)
    ensures var results := Entries(Capped(parsedLogs), assign);
      && |results| == (if |parsedLogs| < MaxEvents then |parsedLogs| else MaxEvents)
      && forall i :: 0 <= i < |results| ==>
           var log, e := parsedLogs[i], results[i];
           && e.timestamp == log.timestamp && e.level == log.level && e.message == log.message
           && (log.component.None? ==> e.component == "unknown")
           && (log.component.Some? ==> e.component == log.component.value)
           && e.category == Classify(log.message)
           && e.severity == assign(log.level, e.category)
  {
    var capped := Capped(parsedLogs);
    EntriesAt(capped, assign);
    assert forall i :: 0 <= i < |capped| ==> capped[i] == parsedLogs[i];
  }

  /** The clustered messages come from the unclassified errors, in order,
      one per such entry: `UnknownSources` names the entry of each. */
  function UnknownSources(entries: seq<Entry>): seq<nat>
  {
    SomeIndices(Map(UnknownMessage, entries))
  }

  lemma UnknownMessagesSources(entries: seq<Entry>)
    ensures var u, src := UnknownMessages(entries), UnknownSources(entries);
      && |u| == |src| <= |entries|
      && (forall k, l :: 0 <= k < l < |src| ==> src[k] < src[l])
      && (forall k :: 0 <= k < |src| ==>
            src[k] < |entries| && IsUnknownError(entries[src[k]]) && entries[src[k]].message == u[k])
      && (forall i :: 0 <= i < |entries| && IsUnknownError(entries[i]) ==> i in src)
  {
    var xs := Map(UnknownMessage, entries);
    SomesAtIndices(xs);
    var src := SomeIndices(xs);
    forall k | 0 <= k < |src|
      ensures IsUnknownError(entries[src[k]])
    {
      assert xs[src[k]] == UnknownMessage(entries[src[k]]);
    }
    forall i | 0 <= i < |entries| && IsUnknownError(entries[i])
      ensures i in src
    {
      assert xs[i].Some?;
    }
  }

  /** A message is sent to the clusterer exactly when some log among the
      first 5000 is an error with that message and the message mentions
      none of the keywords. */
  lemma UnknownMessagesIff(parsedLogs: seq<ParsedLog>, assign: (Level, Category) -> string, m: string)
    ensures var capped := Capped(parsedLogs);
      m in UnknownMessages(Entries(capped, assign))
      <==> exists i :: 0 <= i < |capped| && capped[i].level == ERROR && capped[i].message == m
             && !MentionsDatabase(m) && !MentionsTimeout(m) && !MentionsApi(m) && !MentionsMemory(m)
  {
    var capped := Capped(parsedLogs);
    var entries := Entries(capped, assign);
    var u := UnknownMessages(entries);
    EntriesAt(capped, assign);
    UnknownMessagesSources(entries);
    var src := UnknownSources(entries);
    UnknownIffNoKeyword(m);
    if m in u {
      var k :| 0 <= k < |u| && u[k] == m;
      var i := src[k];
      assert capped[i].level == ERROR && capped[i].message == m;
    }
    if exists i :: 0 <= i < |capped| && capped[i].level == ERROR && capped[i].message == m
                   && !MentionsDatabase(m) && !MentionsTimeout(m) && !MentionsApi(m) && !MentionsMemory(m) {
      var i :| 0 <= i < |capped| && capped[i].level == ERROR && capped[i].message == m
               && !MentionsDatabase(m) && !MentionsTimeout(m) && !MentionsApi(m) && !MentionsMemory(m);
      assert IsUnknownError(entries[i]);
      var k :| 0 <= k < |src| && src[k] == i;
      assert u[k] == m;
    }
  }

  /** Skipping the clusterer when there is no unclassified error changes
      nothing: it would have returned no clusters anyway. */
  lemma ClusterGuardRedundant(unknown: seq<string>, fit: (seq<string>, nat) -> Option<seq<nat>>)
    requires MlCluster.FitContract(fit)
    ensures RawClusters(unknown, fit) == MlCluster.Clusters(unknown, 2, fit)
    ensures unknown == [] ==> RawClusters(unknown, fit) == Some(map[])
  {
  }

  /** The string keys read back as the labels: each label's list is kept
      under its decimal string, and every key is the decimal string of a
      label whose list it holds. */
  lemma StringKeysRoundTrip(raw: map<nat, seq<string>>)
    ensures var c := StringKeys(raw);
      && (forall l :: l in raw ==> Decimal(l) in c && c[Decimal(l)] == raw[l])
      && (forall s :: s in c ==>
            (forall k :: 0 <= k < |s| ==> IsDigit(s[k]))
            && DecimalValue(s) in raw && c[s] == raw[DecimalValue(s)])
  {
    var c := StringKeys(raw);
    DecimalInjective();
    forall s | s in c
      ensures (forall k :: 0 <= k < |s| ==> IsDigit(s[k]))
      ensures DecimalValue(s) in raw && c[s] == raw[DecimalValue(s)]
    {
      var l :| l in raw && Decimal(l) == s;
      DecimalRoundTrip(l);
    }
  }

  /** With two clusters, the cluster keys are "0" and "1" at most. */
  lemma ClusterKeysBinary(unknown: seq<string>, fit: (seq<string>, nat) -> Option<seq<nat>>)
    requires MlCluster.FitContract(fit)
    ensures var raw := RawClusters(unknown, fit);
      raw.Some? ==> forall s :: s in StringKeys(raw.value) ==> s == "0" || s == "1"
  {
    var raw := RawClusters(unknown, fit);
    if raw.Some? {
      forall l | l in raw.value ensures l < 2 {
        var ls := fit(unknown, 2).value;
        assert l in ls;
      }
      forall s | s in StringKeys(raw.value) ensures s == "0" || s == "1" {
        var l :| l in raw.value && Decimal(l) == s;
      }
    }
  }

  /** The analysis fails exactly when there are at least two unclassified
      errors and the clusterer raises on them. */
  lemma AnalysisFailsIff(parsedLogs: seq<ParsedLog>, assign: (Level, Category) -> string,
                         fit: (seq<string>, nat) -> Option<seq<nat>>,
                         clientInstalled: bool, apiKey: Option<string>,
                         request: (string, string) -> LlmSummary.LlmOutcome)
    requires MlCluster.FitContract(fit)
    ensures var u := UnknownMessages(Entries(Capped(parsedLogs), assign));
      AnalysisOf(parsedLogs, assign, fit, clientInstalled, apiKey, request).None?
      <==> |u| >= 2 && fit(u, 2).None?
  {
  }

  /** Without a usable model, the summary is the fallback report for the
      first 5000 logs: its total line reads back as their number. */
  lemma SummaryCountsCapped(parsedLogs: seq<ParsedLog>, assign: (Level, Category) -> string,
                            fit: (seq<string>, nat) -> Option<seq<nat>>,
                            clientInstalled: bool, apiKey: Option<string>,
                            request: (string, string) -> LlmSummary.LlmOutcome)
    requires MlCluster.FitContract(fit)
    requires !LlmSummary.LlmUsable(clientInstalled, apiKey)
    ensures var a := AnalysisOf(parsedLogs, assign, fit, clientInstalled, apiKey, request);
      a.Some? ==> LlmSummary.ReportsTotal(SplitLines(a.value.summary),
                                          if |parsedLogs| < MaxEvents then |parsedLogs| else MaxEvents)
  {
    LlmSummary.FallbackTotal(Entries(Capped(parsedLogs), assign));
  }
}
