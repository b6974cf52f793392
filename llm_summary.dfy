/** The incident summary: the fixed fallback report built from severity
    counts, the rule that decides when the language model is asked
    instead, and the log context the model is given. The model's client
    is not modelled: whether its library is installed, the API key and
    the outcome of the request are inputs. */
module LlmSummary {
  import opened Wrappers
  import opened Text
  import opened Records

  // ---------------------------------------------------------------------
  // Severity counts

  /** The number of entries whose severity is exactly `tier`. */
  function CountSeverity(logs: seq<Entry>, tier: string): nat
  {
    if logs == [] then 0
    else
      var n := |logs| - 1;
      CountSeverity(logs[..n], tier) + (if logs[n].severity == tier then 1 else 0)
  }

  /** The severities of the entries, in order. */
  function Severities(logs: seq<Entry>): (r: seq<string>)
    ensures |r| == |logs| && forall i :: 0 <= i < |logs| ==> r[i] == logs[i].severity
  {
    seq(|logs|, i requires 0 <= i < |logs| => logs[i].severity)
  }

  /** The count of a tier is its multiplicity among the severities. */
  lemma {:induction false} CountIsMultiplicity(logs: seq<Entry>, tier: string)
    ensures CountSeverity(logs, tier) == multiset(Severities(logs))[tier]
  {
    if logs != [] {
      var n := |logs| - 1;
      CountIsMultiplicity(logs[..n], tier);
      assert Severities(logs) == Severities(logs[..n]) + [logs[n].severity];
    }
  }

  /** One of the three severities the report counts. */
  predicate IsTier(s: string) {
    s == "HIGH" || s == "MEDIUM" || s == "LOW"
  }

  /** The three counts never exceed the total, and they add up to it
      exactly when every entry has one of the three severities. */
  lemma {:induction false} TierCountsBound(logs: seq<Entry>)
    ensures var sum := CountSeverity(logs, "HIGH") + CountSeverity(logs, "MEDIUM") + CountSeverity(logs, "LOW");
      && sum <= |logs|
      && (sum == |logs| <==> forall i :: 0 <= i < |logs| ==> IsTier(logs[i].severity))
  {
    if logs != [] {
      var n := |logs| - 1;
      var init := logs[..n];
      TierCountsBound(init);
      assert forall i :: 0 <= i < n ==> init[i] == logs[i];
    }
  }

  // ---------------------------------------------------------------------
  // The fallback report

  /** The lines of the fallback report for these counts. The longer
      lines are written as a few shorter pieces, which keeps the
      verifier's character-level reasoning about them cheap. */
  function ReportLines(total: nat, high: nat, medium: nat, low: nat): seq<string>
  {
    [ "LLM unavailable. " + "Generated fallback " + "incident summary.",
      "",
      "Incident Overview:",
      "- Total events: " + Decimal(total),
      "- High severity events: " + Decimal(high),
      "- Medium severity events: " + Decimal(medium),
      "- Low severity events: " + Decimal(low),
      "",
      "Recommended " + "Next Actions:",
      "- Investigate " + "high severity " + "errors first",
      "- Review recurring " + "database, memory, " + "or timeout issues",
      "- Monitor system " + "stability after " + "remediation" ]
  }

  /** The triple-quoted report for these counts, which begins and ends
      with a line break, stripped. */
  function ReportText(total: nat, high: nat, medium: nat, low: nat): string
  {
    Strip("\n" + JoinLines(ReportLines(total, high, medium, low)) + "\n")
  }

  /** `fallback_summary()`: the report for the entries' total and severity
      counts. */
  function FallbackSummary(logs: seq<Entry>): string
  {
    ReportText(|logs|, CountSeverity(logs, "HIGH"), CountSeverity(logs, "MEDIUM"), CountSeverity(logs, "LOW"))
  }

  /** No line of the report holds a line break. */
  lemma ReportLinesSingle(total: nat, high: nat, medium: nat, low: nat)
    ensures forall k :: 0 <= k < 12 ==> '\n' !in ReportLines(total, high, medium, low)[k]
  {
    forall k | 0 <= k < 12
      ensures '\n' !in ReportLines(total, high, medium, low)[k]
    {
      if 3 <= k <= 6 {
        CountLineSingle(total, high, medium, low, k);
      } else if k < 3 {
        HeadLineSingle(total, high, medium, low, k);
      } else {
        TailLineSingle(total, high, medium, low, k);
      }
    }
  }

  lemma HeadLineSingle(total: nat, high: nat, medium: nat, low: nat, k: nat)
    requires k < 3
    ensures '\n' !in ReportLines(total, high, medium, low)[k]
  {
  }

  lemma TailLineSingle(total: nat, high: nat, medium: nat, low: nat, k: nat)
    requires 7 <= k < 12
    ensures '\n' !in ReportLines(total, high, medium, low)[k]
  {
    if k >= 10 {
      LastLinesSingle(total, high, medium, low, k);
    }
  }

  lemma LastLinesSingle(total: nat, high: nat, medium: nat, low: nat, k: nat)
    requires 10 <= k < 12
    ensures '\n' !in ReportLines(total, high, medium, low)[k]
  {
  }

  lemma CountLineSingle(total: nat, high: nat, medium: nat, low: nat, k: nat)
    requires 3 <= k <= 6
    ensures '\n' !in ReportLines(total, high, medium, low)[k]
  {
    DecimalSingle(total);
    DecimalSingle(high);
    DecimalSingle(medium);
    DecimalSingle(low);
  }

  lemma DecimalSingle(n: nat)
    ensures '\n' !in Decimal(n)
  {
    var d := Decimal(n);
    assert forall m :: 0 <= m < |d| ==> IsDigit(d[m]);
  }

  /** Stripping removes exactly the line breaks around the report. */
  lemma ReportTextIsJoin(total: nat, high: nat, medium: nat, low: nat)
    ensures ReportText(total, high, medium, low) == JoinLines(ReportLines(total, high, medium, low))
  {
    var lines := ReportLines(total, high, medium, low);
    ReportEnds(lines);
    StripFramed(JoinLines(lines));
  }

  /** The report starts with 'L' and ends with 'n'. */
  lemma ReportEnds(lines: seq<string>)
    requires |lines| == 12
    requires lines[0] == "LLM unavailable. " + "Generated fallback " + "incident summary."
    requires lines[11] == "- Monitor system " + "stability after " + "remediation"
    ensures var body := JoinLines(lines);
      body != [] && !IsSpace(body[0]) && !IsSpace(body[|body| - 1])
  {
    assert lines[0][0] == 'L';
    assert lines[11][|lines[11]| - 1] == 'n';
    JoinFirstChar(lines);
    JoinLastChar(lines);
  }

  /** The report text consists of exactly its twelve lines. */
  lemma ReportTextLines(total: nat, high: nat, medium: nat, low: nat)
    ensures SplitLines(ReportText(total, high, medium, low)) == ReportLines(total, high, medium, low)
  {
    ReportTextIsJoin(total, high, medium, low);
    ReportLinesSingle(total, high, medium, low);
    SplitJoin(ReportLines(total, high, medium, low));
  }

  /** The fallback report consists of exactly the twelve report lines for
      the entries' counts, among them "- Total events: N" and one line per
      severity tier, each number in decimal. */
  lemma FallbackSummaryLines(logs: seq<Entry>)
    ensures SplitLines(FallbackSummary(logs))
            == ReportLines(|logs|, CountSeverity(logs, "HIGH"),
                           CountSeverity(logs, "MEDIUM"), CountSeverity(logs, "LOW"))
  {
    ReportTextLines(|logs|, CountSeverity(logs, "HIGH"),
                    CountSeverity(logs, "MEDIUM"), CountSeverity(logs, "LOW"));
  }

  /** Line 3 of `lines` is "- Total events: " followed by decimal digits
      that read back as `total`. */
  predicate ReportsTotal(lines: seq<string>, total: nat) {
    var prefix := "- Total events: ";
    && |lines| > 3 && |prefix| < |lines[3]| && lines[3][..|prefix|] == prefix
    && (forall k :: |prefix| <= k < |lines[3]| ==> IsDigit(lines[3][k]))
    && DecimalValue(lines[3][|prefix|..]) == total
  }

  /** The number on the report's total line reads back as the total. */
  lemma TotalLine(total: nat, high: nat, medium: nat, low: nat)
    ensures ReportsTotal(ReportLines(total, high, medium, low), total)
  {
    var line := ReportLines(total, high, medium, low)[3];
    assert line[16..] == Decimal(total);
    DecimalRoundTrip(total);
  }

  /** The fallback report states the number of entries it covers. */
  lemma FallbackTotal(logs: seq<Entry>)
    ensures ReportsTotal(SplitLines(FallbackSummary(logs)), |logs|)
  {
    FallbackSummaryLines(logs);
    TotalLine(|logs|, CountSeverity(logs, "HIGH"), CountSeverity(logs, "MEDIUM"), CountSeverity(logs, "LOW"));
  }

  // ---------------------------------------------------------------------
  // The model's context and the choice of backend

  /** One entry as the model sees it: `[LEVEL] message`. */
  function Render(e: Entry): string
  {
    "[" + LevelName(e.level) + "] " + e.message
  }

  /** The first 50 entries (all of them when there are fewer). */
  function ContextEntries(logs: seq<Entry>): (r: seq<Entry>)
    ensures |r| == if |logs| < 50 then |logs| else 50
    ensures r == logs[..|r|]
  {
    if |logs| <= 50 then logs else logs[..50]
  }

  /** The context: the rendered first 50 entries, one per line. */
  function Context(logs: seq<Entry>): string
  {
    JoinLines(Map(Render, ContextEntries(logs)))
  }

  /** When no message holds a line break, the context splits back into
      one line per entry among the first 50, in order. */
  lemma ContextLines(logs: seq<Entry>)
    requires logs != []
    requires forall i :: 0 <= i < |logs| ==> '\n' !in logs[i].message
    ensures var lines := SplitLines(Context(logs));
      && |lines| == (if |logs| < 50 then |logs| else 50)
      && forall k :: 0 <= k < |lines| ==> lines[k] == Render(logs[k])
  {
    var rendered := Map(Render, ContextEntries(logs));
    forall k | 0 <= k < |rendered| ensures '\n' !in rendered[k] {
      var e := logs[k];
      assert rendered[k] == "[" + LevelName(e.level) + "] " + e.message;
      LevelNameSingle(e.level);
    }
    SplitJoin(rendered);
  }

  lemma LevelNameSingle(l: Level)
    ensures '\n' !in LevelName(l)
  {
  }

  /** The request sent to the model. */
  function Prompt(logs: seq<Entry>): string
  {
    "Summarize the following logs:\n" + Context(logs)
  }

  /** What the chat-completion request gave: the reply's text, or an
      exception. */
  datatype LlmOutcome = Reply(text: string) | Raised

  /** The model is asked only when its client library is installed and an
      API key is set and non-empty. */
  predicate LlmUsable(clientInstalled: bool, apiKey: Option<string>) {
    clientInstalled && apiKey.Some? && apiKey.value != []
  }

  /** `generate_incident_summary`: the fallback report unless the model is
      usable and answers; the model's reply otherwise. `request` stands
      for the client: given the key and the prompt, it answers or raises. */
  function GenerateIncidentSummary(logs: seq<Entry>, clientInstalled: bool, apiKey: Option<string>,
                                   request: (string, string) -> LlmOutcome): (r: string)
    ensures !LlmUsable(clientInstalled, apiKey) ==> r == FallbackSummary(logs)
    ensures LlmUsable(clientInstalled, apiKey) && request(apiKey.value, Prompt(logs)).Raised?
            ==> r == FallbackSummary(logs)
    ensures LlmUsable(clientInstalled, apiKey) && request(apiKey.value, Prompt(logs)).Reply?
            ==> r == request(apiKey.value, Prompt(logs)).text
  {
    if !clientInstalled || apiKey.None? || apiKey.value == [] then
      FallbackSummary(logs)
    else
      match request(apiKey.value, Prompt(logs))
      case Raised => FallbackSummary(logs)
      case Reply(text) => text
  }
}
