/** The records that flow between the stages: a parsed log line and a
    classified entry of the analysis result. */
module Records {
  import opened Text
  import ErrorClassifier

  /** The four levels the log pattern accepts. */
  datatype Level = INFO | WARN | ERROR | DEBUG

  /** The upper-case token for a level, as it appears in a log line. */
  function LevelName(l: Level): (r: string)
    ensures |r| >= 4 && 'A' <= r[0] <= 'Z'
  {
    match l
    case INFO => "INFO"
    case WARN => "WARN"
    case ERROR => "ERROR"
    case DEBUG => "DEBUG"
  }

  /** Every character of a level token is an upper-case letter, and no two
      levels share a token. */
  lemma LevelNameUpperCase(l: Level, m: Level)
    ensures forall k :: 0 <= k < |LevelName(l)| ==> 'A' <= LevelName(l)[k] <= 'Z'
    ensures LevelName(l) == LevelName(m) ==> l == m
  {
  }

  /** One line matched by the log pattern: its four named groups. */
  datatype LogEvent = LogEvent(timestamp: string, level: Level, component: string, message: string)

  /** One element of the analysis result: a parsed line with its category
      and the severity the severity table gave it. */
  datatype Entry = Entry(
    timestamp: string,
    level: Level,
    component: string,
    message: string,
    category: ErrorClassifier.Category,
    severity: string)
}
