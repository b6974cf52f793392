/** The keyword rule that gives an error message its category. */
module ErrorClassifier {
  import opened Text

  datatype Category = DATABASE | TIMEOUT | API | MEMORY | UNKNOWN

  /** The message, lower-cased, has "database" or "db" somewhere in it. */
  ghost predicate MentionsDatabase(m: string) {
    Occurs(Lower(m), "database") || Occurs(Lower(m), "db")
  }

  ghost predicate MentionsTimeout(m: string) {
    Occurs(Lower(m), "timeout")
  }

  ghost predicate MentionsApi(m: string) {
    Occurs(Lower(m), "api")
  }

  ghost predicate MentionsMemory(m: string) {
    Occurs(Lower(m), "memory")
  }

  /** The category of a message: the first rule that fires, in the order
      database, timeout, api, memory; otherwise UNKNOWN. */
  function Classify(message: string): (c: Category)
  {
    var msg := Lower(message);
    if Contains(msg, "database") || Contains(msg, "db") then DATABASE
    else if Contains(msg, "timeout") then TIMEOUT
    else if Contains(msg, "api") then API
    else if Contains(msg, "memory") then MEMORY
    else UNKNOWN
  }

  /** The left-to-right scans of `Classify` find exactly the keywords
      that occur in the lower-cased message. */
  lemma ScansFindMentions(m: string)
    ensures MentionsDatabase(m) <==> Contains(Lower(m), "database") || Contains(Lower(m), "db")
    ensures MentionsTimeout(m) <==> Contains(Lower(m), "timeout")
    ensures MentionsApi(m) <==> Contains(Lower(m), "api")
    ensures MentionsMemory(m) <==> Contains(Lower(m), "memory")
  {
    var l := Lower(m);
    ContainsIffOccurs(l, "database");
    ContainsIffOccurs(l, "db");
    ContainsIffOccurs(l, "timeout");
    ContainsIffOccurs(l, "api");
    ContainsIffOccurs(l, "memory");
  }

  /** A database mention wins over every other keyword. */
  lemma DatabaseFirst(m: string)
    ensures Classify(m) == DATABASE <==> MentionsDatabase(m)
  {
    ScansFindMentions(m);
  }

  /** TIMEOUT needs a timeout mention and no database mention. */
  lemma TimeoutOnly(m: string)
    ensures Classify(m) == TIMEOUT <==> !MentionsDatabase(m) && MentionsTimeout(m)
  {
    ScansFindMentions(m);
  }

  /** API needs an "api" substring and none of the earlier keywords. */
  lemma ApiOnly(m: string)
    ensures Classify(m) == API
            <==> !MentionsDatabase(m) && !MentionsTimeout(m) && MentionsApi(m)
  {
    ScansFindMentions(m);
  }

  /** MEMORY needs a memory mention and none of the earlier keywords. */
  lemma MemoryOnly(m: string)
    ensures Classify(m) == MEMORY
            <==> !MentionsDatabase(m) && !MentionsTimeout(m) && !MentionsApi(m) && MentionsMemory(m)
  {
    ScansFindMentions(m);
  }

  /** UNKNOWN exactly when none of the five substrings occurs. */
  lemma UnknownIffNoKeyword(m: string)
    ensures Classify(m) == UNKNOWN
            <==> !MentionsDatabase(m) && !MentionsTimeout(m) && !MentionsApi(m) && !MentionsMemory(m)
  {
    ScansFindMentions(m);
  }

  /** The rule ignores letter case. */
  lemma CaseInsensitive(m: string)
    ensures Classify(Lower(m)) == Classify(m)
  {
    LowerIdempotent(m);
  }

  /** A message naming both a database and a timeout is a DATABASE error. */
  lemma DatabaseBeatsTimeout()
    ensures Classify("Database connection timeout") == DATABASE
  {
    assert "Database connection timeout" == "Database" + " connection timeout";
    DatabaseFirstWord(" connection timeout");
  }

  lemma DatabaseFirstWord(rest: string)
    ensures Classify("Database" + rest) == DATABASE
  {
    var l := Lower("Database" + rest);
    assert l[..8] == "database";
  }

  /** "api" is found inside a longer word. */
  lemma ApiInsideWord()
    ensures Classify("capital") == API
  {
    assert Lower("capital") == "capital";
  }

  /** The empty message is UNKNOWN. */
  lemma EmptyIsUnknown()
    ensures Classify("") == UNKNOWN
  {
  }
}
