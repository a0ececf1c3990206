/**
 * The chat-moderation engine of PumpChatMod.cs. Every message of a chat
 * pass goes through an ordered, short-circuiting pipeline: banned keyword,
 * banned mention, repetition, and last the verdict of the local model. The
 * repetition check keeps a table from message body to (last time, count);
 * the table lives in a `ChatModerator` object, is updated in place, and is
 * cleared at the start of every pass. The model's reply to a message is an
 * input (the `judgment` of a `ChatItem`).
 */
module Chat {
  import opened Wrappers
  import opened Text
  import Ai

  /** The moderation settings read from the JSON config file. */
  datatype ChatConfig = ChatConfig(
    bannedKeywords: seq<string>,
    bannedMentions: seq<string>,
    maxRepeatedMessages: int,
    aiPrompt: string)

  /** A config file whose fields are all missing: empty lists, `int.MaxValue`, empty prompt. */
  const DefaultConfig: ChatConfig := ChatConfig([], [], Int32Max, "")

  // ---------------------------------------------------------------------
  // Banned keyword and banned mention scans

  /** The `(found, keyword)` pair the two scans return. */
  datatype ScanResult = ScanResult(found: bool, keyword: string)

  /**
   * `banned.Any(b => { keyword = b; return message.Contains(b, OrdinalIgnoreCase); })`
   * where `keyword` held `last` before the call: the lambda overwrites the
   * captured `keyword` for every element it examines.
   */
  function ScanFrom(message: string, banned: seq<string>, last: string): ScanResult
    decreases |banned|
  {
    if |banned| == 0 then ScanResult(false, last)
    else if ContainsIgnoreCase(message, banned[0]) then ScanResult(true, banned[0])
    else ScanFrom(message, banned[1..], banned[0])
  }

  /**
   * `CheckIfContainsBannedKeyword` / `CheckIfContainsBannedMention`. A blank
   * message is `(false, "")`.
   */
  function Scan(message: string, banned: seq<string>): ScanResult {
    if AllWhite(message) then ScanResult(false, "") else ScanFrom(message, banned, "")
  }

  /** The banned terms, in list order, before position `i` do not occur in the message. */
  predicate NoneBefore(message: string, banned: seq<string>, i: int)
    requires 0 <= i <= |banned|
  {
    forall j :: 0 <= j < i ==> !ContainsIgnoreCase(message, banned[j])
  }

  /**
   * The scan finds a term exactly when some banned term occurs ignoring case;
   * it then reports the first such term in list order, and otherwise the
   * last term examined.
   */
  lemma {:induction false} ScanFromMeaning(message: string, banned: seq<string>, last: string)
    ensures var r := ScanFrom(message, banned, last);
      && (r.found <==> exists i :: 0 <= i < |banned| && ContainsIgnoreCase(message, banned[i]))
      && (r.found ==> exists i :: 0 <= i < |banned| && r.keyword == banned[i] && ContainsIgnoreCase(message, banned[i]) && NoneBefore(message, banned, i))
      && (!r.found ==> r.keyword == if |banned| == 0 then last else banned[|banned| - 1])
    decreases |banned|
  {
    if |banned| > 0 && !ContainsIgnoreCase(message, banned[0]) {
      var tail := banned[1..];
      ScanFromMeaning(message, tail, banned[0]);
      var r := ScanFrom(message, tail, banned[0]);
      assert forall i :: 1 <= i < |banned| ==> banned[i] == tail[i - 1];
      if r.found {
        var i :| 0 <= i < |tail| && r.keyword == tail[i] && ContainsIgnoreCase(message, tail[i]) && NoneBefore(message, tail, i);
        assert NoneBefore(message, banned, i + 1);
      }
    } else if |banned| > 0 {
      assert NoneBefore(message, banned, 0);
    }
  }

  /**
   * The two scans: a hit exactly when the message is not blank and some
   * banned term occurs in it ignoring case; the hit is the first such term
   * in list order; a miss leaves the last term examined (or "").
   */
  lemma ScanMeaning(message: string, banned: seq<string>)
    ensures var r := Scan(message, banned);
      && (r.found <==> !AllWhite(message) && exists i :: 0 <= i < |banned| && ContainsIgnoreCase(message, banned[i]))
      && (r.found ==> exists i :: 0 <= i < |banned| && r.keyword == banned[i] && ContainsIgnoreCase(message, banned[i]) && NoneBefore(message, banned, i))
      && (!r.found ==> r.keyword == if AllWhite(message) || |banned| == 0 then "" else banned[|banned| - 1])
  {
    ScanFromMeaning(message, banned, "");
  }

  // ---------------------------------------------------------------------
  // Repetition check

  /** A time of day in minutes, as `TimeSpan.Parse` reads "[ws]h:mm" or "[ws]hh:mm". */
  function ParseClock(s: string): (r: Option<int>)
    ensures r.Some? ==> 0 <= r.value < 24 * 60
  {
    var t := Trim(s);
    var colon := if |t| == 5 then 2 else 1;
    if (|t| == 4 || |t| == 5) && t[colon] == ':' && AllDigits(t[..colon]) && AllDigits(t[colon + 1..]) then
      var hours := DigitsValue(t[..colon]);
      var minutes := DigitsValue(t[colon + 1..]);
      if hours < 24 && minutes < 60 then Some(hours * 60 + minutes) else None
    else None
  }

  /** The digit that writes `n`. */
  function Digit(n: nat): char
    requires n < 10
  {
    ('0' as int + n) as char
  }

  /** "h:mm" (one hour digit) or "hh:mm" (two hour digits). */
  function ClockText(hours: nat, minutes: nat, twoDigitHours: bool): string
    requires hours < 24 && minutes < 60 && (twoDigitHours || hours < 10)
  {
    (if twoDigitHours then [Digit(hours / 10), Digit(hours % 10)] else [Digit(hours)])
      + ":" + [Digit(minutes / 10), Digit(minutes % 10)]
  }

  /** One digit, and two digits, read back as the number they write. */
  lemma DigitsRead(n: nat)
    requires n < 100
    ensures n < 10 ==> AllDigits([Digit(n)]) && DigitsValue([Digit(n)]) == n
    ensures AllDigits([Digit(n / 10), Digit(n % 10)]) && DigitsValue([Digit(n / 10), Digit(n % 10)]) == n
  {
    var d := [Digit(n / 10), Digit(n % 10)];
    assert d[..1] == [Digit(n / 10)] && [Digit(n / 10)][..0] == [];
    assert DigitsValue([Digit(n / 10)]) == n / 10;
    assert DigitsValue(d) == DigitsValue(d[..1]) * 10 + (Digit(n % 10) as int - '0' as int);
    assert n / 10 * 10 + n % 10 == n;
    if n < 10 {
      assert [Digit(n)][..0] == [];
    }
  }

  /** Where `ParseClock` looks in a clock text: the colon, and the hours and minutes around it. */
  lemma ClockTextParts(hours: nat, minutes: nat, twoDigitHours: bool)
    requires hours < 24 && minutes < 60 && (twoDigitHours || hours < 10)
    ensures var t := ClockText(hours, minutes, twoDigitHours);
      var colon := if |t| == 5 then 2 else 1;
      && (|t| == 4 || |t| == 5) && t[colon] == ':'
      && AllDigits(t[..colon]) && DigitsValue(t[..colon]) == hours
      && AllDigits(t[colon + 1..]) && DigitsValue(t[colon + 1..]) == minutes
      && !IsWhite(t[0]) && !IsWhite(t[|t| - 1])
  {
    var t := ClockText(hours, minutes, twoDigitHours);
    var colon := if twoDigitHours then 2 else 1;
    DigitsRead(hours);
    DigitsRead(minutes);
    assert t[colon + 1..] == [Digit(minutes / 10), Digit(minutes % 10)];
    if twoDigitHours {
      assert t[..colon] == [Digit(hours / 10), Digit(hours % 10)];
    } else {
      assert t[..colon] == [Digit(hours)];
    }
  }

  /** A time written "h:mm" or "hh:mm", padded with whitespace or not, reads as its minute of the day. */
  lemma ParseClockValue(hours: nat, minutes: nat, twoDigitHours: bool, lead: string, trail: string)
    requires hours < 24 && minutes < 60 && (twoDigitHours || hours < 10)
    requires AllWhite(lead) && AllWhite(trail)
    ensures ParseClock(lead + ClockText(hours, minutes, twoDigitHours) + trail) == Some(60 * hours + minutes)
  {
    ClockTextParts(hours, minutes, twoDigitHours);
    TrimPadded(lead, ClockText(hours, minutes, twoDigitHours), trail);
  }

  /** The separator around a chat message's body. */
  const BodyMarker: string := "\n\n"

  /** A message as the repetition check reads it: its time stamp and its trimmed body. */
  datatype Sighting = Sighting(time: int, body: string)

  /**
   * The first half of `CheckIfRepeatedMessage`: the last five characters
   * parsed as a time, and the body between the first and the last "\n\n",
   * trimmed. A message too short, with a bad time, or without two separate
   * markers throws.
   */
  function ParseSighting(message: string): Result<Sighting> {
    if |message| < 5 then Err("ArgumentOutOfRangeException")
    else
      match ParseClock(message[|message| - 5..])
      case None => Err("FormatException")
      case Some(time) =>
        var start := IndexOf(message, BodyMarker) + 2;
        var length := LastIndexOf(message, BodyMarker) - start;
        if length < 0 then Err("ArgumentOutOfRangeException")
        else Ok(Sighting(time, Trim(message[start..start + length])))
  }

  /**
   * A message parses exactly when it has at least five characters, its last
   * five read as a time, and its first "\n\n" ends no later than its last
   * "\n\n" starts; the body is the trimmed text between them.
   */
  lemma ParseSightingMeaning(message: string)
    ensures var r := ParseSighting(message);
      && (r.Ok? <==> (|message| >= 5 && ParseClock(message[|message| - 5..]).Some?
                      && 0 <= IndexOf(message, BodyMarker) && IndexOf(message, BodyMarker) + 2 <= LastIndexOf(message, BodyMarker)))
      && (r.Ok? ==> (r.value.time == ParseClock(message[|message| - 5..]).value
                     && r.value.body == Trim(message[IndexOf(message, BodyMarker) + 2..LastIndexOf(message, BodyMarker)])))
      && (!Contains(message, BodyMarker) ==> r.Err?)
  {
  }

  /** The repetition table's entry for one body. */
  datatype RepeatEntry = RepeatEntry(lastTime: int, counter: int)

  type RepeatTable = map<string, RepeatEntry>

  /** Two sightings of a body closer than this many minutes count as a repeat. */
  const RepeatWindowMinutes: int := 2

  /**
   * The table update: an unseen body is stored with count 1; a body seen
   * less than two minutes before gets the new time and count + 1; a later
   * sighting leaves the entry as it was.
   */
  function RecordSighting(table: RepeatTable, s: Sighting): RepeatTable {
    if s.body !in table then table[s.body := RepeatEntry(s.time, 1)]
    else if s.time - table[s.body].lastTime < RepeatWindowMinutes then
      table[s.body := RepeatEntry(s.time, table[s.body].counter + 1)]
    else table
  }

  /** The verdict of a repetition check and the table after it. */
  datatype RepeatStep = RepeatStep(verdict: Result<bool>, table: RepeatTable)

  /** `CheckIfRepeatedMessage` as a function of the table before it. */
  function RepeatCheck(maxRepeats: int, table: RepeatTable, message: string): RepeatStep {
    if AllWhite(message) then RepeatStep(Ok(false), table)
    else
      match ParseSighting(message)
      case Err(e) => RepeatStep(Err(e), table)
      case Ok(s) =>
        var t := RecordSighting(table, s);
        RepeatStep(Ok(t[s.body].counter >= maxRepeats), t)
  }

  /**
   * How a table may change in one step: no entry is dropped, a stored count
   * grows by at most one, and a new entry starts at one.
   */
  predicate CountStep(before: RepeatTable, after: RepeatTable) {
    && before.Keys <= after.Keys
    && forall k :: k in after ==>
         (k in before && before[k].counter <= after[k].counter <= before[k].counter + 1)
         || (k !in before && after[k].counter == 1)
  }

  /**
   * What one repetition check may do to the table: a blank or malformed
   * message leaves it unchanged; otherwise the table takes a `CountStep`,
   * and a positive verdict means some count reached the maximum.
   */
  lemma RepeatCheckFrame(maxRepeats: int, table: RepeatTable, message: string)
    ensures var r := RepeatCheck(maxRepeats, table, message);
      && (AllWhite(message) ==> r == RepeatStep(Ok(false), table))
      && (r.verdict.Err? ==> r.table == table)
      && CountStep(table, r.table)
      && (r.verdict == Ok(true) ==> exists k :: k in r.table && r.table[k].counter >= maxRepeats)
      && (!AllWhite(message) && ParseSighting(message).Ok? ==>
            var body := ParseSighting(message).value.body;
            body in r.table && r.verdict == Ok(r.table[body].counter >= maxRepeats))
  {
    if !AllWhite(message) && ParseSighting(message).Ok? {
      var s := ParseSighting(message).value;
      var t := RecordSighting(table, s);
      assert RepeatCheck(maxRepeats, table, message) == RepeatStep(Ok(t[s.body].counter >= maxRepeats), t);
      RecordSightingFrame(table, s);
    }
  }

  /** The table update stores the body and takes a `CountStep`. */
  lemma RecordSightingFrame(table: RepeatTable, s: Sighting)
    ensures var t := RecordSighting(table, s);
      s.body in t && CountStep(table, t)
    ensures var t := RecordSighting(table, s);
      forall k :: k != s.body ==> (k in t <==> k in table) && (k in table ==> t[k] == table[k])
    ensures s.body !in table ==> RecordSighting(table, s)[s.body] == RepeatEntry(s.time, 1)
    ensures s.body in table && s.time - table[s.body].lastTime < RepeatWindowMinutes ==>
      RecordSighting(table, s)[s.body] == RepeatEntry(s.time, table[s.body].counter + 1)
    ensures s.body in table && s.time - table[s.body].lastTime >= RepeatWindowMinutes ==>
      RecordSighting(table, s)[s.body] == table[s.body]
  {
    var t := RecordSighting(table, s);
    if s.body !in table {
      assert t == table[s.body := RepeatEntry(s.time, 1)];
    } else if s.time - table[s.body].lastTime < RepeatWindowMinutes {
      assert t == table[s.body := RepeatEntry(s.time, table[s.body].counter + 1)];
    } else {
      assert t == table;
    }
  }

  // ---------------------------------------------------------------------
  // The judgment of the local model

  /** `CheckWithAIModeration`: the trimmed, lower-cased reply contains "yes". */
  predicate JudgmentPositive(aiReply: string) {
    Contains(Lower(Trim(aiReply)), "yes")
  }

  /** Trimming does not change the verdict: "yes" has no white space, and lower-casing keeps white space. */
  lemma JudgmentIgnoresSurroundingWhitespace(aiReply: string)
    ensures JudgmentPositive(aiReply) <==> Contains(Lower(aiReply), "yes")
  {
    var yes := "yes";
    assert !IsWhite(yes[0]) && !IsWhite(yes[|yes| - 1]);
    ContainsLowerTrim(aiReply, yes);
  }

  /** The reply of a failed model call ("") is a negative verdict. */
  lemma FailedJudgmentIsNegative(updates: seq<Ai.Update>, k: nat)
    requires k < |updates| && !Ai.Readable(updates[k])
    ensures !JudgmentPositive(Ai.Reply(updates, Ai.ModerationReplyCap))
  {
    assert Ai.Reply(updates, Ai.ModerationReplyCap) == "";
    assert Lower(Trim("")) == "";
    assert IndexOf("", "yes") == -1;
  }

  // ---------------------------------------------------------------------
  // One message through the pipeline

  /** The stage of the pipeline that flagged a message. */
  datatype Stage = KeywordStage | MentionStage | RepeatStage | JudgmentStage

  /** What the loop body of `Mod` does with one message. */
  datatype Handling =
    | Deleted(stage: Stage, notices: seq<string>)  // deleted; `notices` are the `UX.WriteReply` texts, in order
    | Kept                                         // every check was negative
    | Skipped                                      // an exception ended this message's iteration

  /**
   * One chat message as the loop reads it: its inner text, its author's
   * handle and the reply `ModerateChat` would give for it; or a message
   * whose text or author could not be read.
   */
  datatype ChatItem = ChatItem(text: string, author: string, judgment: string) | Unreadable

  /** The notice of a keyword or mention deletion. */
  function WordNotice(author: string, word: string): string {
    "'" + author + "' msg deleted for using word '" + word + "'"
  }

  /** The notice written before a repeat deletion. */
  function SpamNotice(author: string, text: string): string {
    "'" + author + "' banned for spamming the same message several times: " + text
  }

  /** The notice of a deletion by the model; `word` is whatever the mention scan left in `checkResult`. */
  function JudgmentNotice(author: string, word: string): string {
    "'" + author + "' msg deleted by AI judgement: '" + word + "'"
  }

  /** The handling of one message and the repetition table after it. */
  datatype Step = Step(handling: Handling, table: RepeatTable)

  /** The pipeline for a readable message; `judgedHarmful` is the verdict the model would give (`CheckWithAIModeration`). */
  function Decide(cfg: ChatConfig, table: RepeatTable, text: string, author: string, judgedHarmful: bool): Step {
    var keyword := Scan(text, cfg.bannedKeywords);
    if keyword.found then Step(Deleted(KeywordStage, [WordNotice(author, keyword.keyword)]), table)
    else
      var mention := Scan(text, cfg.bannedMentions);
      if mention.found then Step(Deleted(MentionStage, [WordNotice(author, mention.keyword)]), table)
      else
        var repeat := RepeatCheck(cfg.maxRepeatedMessages, table, text);
        match repeat.verdict
        case Err(_) => Step(Skipped, repeat.table)
        case Ok(true) => Step(Deleted(RepeatStage, [SpamNotice(author, text), ""]), repeat.table)
        case Ok(false) =>
          if judgedHarmful then Step(Deleted(JudgmentStage, [JudgmentNotice(author, mention.keyword)]), repeat.table)
          else Step(Kept, repeat.table)
  }

  /** The loop body of `Mod` for one message. */
  function Handle(cfg: ChatConfig, table: RepeatTable, item: ChatItem): Step {
    match item
    case Unreadable => Step(Skipped, table)
    case ChatItem(text, author, judgment) => Decide(cfg, table, text, author, JudgmentPositive(judgment))
  }

  /**
   * Only the repetition check touches the table: a keyword or mention hit
   * leaves it as it was, and otherwise the table is the one the repetition
   * check leaves, and the message is a repeat deletion exactly when that
   * check's verdict is positive.
   */
  lemma DecideTable(cfg: ChatConfig, table: RepeatTable, text: string, author: string, harmful: bool)
    ensures var d := Decide(cfg, table, text, author, harmful);
      var repeat := RepeatCheck(cfg.maxRepeatedMessages, table, text);
      var early := Scan(text, cfg.bannedKeywords).found || Scan(text, cfg.bannedMentions).found;
      && (early ==> d.table == table && !(d.handling.Deleted? && d.handling.stage == RepeatStage))
      && (!early ==> (d.table == repeat.table
                      && (d.handling.Deleted? && d.handling.stage == RepeatStage <==> repeat.verdict == Ok(true))))
  {
    if !Scan(text, cfg.bannedKeywords).found && !Scan(text, cfg.bannedMentions).found {
      DecideAfterScans(cfg, table, text, author, harmful);
    }
  }

  /** Past the two scans, the pipeline's table and repeat verdict are the repetition check's. */
  lemma DecideAfterScans(cfg: ChatConfig, table: RepeatTable, text: string, author: string, harmful: bool)
    requires !Scan(text, cfg.bannedKeywords).found && !Scan(text, cfg.bannedMentions).found
    ensures var d := Decide(cfg, table, text, author, harmful);
      var repeat := RepeatCheck(cfg.maxRepeatedMessages, table, text);
      && d.table == repeat.table
      && (d.handling.Deleted? && d.handling.stage == RepeatStage <==> repeat.verdict == Ok(true))
  {
  }

  /** One message takes the table one `CountStep`; a repeat deletion means some count reached the maximum. */
  lemma HandleTableStep(cfg: ChatConfig, table: RepeatTable, item: ChatItem)
    ensures var st := Handle(cfg, table, item);
      && CountStep(table, st.table)
      && (st.handling.Deleted? && st.handling.stage == RepeatStage ==>
            exists k :: k in st.table && st.table[k].counter >= cfg.maxRepeatedMessages)
  {
    if item.ChatItem? {
      DecideTable(cfg, table, item.text, item.author, JudgmentPositive(item.judgment));
      RepeatCheckFrame(cfg.maxRepeatedMessages, table, item.text);
    }
  }

  /** The model was asked about the message. */
  predicate JudgmentConsulted(h: Handling) {
    h.Kept? || (h.Deleted? && h.stage == JudgmentStage)
  }

  /** The three deterministic checks all came out negative. */
  predicate EarlierChecksNegative(cfg: ChatConfig, table: RepeatTable, text: string) {
    && !Scan(text, cfg.bannedKeywords).found
    && !Scan(text, cfg.bannedMentions).found
    && RepeatCheck(cfg.maxRepeatedMessages, table, text).verdict == Ok(false)
  }

  /**
   * Short circuit: the model's reply matters, and the model is consulted,
   * exactly when the keyword, mention and repetition checks are negative;
   * otherwise the outcome is the same whatever the model would say.
   */
  lemma JudgmentOnlyAfterEarlierChecks(cfg: ChatConfig, table: RepeatTable, text: string, author: string, reply1: bool, reply2: bool)
    ensures JudgmentConsulted(Decide(cfg, table, text, author, reply1).handling) <==> EarlierChecksNegative(cfg, table, text)
    ensures !EarlierChecksNegative(cfg, table, text) ==> Decide(cfg, table, text, author, reply1) == Decide(cfg, table, text, author, reply2)
  {
  }

  /** A keyword hit deletes the message, cites the keyword, and leaves the table alone. */
  lemma KeywordHitStopsPipeline(cfg: ChatConfig, table: RepeatTable, text: string, author: string, harmful: bool)
    requires Scan(text, cfg.bannedKeywords).found
    ensures var k := Scan(text, cfg.bannedKeywords).keyword;
      Decide(cfg, table, text, author, harmful) == Step(Deleted(KeywordStage, [WordNotice(author, k)]), table)
      && k in cfg.bannedKeywords && ContainsIgnoreCase(text, k)
  {
    ScanMeaning(text, cfg.bannedKeywords);
  }

  /** A mention hit (with no keyword hit) deletes the message and leaves the table alone. */
  lemma MentionHitStopsPipeline(cfg: ChatConfig, table: RepeatTable, text: string, author: string, harmful: bool)
    requires !Scan(text, cfg.bannedKeywords).found && Scan(text, cfg.bannedMentions).found
    ensures var k := Scan(text, cfg.bannedMentions).keyword;
      Decide(cfg, table, text, author, harmful) == Step(Deleted(MentionStage, [WordNotice(author, k)]), table)
      && k in cfg.bannedMentions && ContainsIgnoreCase(text, k)
  {
    ScanMeaning(text, cfg.bannedMentions);
  }

  /** A malformed message that reaches the repetition check is skipped: no deletion, no model call, same table. */
  lemma MalformedMessageSkipped(cfg: ChatConfig, table: RepeatTable, text: string, author: string, harmful: bool)
    requires !Scan(text, cfg.bannedKeywords).found && !Scan(text, cfg.bannedMentions).found
    requires !AllWhite(text) && ParseSighting(text).Err?
    ensures Decide(cfg, table, text, author, harmful) == Step(Skipped, table)
  {
  }

  /**
   * With a maximum of 2 the second sighting of a body within the window is
   * flagged and the first is not (the count is compared with `>=`).
   */
  lemma SecondSightingFlaggedAtMaxTwo(cfg: ChatConfig, m1: string, m2: string, a1: string, a2: string, r1: bool, r2: bool)
    requires cfg.maxRepeatedMessages == 2
    requires !AllWhite(m1) && !AllWhite(m2)
    requires !Scan(m1, cfg.bannedKeywords).found && !Scan(m1, cfg.bannedMentions).found
    requires !Scan(m2, cfg.bannedKeywords).found && !Scan(m2, cfg.bannedMentions).found
    requires ParseSighting(m1).Ok? && ParseSighting(m2).Ok?
    requires ParseSighting(m1).value.body == ParseSighting(m2).value.body
    requires ParseSighting(m2).value.time - ParseSighting(m1).value.time < RepeatWindowMinutes
    ensures var first := Decide(cfg, map[], m1, a1, r1);
      !(first.handling.Deleted? && first.handling.stage == RepeatStage)
      && Decide(cfg, first.table, m2, a2, r2).handling == Deleted(RepeatStage, [SpamNotice(a2, m2), ""])
  {
  }

  /** A sighting two or more minutes after the stored one changes nothing: neither the count nor the time. */
  lemma LateSightingLeavesEntry(maxRepeats: int, table: RepeatTable, message: string)
    requires !AllWhite(message) && ParseSighting(message).Ok?
    requires var s := ParseSighting(message).value;
      s.body in table && s.time - table[s.body].lastTime >= RepeatWindowMinutes
    ensures var s := ParseSighting(message).value;
      RepeatCheck(maxRepeats, table, message) == RepeatStep(Ok(table[s.body].counter >= maxRepeats), table)
  {
  }

  /** The worked example: "this is a SCAM" from "bob" with banned keyword "scam". */
  lemma ScamExample(cfg: ChatConfig, table: RepeatTable, harmful: bool)
    requires cfg.bannedKeywords == ["scam"]
    ensures var d := Decide(cfg, table, "this is a SCAM", "bob", harmful);
      d.table == table && d.handling.Deleted? && d.handling.stage == KeywordStage
      && d.handling.notices == [WordNotice("bob", "scam")]
      && Contains(d.handling.notices[0], "bob") && Contains(d.handling.notices[0], "scam")
  {
    var msg := "this is a SCAM";
    assert !IsWhite(msg[0]);
    assert Lower(msg)[10..14] == "scam";
    assert Lower("scam") == "scam";
    ContainsWitness(Lower(msg), "scam", 10);
    ScanMeaning(msg, cfg.bannedKeywords);
    WordNoticeNames("bob", "scam");
  }

  /** A keyword or mention notice names the author and the term. */
  lemma WordNoticeNames(author: string, word: string)
    ensures Contains(WordNotice(author, word), author) && Contains(WordNotice(author, word), word)
  {
    var notice := WordNotice(author, word);
    var head := "'" + author;
    var tail := "' msg deleted for using word '" + word;
    assert notice == head + tail + "'";
    assert notice[1..1 + |author|] == author;
    ContainsWitness(notice, author, 1);
    var w := |notice| - 1 - |word|;
    assert notice[w..w + |word|] == word;
    ContainsWitness(notice, word, w);
  }

  // ---------------------------------------------------------------------
  // A moderation pass

  /** The handlings of the messages examined so far and the table after them. */
  datatype PassState = PassState(handled: seq<Handling>, table: RepeatTable)

  /** The loop body of a pass: the handling of one message, given the table before it. */
  type StepFn = (RepeatTable, ChatItem) -> Step

  /** The loop over `items` in order with `step` as its body, starting from an empty table. */
  function Fold(step: StepFn, items: seq<ChatItem>): (r: PassState)
    ensures |r.handled| == |items|
    decreases |items|
  {
    if |items| == 0 then PassState([], map[])
    else
      var before := Fold(step, items[..|items| - 1]);
      var after := step(before.table, items[|items| - 1]);
      PassState(before.handled + [after.handling], after.table)
  }

  /** The loop body of `Mod` under config `cfg`. */
  function HandleWith(cfg: ChatConfig): StepFn {
    (table, item) => Handle(cfg, table, item)
  }

  /** The pass over `items` in order, starting from the emptied table. */
  function Run(cfg: ChatConfig, items: seq<ChatItem>): PassState {
    Fold(HandleWith(cfg), items)
  }

  /** The messages `Mod` examines: all but the first one on the page. */
  function Examined(messages: seq<ChatItem>): seq<ChatItem> {
    if |messages| == 0 then [] else messages[1..]
  }

  /** The outcome of one pass of `Mod` over the messages on the page. */
  function ModerationPassOf(cfg: ChatConfig, messages: seq<ChatItem>): PassState {
    Run(cfg, Examined(messages))
  }

  /** The first message on the page never influences a pass. */
  lemma FirstMessageNeverExamined(cfg: ChatConfig, m0: ChatItem, m0': ChatItem, rest: seq<ChatItem>)
    ensures ModerationPassOf(cfg, [m0] + rest) == ModerationPassOf(cfg, [m0'] + rest)
  {
    assert ([m0] + rest)[1..] == rest == ([m0'] + rest)[1..];
  }

  /** Messages are handled in order: later messages do not change how earlier ones were handled. */
  lemma {:induction false} FoldPrefix(step: StepFn, items: seq<ChatItem>, k: nat)
    requires k <= |items|
    ensures Fold(step, items[..k]).handled == Fold(step, items).handled[..k]
    decreases |items|
  {
    if k < |items| {
      var init := items[..|items| - 1];
      FoldPrefix(step, init, k);
      assert init[..k] == items[..k];
    } else {
      assert items[..k] == items;
    }
  }

  /** Message `i` is handled with the table the messages before it left. */
  lemma FoldAt(step: StepFn, items: seq<ChatItem>, i: nat)
    requires i < |items|
    ensures var after := step(Fold(step, items[..i]).table, items[i]);
      Fold(step, items).handled[i] == after.handling && Fold(step, items[..i + 1]).table == after.table
  {
    var p := items[..i + 1];
    var before := Fold(step, items[..i]);
    var after := step(before.table, items[i]);
    assert Fold(step, p).handled == Fold(step, items).handled[..i + 1] by {
      FoldPrefix(step, items, i + 1);
    }
    assert Fold(step, p) == PassState(before.handled + [after.handling], after.table) by {
      FoldLast(step, p);
      assert p[..i] == items[..i];
      assert p[i] == items[i];
    }
  }

  /** The last step of a fold. */
  lemma FoldLast(step: StepFn, items: seq<ChatItem>)
    requires |items| > 0
    ensures var before := Fold(step, items[..|items| - 1]);
      var after := step(before.table, items[|items| - 1]);
      Fold(step, items) == PassState(before.handled + [after.handling], after.table)
  {
  }

  /** When every step is a `CountStep`, every count is at least 1 and at most the number of messages. */
  lemma {:induction false} FoldCountersBounded(step: StepFn, items: seq<ChatItem>)
    requires forall table, item :: CountStep(table, step(table, item).table)
    ensures forall k :: k in Fold(step, items).table ==> 1 <= Fold(step, items).table[k].counter <= |items|
    decreases |items|
  {
    if |items| > 0 {
      var before := Fold(step, items[..|items| - 1]);
      FoldCountersBounded(step, items[..|items| - 1]);
      assert CountStep(before.table, step(before.table, items[|items| - 1]).table);
    }
  }

  /** Every step of a pass is a `CountStep`. */
  lemma HandleWithCounts(cfg: ChatConfig)
    ensures forall table, item :: CountStep(table, HandleWith(cfg)(table, item).table)
  {
    forall table, item
      ensures CountStep(table, HandleWith(cfg)(table, item).table)
    {
      HandleTableStep(cfg, table, item);
    }
  }

  /** During a pass every count is at least 1 and at most the number of messages examined. */
  lemma CountersBounded(cfg: ChatConfig, items: seq<ChatItem>)
    ensures forall k :: k in Run(cfg, items).table ==> 1 <= Run(cfg, items).table[k].counter <= |items|
  {
    HandleWithCounts(cfg);
    FoldCountersBounded(HandleWith(cfg), items);
  }

  /**
   * The repetition stage can flag message `i` of a pass only when the
   * maximum is at most `i + 1`; with the default maximum (`int.MaxValue`)
   * it never fires on a realistic page.
   */
  lemma RepeatFlagNeedsEnoughMessages(cfg: ChatConfig, items: seq<ChatItem>, i: nat)
    requires i < |items|
    requires Run(cfg, items).handled[i].Deleted? && Run(cfg, items).handled[i].stage == RepeatStage
    ensures cfg.maxRepeatedMessages <= i + 1
  {
    var before := Run(cfg, items[..i]).table;
    FoldAt(HandleWith(cfg), items, i);
    CountersBounded(cfg, items[..i]);
    HandleTableStep(cfg, before, items[i]);
  }

  // ---------------------------------------------------------------------
  // The moderator object

  /** The moderation engine: its config and the repetition table it updates in place. */
  class ChatModerator {
    var config: ChatConfig
    var repeatedMessages: RepeatTable

    constructor (config: ChatConfig)
      ensures this.config == config && repeatedMessages == map[]
    {
      this.config := config;
      repeatedMessages := map[];
    }

    /** `CheckIfRepeatedMessage`: updates the table and says whether the count reached the maximum. */
    method CheckIfRepeatedMessage(message: string) returns (verdict: Result<bool>)
      modifies this`repeatedMessages
      ensures var step := RepeatCheck(config.maxRepeatedMessages, old(repeatedMessages), message);
        verdict == step.verdict && repeatedMessages == step.table
    {
      if AllWhite(message) {
        return Ok(false);
      }
      var parsed := ParseSighting(message);
      if parsed.Err? {
        return Err(parsed.exception);
      }
      var s := parsed.value;
      if s.body !in repeatedMessages {
        repeatedMessages := repeatedMessages[s.body := RepeatEntry(s.time, 1)];
      } else if s.time - repeatedMessages[s.body].lastTime < RepeatWindowMinutes {
        repeatedMessages := repeatedMessages[s.body := RepeatEntry(s.time, repeatedMessages[s.body].counter + 1)];
      }
      verdict := Ok(repeatedMessages[s.body].counter >= config.maxRepeatedMessages);
    }

    /** The body of `Mod`'s message loop, with its `hammerOfJustice` and `hammerMsg` flags. */
    method HandleMessage(item: ChatItem) returns (handling: Handling)
      modifies this`repeatedMessages
      ensures Handle(config, old(repeatedMessages), item) == Step(handling, repeatedMessages)
    {
      if item.Unreadable? {
        return Skipped;
      }
      var text, author := item.text, item.author;
      var hammerOfJustice := false;
      var hammerMsg := "";
      var stage := KeywordStage;
      var notices: seq<string> := [];

      var checkResult := Scan(text, config.bannedKeywords);
      if checkResult.found {
        hammerMsg := WordNotice(author, checkResult.keyword);
        hammerOfJustice := true;
        assert notices + [hammerMsg] == [hammerMsg];
      } else {
        checkResult := Scan(text, config.bannedMentions);
        if checkResult.found {
          hammerMsg := WordNotice(author, checkResult.keyword);
          hammerOfJustice := true;
          stage := MentionStage;
          assert notices + [hammerMsg] == [hammerMsg];
        } else {
          var repeated := CheckIfRepeatedMessage(text);
          if repeated.Err? {
            return Skipped;
          }
          if repeated.value {
            notices := [SpamNotice(author, text)];
            hammerOfJustice := true;
            stage := RepeatStage;
            assert notices + [hammerMsg] == [SpamNotice(author, text), ""];
          } else if JudgmentPositive(item.judgment) {
            hammerMsg := JudgmentNotice(author, checkResult.keyword);
            hammerOfJustice := true;
            stage := JudgmentStage;
            assert notices + [hammerMsg] == [hammerMsg];
          }
        }
      }

      if hammerOfJustice {
        handling := Deleted(stage, notices + [hammerMsg]);
      } else {
        handling := Kept;
      }
    }

    /** One pass of `Mod`: clear the table, then handle messages 1 .. count - 1 in order. */
    method ModerationPass(messages: seq<ChatItem>) returns (handled: seq<Handling>)
      modifies this`repeatedMessages
      ensures ModerationPassOf(config, messages) == PassState(handled, repeatedMessages)
    {
      repeatedMessages := map[];
      handled := [];
      if |messages| == 0 {
        return;
      }
      var m := 1;
      while m < |messages|
        invariant 1 <= m <= |messages|
        invariant Run(config, messages[1..m]) == PassState(handled, repeatedMessages)
      {
        var handling := HandleMessage(messages[m]);
        assert messages[1..m + 1][..m - 1] == messages[1..m];
        handled := handled + [handling];
        m := m + 1;
      }
      assert messages[1..m] == Examined(messages);
    }
  }
}
