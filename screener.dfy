/**
 * The coin screener of Screener.cs: walk the first few coins of the board,
 * pick the first one whose all-time-high progress and trader count are high
 * enough and whose address was not reported in the last three minutes, and
 * build its report from the Dex and Axiom pages. What the browser would read
 * for a candidate is a field of `Candidate`; a read that throws is `None`.
 */
module Screening {
  import opened Wrappers
  import opened Text

  /** At most this many coins of the board are examined in one pass. */
  const ScanLimit: nat := 5

  /** An address reported less than this many seconds ago is skipped. */
  const CooldownSeconds: int := 180

  /** The prefix the coin link is appended to before unescaping. */
  const AdvancedPrefix: string := "https://pump.fun/advanced"

  /**
   * What one row of the board yields when read:
   * `progress` is 100 plus the progress bar's `translateX` percentage (`None`
   * when the style does not match and `double.Parse` throws); `sparkle` is
   * the visibility of the sparkle marker; `traders`, `name` and `symbol` are
   * cell texts (`None` when the read times out); `href` is the link (null
   * reads as ""); `dexPage` and `axiomPage` are the inner texts the two
   * fetches would read for the coin's address (`None` when a fetch fails).
   */
  datatype Candidate = Candidate(
    progress: Option<real>,
    sparkle: bool,
    traders: Option<string>,
    name: Option<string>,
    symbol: Option<string>,
    href: string,
    dexPage: Option<string>,
    axiomPage: Option<string>)

  // ---------------------------------------------------------------------
  // Traders

  /**
   * The traders cell: "" or "-" stands for "0" (which parses to 0); other
   * text loses its commas and goes to `int.Parse` (`None` if it throws).
   */
  function TradersCount(text: string): Option<int> {
    if text == "" || text == "-" then Some(0) else ParseInt32(ReplaceAll(text, ",", ""))
  }

  /** The placeholder "0" the source substitutes parses to 0. */
  lemma PlaceholderParses()
    ensures ParseInt32(ReplaceAll("0", ",", "")) == Some(0)
  {
    var d := Decimal(0);
    assert d == "0";
    DecimalHasNoCommas(0);
    ReplaceAllAbsent(d, ",", "");
    ParseDecimal(0);
  }

  /** A decimal rendering has no thousands separators. */
  lemma DecimalHasNoCommas(n: nat)
    ensures !Contains(Decimal(n), ",")
  {
    var d := Decimal(n);
    if Contains(d, ",") {
      var j := ContainsGives(d, ",");
      MatchChar(d, ",", j, 0);
      assert false;
    }
  }

  /** A count written in decimal reads back as itself. */
  lemma TradersDecimal(n: nat)
    requires n <= Int32Max
    ensures TradersCount(Decimal(n)) == Some(n)
  {
    var d := Decimal(n);
    assert d != "" && d[0] != '-' by {
      assert IsDigit(d[0]);
    }
    assert d != "-";
    DecimalHasNoCommas(n);
    ReplaceAllAbsent(d, ",", "");
    ParseDecimal(n);
  }

  /** The text that reaches `int.Parse` has no commas. */
  lemma TradersParseSeesNoCommas(text: string)
    ensures ',' !in ReplaceAll(text, ",", "")
  {
    ReplaceAllRemovesChar(text, ',', "");
  }

  // ---------------------------------------------------------------------
  // Qualification

  /**
   * The qualification test of a row: ATH progress above the minimum or a
   * sparkle, and at least the minimum number of traders; `Err` when one of
   * the reads it needs throws.
   */
  function Qualifies(minAthPct: int, minHolders: int, c: Candidate): Result<bool> {
    match c.progress
    case None => Err("FormatException")
    case Some(p) =>
      var athBarIsGood := p > minAthPct as real || c.sparkle;
      match c.traders
      case None => Err("TimeoutException")
      case Some(t) =>
        match TradersCount(t)
        case None => Err("FormatException")
        case Some(traders) => Ok(athBarIsGood && traders >= minHolders)
  }

  /** A row qualifies exactly when its reads succeed and it passes both thresholds. */
  lemma QualifiesMeaning(minAthPct: int, minHolders: int, c: Candidate)
    ensures Qualifies(minAthPct, minHolders, c) == Ok(true) <==>
      && c.progress.Some? && c.traders.Some? && TradersCount(c.traders.value).Some?
      && (c.progress.value > minAthPct as real || c.sparkle)
      && TradersCount(c.traders.value).value >= minHolders
    ensures Qualifies(minAthPct, minHolders, c).Err? <==>
      c.progress.None? || c.traders.None? || TradersCount(c.traders.value).None?
  {
  }

  // ---------------------------------------------------------------------
  // The coin's address

  predicate IsHexDigit(c: char) {
    ('0' <= c <= '9') || ('a' <= c <= 'f') || ('A' <= c <= 'F')
  }

  function HexValue(c: char): int
    requires IsHexDigit(c)
  {
    if '0' <= c <= '9' then c as int - '0' as int
    else if 'a' <= c <= 'f' then c as int - 'a' as int + 10
    else c as int - 'A' as int + 10
  }

  /** `Uri.UnescapeDataString` on ASCII escapes: each `%hh` below 0x80 is decoded, the rest kept. */
  function Unescape(s: string): (r: string)
    ensures |r| <= |s|
    decreases |s|
  {
    if |s| == 0 then ""
    else if |s| >= 3 && s[0] == '%' && IsHexDigit(s[1]) && IsHexDigit(s[2])
      && HexValue(s[1]) * 16 + HexValue(s[2]) < 0x80
    then [(HexValue(s[1]) * 16 + HexValue(s[2])) as char] + Unescape(s[3..])
    else [s[0]] + Unescape(s[1..])
  }

  /** Text without '%' is not changed by unescaping. */
  lemma {:induction false} UnescapePlain(s: string)
    requires '%' !in s
    ensures Unescape(s) == s
    decreases |s|
  {
    if |s| > 0 {
      assert s[0] != '%';
      assert '%' !in s[1..];
      UnescapePlain(s[1..]);
    }
  }

  /** Unescaping leaves a leading run without '%' as it is. */
  lemma {:induction false} UnescapePlainPrefix(p: string, h: string)
    requires '%' !in p
    ensures Unescape(p + h) == p + Unescape(h)
    decreases |p|
  {
    if |p| > 0 {
      assert (p + h)[0] == p[0] && (p + h)[1..] == p[1..] + h;
      assert '%' !in p[1..];
      UnescapePlainPrefix(p[1..], h);
      assert Unescape(p + h) == [p[0]] + Unescape(p[1..] + h);
      assert p == [p[0]] + p[1..];
    } else {
      assert p + h == h;
    }
  }

  /**
   * The coin's address: the part after the last '/' of the unescaped
   * `AdvancedPrefix + href`.
   */
  function AddressOf(href: string): string {
    var url := Unescape(AdvancedPrefix + href);
    url[LastIndexOf(url, "/") + 1..]
  }

  /** The tail after the last '/' of a text is '/'-free. */
  lemma SlashFreeTail(url: string)
    ensures '/' !in url[LastIndexOf(url, "/") + 1..]
  {
    var i := LastIndexOf(url, "/");
    var a := url[i + 1..];
    forall k | 0 <= k < |a| ensures a[k] != '/' {
      assert !MatchAt(url, "/", i + 1 + k);
      assert url[i + 1 + k..i + 1 + k + 1] == [url[i + 1 + k]];
    }
  }

  /** When the text holds a '/', the last one sits just before the tail. */
  lemma SlashBeforeTail(url: string)
    requires '/' in url
    ensures var i := LastIndexOf(url, "/");
      0 <= i < |url| && url[i] == '/'
  {
    var m :| 0 <= m < |url| && url[m] == '/';
    assert url[m..m + 1] == "/";
    assert MatchAt(url, "/", m);
    MatchChar(url, "/", LastIndexOf(url, "/"), 0);
  }

  /** The fixed part of the link has no escapes and holds a '/'. */
  lemma AdvancedPrefixPlain()
    ensures '%' !in AdvancedPrefix && '/' in AdvancedPrefix
  {
    assert AdvancedPrefix[6] == '/';
  }

  /** The address is the '/'-free tail after the last '/' of the unescaped link. */
  lemma AddressMeaning(href: string)
    ensures var url := Unescape(AdvancedPrefix + href);
      && EndsWith(url, AddressOf(href))
      && '/' !in AddressOf(href)
      && |AddressOf(href)| < |url| && url[|url| - |AddressOf(href)| - 1] == '/'
  {
    AdvancedPrefixPlain();
    UnescapePlainPrefix(AdvancedPrefix, href);
    var url := Unescape(AdvancedPrefix + href);
    assert url[..|AdvancedPrefix|] == AdvancedPrefix;
    assert '/' in url;
    SlashFreeTail(url);
    SlashBeforeTail(url);
  }

  // ---------------------------------------------------------------------
  // The two fetch results

  /**
   * `GetDexData`'s shaping: remove from the earlier of "Buy" and "Ad\n" to
   * just past "5M". `String.Remove` throws when the start is negative, the
   * count negative, or the range runs past the end.
   */
  function DexSummary(info: string): Result<string> {
    var buy := IndexOf(info, "Buy");
    var ad := IndexOf(info, "Ad\n");
    var startIndex := if buy <= ad then buy else ad;
    var endIndex := IndexOf(info, "5M");
    var count := endIndex + 2 - startIndex;
    if startIndex < 0 || count < 0 || startIndex + count > |info| then Err("ArgumentOutOfRangeException")
    else Ok(info[..startIndex] + info[startIndex + count..])
  }

  /**
   * The Dex text is shaped only when both "Buy" and "Ad\n" occur (the start
   * is the smaller index, so a missing marker makes it -1) and "5M" ends no
   * earlier than that start; the result is the text with that range removed.
   */
  lemma DexSummaryMeaning(info: string)
    ensures var s := if IndexOf(info, "Buy") <= IndexOf(info, "Ad\n") then IndexOf(info, "Buy") else IndexOf(info, "Ad\n");
      var e := IndexOf(info, "5M") + 2;
      && (DexSummary(info).Ok? <==> Contains(info, "Buy") && Contains(info, "Ad\n") && s <= e)
      && (DexSummary(info).Ok? ==>
            (DexSummary(info).value == info[..s] + info[e..] && |DexSummary(info).value| == |info| - (e - s)))
  {
    var e := IndexOf(info, "5M");
    if e >= 0 {
      assert MatchAt(info, "5M", e);
    }
  }

  /**
   * `GetAxiomData`'s pairing of the lines before "CA": line 2k+1, " : ",
   * line 2k.
   */
  function Pairs(lines: seq<string>): (r: seq<string>)
    ensures |r| == |lines| / 2
  {
    seq(|lines| / 2, k requires 0 <= k < |lines| / 2 => lines[2 * k + 1] + " : " + lines[2 * k])
  }

  /** The lines `GetAxiomData` pairs: the non-empty lines before the first "CA". */
  function AxiomLines(info: string): Option<seq<string>> {
    var ca := IndexOf(info, "CA");
    if ca < 0 then None else Some(NonEmptyLines(info[..ca]))
  }

  /**
   * `GetAxiomData`'s shaping: the text is cut at the first "CA" (throwing
   * when there is none), split into non-empty lines, and consecutive pairs
   * are joined by `nl`; an odd number of lines throws on the last pair.
   */
  function AxiomSummary(info: string, nl: string): Result<string> {
    match AxiomLines(info)
    case None => Err("ArgumentOutOfRangeException")
    case Some(lines) =>
      if |lines| % 2 == 1 then Err("InvalidOperationException")
      else Ok(Join(Pairs(lines), nl))
  }

  /** The errors of the Axiom shaping: no "CA", or an odd number of lines before it. */
  lemma AxiomSummaryErrors(info: string, nl: string)
    ensures AxiomSummary(info, nl).Err? <==>
      !Contains(info, "CA") || |NonEmptyLines(info[..IndexOf(info, "CA")])| % 2 == 1
  {
  }

  /**
   * With "\n" as the line terminator the summary has one line per pair:
   * breaking it into non-empty lines gives back exactly the pairs.
   */
  lemma AxiomSummaryLines(info: string)
    requires AxiomSummary(info, "\n").Ok?
    ensures NonEmptyLines(AxiomSummary(info, "\n").value) == Pairs(AxiomLines(info).value)
    ensures |NonEmptyLines(AxiomSummary(info, "\n").value)| == |AxiomLines(info).value| / 2
  {
    var lines := AxiomLines(info).value;
    var pairs := Pairs(lines);
    forall k | 0 <= k < |pairs| ensures IsLine(pairs[k]) {
      PairIsLine(lines[2 * k + 1], lines[2 * k]);
    }
    NonEmptyLinesJoin(pairs);
  }

  /** A pair of lines joined by " : " is again a line. */
  lemma PairIsLine(a: string, b: string)
    requires IsLine(a) && IsLine(b)
    ensures IsLine(a + " : " + b)
  {
    var p := a + " : " + b;
    forall i | 0 <= i < |p| ensures !IsLineBreak(p[i]) {
      if i < |a| {
        assert p[i] == a[i];
      } else if i >= |a| + 3 {
        assert p[i] == b[i - |a| - 3];
      }
    }
  }

  // ---------------------------------------------------------------------
  // One candidate

  /** A qualifying coin with everything its report needs. */
  datatype Found = Found(name: string, address: string, dex: string, axiom: string)

  /**
   * The loop body of `Screen` up to the cooldown test: `Err` when a read or
   * a fetch throws, `None` when the row does not qualify, otherwise the coin
   * with its address and both shaped fetch results (fetched before the
   * cooldown is consulted).
   */
  function Inspect(minAthPct: int, minHolders: int, c: Candidate, nl: string): Result<Option<Found>> {
    match Qualifies(minAthPct, minHolders, c)
    case Err(e) => Err(e)
    case Ok(false) => Ok(None)
    case Ok(true) =>
      if c.name.None? || c.symbol.None? then Err("TimeoutException")
      else if c.dexPage.None? || c.axiomPage.None? then Err("PlaywrightException")
      else
        var address := AddressOf(c.href);
        match DexSummary(c.dexPage.value)
        case Err(e) => Err(e)
        case Ok(dex) =>
          match AxiomSummary(c.axiomPage.value, nl)
          case Err(e) => Err(e)
          case Ok(axiom) => Ok(Some(Found(c.name.value, address, dex, axiom)))
  }

  /** The report of a found coin, in the fixed layout the evaluator receives. */
  function ReportText(f: Found): (r: string)
    ensures |r| > 0
  {
    "Data for `" + f.name + "`, address `" + f.address + "`, is:\nDexScreener coin trading information:\n"
      + f.dex + "\nAxion coin metrics:\n" + f.axiom + "\n"
  }

  // ---------------------------------------------------------------------
  // A screening pass

  /** The table of last report times, by address (seconds). */
  type ScanTable = map<string, int>

  /** The address was reported less than `CooldownSeconds` before `now`. */
  predicate OnCooldown(table: ScanTable, address: string, now: int) {
    address in table && now - table[address] < CooldownSeconds
  }

  /** How a pass ends. */
  datatype Outcome =
    | Aborted                          // an exception: the pass returns ""
    | NothingFound                     // the loop ran out: the pass returns ""
    | Reported(index: nat, coin: Found)

  /** The number of rows examined: `Math.Min(count, 5)`. */
  function Limit(candidates: seq<Candidate>): nat {
    if |candidates| < ScanLimit then |candidates| else ScanLimit
  }

  /** What the loop body yields for each examined row. */
  type Row = Result<Option<Found>>

  /** The loop body as a function of the row, for given thresholds and line terminator. */
  function Inspector(minAthPct: int, minHolders: int, nl: string): Candidate -> Row {
    c => Inspect(minAthPct, minHolders, c, nl)
  }

  /** The rows of one pass: the loop body on each of the first `Limit` candidates. */
  function Rows(inspect: Candidate -> Row, candidates: seq<Candidate>): (r: seq<Row>)
    ensures |r| == Limit(candidates)
    ensures forall i :: 0 <= i < |r| ==> r[i] == inspect(candidates[i])
  {
    seq(Limit(candidates), i requires 0 <= i < Limit(candidates) => inspect(candidates[i]))
  }

  /** The loop of `Screen` from row `i` on, with the table as it stands. */
  function Walk(rows: seq<Row>, table: ScanTable, now: int, i: nat): Outcome
    requires i <= |rows|
    decreases |rows| - i
  {
    if i == |rows| then NothingFound
    else
      match rows[i]
      case Err(_) => Aborted
      case Ok(None) => Walk(rows, table, now, i + 1)
      case Ok(Some(f)) =>
        if OnCooldown(table, f.address, now) then Walk(rows, table, now, i + 1)
        else Reported(i, f)
  }

  /** How a whole pass ends. */
  function ScreenOutcome(minAthPct: int, minHolders: int, table: ScanTable, candidates: seq<Candidate>,
                         now: int, nl: string): Outcome
  {
    Walk(Rows(Inspector(minAthPct, minHolders, nl), candidates), table, now, 0)
  }

  /** What `Screen` returns for an outcome. */
  function ReportOf(o: Outcome): string {
    if o.Reported? then ReportText(o.coin) else ""
  }

  /** The table after a pass: the reported address is stamped with `now`. */
  function TableAfter(table: ScanTable, o: Outcome, now: int): ScanTable {
    if o.Reported? then table[o.coin.address := now] else table
  }

  /** A pass returns a non-empty report exactly when it reports a coin. */
  lemma ReportNonEmptyIffReported(o: Outcome)
    ensures ReportOf(o) != "" <==> o.Reported?
  {
  }

  /** A row the loop passes over: read without error, and not qualifying or on cooldown. */
  predicate Skippable(row: Row, table: ScanTable, now: int) {
    match row
    case Err(_) => false
    case Ok(None) => true
    case Ok(Some(f)) => OnCooldown(table, f.address, now)
  }

  /** The walk reports row `k` after passing over every row before it. */
  lemma {:induction false} WalkReported(rows: seq<Row>, table: ScanTable, now: int, i: nat)
    requires i <= |rows|
    requires Walk(rows, table, now, i).Reported?
    ensures var o := Walk(rows, table, now, i);
      && i <= o.index < |rows|
      && rows[o.index] == Ok(Some(o.coin))
      && !OnCooldown(table, o.coin.address, now)
      && forall j :: i <= j < o.index ==> Skippable(rows[j], table, now)
    decreases |rows| - i
  {
    if Skippable(rows[i], table, now) {
      WalkReported(rows, table, now, i + 1);
    }
  }

  /** The walk aborts exactly at an error row all of whose predecessors were passed over. */
  lemma {:induction false} WalkAborted(rows: seq<Row>, table: ScanTable, now: int, i: nat)
    requires i <= |rows|
    ensures Walk(rows, table, now, i) == Aborted <==>
      (exists k :: i <= k < |rows| && rows[k].Err? && forall j :: i <= j < k ==> Skippable(rows[j], table, now))
    decreases |rows| - i
  {
    if i < |rows| {
      WalkAborted(rows, table, now, i + 1);
      if rows[i].Err? {
      } else if Skippable(rows[i], table, now) {
        if exists k :: i <= k < |rows| && rows[k].Err? && forall j :: i <= j < k ==> Skippable(rows[j], table, now) {
          var k :| i <= k < |rows| && rows[k].Err? && forall j :: i <= j < k ==> Skippable(rows[j], table, now);
          assert k != i;
          assert forall j :: i + 1 <= j < k ==> Skippable(rows[j], table, now);
        }
      } else {
        forall k | i <= k < |rows| && rows[k].Err?
          ensures !forall j :: i <= j < k ==> Skippable(rows[j], table, now)
        {
          assert k != i;
          assert !Skippable(rows[i], table, now);
        }
      }
    }
  }

  /**
   * A reported row is one of the first five, qualifies, is not on cooldown,
   * and every earlier row was read without error and either did not qualify
   * or was on cooldown.
   */
  lemma ReportedIsFirstEligible(minAthPct: int, minHolders: int, table: ScanTable,
      candidates: seq<Candidate>, now: int, nl: string)
    requires ScreenOutcome(minAthPct, minHolders, table, candidates, now, nl).Reported?
    ensures var o := ScreenOutcome(minAthPct, minHolders, table, candidates, now, nl);
      && o.index < Limit(candidates) && o.index < ScanLimit
      && Qualifies(minAthPct, minHolders, candidates[o.index]) == Ok(true)
      && Inspect(minAthPct, minHolders, candidates[o.index], nl) == Ok(Some(o.coin))
      && !OnCooldown(table, o.coin.address, now)
      && forall j :: 0 <= j < o.index ==>
           Skippable(Inspect(minAthPct, minHolders, candidates[j], nl), table, now)
  {
    var rows := Rows(Inspector(minAthPct, minHolders, nl), candidates);
    WalkReported(rows, table, now, 0);
  }

  /** The converse of `WalkReported`: the first row after passed-over rows that clears the cooldown is reported. */
  lemma {:induction false} WalkFindsFirstEligible(rows: seq<Row>, table: ScanTable, now: int, i: nat, k: nat, f: Found)
    requires i <= k < |rows| && rows[k] == Ok(Some(f)) && !OnCooldown(table, f.address, now)
    requires forall j :: i <= j < k ==> Skippable(rows[j], table, now)
    ensures Walk(rows, table, now, i) == Reported(k, f)
    decreases k - i
  {
    if i < k {
      WalkFindsFirstEligible(rows, table, now, i + 1, k, f);
    }
  }

  /** The walk finds nothing exactly when it can pass over every row. */
  lemma {:induction false} WalkNothingFound(rows: seq<Row>, table: ScanTable, now: int, i: nat)
    requires i <= |rows|
    ensures Walk(rows, table, now, i) == NothingFound <==> forall j :: i <= j < |rows| ==> Skippable(rows[j], table, now)
    decreases |rows| - i
  {
    if i < |rows| {
      WalkNothingFound(rows, table, now, i + 1);
      if !Skippable(rows[i], table, now) {
        assert Walk(rows, table, now, i) != NothingFound;
      }
    }
  }

  /**
   * The first of the first five rows that qualifies, is shaped without error
   * and clears the cooldown, after rows that were all passed over, is the
   * one reported.
   */
  lemma FirstEligibleIsReported(minAthPct: int, minHolders: int, table: ScanTable,
      candidates: seq<Candidate>, now: int, nl: string, k: nat, f: Found)
    requires k < Limit(candidates)
    requires Inspect(minAthPct, minHolders, candidates[k], nl) == Ok(Some(f))
    requires !OnCooldown(table, f.address, now)
    requires forall j :: 0 <= j < k ==> Skippable(Inspect(minAthPct, minHolders, candidates[j], nl), table, now)
    ensures ScreenOutcome(minAthPct, minHolders, table, candidates, now, nl) == Reported(k, f)
  {
    var rows := Rows(Inspector(minAthPct, minHolders, nl), candidates);
    WalkFindsFirstEligible(rows, table, now, 0, k, f);
  }

  /** A pass finds nothing exactly when every one of its first five rows is passed over. */
  lemma NothingFoundIffAllSkippable(minAthPct: int, minHolders: int, table: ScanTable,
      candidates: seq<Candidate>, now: int, nl: string)
    ensures ScreenOutcome(minAthPct, minHolders, table, candidates, now, nl) == NothingFound <==>
      forall j :: 0 <= j < Limit(candidates) ==> Skippable(Inspect(minAthPct, minHolders, candidates[j], nl), table, now)
  {
    var rows := Rows(Inspector(minAthPct, minHolders, nl), candidates);
    WalkNothingFound(rows, table, now, 0);
  }

  /** Rows past the fifth never influence a pass. */
  lemma OnlyFirstFiveMatter(minAthPct: int, minHolders: int, table: ScanTable,
      candidates: seq<Candidate>, now: int, nl: string)
    ensures ScreenOutcome(minAthPct, minHolders, table, candidates, now, nl)
         == ScreenOutcome(minAthPct, minHolders, table, candidates[..Limit(candidates)], now, nl)
  {
    var head := candidates[..Limit(candidates)];
    assert Rows(Inspector(minAthPct, minHolders, nl), candidates) == Rows(Inspector(minAthPct, minHolders, nl), head);
  }

  /** A coin on cooldown is never the one reported. */
  lemma CooldownNeverReported(minAthPct: int, minHolders: int, table: ScanTable,
      candidates: seq<Candidate>, now: int, nl: string)
    ensures var o := ScreenOutcome(minAthPct, minHolders, table, candidates, now, nl);
      o.Reported? ==> !OnCooldown(table, o.coin.address, now)
  {
    var rows := Rows(Inspector(minAthPct, minHolders, nl), candidates);
    if Walk(rows, table, now, 0).Reported? {
      WalkReported(rows, table, now, 0);
    }
  }

  /** A pass never forgets an address, and changes only the reported one. */
  lemma TableAfterFrame(table: ScanTable, o: Outcome, now: int)
    ensures table.Keys <= TableAfter(table, o, now).Keys
    ensures forall a :: a in table && (!o.Reported? || a != o.coin.address) ==> TableAfter(table, o, now)[a] == table[a]
    ensures o.Reported? ==> TableAfter(table, o, now)[o.coin.address] == now
  {
  }

  /**
   * The same single coin on a board polled at 0, 2 and 4 minutes: reported
   * at 0, skipped at 2 (the stamp stays at 0), reported again at 4.
   */
  lemma CooldownTimeline(minAthPct: int, minHolders: int, c: Candidate, nl: string, f: Found)
    requires Inspect(minAthPct, minHolders, c, nl) == Ok(Some(f))
    ensures var t1 := map[f.address := 0];
      && ScreenOutcome(minAthPct, minHolders, map[], [c], 0, nl) == Reported(0, f)
      && TableAfter(map[], Reported(0, f), 0) == t1
      && ScreenOutcome(minAthPct, minHolders, t1, [c], 120, nl) == NothingFound
      && TableAfter(t1, NothingFound, 120) == t1
      && ScreenOutcome(minAthPct, minHolders, t1, [c], 240, nl) == Reported(0, f)
      && TableAfter(t1, Reported(0, f), 240) == map[f.address := 240]
  {
    var rows := Rows(Inspector(minAthPct, minHolders, nl), [c]);
    assert rows == [Ok(Some(f))];
    WalkTimeline(f);
  }

  /** `CooldownTimeline` on the rows of the pass. */
  lemma WalkTimeline(f: Found)
    ensures var rows := [Ok(Some(f))];
      var t1 := map[f.address := 0];
      && Walk(rows, map[], 0, 0) == Reported(0, f)
      && Walk(rows, t1, 120, 0) == NothingFound
      && Walk(rows, t1, 240, 0) == Reported(0, f)
  {
    var t1 := map[f.address := 0];
    assert OnCooldown(t1, f.address, 120);
    assert !OnCooldown(t1, f.address, 240);
  }

  // ---------------------------------------------------------------------
  // The screener object

  /** The screener's thresholds and the state it keeps between passes. */
  class Screener {
    var minHolders: int
    var minAthPct: int
    var latestCoinName: string
    var latestCoinAddress: string
    var lastScanned: ScanTable

    constructor ()
      ensures minHolders == 40 && minAthPct == 60
      ensures latestCoinName == "" && latestCoinAddress == "" && lastScanned == map[]
    {
      minHolders := 40;
      minAthPct := 60;
      latestCoinName := "";
      latestCoinAddress := "";
      lastScanned := map[];
    }

    /**
     * `Screen` after navigation: the rows of the board, the clock for the
     * pass and the line terminator. Returns the report of the first eligible
     * coin, or "".
     */
    method Screen(candidates: seq<Candidate>, now: int, nl: string) returns (report: string)
      modifies this`lastScanned, this`latestCoinName, this`latestCoinAddress
      ensures var o := ScreenOutcome(minAthPct, minHolders, old(lastScanned), candidates, now, nl);
        && report == ReportOf(o)
        && lastScanned == TableAfter(old(lastScanned), o, now)
        && (o.Reported? ==> latestCoinName == o.coin.name && latestCoinAddress == o.coin.address)
        && (!o.Reported? ==> latestCoinName == old(latestCoinName) && latestCoinAddress == old(latestCoinAddress))
    {
      var inspect := Inspector(minAthPct, minHolders, nl);
      ghost var rows := Rows(inspect, candidates);
      var allNewCoinsCount := Limit(candidates);
      for newCoinIndex := 0 to allNewCoinsCount
        invariant lastScanned == old(lastScanned)
        invariant latestCoinName == old(latestCoinName) && latestCoinAddress == old(latestCoinAddress)
        invariant Walk(rows, lastScanned, now, newCoinIndex) == Walk(rows, lastScanned, now, 0)
      {
        var row := inspect(candidates[newCoinIndex]);
        if row.Err? {
          return "";
        }
        if row.value.Some? {
          var coin := row.value.value;
          var coinAddress := coin.address;
          if coinAddress !in lastScanned {
            lastScanned := lastScanned[coinAddress := now];
          } else {
            var lastScanTime := lastScanned[coinAddress];
            if now - lastScanTime < CooldownSeconds {
              continue;
            }
          }
          lastScanned := lastScanned[coinAddress := now];
          latestCoinName := coin.name;
          latestCoinAddress := coinAddress;
          return ReportText(coin);
        }
      }
      return "";
    }
  }
}
