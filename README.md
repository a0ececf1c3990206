# ai-meme-sheriff, modelled in Dafny

ai-meme-sheriff is a console bot for the pump.fun memecoin site. It has three jobs:

- It moderates a coin's live chat. Every message goes through an ordered,
  short-circuiting pipeline: banned keyword, banned mention, repeated
  message, and last the verdict of a local language model.
- It screens the newest coins of the board. It picks the first one whose
  all-time-high progress and trader count are high enough, and skips it if
  it was reported in the last three minutes. It builds a report for that
  coin from two data pages.
- It shows everything on a text dashboard. The panes are chunked to a
  fixed width and the titles are FIGlet text scaled by nearest neighbour.
  ASCII animations are loaded from a folder.

This project models the logic of those jobs. Browser reads, model replies,
file contents and the clock are inputs. The modules are:

- `Wrappers` (wrappers.dfy): `Option` and `Result`. An exception in the
  source is an `Err` or a `None` here.
- `Text` (text.dfy): the .NET string operations the source relies on,
  with ASCII white space and ASCII case folding. These are `Trim`,
  `IndexOf`/`LastIndexOf`/`EndsWith` (modelled as ordinal search), `Replace`, `Split`, `string.Join`,
  `Split` with `RemoveEmptyEntries` on line breaks, and `int.Parse`.
- `Ai` (ai.dfy): how `AI.cs` handles text. This is the history window,
  the reply collected from the stream, and the shared clean-up and length
  cap.
- `Chat` (chat_mod.dfy): `PumpChatMod.cs`. It has pure functions for the
  scans, the repetition check and the per-message pipeline. The class
  `ChatModerator` holds the repetition table, updates it in place, and is
  proved equal to those functions.
- `Screening` (screener.dfy): `Screener.cs`. A pure specification of one
  screening pass is in terms of what each row of the board yields. It
  comes with the two pure shapers of the Dex and Axiom texts. The class
  `Screener` keeps `LastScanned` and `LatestCoin*`, and its loop method
  (with its `continue`) is proved against that specification.
- `Ux` (ux.dfy): `UX.cs`. This covers the chunking, `ScaleAsciiBlock` as
  nested loops against a specification function, the clamp of the scale,
  and the `Conversation` buffer as a class.
- `Anim` (animations.dfy): `Animations.cs`. The constructor's loop fills
  the nested `Frames` dictionary from a sequence of (name, content) pairs.

### Behaviour worth noting

- **Repeat threshold.** A repeat is flagged as soon as the count,
  after the update, reaches the maximum (`counter >= MaxRepeatedMessages`).
  With a maximum of 2, the second sighting within two minutes is flagged
  (`Chat.SecondSightingFlaggedAtMaxTwo`).
- **Recently reported coin.** The screen skips such a coin with `continue`
  and goes on with the next row, so a later eligible row can still be
  reported in the same pass. Both data pages
  are fetched before the cooldown is consulted. A failed fetch therefore
  aborts the pass even for a coin on cooldown.
- **Notice of a model deletion.** When the model flags a message, the
  notice quotes `checkResult.keyword`. By then that holds what the
  mention scan left: the last banned mention, or "".
- **Notices of a repeat deletion.** A repeat deletion writes the spam
  line and then `hammerMsg`, which is still "".
- **Dex shaping needs both markers.** `GetDexData` starts its cut at the
  *smaller* of the indexes of "Buy" and "Ad\n". When either marker is
  missing that index is -1, `Remove` throws, and the whole pass returns ""
  (`Screening.DexSummaryMeaning`).

## Model

| member | source | states |
|---|---|---|
| Chat.ChatModerator.constructor | ai-meme-sheriff/PumpChatMod.cs:45-52 | A new moderator holds the given config (which `Mod` loads) and an empty repetition table. |
| Chat.ScanMeaning | ai-meme-sheriff/PumpChatMod.cs:166-196 | A scan hits exactly when the message is not blank and some banned term occurs in it (ordinal, ignoring case). On a hit it reports the first such term in list order, with none before it matching. On a miss it reports the last term examined, or "" for a blank message or an empty list. |
| Chat.ScanFromMeaning | ai-meme-sheriff/PumpChatMod.cs:170-177 | The `Any` with the captured `keyword`: found iff some element matches. The first match is reported; otherwise the last element, or the initial value for an empty list. |
| Chat.ParseClock | ai-meme-sheriff/PumpChatMod.cs:202 | A time that parses is a minute of the day, in [0, 1440). |
| Chat.ParseClockValue | ai-meme-sheriff/PumpChatMod.cs:202 | An hour below 24 written with one or two digits, ':', and a minute below 60 written with two digits, padded with white space or not, reads as 60 × hours + minutes. |
| Chat.ParseSightingMeaning | ai-meme-sheriff/PumpChatMod.cs:202-205 | The message parses exactly when it has at least 5 characters, its last 5 parse as a time, and the first "\n\n" ends no later than the last one starts. The body is then the trimmed text between them. A message without "\n\n" is an error. |
| Chat.RecordSightingFrame | ai-meme-sheriff/PumpChatMod.cs:207-218 | The update stores the body and keeps every other key and entry. An unseen body gets (time, 1). A body seen less than two minutes before gets (time, count + 1). A body seen earlier keeps its entry. |
| Chat.LateSightingLeavesEntry | ai-meme-sheriff/PumpChatMod.cs:213-218 | A sighting two or more minutes after the stored time changes neither the count nor the time. The verdict compares the stored count with the maximum. |
| Chat.RepeatCheckFrame | ai-meme-sheriff/PumpChatMod.cs:198-221 | A blank message gives `false` with the table untouched. A parse error leaves the table unchanged. A parsed message's verdict is whether the body's count, after the update, reaches the maximum. |
| Chat.JudgmentIgnoresSurroundingWhitespace | ai-meme-sheriff/PumpChatMod.cs:223-227 | The verdict of `CheckWithAIModeration` is whether the lower-cased reply contains "yes". Trimming the reply first never changes it. |
| Chat.FailedJudgmentIsNegative | ai-meme-sheriff/PumpChatMod.cs:225-226 | A model call that fails (one unreadable stream update) yields "", which is a negative verdict. |
| Chat.DecideTable | ai-meme-sheriff/PumpChatMod.cs:84-122 | Only the repetition check touches the table. After a keyword or mention hit the table is as before and there is no repeat deletion. Otherwise the table is the repetition check's, and a repeat deletion happens iff its verdict is `true`. |
| Chat.HandleTableStep | ai-meme-sheriff/PumpChatMod.cs:77-152 | Handling one message keeps every key and moves each count by at most one. A repeat deletion implies some count reached the maximum. |
| Chat.JudgmentOnlyAfterEarlierChecks | ai-meme-sheriff/PumpChatMod.cs:88-121 | The model is consulted iff the keyword, mention and repetition checks are all negative. Otherwise the outcome is the same whatever the model answers. |
| Chat.KeywordHitStopsPipeline | ai-meme-sheriff/PumpChatMod.cs:88-93 | A keyword hit deletes the message with the single notice naming the author and the keyword, and leaves the table as it was. The keyword is in the list and occurs in the text. |
| Chat.MentionHitStopsPipeline | ai-meme-sheriff/PumpChatMod.cs:97-102 | A mention hit with no keyword hit deletes the message with one notice and leaves the table as it was. |
| Chat.MalformedMessageSkipped | ai-meme-sheriff/PumpChatMod.cs:149-152 | A message that reaches the repetition check but does not parse is skipped. It is not deleted, the model is not asked, and the table is unchanged. |
| Chat.SecondSightingFlaggedAtMaxTwo | ai-meme-sheriff/PumpChatMod.cs:106-110 | With a maximum of 2, the first sighting of a body is not a repeat deletion. A second sighting within two minutes is one, with the spam notice and then "". |
| Chat.ScamExample | ai-meme-sheriff/PumpChatMod.cs:88-93 | With banned keyword "scam", the message "this is a SCAM" from "bob" is deleted at the keyword stage. The one notice names bob and scam, and the table is untouched. |
| Chat.WordNoticeNames | ai-meme-sheriff/PumpChatMod.cs:91 | The notice of a keyword or mention deletion contains the author and the term. |
| Chat.FirstMessageNeverExamined | ai-meme-sheriff/PumpChatMod.cs:75 | The loop starts at index 1: the first message of the chat never influences a pass. |
| Chat.FoldAt | ai-meme-sheriff/PumpChatMod.cs:75-153 | The handling of message i in a pass is what one step gives on the table left by the messages before it. |
| Chat.CountersBounded | ai-meme-sheriff/PumpChatMod.cs:70-153 | After n messages of a pass (which starts from an empty table) every count is between 1 and n. |
| Chat.RepeatFlagNeedsEnoughMessages | ai-meme-sheriff/PumpChatMod.cs:75-110 | A repeat deletion at position i of a pass needs a maximum of at most i + 1. |
| Chat.ChatModerator.CheckIfRepeatedMessage | ai-meme-sheriff/PumpChatMod.cs:198-221 | The method's verdict and its in-place update of the table are those of the repetition check on the old table. |
| Chat.ChatModerator.HandleMessage | ai-meme-sheriff/PumpChatMod.cs:77-152 | The loop body with its `hammerOfJustice` flag. Its handling and new table are those of the per-message pipeline. |
| Chat.ChatModerator.ModerationPass | ai-meme-sheriff/PumpChatMod.cs:70-153 | The pass clears the table, then loops from index 1. Its handlings and final table are those of the pipeline folded over messages 1 onwards. |
| Ai.Window | ai-meme-sheriff/AI.cs:181-184 | The history sent has at most 500 characters and is a suffix of the input. A history within the window is unchanged; a longer one keeps exactly its last 500. |
| Ai.RawReplyAppend | ai-meme-sheriff/AI.cs:204-224 | The raw reply of two streams in sequence is defined iff both are, and is their concatenation. |
| Ai.FaultGivesEmptyReply | ai-meme-sheriff/AI.cs:232-235 | An unreadable update anywhere in the stream makes the reply "". |
| Ai.CleanReply | ai-meme-sheriff/AI.cs:225-229 | The reply is a suffix of the trimmed text with "<\|return\|>" removed, and at most `cap` long. It is that whole text when within the cap, and exactly `cap` long otherwise. |
| Ai.FinishReply | ai-meme-sheriff/AI.cs:204-235 | The shared tail of the three calls returns the cleaned, capped reply of the stream, and "" when the stream fails. |
| Ai.CollectReply | ai-meme-sheriff/AI.cs:204-224 | The streaming loop returns the in-order concatenation of the first content parts, or nothing at the first unreadable update. |
| Ai.TalkWithChat | ai-meme-sheriff/AI.cs:179-237 | The user message is the preamble followed by the windowed history. The reply is the cleaned stream, at most 100 characters. |
| Ai.EvaluateCoin | ai-meme-sheriff/AI.cs:244-292 | The report goes out unchanged. The reply is the cleaned stream, at most 200 characters. |
| Ai.ModerateChat | ai-meme-sheriff/AI.cs:294-342 | The message goes out unchanged. The reply is the cleaned stream, at most 200 characters. |
| Screening.Screener.constructor | ai-meme-sheriff/Screener.cs:19-37 | A new screener has MinHolders 40, MinAthPct 60, empty `LatestCoin*` fields and an empty `LastScanned`. |
| Screening.QualifiesMeaning | ai-meme-sheriff/Screener.cs:113-126 | A row qualifies iff all its reads succeed, its progress is above MinAthPct or it sparkles, and its traders reach MinHolders. It is an error iff the progress or the traders cannot be read. |
| Screening.TradersDecimal | ai-meme-sheriff/Screener.cs:119-123 | A trader count written in decimal reads back as itself. |
| Screening.PlaceholderParses | ai-meme-sheriff/Screener.cs:119-123 | The "0" substituted for an empty or "-" cell parses to 0. |
| Screening.TradersParseSeesNoCommas | ai-meme-sheriff/Screener.cs:123 | The text that reaches `int.Parse` has no commas. |
| Screening.AddressMeaning | ai-meme-sheriff/Screener.cs:131-134 | The address is the tail of the unescaped link after its last '/': it ends the link, has no '/', and is preceded by a '/'. |
| Screening.UnescapePlainPrefix | ai-meme-sheriff/Screener.cs:132 | Unescaping keeps a leading run without '%' (the fixed "https://pump.fun/advanced") as it is. |
| Screening.UnescapePlain | ai-meme-sheriff/Screener.cs:132 | Text without '%' is not changed by unescaping. |
| Screening.DexSummaryMeaning | ai-meme-sheriff/Screener.cs:181-183 | The Dex text is shaped iff both "Buy" and "Ad\n" occur and "5M" + 2 is not before the start. The result is the text with [start, end of "5M") removed, and it is that much shorter. |
| Screening.AxiomSummaryErrors | ai-meme-sheriff/Screener.cs:198-203 | The Axiom shaping throws iff there is no "CA" or the number of non-empty lines before it is odd. |
| Screening.AxiomSummaryLines | ai-meme-sheriff/Screener.cs:199-203 | With "\n" as terminator the summary breaks into exactly the pairs "line 2k+1 : line 2k", half as many as the lines. |
| Screening.ReportNonEmptyIffReported | ai-meme-sheriff/Screener.cs:157-166 | A pass returns a non-empty string iff it reports a coin. That is the case in which the caller passes it on to `EvaluateCoin` (ai-meme-sheriff/Program.cs:111). |
| Screening.ReportedIsFirstEligible | ai-meme-sheriff/Screener.cs:101-158 | A reported row is among the first five and qualifies. Its fetches are shaped, its address is not on cooldown, and every earlier row was read without error and either did not qualify or was on cooldown. |
| Screening.FirstEligibleIsReported | ai-meme-sheriff/Screener.cs:101-158 | The converse: when row k of the first five qualifies, is shaped without error and is not on cooldown, and every earlier row was passed over, the pass reports row k with that coin. |
| Screening.NothingFoundIffAllSkippable | ai-meme-sheriff/Screener.cs:104-166 | A pass ends with nothing found iff every one of its first five rows was read without error and did not qualify or was on cooldown. |
| Screening.WalkAborted | ai-meme-sheriff/Screener.cs:104-164 | A pass aborts iff some row throws and every row before it was passed over. |
| Screening.OnlyFirstFiveMatter | ai-meme-sheriff/Screener.cs:101 | Rows after the fifth never influence a pass. |
| Screening.CooldownNeverReported | ai-meme-sheriff/Screener.cs:140-152 | An address reported less than three minutes before is never the one reported. |
| Screening.TableAfterFrame | ai-meme-sheriff/Screener.cs:140-154 | A pass never forgets an address. Only the reported address changes, and it gets the pass's time. |
| Screening.CooldownTimeline | ai-meme-sheriff/Screener.cs:140-156 | One eligible coin polled at 0, 2 and 4 minutes is reported at 0, skipped at 2 with its stamp left at 0, and reported again at 4. |
| Screening.Screener.Screen | ai-meme-sheriff/Screener.cs:100-166 | The loop with `continue` returns the report of the specified outcome. `LastScanned` is updated only for the reported address. `LatestCoin*` is set on a report and untouched otherwise. |
| Ux.ChunkLengths | ai-meme-sheriff/UX.cs:123-125 | Chunking gives ceil(length / width) chunks. All have the full width except the last, whose length is between 1 and the width. Empty text gives none. |
| Ux.ChunksConcat | ai-meme-sheriff/UX.cs:143-145 | The chunks concatenate back to the text. |
| Ux.PaneChunksFit | ai-meme-sheriff/UX.cs:123-165 | Every line drawn has between 1 and 140 characters in the reasoning pane, 46 (140 / 3) in the reply pane and 56 (140 / 2.5) in the evaluation pane. The reply and evaluation lines put back together give the text. |
| Ux.EffectiveScale | ai-meme-sheriff/UX.cs:175 | The scale used is the given scale when that is at least 1, and exactly 1 otherwise. |
| Ux.StretchAt | ai-meme-sheriff/UX.cs:208-212 | Character i of a horizontally scaled line is character i / scale of the input line (nearest neighbour). |
| Ux.ScaledLineAt | ai-meme-sheriff/UX.cs:215 | An output line has `pad + scale * length` characters. It is the padding spaces, then input character (j - pad) / scale at position j. |
| Ux.OutputLinesAt | ai-meme-sheriff/UX.cs:205-216 | There are lines × scale output lines. Output line i * scale + k is the scaled input line i for every k < scale, so every input line appears `scale` times in a row, in order. |
| Ux.TerminatedAsConcat | ai-meme-sheriff/UX.cs:215-217 | The block is its output lines, each followed by the `AppendLine` terminator, in order. |
| Ux.StretchLine | ai-meme-sheriff/UX.cs:208-212 | The inner loop builds the horizontally scaled line. |
| Ux.ScaleAsciiBlock | ai-meme-sheriff/UX.cs:200-218 | The nested loops build exactly the terminated output lines of the block's '\r'-free, '\n'-split lines. |
| Ux.WrittenLines | ai-meme-sheriff/UX.cs:173-197 | `Write` prints the lines of the scaled block at the clamped scale. |
| Ux.NextConversationMeaning | ai-meme-sheriff/UX.cs:104-121 | Within the cap, the squashed text is appended (to the empty buffer after a reset) and adds no newline. Over the cap, the text is dropped and the buffer ends in " ...", which is added only if it is not there already. |
| Ux.ResetShowsOnlyNewText | ai-meme-sheriff/UX.cs:104-106 | After a reset the buffer is just the squashed new text. |
| Ux.OverCapIdempotent | ai-meme-sheriff/UX.cs:115-119 | Once over the cap, a second write without reset changes nothing. |
| Ux.ConversationGrowsBounded | ai-meme-sheriff/UX.cs:115-121 | Without a reset the old buffer is a prefix of the new one. It grows by at most the text's length, or by 4 over the cap. |
| Ux.SquashNoNewlines | ai-meme-sheriff/UX.cs:121 | Squashed text holds no newline. |
| Ux.Dashboard.constructor | ai-meme-sheriff/UX.cs:13 | The reasoning buffer starts empty. |
| Ux.Dashboard.WriteReasoning | ai-meme-sheriff/UX.cs:102-131 | The buffer becomes the specified next buffer. The lines drawn are its 140-wide chunks. |
| Anim.Animations.constructor | ai-meme-sheriff/Animations.cs:21-25 | The dimensions take the arguments, which default to 382 lines and 275 characters. The frame table starts empty. |
| Anim.ParseNameMeaning | ai-meme-sheriff/Animations.cs:34-37 | A name parses iff it contains '-'. The character id is the text before the first '-'. The type id is all the text after it, up to the next '-' or the end of the name. "charId-typeId" is a prefix of the name. |
| Anim.UnwrappedMeaning | ai-meme-sheriff/Animations.cs:41 | The content kept is everything after the first '[', or all of it when there is none, and it is never longer than the content. |
| Anim.KeepLongMembers | ai-meme-sheriff/Animations.cs:42 | A piece is kept iff it is one of the pieces and at least `(height / 3) * width` long. |
| Anim.KeepLongAppend | ai-meme-sheriff/Animations.cs:42 | Filtering keeps order: filtering a concatenation is concatenating the filtered parts. |
| Anim.StoreFrame | ai-meme-sheriff/Animations.cs:45-49 | Storing appends exactly one list under (character, type) and leaves every other pair as it was. The character and type keys are added when absent. |
| Anim.StoreInPlace | ai-meme-sheriff/Animations.cs:45-49 | The three dictionary steps of the loop body file the list exactly as `Store` does. |
| Anim.LoadErrorSticks | ai-meme-sheriff/Animations.cs:28-50 | A bad name ends the load: once a prefix of the files fails, every longer one fails. |
| Anim.LoadedLists | ai-meme-sheriff/Animations.cs:28-50 | Loading succeeds iff every name parses. The lists under (c, t) are then the frames of the files named (c, t), one per file, in file order. |
| Anim.LoadedFromFiles | ai-meme-sheriff/Animations.cs:28-50 | With the source's readers, loading succeeds iff every name has a '-'. The number of lists under (c, t) is the number of files so named. |
| Anim.Animations.LoadAll | ai-meme-sheriff/Animations.cs:28-50 | The loop reports an error iff the specified load fails. On success the frame table is the specified one. |
| Text.JoinSplit | ai-meme-sheriff/Animations.cs:35 | Joining the pieces of a split with the same separator gives back the text. |
| Text.ReplaceAllRemovesChar | ai-meme-sheriff/Screener.cs:123 | Replacing a one-character pattern by text without it removes every occurrence. |
| Text.ParseDecimal | ai-meme-sheriff/Screener.cs:123 | `int.Parse` of a decimal rendering within the 32-bit range gives the number back. |
| Text.NonEmptyLinesJoin | ai-meme-sheriff/Screener.cs:199 | Breaking lines joined by "\n" into non-empty lines gives back the lines. |
| Text.ContainsLowerTrim | ai-meme-sheriff/PumpChatMod.cs:226 | For a pattern with no white space at either end, trimming never changes whether the lower-cased text contains it. |

## Left out

- Browser automation is I/O against pages the model cannot see. This
  covers Browsing.cs, `Screener.Navigate`, the locators, waits and delays,
  and the clicks that delete a chat message. A row of the board is a
  `Candidate` whose fields are what those reads return. The reads that can
  throw are `Option` fields, with `None` for a read that throws: the
  progress, the traders, the name, the symbol and the two data pages.
  `sparkle` is a plain flag, so the sparkle check is assumed not to throw.
  `href` is a plain string, with a missing attribute as "".
- The language-model service (Foundry Local, the OpenAI client) is
  foreign. A reply is the sequence of stream updates it would produce, and
  a failure is an unreadable update. The system prompts are data. In the
  chat pipeline, the model's reply to a message is a field of the message.
- The orchestration loop of Program.cs (polling tasks, `ContinueWith`) is
  scheduling, so it is not modelled.
- Loading and saving the JSON config (`ChatConfig.LoadAsync`/`SaveAsync`)
  is file I/O. The config is an immutable record.
- The console output of UX.cs is left out: cursor positions, colours,
  FIGlet rendering by Figgle, `Initialize` and `RenderAnimation` (which
  uses `Random` and `Thread.Sleep`). `Write` takes the rendered text as an
  input.
- Directory enumeration, `Path.GetFileNameWithoutExtension` and file
  reading in `Animations` are left out. Files arrive as (name without
  extension, content) pairs.
- `Anim.Animations.LoadAll`: a bad name makes the source's constructor
  throw and the object is lost. Here the loop returns the error and the
  object keeps the files before it.
- The progress-bar regex and `double.Parse` are replaced by the parsed
  progress (a `real`, or `None` when there is no match).
- `DateTime.Now` is replaced by one clock value per pass, in whole
  seconds. The three-minute cooldown is 180 seconds.
- `Screening.Screener.Screen`: the source's two reads of `DateTime.Now`
  (lines 142 and 154) are the same instant here.
- `TimeSpan.Parse` reads only "h:mm" and "hh:mm", with optional
  surrounding white space, as a minute of the day. Its other accepted
  forms are treated as failures.
- `IndexOf(string)`, `LastIndexOf(string)` and `EndsWith(string)` are
  culture-sensitive in .NET. They are used at PumpChatMod.cs:203-204,
  Screener.cs:134, 181-182 and 198, UX.cs:117 and Animations.cs:41. The
  model treats them as ordinal search. Culture rules such as ignorable
  characters, or "\r\n" matching as one unit, are not modelled.
- Unicode is simplified to ASCII. Ordinal ignore-case comparison,
  `ToLower` and `Trim` use ASCII case folding and ASCII white space.
  `Uri.UnescapeDataString` decodes only `%hh` escapes below 0x80.
- `Environment.NewLine` is a parameter.
- `MaxCoinsToReturn`, `OrderBy5MinRate`, `MinMarketCapLimitInK` and
  `MinVolumeInK` are used only by navigation, or not at all, so they are
  not fields of the model.
