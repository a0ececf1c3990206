/**
 * The local-model client of AI.cs reduced to what it does with text: the
 * chat-history window sent by `TalkWithChat`, the collection of a streamed
 * reply, and the clean-up and length cap shared by `TalkWithChat`,
 * `EvaluateCoin` and `ModerateChat`. The model service itself is an input:
 * the stream it would produce.
 */
module Ai {
  import opened Wrappers
  import opened Text

  /**
   * One element of a streamed completion: its content parts (only the
   * first is read), or a failure raised by the service while streaming.
   */
  datatype Update = Update(content: seq<string>) | StreamFault

  /** Longest chat history `TalkWithChat` forwards. */
  const ChatHistoryWindow: nat := 500
  /** Reply caps of `TalkWithChat`, `EvaluateCoin` and `ModerateChat`. */
  const TalkReplyCap: nat := 100
  const EvaluationReplyCap: nat := 200
  const ModerationReplyCap: nat := 200
  /** The end-of-turn token the model may leave in its text. */
  const ReturnTag: string := "<|return|>"
  /** The text placed before the history in `TalkWithChat`'s user message. */
  const HistoryPreamble: string := "This is the last chat history for you to process: "

  /** The last `cap` characters of `s`, or `s` when it is not longer than `cap`. */
  function KeepSuffix(s: string, cap: nat): (r: string)
    ensures |r| == if |s| <= cap then |s| else cap
    ensures r == s[|s| - |r|..]
  {
    if |s| > cap then s[|s| - cap..] else s
  }

  /** The history `TalkWithChat` sends: at most its last 500 characters. */
  function Window(chatHistory: string): (r: string)
    ensures |r| <= ChatHistoryWindow
    ensures EndsWith(chatHistory, r)
    ensures |chatHistory| <= ChatHistoryWindow ==> r == chatHistory
    ensures |chatHistory| > ChatHistoryWindow ==> |r| == ChatHistoryWindow
  {
    KeepSuffix(chatHistory, ChatHistoryWindow)
  }

  /** An update that the loop can read: not a fault and with a first content part. */
  predicate Readable(u: Update) {
    u.Update? && |u.content| > 0
  }

  /** The first content parts of `updates`, concatenated in order. */
  function StreamedText(updates: seq<Update>): string
    requires forall i :: 0 <= i < |updates| ==> Readable(updates[i])
    decreases |updates|
  {
    if |updates| == 0 then ""
    else
      var last := updates[|updates| - 1];
      assert Readable(last);
      StreamedText(updates[..|updates| - 1]) + last.content[0]
  }

  /** The raw reply of a stream, or `None` when reading some update throws. */
  function RawReply(updates: seq<Update>): Option<string> {
    if forall i :: 0 <= i < |updates| ==> Readable(updates[i]) then Some(StreamedText(updates)) else None
  }

  /** `Replace("<|return|>", "")`, `Trim()`, then the last `cap` characters. */
  function CleanReply(raw: string, cap: nat): (r: string)
    ensures |r| <= cap
    ensures var t := Trim(ReplaceAll(raw, ReturnTag, ""));
      EndsWith(t, r) && (|t| <= cap ==> r == t) && (|t| > cap ==> |r| == cap)
  {
    KeepSuffix(Trim(ReplaceAll(raw, ReturnTag, "")), cap)
  }

  /** What a reply method returns for a stream: the cleaned reply, or "" on any exception. */
  function Reply(updates: seq<Update>, cap: nat): string {
    match RawReply(updates)
    case None => ""
    case Some(raw) => CleanReply(raw, cap)
  }

  /** Streams compose: the raw reply of two streams in sequence is the two raw replies concatenated. */
  lemma {:induction false} RawReplyAppend(a: seq<Update>, b: seq<Update>)
    ensures RawReply(a + b).Some? <==> RawReply(a).Some? && RawReply(b).Some?
    ensures RawReply(a + b).Some? ==> RawReply(a + b).value == RawReply(a).value + RawReply(b).value
    decreases |b|
  {
    assert forall i :: 0 <= i < |a| ==> (a + b)[i] == a[i];
    assert forall i :: 0 <= i < |b| ==> (a + b)[|a| + i] == b[i];
    if |b| > 0 {
      var b' := b[..|b| - 1];
      RawReplyAppend(a, b');
      assert (a + b)[..|a + b| - 1] == a + b';
      if RawReply(a + b).Some? {
        assert forall i :: 0 <= i < |b'| ==> b'[i] == b[i];
      }
    } else {
      assert a + b == a;
    }
  }

  /** A reply is empty whenever some update cannot be read, wherever it sits in the stream. */
  lemma FaultGivesEmptyReply(updates: seq<Update>, k: nat, cap: nat)
    requires k < |updates| && !Readable(updates[k])
    ensures Reply(updates, cap) == ""
  {
  }

  /** The `await foreach` loop: append the first content part of every update, stopping at the first exception. */
  method CollectReply(updates: seq<Update>) returns (raw: Option<string>)
    ensures raw == RawReply(updates)
  {
    var reply := "";
    var i := 0;
    while i < |updates|
      invariant 0 <= i <= |updates|
      invariant forall j :: 0 <= j < i ==> Readable(updates[j])
      invariant reply == StreamedText(updates[..i])
    {
      var u := updates[i];
      if !Readable(u) {
        return None;
      }
      assert updates[..i + 1][..i] == updates[..i];
      reply := reply + u.content[0];
      i := i + 1;
    }
    assert updates[..i] == updates;
    raw := Some(reply);
  }

  /** Shared tail of the three reply methods. */
  method FinishReply(updates: seq<Update>, cap: nat) returns (reply: string)
    ensures reply == Reply(updates, cap)
  {
    var raw := CollectReply(updates);
    if raw.None? {
      return "";
    }
    reply := ReplaceAll(raw.value, ReturnTag, "");
    reply := Trim(reply);
    if |reply| > cap {
      reply := reply[|reply| - cap..];
    }
  }

  /**
   * `TalkWithChat`: cut the history to its window, send it after the
   * preamble, and return the cleaned reply capped at 100 characters.
   */
  method TalkWithChat(chatHistory: string, updates: seq<Update>) returns (userText: string, reply: string)
    ensures userText == HistoryPreamble + Window(chatHistory)
    ensures reply == Reply(updates, TalkReplyCap)
    ensures |reply| <= TalkReplyCap
  {
    var history := chatHistory;
    if |history| > ChatHistoryWindow {
      history := history[|history| - ChatHistoryWindow..];
    }
    userText := HistoryPreamble + history;
    reply := FinishReply(updates, TalkReplyCap);
  }

  /** `EvaluateCoin`: the coin report goes out unchanged; the reply is capped at 200 characters. */
  method EvaluateCoin(coinInfo: string, updates: seq<Update>) returns (userText: string, reply: string)
    ensures userText == coinInfo
    ensures reply == Reply(updates, EvaluationReplyCap)
    ensures |reply| <= EvaluationReplyCap
  {
    userText := coinInfo;
    reply := FinishReply(updates, EvaluationReplyCap);
  }

  /** `ModerateChat`: the chat message goes out unchanged; the reply is capped at 200 characters. */
  method ModerateChat(msg: string, updates: seq<Update>) returns (userText: string, reply: string)
    ensures userText == msg
    ensures reply == Reply(updates, ModerationReplyCap)
    ensures |reply| <= ModerationReplyCap
  {
    userText := msg;
    reply := FinishReply(updates, ModerationReplyCap);
  }
}
