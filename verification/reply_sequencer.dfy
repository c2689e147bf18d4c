/**
 * The reply sequencer of the reply manager (`sendLongReply`). Each `await`
 * on the interaction only fixes the order of the channel calls, so a
 * delivery is modelled as the ordered trace of the calls it issues. Texts
 * are sequences of UTF-16 code units, as JavaScript strings are.
 */
module ReplySequencer {
  import opened Wrappers
  import opened Chunking
  import opened Utf16

  /** The part of a Discord interaction the sequencer inspects. */
  datatype Interaction = Interaction(deferred: bool)

  /** One call on the interaction's reply channel. */
  datatype Call =
    | EditReply(content: seq<CodeUnit>)  // finalizes the deferred response
    | FollowUp(content: seq<CodeUnit>)   // appends a further message

  /** What is sent in place of an empty answer. */
  const NoAnswerFallback: seq<CodeUnit> := FromBmp("L'IA n'a fourni aucune réponse.")

  /** The guard of `sendLongReply`: the interaction exists and was deferred. */
  predicate CanReply(interaction: Option<Interaction>) {
    interaction.Some? && interaction.value.deferred
  }

  /** One `followUp` per chunk, in the order of the chunks. */
  function FollowUps(chunks: seq<seq<CodeUnit>>): (calls: seq<Call>)
    ensures |calls| == |chunks|
    ensures forall k :: 0 <= k < |calls| ==> calls[k] == FollowUp(chunks[k])
  {
    if chunks == [] then [] else [FollowUp(chunks[0])] + FollowUps(chunks[1..])
  }

  /**
   * The calls issued for a list of chunks: the fallback when there is none,
   * otherwise chunk 0 by `editReply` and each later chunk by `followUp`, in
   * order.
   */
  function Deliver(chunks: seq<seq<CodeUnit>>): (trace: seq<Call>)
    ensures chunks == [] ==> trace == [EditReply(NoAnswerFallback)]
    ensures chunks != [] ==>
      && |trace| == |chunks|
      && trace[0] == EditReply(chunks[0])
      && forall k :: 1 <= k < |trace| ==> trace[k] == FollowUp(chunks[k])
  {
    if chunks == [] then
      [EditReply(NoAnswerFallback)]
    else
      var later := FollowUps(chunks[1..]);
      assert forall k :: 1 <= k < |chunks| ==> later[k - 1] == FollowUp(chunks[k]);
      [EditReply(chunks[0])] + later
  }

  /**
   * `sendLongReply(interaction, text)`: nothing is sent to an absent or
   * non-deferred interaction; an answer without chunks is replaced by the
   * fallback; otherwise chunk 0 finalizes the response and every later chunk
   * follows up, in order.
   */
  function SendLongReply(interaction: Option<Interaction>, text: Option<seq<CodeUnit>>): (trace: seq<Call>)
    ensures trace == [] <==> !CanReply(interaction)
    ensures CanReply(interaction) && text.GetOr([]) == [] ==> trace == [EditReply(NoAnswerFallback)]
    ensures CanReply(interaction) && text.GetOr([]) != [] ==>
      var chunks := SplitMessage(text, MaxMessageLength);
      && |trace| == |chunks|
      && trace[0] == EditReply(chunks[0])
      && forall k :: 1 <= k < |trace| ==> trace[k] == FollowUp(chunks[k])
  {
    if !CanReply(interaction) then [] else Deliver(SplitMessage(text, MaxMessageLength))
  }

  /** The text a trace shows the user, message after message. */
  function Shown(trace: seq<Call>): seq<CodeUnit>
  {
    if trace == [] then [] else trace[0].content + Shown(trace[1..])
  }

  /** The state of the reply channel of one interaction. */
  datatype ChannelState = Pending | Finalized

  /**
   * Replays `trace` on a reply channel: the response may be finalized only
   * while it is pending, and follow-ups only once it is finalized. `None`
   * means the trace misuses the channel.
   */
  function Replay(state: ChannelState, trace: seq<Call>): Option<ChannelState>
    decreases |trace|
  {
    if trace == [] then
      Some(state)
    else
      match trace[0]
      case EditReply(_) => if state == Pending then Replay(Finalized, trace[1..]) else None
      case FollowUp(_) => if state == Finalized then Replay(Finalized, trace[1..]) else None
  }

  lemma {:induction false} FollowUpsReplay(chunks: seq<seq<CodeUnit>>)
    ensures Replay(Finalized, FollowUps(chunks)) == Some(Finalized)
  {
    if chunks != [] {
      assert FollowUps(chunks)[1..] == FollowUps(chunks[1..]);
      FollowUpsReplay(chunks[1..]);
    }
  }

  /**
   * Every delivery to a deferred interaction uses the channel correctly:
   * exactly one `editReply`, issued first, which finalizes the pending
   * response, then only `followUp`s.
   */
  lemma ReplyRespectsChannel(interaction: Option<Interaction>, text: Option<seq<CodeUnit>>)
    requires CanReply(interaction)
    ensures var trace := SendLongReply(interaction, text);
      && (forall k :: 0 <= k < |trace| ==> (trace[k].EditReply? <==> k == 0))
      && Replay(Pending, trace) == Some(Finalized)
  {
    var trace := SendLongReply(interaction, text);
    var chunks := SplitMessage(text, MaxMessageLength);
    if chunks != [] {
      assert trace[1..] == FollowUps(chunks[1..]);
      FollowUpsReplay(chunks[1..]);
    }
  }

  lemma {:induction false} ShownFollowUps(chunks: seq<seq<CodeUnit>>)
    ensures Shown(FollowUps(chunks)) == Flatten(chunks)
  {
    if chunks != [] {
      assert FollowUps(chunks)[1..] == FollowUps(chunks[1..]);
      ShownFollowUps(chunks[1..]);
    }
  }

  /**
   * A non-empty answer reaches the user whole and in order, in messages of
   * 1 to 2000 code units, as many as `ceil(|text| / 2000)`; an empty or
   * absent answer shows the fallback in a single message.
   */
  lemma ReplyDeliversText(interaction: Option<Interaction>, text: Option<seq<CodeUnit>>)
    requires CanReply(interaction)
    ensures var trace := SendLongReply(interaction, text);
      && Shown(trace) == (if text.GetOr([]) == [] then NoAnswerFallback else text.value)
      && |trace| == (if text.GetOr([]) == [] then 1 else CeilDiv(|text.value|, MaxMessageLength))
      && (text.GetOr([]) != [] ==>
            forall k :: 0 <= k < |trace| ==> 0 < |trace[k].content| <= MaxMessageLength)
  {
    var trace := SendLongReply(interaction, text);
    var chunks := SplitMessage(text, MaxMessageLength);
    if chunks == [] {
      assert Shown(trace) == NoAnswerFallback + Shown([]);
    } else {
      assert trace[1..] == FollowUps(chunks[1..]);
      ShownFollowUps(chunks[1..]);
      assert Flatten(chunks) == chunks[0] + Flatten(chunks[1..]);
      ChunkCount(text.value, MaxMessageLength);
      forall k | 0 <= k < |trace|
        ensures 0 < |trace[k].content| <= MaxMessageLength
      {
        assert trace[k].content == chunks[k];
        assert k < |chunks| - 1 ==> |chunks[k]| == MaxMessageLength;
      }
    }
  }

  /** An answer of 2500 code units goes out as 2000 units, then 500. */
  lemma TwoMessageExample(text: seq<CodeUnit>)
    requires |text| == 2500
    ensures SendLongReply(Some(Interaction(true)), Some(text))
            == [EditReply(text[..2000]), FollowUp(text[2000..])]
  {
    var chunks := SplitMessage(Some(text), MaxMessageLength);
    ChunkCount(text, MaxMessageLength);
    assert |chunks| == 2;
    ChunkContents(text, MaxMessageLength, 0);
    ChunkContents(text, MaxMessageLength, 1);
    assert chunks[0] == text[..2000];
    assert chunks[1] == text[2000..];
    assert chunks == [text[..2000], text[2000..]];
    assert FollowUps(chunks[1..]) == [FollowUp(text[2000..])];
  }

  /** An answer of three full slices goes out as three messages of 2000 code units. */
  lemma ThreeMessageExample(text: seq<CodeUnit>)
    requires |text| == 3 * MaxMessageLength
    ensures SendLongReply(Some(Interaction(true)), Some(text))
            == [EditReply(text[..2000]), FollowUp(text[2000..4000]), FollowUp(text[4000..])]
  {
    var chunks := SplitMessage(Some(text), MaxMessageLength);
    ChunkCount(text, MaxMessageLength);
    assert |chunks| == 3;
    ChunkContents(text, MaxMessageLength, 0);
    ChunkContents(text, MaxMessageLength, 1);
    ChunkContents(text, MaxMessageLength, 2);
    assert chunks[0] == text[..2000];
    assert chunks[2] == text[4000..];
    assert chunks == [text[..2000], text[2000..4000], text[4000..]];
    assert FollowUps(chunks[1..]) == [FollowUp(text[2000..4000]), FollowUp(text[4000..])];
  }

  /**
   * An answer of 1999 code units followed by a surrogate pair (an emoji,
   * say) is 2001 units long: the pair is cut, its high half ending the first
   * message and its low half sent alone as the follow-up.
   */
  lemma SurrogatePairSplitExample(text: seq<CodeUnit>)
    requires |text| == 2001 && IsHighSurrogate(text[1999]) && IsLowSurrogate(text[2000])
    ensures var trace := SendLongReply(Some(Interaction(true)), Some(text));
      && trace == [EditReply(text[..2000]), FollowUp([text[2000]])]
      && IsHighSurrogate(trace[0].content[1999])
      && IsLowSurrogate(trace[1].content[0])
  {
    var chunks := SplitMessage(Some(text), MaxMessageLength);
    ChunkCount(text, MaxMessageLength);
    assert |chunks| == 2;
    ChunkContents(text, MaxMessageLength, 0);
    ChunkContents(text, MaxMessageLength, 1);
    assert chunks[0] == text[..2000];
    assert chunks[1] == [text[2000]];
    assert chunks == [text[..2000], [text[2000]]];
    assert FollowUps(chunks[1..]) == [FollowUp([text[2000]])];
  }
}
