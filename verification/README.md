# Genova-Bot reply manager, modelled in Dafny

Genova-Bot is a Discord bot that forwards a user's `/chat` message to a
language-model completion API and relays the answer back. Discord caps a
message at 2000 characters, so the bot's reply manager (`replyManager.js`)
cuts long answers into pieces and delivers them in order. This project models
that reply manager and proves its contracts.

- `wrappers.dfy` — `Wrappers.Option`, standing for a JavaScript value that may
  be `null`/`undefined`.
- `utf16.dfy` — module `Utf16`: `CodeUnit`, a 16-bit UTF-16 code unit, the
  unit in which `String.prototype.length` and `substring` count. Texts are
  `seq<CodeUnit>`, so a character outside the Basic Multilingual Plane (an
  emoji) is two units, a surrogate pair.
- `chunking.dfy` — module `Chunking`, the model of `splitMessage`: fixed-size,
  contiguous slicing from offset 0, generic in the element type.
  `Substring` models JavaScript's clamping and swapping of indices. `SplitFrom` is the loop of lines 25-27, started at
  offset `i`. `SplitMessage` adds the `!text` guard of line 23. An absent text
  is `None` and an empty text is `Some([])`.
- `reply_sequencer.dfy` — module `ReplySequencer`, the model of
  `sendLongReply`. It is a pure function from the interaction (`None` when
  absent, otherwise its `deferred` flag) and the text to the ordered trace of
  channel calls (`EditReply` / `FollowUp`). Each `await` only fixes the order
  of the calls, so the trace records everything the code promises. `Replay` is
  an independent description of how a reply channel may be used: the pending
  response is finalized once, then only follow-ups are sent. `Shown` is the
  text the user reads across the messages of a trace.

The chunk size passed by `sendLongReply` (line 44) and the default of
`splitMessage` (line 21) are both 2000: `Chunking.MaxMessageLength`.

## Model

| member | source | states |
|---|---|---|
| Chunking.Substring | replyManager.js:26 | `substring(start, end)` is the slice between the two indices after clamping both to the length and swapping them when given in decreasing order; for the loop's call `substring(i, i + maxLength)` that is the slice from `i` to the end index, or to the end of the text when the end index lies past it |
| Chunking.SplitFrom | replyManager.js:25-27 | the loop from offset `i` pushes no chunk exactly when `i` is at or past the end, and its chunks concatenate to the rest of the text from `i` |
| Chunking.SplitFromFixed | replyManager.js:25-26 | every chunk the loop pushes holds `maxLength` code units, except the last, which holds 1 to `maxLength` |
| Chunking.SplitMessage | replyManager.js:21-29 | no chunks exactly when the text is absent or empty; otherwise the chunks concatenate back to the text exactly, all have full size except a non-empty last one |
| Chunking.ChunkCountBounds | replyManager.js:25-27 | the number `n` of chunks satisfies `(n - 1) * maxLength < |text| <= n * maxLength`: `n` full slices cover the text and `n - 1` do not |
| Chunking.ChunkCount | replyManager.js:25-27 | the number of chunks is `ceil(|text| / maxLength)` |
| Chunking.ChunkContents | replyManager.js:25-26 | chunk `k` is `text[k * maxLength .. min((k + 1) * maxLength, |text|)]` |
| Chunking.FixedChunkingUnique | replyManager.js:21-29 | any list of full-size pieces with a non-empty last piece that concatenates to the text is exactly the result of `splitMessage`, so the slicing is the only such cut |
| ReplySequencer.FollowUps | replyManager.js:57-59 | the follow-up loop issues one `followUp` per remaining chunk, carrying chunk `k` as call `k` |
| ReplySequencer.Deliver | replyManager.js:46-59 | no chunks gives the single fallback `editReply`; otherwise as many calls as chunks, chunk 0 by `editReply`, every later chunk by `followUp` in order |
| ReplySequencer.SendLongReply | replyManager.js:37-60 | no call at all exactly when the interaction is absent or not deferred; an empty or absent text gives only the fallback `editReply`; otherwise the calls follow the 2000-unit chunks one to one, `editReply` first |
| ReplySequencer.ReplyRespectsChannel | replyManager.js:47-59 | on a deferred interaction the trace holds exactly one `editReply`, at position 0, and replaying it on a pending channel is accepted and leaves the response finalized |
| ReplySequencer.ReplyDeliversText | replyManager.js:44-59 | the messages together show the whole text in order, or the fallback for an empty answer; the message count is `ceil(|text| / 2000)` (1 for the fallback); each message holds 1 to 2000 code units |
| ReplySequencer.TwoMessageExample | replyManager.js:44-59 | a 2500-unit answer is sent as an `editReply` of the first 2000 code units and one `followUp` of the last 500 |
| ReplySequencer.ThreeMessageExample | replyManager.js:44-59 | a 6000-unit answer is sent as an `editReply` and two `followUp`s of 2000 code units each, in text order |
| ReplySequencer.SurrogatePairSplitExample | replyManager.js:25-26 | 1999 code units followed by a surrogate pair are 2001 units long: the first message ends with the high surrogate and the follow-up is the low surrogate alone |

## Left out

- `index.js`: login, event subscription, `deferReply`, and the completion API call are I/O over libraries that are not part of this model. The fallback text chosen at `index.js:88` and the error-path `editReply` at `index.js:95-96` are one-line conditionals around that I/O.
- `deploy-commands.js`: a single REST upload of a constant command schema, with no logic to model.
- Asynchronous execution: the model keeps only the order of the channel calls. Network failures and exceptions thrown by `editReply`/`followUp` are not modelled. In the source such an exception stops the remaining calls and propagates to the caller.
- The `console.error` of the guard at line 40 is not modelled. The guard case is the empty trace, and no delivered trace is empty.
- Chunking.SplitMessage: requires `maxLength > 0`. With `maxLength <= 0` the loop at line 25 never ends. The only caller passes 2000.
- Non-string `text` values other than `null`/`undefined`, and non-integer `maxLength`, are not modelled. The caller always passes a string and 2000.
- Surrogate pairs: a slice boundary may split a UTF-16 surrogate pair, exactly as `substring` does (see `SurrogatePairSplitExample`). The model works on code units and does not repair this.
- `Replay`: Discord itself allows repeated `editReply` calls. The channel discipline proved here (finalize once while pending, then only follow-ups) is the usage the reply manager follows, not a limit of Discord's API.
