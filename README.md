# gsnova channel core and string helpers, in Dafny

This project models two parts of the gsnova proxy:

- **The client channel of `local/proxy/channel.go`.** A `RemoteChannel` owns one encrypted connection to a remote server. It has two step functions:
  - the write loop composes batches of frames, optionally led by an auth frame, and counts the events it sends;
  - the read loop gates decoded inbound events on the authentication result, and reconnects with a fresh IV when the connection is closed.

  `Init` classifies the auth code it waited for. A `RemoteChannelTable` is a round-robin pool of channels: `Add`, `StopAll` and `Select` with its wrapping cursor.
- **The string helpers of `common/helper/str.go`:**
  - `RandAsciiString`;
  - `GetRequestURLString`;
  - the rule rewrite in `PrepareRegexp`;
  - `WildcardMatch`;
  - the comment filter of `ReadWithoutComment`.

  The Go library calls they use (`strings.TrimSpace`, `TrimLeft`, `Index`, `Split`, `Replace`, `HasPrefix`, `EqualFold`) are modelled in `GoStrings` with the meaning the Go documentation gives them.

Files:

- `wrappers.dfy`: `Option`.
- `go_strings.dfy`: the Go `strings` functions.
- `helper.dfy`: `str.go`.
- `proxy_channel.dfy`: `RemoteChannel`.
- `channel_table.dfy`: `RemoteChannelTable`.

What the model abstracts:

- **The codec.** The event codec is uninterpreted. Encrypting an event is recorded as a `Frame(event, key)`. Decoding is given as the sequence of results `DecryptEvent` produced: an event, "need more bytes" (`EBNR`), or a failure.
- **The transport.** The transport is reduced to its `closed` flag.
- **One turn per method.** Each channel method is one turn of one loop. Its inputs are the values the goroutines, the clock and the network would supply:
  - whether `Open` or `Write` succeeded;
  - the fresh IV;
  - the number of proxy sessions;
  - the auth code `Init` observed.
- **Behaviours of the code the model keeps:**
  - An unexpected non-zero auth code makes `Init` return an error without calling `Stop` (`channel.go:85-86`).
  - A fatal decode error closes the connection and ends the decode pass. The read loop then reconnects only after the next read error (`channel.go:210-217`, `233-238`).
  - `Select` can return nil on a non-empty table, and it can fail to return at all (see Findings).
  - `StopAll` calls `Stop` once per slot, so a channel added twice is stopped twice. A nil slot makes `Stop` dereference nil, so `StopAll` panics there.
  - A reconnect resets the IV and the sent-event counter but not the auth result (`channel.go:186-187`).
  - `authed()` is `authResult != 0` (`channel.go:47-49`). So after a notification carrying `ErrAuthFailed` or an unexpected code, every later event decoded in the same pass still goes to `HandleEvent` (`channel.go:221`, `231`); `GateWhenAuthed` covers every non-zero code.

## Model

| member | source | states |
|---|---|---|
| GoStrings.TrimSpaceSpec | common/helper/str.go:49 | the result is the input without its maximal leading and trailing runs of Unicode white space; it neither starts nor ends with a space |
| GoStrings.TrimLeft | common/helper/str.go:65 | the result is a suffix; every dropped character belongs to the cutset SET and the first kept one does not |
| GoStrings.Index | common/helper/str.go:61 | -1 exactly when the substring does not occur; otherwise an occurrence with no earlier one |
| GoStrings.Split | common/helper/str.go:59 | at least one piece, no piece holds the separator, and joining the pieces with it gives the input back |
| GoStrings.SplitWithoutSep | common/helper/str.go:59 | a string without the separator splits into itself alone |
| GoStrings.SplitJoin | common/helper/str.go:59 | Split inverts Join for separator-free pieces (the other half of the round trip) |
| GoStrings.ReplaceAllAppend | common/helper/str.go:50-54 | replacing a character in a concatenation replaces in each part |
| Helper.LetterRunesAreLetters | common/helper/str.go:19 | every entry of the 52-letter table is an ASCII letter |
| Helper.RandAsciiString | common/helper/str.go:21-27 | a string of exactly n characters, character i being letter number draws[i] of the table, so every character is a–z or A–Z |
| Helper.GetRequestURLString | common/helper/str.go:29-46 | the result is empty exactly for a nil request |
| Helper.GetRequestURLNil | common/helper/str.go:30-32 | a nil request gives "" |
| Helper.GetRequestURLTunnel | common/helper/str.go:33-36 | a CONNECT request (method compared case-insensitively) with empty scheme and path gives "https://" + host |
| Helper.GetRequestURLAbsolute | common/helper/str.go:37-45 | any other request whose URL string starts with http:// or https:// gives that string unchanged |
| Helper.GetRequestURLRelative | common/helper/str.go:37-44 | any other request gives scheme (default "http") + "://" + host + URL string |
| Helper.GetRequestURLNoScheme | common/helper/str.go:33-45 | with an empty URL scheme the result always starts with http:// or https:// |
| Helper.PrepareRegexpRule | common/helper/str.go:49-54 | the rewrite never shortens the trimmed rule |
| Helper.RewriteIsPerChar | common/helper/str.go:50-54 | the three successive Replace calls equal one left-to-right rewrite of each character ('.' to "\\.", '?' to "\\?" unless only_star, '*' to ".*") |
| Helper.PrepareRegexpRewrite | common/helper/str.go:49-54 | the expression handed to regexp.Compile is the trimmed rule rewritten character by character, so the dots introduced for '*' are not escaped |
| Helper.EscapeRuleAppend | common/helper/str.go:50-54 | the rewrite maps a concatenation part by part |
| Helper.OnlyStarKeepsPlainRule | common/helper/str.go:51-53 | with only_star, a rule without '.' and '*' is passed through unchanged, '?' included |
| Helper.MatchCards | common/helper/str.go:59-67 | no pieces always match; a match implies the first piece occurs in the text |
| Helper.WildcardMatch | common/helper/str.go:58-68 | the loop returns exactly what the piece-by-piece search over Split(pattern, "*") returns |
| Helper.RemainingStep | common/helper/str.go:65 | each piece is searched in the previous remaining text stripped of its leading characters from the set piece + "*" |
| Helper.MatchCardsAllFound | common/helper/str.go:59-67 | WildcardMatch is true if and only if every piece occurs in its remaining text |
| Helper.WildcardWithoutStar | common/helper/str.go:58-67 | a pattern without '*' matches exactly the texts that contain it |
| Helper.EmptyPatternMatchesAll | common/helper/str.go:58-67 | the empty pattern matches every text |
| Helper.WildcardIgnoresOrder | common/helper/str.go:60-66 | as written, "a*b" matches "ba" although the pieces do not occur in order |
| Helper.WildcardLosesMatch | common/helper/str.go:60-66 | as written, "a*ab" does not match "aab" although the pieces occur in order |
| Helper.OrderedCardsIffInOrder | common/helper/str.go:60-66 | continuing after the first occurrence of each piece succeeds exactly when the pieces occur in order without overlap |
| Helper.OrderedWildcardMatch | common/helper/str.go:58-68 | the corrected loop returns true exactly when the pieces of the pattern occur in the text in order |
| Helper.KeepLine | common/helper/str.go:80-85 | a scanned line contributes at most one line, which does not start with the comment prefix |
| Helper.KeptLines | common/helper/str.go:79-86 | no more lines are kept than scanned |
| Helper.JoinLines | common/helper/str.go:83-84 | the output has at least one character (its "\n") per kept line |
| Helper.KeptLinesNoComment | common/helper/str.go:79-86 | no kept line starts with the comment prefix, and no more lines are kept than read |
| Helper.KeptLinesMembers | common/helper/str.go:80-85 | a line is kept if and only if it is some input line trimmed and does not start with the prefix |
| Helper.KeptLinesAppend | common/helper/str.go:79-86 | the filter maps a concatenation of line sequences part by part, so kept lines stay in file order |
| Helper.ReadWithoutComment | common/helper/str.go:70-88 | an open failure is reported; otherwise the output is the kept lines, each followed by one "\n" |
| Helper.FilterComments | common/helper/str.go:77-87 | the scanner loop appends exactly the kept lines, each followed by "\n" |
| Helper.FilterCommentsStep | common/helper/str.go:79-86 | after each scanned line the output is the output for the lines scanned so far |
| Helper.JoinLinesAppend | common/helper/str.go:83-84 | the output for a concatenation of line sequences is the concatenation of their outputs |
| Helper.EmptyPrefixKeepsNothing | common/helper/str.go:82 | with an empty comment prefix the output is empty |
| Helper.KeptLinesNoBreak | common/helper/str.go:80-81 | kept lines hold no line break when the scanned lines hold none |
| Helper.JoinLinesIsJoin | common/helper/str.go:83-84 | appending "\n" after each line is Join with "\n" over the lines plus an empty last piece |
| Helper.ReadWithoutCommentLines | common/helper/str.go:79-87 | splitting the output at "\n" gives back exactly the kept lines and an empty tail |
| ProxyChannel.EventFrame | local/proxy/channel.go:151-161 | an embedded AuthEvent gets the current IV and key 0; every other event keeps its content and gets key civ |
| ProxyChannel.BatchShape | local/proxy/channel.go:142-161 | a batch holds one frame per event in queue order, plus an auth frame (index, current IV, key 0) placed first exactly when the writer joins auth |
| ProxyChannel.BatchFramesSnoc | local/proxy/channel.go:151-161 | one more queued event appends exactly its own frame at the end of the batch |
| ProxyChannel.JoinsAuth | local/proxy/channel.go:144 | the writer adds its own auth frame only when WriteJoinAuth or OpenJoinAuth is set |
| ProxyChannel.BatchFrames | local/proxy/channel.go:142-161 | a batch has one frame per queued event plus one when it joins auth |
| ProxyChannel.AuthFlags | local/proxy/channel.go:144-162 | one flag per successive batch on a connection, with the counter advanced by each batch's frames modulo 2^32 |
| ProxyChannel.WriteJoinAuthEveryBatch | local/proxy/channel.go:144 | with WriteJoinAuth every batch carries the auth frame |
| ProxyChannel.NoAuthOnceCounted | local/proxy/channel.go:144-162 | with OpenJoinAuth alone, once the counter is past zero and does not wrap, no later batch carries the auth frame |
| ProxyChannel.OpenJoinAuthFirstBatchOnly | local/proxy/channel.go:144-187 | with OpenJoinAuth alone and the zero counter a reconnect leaves (line 187), the first batch carries the auth frame and no later batch on that connection does, while the counter does not wrap |
| ProxyChannel.Present | local/proxy/channel.go:115-121 | draining never yields more events than items received |
| ProxyChannel.PresentAppend | local/proxy/channel.go:115-121 | dropping nil items preserves the order of the others |
| ProxyChannel.PresentCount | local/proxy/channel.go:115-121 | each event reaches the batch as often as it was queued; nil never does |
| ProxyChannel.GateEvent | local/proxy/channel.go:219-230 | one decoded event never reopens the connection, never changes a non-zero auth result or closes once authenticated, and is dispatched or dropped, nothing else |
| ProxyChannel.Gate | local/proxy/channel.go:208-232 | a decode pass never reopens the connection, closes it on a fatal decode error, and never shrinks the list of dispatched events |
| ProxyChannel.GatePrefix | local/proxy/channel.go:208-232 | a decode pass only appends to the dispatched events: the events dispatched before it stay, unchanged and in order, at the front |
| ProxyChannel.FirstAuthNotice | local/proxy/channel.go:219-224 | the position of the first notification with a non-zero code, and that none precedes it |
| ProxyChannel.GateWhenAuthed | local/proxy/channel.go:219-231 | once authenticated, every decoded event (notifications too) is dispatched in order and the auth result is unchanged |
| ProxyChannel.GateBeforeAuth | local/proxy/channel.go:219-230 | before authentication nothing is dispatched up to and including the first non-zero notification, which sets the auth result; only the events after it are dispatched |
| ProxyChannel.GateProtocolErrorCloses | local/proxy/channel.go:226-229 | a non-notification decoded before authentication closes the connection |
| ProxyChannel.AuthedKeepsConnection | local/proxy/channel.go:208-232 | once authenticated, a decode pass without a fatal decode error leaves the closed flag as it was: an open connection stays open |
| ProxyChannel.GateStopReason | local/proxy/channel.go:208-218 | the pass ends on an empty buffer exactly when every result was an event (that a fatal decode error closes the connection is Gate's own contract) |
| ProxyChannel.ClassifyAuth | local/proxy/channel.go:73-87 | timeout, SuccessAuthed, ErrAuthFailed and any other non-zero code each give their own outcome, in both directions |
| ProxyChannel.RemoteChannel.constructor | local/proxy/channel.go:31-45 | a new channel has zero counter, auth result and IV, is not running, has a closed transport and an empty queue |
| ProxyChannel.RemoteChannel.Authed | local/proxy/channel.go:47-49 | authenticated exactly when an auth result was recorded (definition; used by ProcessReadTurn) |
| ProxyChannel.RemoteChannel.Stop | local/proxy/channel.go:97-100 | clears running, closes the transport, and counts the call |
| ProxyChannel.RemoteChannel.Write | local/proxy/channel.go:265-268 | the event (or nil) becomes the last queue entry |
| ProxyChannel.RemoteChannel.Init | local/proxy/channel.go:57-90 | the outcome is ClassifyAuth of the observed code; the channel is stopped on timeout and auth failure and only then; the queue is fresh unless direct I/O |
| ProxyChannel.RemoteChannel.ComposeBatch | local/proxy/channel.go:142-162 | the frames are BatchFrames of the drained events, and the counter grows by the number of frames, modulo 2^32 |
| ProxyChannel.RemoteChannel.DrainQueue | local/proxy/channel.go:115-133 | every queued item is received, the non-nil events are returned in order, and the queue is empty |
| ProxyChannel.RemoteChannel.ProcessWriteTurn | local/proxy/channel.go:123-175 | when not running at the loop test the writer exits and the pending events are dropped; a Stop while receiving ends it when nothing was received; events are kept while the connection is closed; otherwise the composed batch is written, its frames counted, and a failed write of a non-empty batch closes the connection and is reported as failed |
| ProxyChannel.RemoteChannel.Reconnect | local/proxy/channel.go:179-202 | when not running the reader exits and nothing changes; a closed connection with sessions takes the fresh IV and a zero counter, which re-arms the OpenJoinAuth frame, reopens, and on success with OpenJoinAuth queues a nil wake-up; otherwise nothing changes; the auth result is kept |
| ProxyChannel.RemoteChannel.ProcessReadTurn | local/proxy/channel.go:203-240 | the dispatched events, auth result and closed flag are those of Gate over the decode results; a read error closes and reconnects |
| ChannelTable.LiveDistance | local/proxy/channel.go:303-311 | the number of probes to the first non-nil slot cyclically at or after a given one, with all slots probed before it nil; None only when every probed slot is nil |
| ChannelTable.Pick | local/proxy/channel.go:295-317 | on a non-empty table the cursor is left in 1..len(cs), and a chosen slot is in range and non-nil |
| ChannelTable.PickLive | local/proxy/channel.go:302-311 | a chosen slot is in range and non-nil, the cursor is left one past it, and every slot cyclically between the wrapped cursor and it is nil |
| ChannelTable.PickNilIffAllNil | local/proxy/channel.go:299-316 | Select (as specified) yields nil exactly when every slot is nil, for every cursor |
| ChannelTable.RoundRobin | local/proxy/channel.go:302-311 | without nil slots, up to len(cs) successive selections return the slots in cyclic order from the wrapped cursor, each exactly once |
| ChannelTable.PickFirstLive | local/proxy/channel.go:302-311 | from a cursor below the end, the choice is the first non-nil slot at or after it |
| ChannelTable.PicksVisitLiveInOrder | local/proxy/channel.go:302-311 | successive selections from a cursor return the non-nil slots at or after it in index order |
| ChannelTable.FreshTableInOrder | local/proxy/channel.go:295-323 | from a fresh table with k non-nil slots, k successive selections return exactly those slots in index order |
| ChannelTable.FullFreshTableInOrder | local/proxy/channel.go:295-323 | from a fresh table without nil slots, selection i returns slot i |
| ChannelTable.ProbeStep | local/proxy/channel.go:304-308 | one probe on a non-empty table leaves the cursor in 1..len(cs) |
| ChannelTable.CursorAfter | local/proxy/channel.go:302-308 | after one probe or more, the loop's cursor lies in 1..len(cs) |
| ChannelTable.SelectSpins | local/proxy/channel.go:302-315 | with every slot nil and a start cursor of 0 or past the end, every probe reads a nil slot and the stepped cursor never equals the start, so neither exit of the loop is taken |
| ChannelTable.CursorAfterIsCyc | local/proxy/channel.go:302-308 | after k probes (1 <= k <= len(cs)) the loop's cursor is one past slot k - 1 counted cyclically from the wrapped start, the form the Select method's loop invariant uses |
| ChannelTable.FirstNil | local/proxy/channel.go:289-291 | the index of the first nil slot: every earlier slot is non-nil |
| ChannelTable.RemoteChannelTable.constructor | local/proxy/channel.go:319-323 | a new table is empty with the cursor at 0 |
| ChannelTable.RemoteChannelTable.Add | local/proxy/channel.go:280-284 | c becomes the last slot; earlier slots and the cursor are unchanged |
| ChannelTable.RemoteChannelTable.StopAll | local/proxy/channel.go:286-293 | every channel is stopped once per slot, in slot order, and the table becomes empty with the cursor kept; a nil slot panics after stopping the channels before it and leaves the table as it was |
| ChannelTable.RemoteChannelTable.Select | local/proxy/channel.go:295-317 | the returned channel and the new cursor are those of Pick, and the slots are unchanged |

## Left out

- Goroutines, the mutexes and all timing: the concurrent write, read and heartbeat loops, the `time.Sleep` backoffs, and the `Init` busy-wait with its timeout. Each method is one turn of one loop.
- The heartbeat ticker (`channel.go:102-112`): it is wall-clock driven and only calls `Write` with a heartbeat event.
- The capacity of `wch` (5) and the blocking send and receive on it. The queue is an unbounded sequence.
- `generateIV` and `rand.Intn`: their random values are inputs (`freshIv`, `draws`).
- The transport I/O: `Open`, `Read`, `Write`, `Close`, `Request`, `ReadTimeout`. Also `RemoteChannel.Request` and `WriteRaw`. These are foreign network calls; their outcomes are inputs.
- The event codec (`EncryptEvent`, `DecryptEvent`, `EBNR`), `HandleEvent`, `getProxySessionSize`, `newRandomSession` and `closeProxySession`. The event package is not part of this model.
- The values of `event.SuccessAuthed` and `event.ErrAuthFailed`. The model uses 1 and 2, and the proofs rely only on their being distinct and non-zero.
- `regexp.Compile`, `os.Open`, `bufio.Scanner` and its line-length limit, `http.Request` and `url.URL.String()`. The compiled expression, the lines read and the URL fields are inputs or outputs.
- Logging, including the IV-mismatch message at `channel.go:154`.
- Bytes versus code points: Go strings are byte strings, modelled here as sequences of characters. `EqualFold` is modelled with ASCII case folding only, which is enough for the literal "Connect".
- remote/paas/http.go is not part of this model.
- Helper.RandAsciiString: `n` is a `nat`. The Go function takes an `int`, and `make([]byte, n)` panics for a negative n (`str.go:22`); that panic is not modelled.
- Helper.GetRequestURLString: the `Request` value always has its URL fields. A non-nil request with a nil `URL` makes `req.URL.String()` dereference nil and panic (`str.go:33-34`); that panic is not modelled.
- ProxyChannel.RemoteChannel.ComposeBatch: the IV overwrite of an embedded AuthEvent is modelled on the frame. The in-place write to an event object shared with its producer is not modelled.
- ProxyChannel.RemoteChannel.ProcessWriteTurn: requires a non-empty queue when running with nothing pending, because a receive that blocks on an empty queue is not a turn of this model. A concurrent Stop is modelled only during the receive (`stopMeanwhile`), the one point where it changes what the turn does.
- ProxyChannel.RemoteChannel.Init: the busy-wait is reduced to the code it observed (or its absence on timeout).
- ChannelTable.RemoteChannelTable.Select: requires that the loop returns (SelectReturns). The non-terminating case is covered by SelectSpins and by the total specification Pick.
- ChannelTable.RemoteChannelTable.StopAll: a Go panic is modelled as a `panicked` result rather than as unwinding.

## Findings

| source | as written | input that shows it | evidently intended | confidence | as-written member | corrected member |
|---|---|---|---|---|---|---|
| local/proxy/channel.go:302-315 | the loop exits only on a non-nil slot or when the cursor, just stepped, equals its start value | every slot nil and cursor 0, e.g. the first Select on a table holding only nil; or a cursor past the end after StopAll followed by Add(nil) | return nil once every slot was probed, for every cursor | high, not executed | ChannelTable.SelectSpins | ChannelTable.PickNilIffAllNil |
| common/helper/str.go:65 | after a piece is found, TrimLeft strips leading characters from the SET piece + "*", not the text up to the end of the match | WildcardMatch("ba", "a*b") is true; WildcardMatch("aab", "a*ab") is false | each piece must occur after the previous one | high, not executed | Helper.WildcardIgnoresOrder | Helper.OrderedWildcardMatch |
