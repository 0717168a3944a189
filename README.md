# eureureong server core in Dafny

eureureong is a small client/server game written in Python. This project
models the part of its server that moves text between a client socket and
the request handler:

- `Handler.handle` (server/handler.py) receives a block of text. It cuts the
  block into frames, each ending at the next `PROTOCOL_END` ("\n"). It decodes
  each frame as JSON and is meant to dispatch it by its `method` key to a
  member `handle_<method>` when one exists. As written it never does: the key
  it reads is undefined (see "## Findings").
- `Server._recv` (server/server.py) reads a client's chunks and buffers the
  non-blank ones. It is meant to hand the joined buffer to the handler once a
  chunk completes a message. As written it never does: the completeness test
  runs on the stripped chunk (see "## Findings").
- `Server._send` (server/server.py) sends an encoded message through a
  socket that may take only part of it per call.

The files are:

- `protocol.dfy` holds the protocol constants (common/protocol.py).
- `text.dfy` holds the Python `str` operations the code relies on: `find`,
  `strip`, `endswith`, `"".join` and a character count.
- `handler.dfy` models the frame splitting, the dispatch (`Process`), the
  handler loop (`Handle`) and the handler as written (`HandleAsWritten`).
- `server.dfy` models the receive loop as a function `Reassemble`. It takes
  the classification of a chunk as a parameter: `Classify` for the code as
  written, `ClassifyIntended` for the evidently intended check. It also holds
  the `Server` class, with `Recv`, `Send` and `Close`.

Sockets are replaced by what they return:

- `_recv` reads a sequence of `Poll`s. Each is the decoded text of one
  `recv`, a `select.error`, or a UTF-8 decoding error.
- `_send` reads the sequence of byte counts that the successive `send` calls
  report.
- `json.loads` is the function parameter `decode`.
- The handler's `handle_<name>` members are the set `methods`. The shipped
  `Handler` defines none of them: `HANDLER_METHODS` is the empty set.

## Model

| member | source | states |
|---|---|---|
| Text.Find | server/handler.py:15 | `str.find`: the result is -1 exactly when the delimiter occurs nowhere; otherwise it is the lowest index where the delimiter occurs |
| Text.FindFrom | server/handler.py:36 | the same search started at an offset: no occurrence between the offset and the result, and -1 only when none at all |
| Text.StripEdges | server/server.py:81 | `strip("\n")` keeps the slice of the input between a leading and a trailing run of "\n"; what it keeps is empty or has no "\n" at either end |
| Text.StrippedNeverEndsWith | server/server.py:81-90 | a string stripped of "\n" never ends with "\n" |
| Text.Strip | server/server.py:81 | `str.strip(c)`: leading copies of `c`, then trailing ones, removed. It has no contract of its own; `Text.StripEdges` characterises it |
| Text.EndsWith | server/server.py:90 | `str.endswith(suffix)`: the last `len(suffix)` characters are `suffix`. It is a predicate that defines the test, with no contract of its own |
| Text.Concat | server/server.py:93 | `"".join(parts)`: the parts in order. It has no contract of its own; `Text.ConcatAppend` is used by the conservation lemmas, and `Text.ConcatEndsWith` gives its suffix |
| Text.ConcatEndsWith | server/server.py:93 | `"".join(parts)` ends with whatever suffix its last part ends with |
| Handler.IsFrameByFind | server/handler.py:15-18 | a frame is a text whose first `PROTOCOL_END` is its last character |
| Handler.SplitFrames | server/handler.py:15-19 | the loop cuts at most one frame per character of the input |
| Handler.SplitShape | server/handler.py:15-19 | every frame the loop cuts ends with its first delimiter; the leftover holds none; frames followed by the leftover rebuild the input |
| Handler.SplitJoined | server/handler.py:15-19 | splitting frames joined with a delimiter-free leftover gives back exactly those frames and that leftover |
| Handler.SplitCount | server/handler.py:15-36 | the number of frames equals the number of `PROTOCOL_END` characters in the input |
| Handler.Process | server/handler.py:21-33 | the frames are dispatched in order up to the first one that cannot be. Each dispatched frame has a text method and is invoked exactly when the handler has that member. The run drains all frames exactly when no frame stops it. A stop is a decoding error, a missing method key, or a method that is not text |
| Handler.Handle | server/handler.py:13-39 | the loop computes `Process` of the frames `SplitFrames` cuts from the input, and takes at most one step per "\n" |
| Handler.ShippedHandlerInvokesNothing | server/handler.py:27-33 | with the shipped handler, every dispatched frame takes the "not implemented" branch |
| Handler.HandleAsWritten | server/handler.py:13-39 | as written nothing is dispatched. The run drains only an input without a delimiter. It is swallowed exactly when the first frame is malformed JSON. Otherwise it raises `AttributeError` |
| Handler.AsWrittenLosesDispatchableFrame | server/handler.py:23 | wherever the corrected handler dispatches the first frame, the handler as written raises instead |
| Server.Classify | server/server.py:81-91 | what `_recv` as written does with one non-empty chunk: skip it if it is blank once stripped of "\n", buffer the stripped text, and ask for a flush when that text ends with `PROTOCOL_END`. It has no contract of its own; `Server.ClassifyNeverFlushes` states that the flush never happens |
| Server.ClassifyIntended | server/server.py:81-91 | the corrected rule: buffer the chunk as received and ask for a flush when it ends with `PROTOCOL_END`, a lone "\n" included; only then is the blank test applied. It has no contract of its own; `Server.IntendedSkipsNothing` and `Server.IntendedHandsOverEverything` state what it guarantees |
| Server.IntendedSkipsNothing | server/server.py:81-91 | under the corrected rule no non-empty chunk is skipped, and each is buffered unchanged: a blank chunk ends with "\n" and so completes the message |
| Server.IntendedBuffersEveryChunk | server/server.py:80-85 | under the corrected rule the chunks buffered are exactly the non-empty chunks received, in order |
| Server.IntendedFlushesLoneDelimiter | server/server.py:81-96 | under the corrected rule a lone "\n" chunk hands the buffer plus that delimiter to the handler, so the message is not merged with the next one |
| Server.Reassemble | server/server.py:62-96 | the receive loop as a function of the polls, the buffer, `keep_running`, the chunk rule and which texts make `handle` raise. It has no contract of its own. `Server.LoopExits`, `Server.KeepsEveryChunk`, `Server.HandsOverFlushedChunks` and `Server.NeverHandsOver` state its properties, and `Server.Server.Recv` is proved equal to it |
| Server.ClassifyNeverFlushes | server/server.py:81-91 | as written, no chunk ever passes the `PROTOCOL_END` test, because it was stripped of "\n" first |
| Server.NeverHandsOver | server/server.py:62-96 | as written, the receive loop never calls the handler. Its buffer only grows and holds the stripped non-blank chunks in arrival order |
| Server.BufferedChunksAreStripped | server/server.py:81-85 | as written, every buffered chunk is non-empty and has no "\n" at either end |
| Server.AsWrittenKeepsCompleteMessage | server/server.py:81-96 | a complete message in one chunk stays stripped in the buffer as written, but the intended check hands it to the handler whole |
| Server.JoinRequestIsCompleteMessage | server/server.py:81-90 | the one-line join request `{"method": "join"}` followed by "\n" meets that lemma's premise |
| Server.LoopExits | server/server.py:63-103 | the loop ends as `Stopped` exactly when `keep_running` is false. An exit on an empty `recv`, a select error or a decode error is caused by the last poll read, and every poll before it was a non-empty chunk, so the loop stops at the first such poll. On any other exit every poll read was a non-empty chunk |
| Server.EffectConserves | server/server.py:85-96 | one chunk moves text between the handed texts and the buffer without losing, repeating or reordering any |
| Server.HandsOverFlushedChunks | server/server.py:85-96 | when every chunk that completes a message ends with a given suffix, every text handed to the handler ends with that suffix too |
| Server.KeepsEveryChunk | server/server.py:85-96 | unless `handle` raised, the handed texts followed by the buffer are exactly the buffered chunks, in arrival order |
| Server.IntendedHandsOverEverything | server/server.py:81-96 | under the intended check, every handed text ends with `PROTOCOL_END`. Unless `handle` raised, the handed texts followed by the buffer are exactly the non-empty chunks received, in order: nothing received is lost or reordered |
| Server.StepBuffers | server/server.py:80-91 | a non-blank chunk that does not complete a message only extends the buffer |
| Server.StepHandsOver | server/server.py:93-96 | a completing chunk hands the joined buffer over and clears the buffer |
| Server.StepEnds | server/server.py:73-78 | an empty `recv` or a caught exception ends the loop with the state so far |
| Server.StepRaises | server/server.py:93-103 | an exception from `handle` ends the loop with the buffer not cleared |
| Server.Server.constructor | server/server.py:11-13 | a new server has `keep_running` set |
| Server.Server.Close | server/server.py:58-59 | `close()` clears `keep_running` |
| Server.Server.Recv | server/server.py:61-105 | the loop computes `Reassemble` with the intended check. Every text it hands over ends with `PROTOCOL_END`. Unless `handle` raised, the handed texts followed by the final buffer are exactly the non-empty chunks read, in order |
| Server.Server.Send | server/server.py:107-125 | the bytes sent are exactly a prefix of the message, in order, one run per `send` result. The loop ends as `AllSent` exactly when everything was sent, and as `Halted` exactly when `keep_running` was false and the message was non-empty. It ends as `ZeroSent` only when a `send` returned 0 |

## Left out

- Sockets, `select`, `bind`/`listen`/`accept`, threads, the lock around `handle`, and `serve_forever` are not modelled; the loops read their socket results from sequences instead.
- `select` timeouts (a socket that is not yet readable or writable) are not modelled: such a turn changes no state and only repeats the loop.
- `client_socket.close()` at the end of `_recv` is not modelled: it changes no state the model keeps.
- `keep_running` cannot change while a loop runs. The source lets another thread clear it at any time, which the model does not capture.
- The `InputEnded` and `Waiting` exits are artefacts of finite input sequences: the source would go on waiting.
- `json.loads` is an abstract parameter. JSON values that are not objects (lists, numbers) are not modelled, so neither is how `in` and indexing behave on them.
- The conversions `str()` and `.encode()` at the start of `_send`, and `.decode('utf-8')` in `_recv`, are not modelled: `Send` takes bytes and `Recv` takes decoded text.
- `buf_size`, `timeout`, `host`, `port` and `verbose` on `Server` are not modelled: they only parametrise I/O.
- Printing is a no-op in the model.
- The bodies of the invoked `handle_<name>` members are not modelled. The shipped handler defines none.
- server/listener.py, the client package and the `main_*` modules are not part of this model.
- Server.Server.Send: `_send` has no `try`. An exception from `select` or `send` (a `BrokenPipeError`, say) leaves it with part of the message already sent. The model's `send` results are byte counts only, so it has no exit for a failed `send`.
- Handler.Handle: the "not implemented" branch prints through `self.verbose`, which `Handler` does not define, so the source would raise `AttributeError` there. The model follows the evidently intended print, a no-op, and continues.
- Server.Server.Recv: an exception raised inside an invoked `handle_<name>` member is not modelled. Only the `TypeError` from a method value that is not text makes `handle` raise.

## Findings

| source | as written | input that shows it | evidently intended | confidence | as-written member | corrected member |
|---|---|---|---|---|---|---|
| server/handler.py:23-27 | reads the method key as `protocol.METHOD`, which common/protocol.py does not define; the `AttributeError` escapes `handle` | any frame that decodes to a JSON object, such as `{"method": "join"}` followed by "\n" | read `protocol.PROTOCOL_METHOD` | high, not executed | Handler.AsWrittenLosesDispatchableFrame | Handler.Handle |
| server/server.py:81-90 | strips "\n" from the chunk before testing `endswith(PROTOCOL_END)`, so the test never holds and `handle` is never called | one chunk `{"method": "join"}` followed by "\n" | test the chunk as received for `PROTOCOL_END` before the blank test, so that every chunk ending with "\n", a lone "\n" included, completes the message | high, not executed | Server.AsWrittenKeepsCompleteMessage | Server.IntendedHandsOverEverything |
