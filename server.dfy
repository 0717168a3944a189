/**
 * `Server` (server/server.py): the per-client receive loop that buffers
 * chunks until a message looks complete and hands it to the handler, and the
 * send loop that retries partial writes.
 *
 * The socket is replaced by its observable results: `_recv` reads a sequence
 * of `Poll`s (what each `recv` returned, or the exception raised), `_send`
 * reads the sequence of values `send` returned. `keep_running` is a field
 * that nothing else changes while a loop runs.
 */
module Server {
  import opened Protocol
  import opened Text
  import Handler

  /** What one turn of the receive loop got from the socket. */
  datatype Poll =
    | Received(text: string)  // `recv` returned bytes that decode to `text`; "" means the peer closed
    | SelectFailed            // `select` raised `select.error`
    | NotUtf8                 // `decode('utf-8')` raised, caught by `except Exception`

  /** Why the receive loop ended. */
  datatype RecvExit =
    | Stopped        // `keep_running` is false
    | Disconnected   // `recv` returned no bytes
    | SelectError    // `except select.error: break`
    | BadUtf8        // `except Exception: break`, raised by the decoding
    | HandlerRaised  // `except Exception: break`, raised from inside `handle`
    | InputEnded     // the polls ran out while the loop would go on waiting

  /**
   * The state of `_recv` when it stops: the `messages` buffer, every
   * `full_message` handed to the handler in order, and how many polls it read.
   */
  datatype RecvRun = RecvRun(buffer: seq<string>, handed: seq<string>, consumed: nat, exit: RecvExit)

  /** Text already handed over and polls already read, followed by run `r`. */
  function Resume(handed: seq<string>, consumed: nat, r: RecvRun): RecvRun
  {
    RecvRun(r.buffer, handed + r.handed, consumed + r.consumed, r.exit)
  }

  lemma ResumeResume(h: seq<string>, c: nat, h': seq<string>, c': nat, r: RecvRun)
    ensures Resume(h, c, Resume(h', c', r)) == Resume(h + h', c + c', r)
  {
    assert h + (h' + r.handed) == (h + h') + r.handed;
  }

  /** `handle(full)` lets a `TypeError` escape (see `Handler.Handle`). */
  predicate HandlerRaises(full: string, decode: string -> Handler.Decoded, methods: set<string>)
  {
    Handler.Process(Handler.SplitFrames(full, PROTOCOL_END).frames, decode, methods).exit == Handler.MethodNotText
  }

  /** Which texts make the handler raise, for a given decoder and set of handler members. */
  function RaisesIn(decode: string -> Handler.Decoded, methods: set<string>): string -> bool
  {
    full => HandlerRaises(full, decode, methods)
  }

  /** What one non-empty chunk does to the buffer. */
  datatype Effect =
    | Skip                   // `continue` before anything is buffered
    | Append(chunk: string)  // `chunk` is buffered and the loop goes on
    | Flush(chunk: string)   // `chunk` is buffered, then the buffer goes to the handler

  /**
   * How `_recv` as written treats a non-empty chunk `data`: strip "\n",
   * skip what is left empty, buffer the rest, and flush when what was
   * buffered ends with `PROTOCOL_END`.
   */
  function Classify(data: string): Effect
  {
    var message := Strip(data, '\n');
    if message == [] then Skip
    else if EndsWith(message, PROTOCOL_END) then Flush(message)
    else Append(message)
  }

  /** Stripping "\n" first means no chunk ever ends with `PROTOCOL_END`: `Classify` never flushes. */
  lemma ClassifyNeverFlushes(data: string)
    ensures !Classify(data).Flush?
  {
    StrippedNeverEndsWith(data, '\n');
  }

  /**
   * The evidently intended treatment of a non-empty chunk: the chunk is
   * tested for `PROTOCOL_END` and buffered as received, so the delimiters the
   * handler splits on reach it. The blank test comes second; a non-empty
   * chunk that is blank ends with "\n", so it is never taken (see
   * `IntendedSkipsNothing`).
   */
  function ClassifyIntended(data: string): Effect
  {
    if EndsWith(data, PROTOCOL_END) then Flush(data)
    else if Strip(data, '\n') == [] then Skip
    else Append(data)
  }

  /** Under the intended treatment every non-empty chunk is buffered as received. */
  lemma IntendedSkipsNothing(data: string)
    requires data != []
    ensures ClassifyIntended(data) != Skip && ClassifyIntended(data).chunk == data
  {
    StripEdges(data, '\n');
  }

  /**
   * The receive loop of `_recv` from buffer `buffer`: `classify` says what a
   * non-empty chunk does, `raises(full)` whether `handle(full)` lets an
   * exception escape.
   */
  function Reassemble(polls: seq<Poll>, buffer: seq<string>, running: bool,
                      classify: string -> Effect, raises: string -> bool): RecvRun
    decreases |polls|
  {
    if !running then RecvRun(buffer, [], 0, Stopped)
    else if polls == [] then RecvRun(buffer, [], 0, InputEnded)
    else
      match polls[0]
      case SelectFailed => RecvRun(buffer, [], 1, SelectError)
      case NotUtf8 => RecvRun(buffer, [], 1, BadUtf8)
      case Received(data) =>
        if data == [] then RecvRun(buffer, [], 1, Disconnected)
        else
          match classify(data)
          case Skip => Resume([], 1, Reassemble(polls[1..], buffer, running, classify, raises))
          case Append(chunk) => Resume([], 1, Reassemble(polls[1..], buffer + [chunk], running, classify, raises))
          case Flush(chunk) =>
            var full := Concat(buffer + [chunk]);
            if raises(full) then RecvRun(buffer + [chunk], [full], 1, HandlerRaised)
            else Resume([full], 1, Reassemble(polls[1..], [], running, classify, raises))
  }

  /** The chunk an effect buffers, if any. */
  function KeptBy(e: Effect): seq<string>
  {
    if e.Skip? then [] else [e.chunk]
  }

  /** The buffer after `e`: a flush hands the buffer over and clears it. */
  function BufferAfter(buffer: seq<string>, e: Effect): seq<string>
  {
    match e
    case Skip => buffer
    case Append(chunk) => buffer + [chunk]
    case Flush(_) => []
  }

  /** The text `e` hands to the handler, if any. */
  function HandedBy(buffer: seq<string>, e: Effect): seq<string>
  {
    if e.Flush? then [Concat(buffer + [e.chunk])] else []
  }

  /** The chunks buffered from `polls`, in arrival order. */
  function Buffered(polls: seq<Poll>, classify: string -> Effect): seq<string>
  {
    if polls == [] then []
    else
      (if polls[0].Received? && polls[0].text != [] && classify(polls[0].text) != Skip
       then [classify(polls[0].text).chunk] else []) + Buffered(polls[1..], classify)
  }

  /** The non-empty chunks among `polls`, in arrival order. */
  function Chunks(polls: seq<Poll>): seq<string>
  {
    if polls == [] then []
    else (if polls[0].Received? && polls[0].text != [] then [polls[0].text] else []) + Chunks(polls[1..])
  }

  /** The intended treatment buffers every non-empty chunk received, unchanged. */
  lemma {:induction false} IntendedBuffersEveryChunk(polls: seq<Poll>)
    ensures Buffered(polls, ClassifyIntended) == Chunks(polls)
  {
    if polls != [] {
      IntendedBuffersEveryChunk(polls[1..]);
      if polls[0].Received? && polls[0].text != [] {
        IntendedSkipsNothing(polls[0].text);
      }
    }
  }

  /** Reading one more poll adds its chunk, if any, after the earlier ones. */
  lemma BufferedCons(polls: seq<Poll>, n: nat, classify: string -> Effect)
    requires 0 < n <= |polls|
    ensures Buffered(polls[..n], classify) == Buffered([polls[0]], classify) + Buffered(polls[1..][..n - 1], classify)
  {
    var pre := polls[..n];
    assert pre[0] == polls[0] && pre[1..] == polls[1..][..n - 1];
    assert [polls[0]][1..] == [];
  }

  /**
   * When no chunk flushes, the handler is never called and the buffer only
   * grows, holding the buffered chunks in arrival order.
   */
  lemma {:induction false} NoFlushKeepsBuffering(polls: seq<Poll>, buffer: seq<string>, running: bool,
                                                 classify: string -> Effect, raises: string -> bool)
    requires forall data :: !classify(data).Flush?
    ensures var r := Reassemble(polls, buffer, running, classify, raises);
      r.handed == [] && r.exit != HandlerRaised && r.consumed <= |polls| &&
      r.buffer == buffer + Buffered(polls[..r.consumed], classify)
    decreases |polls|
  {
    var r := Reassemble(polls, buffer, running, classify, raises);
    if running && polls != [] {
      if polls[0].Received? && polls[0].text != [] {
        var e := classify(polls[0].text);
        var b := BufferAfter(buffer, e);
        NoFlushKeepsBuffering(polls[1..], b, running, classify, raises);
        var r' := Reassemble(polls[1..], b, running, classify, raises);
        BufferedCons(polls, 1 + r'.consumed, classify);
      } else {
        assert polls[..r.consumed] == [polls[0]];
      }
    }
  }

  /**
   * As written, the handler is never called: the buffer only grows, holding
   * the non-empty stripped chunks in arrival order.
   */
  lemma NeverHandsOver(polls: seq<Poll>, buffer: seq<string>, running: bool, raises: string -> bool)
    ensures var r := Reassemble(polls, buffer, running, Classify, raises);
      r.handed == [] && r.exit != HandlerRaised && r.consumed <= |polls| &&
      r.buffer == buffer + Buffered(polls[..r.consumed], Classify)
  {
    forall data
      ensures !Classify(data).Flush?
    {
      ClassifyNeverFlushes(data);
    }
    NoFlushKeepsBuffering(polls, buffer, running, Classify, raises);
  }

  /** What `Classify` buffers from a chunk is non-empty and has no "\n" at either end. */
  lemma BufferedChunksAreStripped(polls: seq<Poll>)
    ensures forall k :: 0 <= k < |Buffered(polls, Classify)| ==>
      var c := Buffered(polls, Classify)[k]; c != [] && c[0] != '\n' && c[|c| - 1] != '\n'
  {
    if polls != [] {
      BufferedChunksAreStripped(polls[1..]);
      if polls[0].Received? {
        StripEdges(polls[0].text, '\n');
      }
    }
  }

  /** The poll that ends the loop with `exit`. */
  predicate EndsLoop(p: Poll, exit: RecvExit)
  {
    match exit
    case Disconnected => p == Received([])
    case SelectError => p.SelectFailed?
    case BadUtf8 => p.NotUtf8?
    case _ => false
  }

  /**
   * The receive loop runs exactly while `keep_running` holds and the polls
   * are non-empty chunks: it stops at the first empty `recv` result or
   * exception, which is the last poll it reads.
   */
  lemma {:induction false} LoopExits(polls: seq<Poll>, buffer: seq<string>, running: bool,
                                     classify: string -> Effect, raises: string -> bool)
    ensures var r := Reassemble(polls, buffer, running, classify, raises);
      r.consumed <= |polls| &&
      (r.exit == Stopped <==> !running) &&
      (r.exit == InputEnded ==> r.consumed == |polls|) &&
      (r.exit in {Disconnected, SelectError, BadUtf8} ==> 0 < r.consumed && EndsLoop(polls[r.consumed - 1], r.exit)) &&
      (forall k :: 0 <= k < r.consumed - 1 ==> polls[k].Received? && polls[k].text != []) &&
      (r.exit in {InputEnded, Stopped, HandlerRaised} ==>
        forall k :: 0 <= k < r.consumed ==> polls[k].Received? && polls[k].text != [])
    decreases |polls|
  {
    if running && polls != [] && polls[0].Received? && polls[0].text != [] {
      var e := classify(polls[0].text);
      if !(e.Flush? && raises(Concat(buffer + [e.chunk]))) {
        var b := BufferAfter(buffer, e);
        LoopExits(polls[1..], b, running, classify, raises);
        var r' := Reassemble(polls[1..], b, running, classify, raises);
        forall k | 1 <= k < 1 + r'.consumed
          ensures polls[k] == polls[1..][k - 1]
        {
        }
      }
    }
  }

  /**
   * When every chunk that completes a message ends with `end`, so does every
   * text handed to the handler.
   */
  lemma {:induction false} HandsOverFlushedChunks(polls: seq<Poll>, buffer: seq<string>, running: bool,
                                                  classify: string -> Effect, raises: string -> bool, end: string)
    requires forall data :: classify(data).Flush? ==> EndsWith(classify(data).chunk, end)
    ensures forall k :: 0 <= k < |Reassemble(polls, buffer, running, classify, raises).handed| ==>
      EndsWith(Reassemble(polls, buffer, running, classify, raises).handed[k], end)
    decreases |polls|
  {
    if running && polls != [] && polls[0].Received? && polls[0].text != [] {
      var e := classify(polls[0].text);
      var h := HandedBy(buffer, e);
      if e.Flush? {
        assert EndsWith(e.chunk, end);
        assert (buffer + [e.chunk])[|buffer|] == e.chunk;
        ConcatEndsWith(buffer + [e.chunk], end);
      }
      if !(e.Flush? && raises(Concat(buffer + [e.chunk]))) {
        var b := BufferAfter(buffer, e);
        HandsOverFlushedChunks(polls[1..], b, running, classify, raises, end);
        var r' := Reassemble(polls[1..], b, running, classify, raises);
        assert Reassemble(polls, buffer, running, classify, raises).handed == h + r'.handed;
        forall k | 0 <= k < |h + r'.handed|
          ensures EndsWith((h + r'.handed)[k], end)
        {
          if k >= |h| {
            assert (h + r'.handed)[k] == r'.handed[k - |h|];
          } else {
            assert (h + r'.handed)[k] == Concat(buffer + [e.chunk]);
          }
        }
      }
    }
  }

  /** One chunk moves text between the handed texts and the buffer without losing any. */
  lemma EffectConserves(buffer: seq<string>, e: Effect)
    ensures Concat(HandedBy(buffer, e)) + Concat(BufferAfter(buffer, e)) == Concat(buffer) + Concat(KeptBy(e))
  {
    if !e.Skip? {
      ConcatAppend(buffer, [e.chunk]);
      assert Concat([e.chunk]) == e.chunk + Concat([e.chunk][1..]);
      if e.Flush? {
        var full := Concat(buffer + [e.chunk]);
        assert Concat([full]) == full + Concat([full][1..]);
      }
    }
  }

  /**
   * The handed texts followed by what is still buffered are exactly the
   * buffered chunks in arrival order: each flush hands over the whole buffer
   * and clears it, so nothing is lost, repeated or reordered.
   */
  lemma {:induction false} KeepsEveryChunk(polls: seq<Poll>, buffer: seq<string>, running: bool,
                                           classify: string -> Effect, raises: string -> bool)
    ensures var r := Reassemble(polls, buffer, running, classify, raises);
      r.consumed <= |polls| &&
      (r.exit != HandlerRaised ==>
        Concat(r.handed) + Concat(r.buffer) == Concat(buffer) + Concat(Buffered(polls[..r.consumed], classify)))
    decreases |polls|
  {
    var r := Reassemble(polls, buffer, running, classify, raises);
    if !running || polls == [] {
      assert polls[..r.consumed] == [];
    } else if !(polls[0].Received? && polls[0].text != []) {
      assert polls[..r.consumed] == [polls[0]];
    } else {
      var e := classify(polls[0].text);
      if !(e.Flush? && raises(Concat(buffer + [e.chunk]))) {
        var b, h := BufferAfter(buffer, e), HandedBy(buffer, e);
        var r' := Reassemble(polls[1..], b, running, classify, raises);
        assert r == Resume(h, 1, r');
        KeepsEveryChunk(polls[1..], b, running, classify, raises);
        if r.exit != HandlerRaised {
          var later := Buffered(polls[1..][..r'.consumed], classify);
          BufferedCons(polls, 1 + r'.consumed, classify);
          assert Buffered([polls[0]], classify) == KeptBy(e) + Buffered([polls[0]][1..], classify);
          ConcatAppend(KeptBy(e), later);
          ConcatAppend(h, r'.handed);
          EffectConserves(buffer, e);
          Associate(Concat(h), Concat(r'.handed), Concat(r'.buffer));
          Associate(Concat(h), Concat(b), Concat(later));
          Associate(Concat(buffer), Concat(KeptBy(e)), Concat(later));
        }
      }
    }
  }

  /**
   * Under the intended treatment every text handed to the handler ends with
   * `PROTOCOL_END`, and the handed texts followed by what is still buffered
   * are exactly the non-empty chunks received, in arrival order.
   */
  lemma IntendedHandsOverEverything(polls: seq<Poll>, buffer: seq<string>, running: bool, raises: string -> bool)
    ensures var r := Reassemble(polls, buffer, running, ClassifyIntended, raises);
      r.consumed <= |polls| &&
      (forall k :: 0 <= k < |r.handed| ==> EndsWith(r.handed[k], PROTOCOL_END)) &&
      (r.exit != HandlerRaised ==>
        Concat(r.handed) + Concat(r.buffer) == Concat(buffer) + Concat(Chunks(polls[..r.consumed])))
  {
    forall data | ClassifyIntended(data).Flush?
      ensures EndsWith(ClassifyIntended(data).chunk, PROTOCOL_END)
    {
    }
    HandsOverFlushedChunks(polls, buffer, running, ClassifyIntended, raises, PROTOCOL_END);
    KeepsEveryChunk(polls, buffer, running, ClassifyIntended, raises);
    var r := Reassemble(polls, buffer, running, ClassifyIntended, raises);
    IntendedBuffersEveryChunk(polls[..r.consumed]);
  }

  /**
   * A lone "\n" chunk completes the message under the intended treatment:
   * the buffer plus that delimiter is handed over, so the frame is not merged
   * with whatever follows.
   */
  lemma IntendedFlushesLoneDelimiter(buffer: seq<string>, more: seq<Poll>, raises: string -> bool)
    requires !raises(Concat(buffer + [PROTOCOL_END]))
    ensures var r := Reassemble([Received(PROTOCOL_END)] + more, buffer, true, ClassifyIntended, raises);
      |r.handed| >= 1 && r.handed[0] == Concat(buffer) + PROTOCOL_END
  {
    var polls := [Received(PROTOCOL_END)] + more;
    assert polls[0] == Received(PROTOCOL_END) && polls[1..] == more;
    assert ClassifyIntended(PROTOCOL_END) == Flush(PROTOCOL_END);
    ConcatAppend(buffer, [PROTOCOL_END]);
    assert Concat([PROTOCOL_END]) == PROTOCOL_END + Concat([PROTOCOL_END][1..]);
  }

  /**
   * A complete message arriving in one chunk: as written it is stripped and
   * left in the buffer, under the intended treatment it is handed over whole.
   */
  lemma AsWrittenKeepsCompleteMessage(data: string, more: seq<Poll>, raises: string -> bool)
    requires EndsWith(data, PROTOCOL_END) && Strip(data, '\n') != [] && !raises(data)
    ensures var r := Reassemble([Received(data)] + more, [], true, Classify, raises);
      r.handed == [] && |r.buffer| >= 1 && r.buffer[0] == Strip(data, '\n')
    ensures var r := Reassemble([Received(data)] + more, [], true, ClassifyIntended, raises);
      |r.handed| >= 1 && r.handed[0] == data
  {
    var polls := [Received(data)] + more;
    assert polls[0] == Received(data) && polls[1..] == more;
    NeverHandsOver(polls, [], true, raises);
    var r := Reassemble(polls, [], true, Classify, raises);
    LoopExits(polls, [], true, Classify, raises);
    assert r.consumed >= 1;
    BufferedCons(polls, r.consumed, Classify);
    assert Buffered([polls[0]], Classify) == [Strip(data, '\n')] + Buffered([polls[0]][1..], Classify);
    assert ClassifyIntended(data) == Flush(data);
    assert [] + [data] == [data];
    assert Concat([data]) == data + Concat([data][1..]);
  }

  /** A one-line join request from the protocol's own vocabulary. */
  const JOIN_REQUEST: string := "{\"method\": \"join\"}\n"

  /** The join request satisfies the premise of `AsWrittenKeepsCompleteMessage`. */
  lemma JoinRequestIsCompleteMessage()
    ensures EndsWith(JOIN_REQUEST, PROTOCOL_END) && Strip(JOIN_REQUEST, '\n') != []
  {
    assert JOIN_REQUEST[|JOIN_REQUEST| - 1..] == "\n";
    StripEdges(JOIN_REQUEST, '\n');
  }

  /**
   * The next poll is a non-empty chunk that does not flush: the loop's
   * outcome is the outcome from the poll after it, with the chunk buffered
   * if it is kept.
   */
  lemma StepBuffers(rest: seq<Poll>, buffer: seq<string>, handed: seq<string>, consumed: nat, running: bool,
                    classify: string -> Effect, raises: string -> bool)
    requires running && rest != [] && rest[0].Received? && rest[0].text != []
    requires !classify(rest[0].text).Flush?
    ensures Resume(handed, consumed, Reassemble(rest, buffer, running, classify, raises))
      == Resume(handed, consumed + 1,
                Reassemble(rest[1..], BufferAfter(buffer, classify(rest[0].text)), running, classify, raises))
  {
    var r := Reassemble(rest[1..], BufferAfter(buffer, classify(rest[0].text)), running, classify, raises);
    ResumeResume(handed, consumed, [], 1, r);
    assert handed + [] == handed;
  }

  /**
   * The next poll is a chunk that flushes and the handler does not raise on
   * the joined buffer: that text is handed over and the loop goes on from
   * the poll after it with an empty buffer.
   */
  lemma StepHandsOver(rest: seq<Poll>, buffer: seq<string>, handed: seq<string>, consumed: nat, running: bool,
                      classify: string -> Effect, raises: string -> bool)
    requires running && rest != [] && rest[0].Received? && rest[0].text != []
    requires var e := classify(rest[0].text); e.Flush? && !raises(Concat(buffer + [e.chunk]))
    ensures var e := classify(rest[0].text);
      Resume(handed, consumed, Reassemble(rest, buffer, running, classify, raises))
      == Resume(handed + [Concat(buffer + [e.chunk])], consumed + 1,
                Reassemble(rest[1..], [], running, classify, raises))
  {
    var e := classify(rest[0].text);
    ResumeResume(handed, consumed, [Concat(buffer + [e.chunk])], 1, Reassemble(rest[1..], [], running, classify, raises));
  }

  /** The next poll ends the loop: the outcome is the state so far with that exit. */
  lemma StepEnds(rest: seq<Poll>, buffer: seq<string>, handed: seq<string>, consumed: nat, running: bool,
                 classify: string -> Effect, raises: string -> bool)
    requires running && rest != []
    requires rest[0] == Received([]) || rest[0].SelectFailed? || rest[0].NotUtf8?
    ensures Resume(handed, consumed, Reassemble(rest, buffer, running, classify, raises))
      == RecvRun(buffer, handed, consumed + 1,
                 if rest[0].SelectFailed? then SelectError else if rest[0].NotUtf8? then BadUtf8 else Disconnected)
  {
  }

  /** The next poll is a chunk that flushes and the handler raises on the joined buffer. */
  lemma StepRaises(rest: seq<Poll>, buffer: seq<string>, handed: seq<string>, consumed: nat, running: bool,
                   classify: string -> Effect, raises: string -> bool)
    requires running && rest != [] && rest[0].Received? && rest[0].text != []
    requires var e := classify(rest[0].text); e.Flush? && raises(Concat(buffer + [e.chunk]))
    ensures var e := classify(rest[0].text);
      Resume(handed, consumed, Reassemble(rest, buffer, running, classify, raises))
      == RecvRun(buffer + [e.chunk], handed + [Concat(buffer + [e.chunk])], consumed + 1, HandlerRaised)
  {
  }

  /** A byte of an encoded message. */
  newtype byte = x: int | 0 <= x < 256

  /** Why `_send` returned. */
  datatype SendExit =
    | AllSent   // `total_sent` reached `len(message)`
    | Halted    // `keep_running` is false
    | ZeroSent  // a `send` returned 0: `break`
    | Waiting   // the model's `send` results ran out while bytes remained

  /**
   * The socket never reports more bytes sent than it was given, until a
   * `send` returns 0 or nothing remains to send.
   */
  predicate SendsFit(sends: seq<nat>, remaining: nat)
    decreases |sends|
  {
    sends == [] || remaining == 0 ||
    (sends[0] <= remaining && (sends[0] == 0 || SendsFit(sends[1..], remaining - sends[0])))
  }

  class Server {
    /** Cleared by `close()`; every loop of the server checks it. */
    var keepRunning: bool

    constructor ()
      ensures keepRunning
    {
      keepRunning := true;
    }

    /** `close()`: ask every loop to stop. */
    method Close()
      modifies this
      ensures !keepRunning
    {
      keepRunning := false;
    }

    /**
     * `_recv(client_socket, client_addr)` with the evidently intended
     * completeness check: read the polls in order, buffer each chunk as
     * received, and hand the joined buffer to the handler when a chunk ends
     * with `PROTOCOL_END`, a lone "\n" included.
     * (As written the chunk is stripped before that check, which then never
     * holds; see `Classify` and `NeverHandsOver`.)
     */
    method Recv(polls: seq<Poll>, decode: string -> Handler.Decoded, methods: set<string>)
      returns (run: RecvRun)
      ensures run == Reassemble(polls, [], keepRunning, ClassifyIntended, RaisesIn(decode, methods))
      ensures forall k :: 0 <= k < |run.handed| ==> EndsWith(run.handed[k], PROTOCOL_END)
      ensures run.consumed <= |polls|
      ensures run.exit != HandlerRaised ==>
        Concat(run.handed) + Concat(run.buffer) == Concat(Chunks(polls[..run.consumed]))
    {
      IntendedHandsOverEverything(polls, [], keepRunning, RaisesIn(decode, methods));
      ghost var raises := RaisesIn(decode, methods);
      ghost var whole := Reassemble(polls, [], keepRunning, ClassifyIntended, raises);
      var messages: seq<string> := [];
      var handed: seq<string> := [];
      var rest, i := polls, 0;
      while keepRunning
        invariant whole == Resume(handed, i, Reassemble(rest, messages, keepRunning, ClassifyIntended, raises))
        decreases |rest|
      {
        if rest == [] {
          run := RecvRun(messages, handed, i, InputEnded);
          return;
        }
        var poll := rest[0];
        match poll
        case SelectFailed =>
          StepEnds(rest, messages, handed, i, keepRunning, ClassifyIntended, raises);
          run := RecvRun(messages, handed, i + 1, SelectError);
          return;
        case NotUtf8 =>
          StepEnds(rest, messages, handed, i, keepRunning, ClassifyIntended, raises);
          run := RecvRun(messages, handed, i + 1, BadUtf8);
          return;
        case Received(data) =>
          // an empty result: the peer closed the connection
          if data == [] {
            StepEnds(rest, messages, handed, i, keepRunning, ClassifyIntended, raises);
            run := RecvRun(messages, handed, i + 1, Disconnected);
            return;
          }
          if !EndsWith(data, PROTOCOL_END) {
            if Strip(data, '\n') == [] {
              // a chunk of nothing but newlines would be dropped; it cannot
              // get here, since such a chunk ends with the delimiter
              assert ClassifyIntended(data) == Skip;
              StepBuffers(rest, messages, handed, i, keepRunning, ClassifyIntended, raises);
            } else {
              // an incomplete message: buffer the chunk and read on
              assert ClassifyIntended(data) == Append(data);
              StepBuffers(rest, messages, handed, i, keepRunning, ClassifyIntended, raises);
              messages := messages + [data];
            }
          } else {
            assert ClassifyIntended(data) == Flush(data);
            ghost var before := messages;
            messages := messages + [data];
            var full := Concat(messages);
            var steps, exit := Handler.Handle(full, decode, methods);
            if exit == Handler.MethodNotText {
              // `handle` raised: the outer `except` ends the loop
              assert raises(full);
              StepRaises(rest, before, handed, i, keepRunning, ClassifyIntended, raises);
              run := RecvRun(messages, handed + [full], i + 1, HandlerRaised);
              return;
            }
            assert !raises(full);
            StepHandsOver(rest, before, handed, i, keepRunning, ClassifyIntended, raises);
            handed := handed + [full];
            messages := [];
          }
          rest, i := rest[1..], i + 1;
      }
      run := RecvRun(messages, handed, i, Stopped);
    }

    /**
     * `_send(client_socket, message)` for an already encoded message: send
     * the unsent tail until everything is sent, `keep_running` is cleared or
     * a `send` returns 0. `sends` are the values the successive `send` calls
     * return; `written` are the byte runs they took.
     */
    method Send(message: seq<byte>, sends: seq<nat>)
      returns (totalSent: nat, written: seq<seq<byte>>, exit: SendExit)
      requires SendsFit(sends, |message|)
      ensures totalSent <= |message| && Concat(written) == message[..totalSent]
      ensures |written| <= |sends|
      ensures forall k :: 0 <= k < |written| ==> |written[k]| == sends[k] && sends[k] > 0
      ensures exit == AllSent <==> totalSent == |message|
      ensures exit == Halted <==> !keepRunning && |message| > 0
      ensures exit == ZeroSent ==> keepRunning && |written| < |sends| && sends[|written|] == 0
      ensures exit == Waiting ==> keepRunning && |written| == |sends|
    {
      totalSent := 0;
      written := [];
      while keepRunning && totalSent < |message|
        invariant totalSent <= |message| && |written| <= |sends|
        invariant Concat(written) == message[..totalSent]
        invariant forall k :: 0 <= k < |written| ==> |written[k]| == sends[k] && sends[k] > 0
        invariant SendsFit(sends[|written|..], |message| - totalSent)
        invariant !keepRunning ==> totalSent == 0
        decreases |sends| - |written|
      {
        if |written| == |sends| {
          exit := Waiting;
          return;
        }
        var sent := sends[|written|];
        if sent == 0 {
          exit := ZeroSent;
          return;
        }
        assert sends[|written|..][1..] == sends[|written| + 1..];
        var chunk := message[totalSent..totalSent + sent];
        ConcatAppend(written, [chunk]);
        assert Concat([chunk]) == chunk + Concat([chunk][1..]);
        assert message[..totalSent + sent] == message[..totalSent] + chunk;
        written := written + [chunk];
        totalSent := totalSent + sent;
      }
      exit := if totalSent == |message| then AllSent else Halted;
    }
  }
}
