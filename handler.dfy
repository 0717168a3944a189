/**
 * `Handler.handle` (server/handler.py): cut a block of received text into
 * frames, each ending with the first remaining `PROTOCOL_END`, decode each
 * frame and dispatch it on its method name.
 *
 * `json.loads` is the parameter `decode`. Dispatch by `getattr(self,
 * "handle_" + method)` is a lookup in `methods`, the names `n` for which the
 * handler has a callable member `handle_n`. Printing is a no-op.
 */
module Handler {
  import opened Protocol
  import opened Text

  /** A decoded JSON value, as far as dispatch looks at it. */
  datatype Value = Str(s: string) | NonStr

  /** The result of `json.loads` on one frame: an object, or a `ValueError`. */
  datatype Decoded = Object(fields: map<string, Value>) | Malformed

  /** What `handle` did with one well-formed frame. */
  datatype Step =
    | Invoked(name: string, message: map<string, Value>)  // `handle_<name>(message)` was called
    | NotImplemented(name: string)                        // the "not implemented" branch

  /** How `handle` ended. */
  datatype Exit =
    | Drained             // no `PROTOCOL_END` left: the loop condition failed
    | MissingMethod       // a decoded frame has no method key: the early `return`
    | DecodeFailed        // `json.loads` raised `ValueError`, swallowed by the `except`
    | MethodNotText       // `"handle_" + method` raised `TypeError`, which escapes `handle`
    | UndefinedAttribute  // `protocol.METHOD` raised `AttributeError`, which escapes `handle`

  datatype Outcome = Outcome(steps: seq<Step>, exit: Exit)

  /** The frames cut from a text and the trailing text left without a delimiter. */
  datatype Split = Split(frames: seq<string>, rest: string)

  /** The `handle_<name>` members of the shipped `Handler`: it defines none. */
  const HANDLER_METHODS: set<string> := {}

  /** A frame ends with the delimiter `c` and contains no earlier occurrence of it. */
  predicate IsFrame(f: string, c: char)
  {
    |f| > 0 && f[|f| - 1] == c && forall j :: 0 <= j < |f| - 1 ==> f[j] != c
  }

  /** For a one-character delimiter, `IsFrame` says that `find` locates it at the end. */
  lemma IsFrameByFind(f: string, end: string)
    requires |end| == 1
    ensures IsFrame(f, end[0]) <==> EndsWith(f, end) && Find(f, end) == |f| - 1
  {
    assert end == [end[0]];
    forall j | true
      ensures OccursAt(f, end, j) <==> 0 <= j < |f| && f[j] == end[0]
    {
      OccursAtChar(f, end[0], j);
    }
    if |f| > 0 {
      assert f[|f| - 1..] == [f[|f| - 1]];
    }
  }

  /**
   * The frames that the loop of `handle` cuts from `s`: repeatedly the prefix
   * up to and including the first `end`. The cut `s[..i + 1]` is correct only
   * because `end` is one character long, hence the precondition.
   */
  function SplitFrames(s: string, end: string): (r: Split)
    requires |end| == 1
    ensures |r.frames| <= |s|
    decreases |s|
  {
    var i := Find(s, end);
    if i < 0 then Split([], s)
    else
      var tail := SplitFrames(s[i + 1..], end);
      Split([s[..i + 1]] + tail.frames, tail.rest)
  }

  /** Each frame cut from `s` ends with `end` and holds no earlier `end`. */
  lemma {:induction false} SplitFramesAreFrames(s: string, end: string)
    requires |end| == 1
    ensures forall k :: 0 <= k < |SplitFrames(s, end).frames| ==> IsFrame(SplitFrames(s, end).frames[k], end[0])
    decreases |s|
  {
    var i := Find(s, end);
    if i >= 0 {
      var tail := SplitFrames(s[i + 1..], end).frames;
      SplitFramesAreFrames(s[i + 1..], end);
      FirstFrame(s, end);
      SplitNext(s, end);
    }
  }

  /** What is left after the frames holds no `end`. */
  lemma {:induction false} SplitRestHasNoEnd(s: string, end: string)
    requires |end| == 1
    ensures Find(SplitFrames(s, end).rest, end) == -1
    decreases |s|
  {
    var i := Find(s, end);
    if i >= 0 {
      SplitRestHasNoEnd(s[i + 1..], end);
    }
  }

  /** The frames followed by what is left give back `s`. */
  lemma {:induction false} SplitRebuilds(s: string, end: string)
    requires |end| == 1
    ensures Concat(SplitFrames(s, end).frames) + SplitFrames(s, end).rest == s
    decreases |s|
  {
    var i := Find(s, end);
    if i >= 0 {
      var frame, tail := s[..i + 1], SplitFrames(s[i + 1..], end);
      var frames := [frame] + tail.frames;
      assert SplitFrames(s, end) == Split(frames, tail.rest);
      SplitRebuilds(s[i + 1..], end);
      FirstFrame(s, end);
      assert frames[1..] == tail.frames;
      assert Concat(frames) == frame + Concat(tail.frames);
      Associate(frame, Concat(tail.frames), tail.rest);
    }
  }

  /**
   * Each frame ends with `end` and holds no earlier `end`; the rest holds
   * none; frames and rest joined give back `s`.
   */
  lemma SplitShape(s: string, end: string)
    requires |end| == 1
    ensures var r := SplitFrames(s, end);
      (forall k :: 0 <= k < |r.frames| ==> IsFrame(r.frames[k], end[0])) &&
      Find(r.rest, end) == -1 &&
      Concat(r.frames) + r.rest == s
  {
    SplitFramesAreFrames(s, end);
    SplitRestHasNoEnd(s, end);
    SplitRebuilds(s, end);
  }

  /** One turn of the loop: the first frame, then the frames of what follows it. */
  lemma SplitNext(s: string, end: string)
    requires |end| == 1 && Find(s, end) >= 0
    ensures SplitFrames(s, end).frames
      == [s[..Find(s, end) + 1]] + SplitFrames(s[Find(s, end) + 1..], end).frames
  {
  }

  /** The prefix up to and including the first `end` is a frame. */
  lemma FirstFrame(s: string, end: string)
    requires |end| == 1 && Find(s, end) >= 0
    ensures IsFrame(s[..Find(s, end) + 1], end[0])
    ensures s == s[..Find(s, end) + 1] + s[Find(s, end) + 1..]
  {
    var i := Find(s, end);
    FindCut(s, end);
    assert s[..i + 1][i..] == s[i..i + 1];
    IsFrameByFind(s[..i + 1], end);
  }

  /** Splitting is the inverse of joining frames and a delimiter-free rest. */
  lemma {:induction false} SplitJoined(frames: seq<string>, rest: string, end: string)
    requires |end| == 1
    requires forall k :: 0 <= k < |frames| ==> IsFrame(frames[k], end[0])
    requires Find(rest, end) == -1
    ensures SplitFrames(Concat(frames) + rest, end) == Split(frames, rest)
  {
    if frames == [] {
      assert Concat(frames) + rest == rest;
    } else {
      var f, more := frames[0], frames[1..];
      var s := Concat(frames) + rest;
      assert s == f + (Concat(more) + rest);
      IsFrameByFind(f, end);
      FindExtend(f, Concat(more) + rest, end);
      assert s[..|f|] == f && s[|f|..] == Concat(more) + rest;
      SplitJoined(more, rest, end);
      assert frames == [f] + more;
    }
  }

  /** A frame holds its delimiter exactly once. */
  lemma FrameCount(f: string, c: char)
    requires IsFrame(f, c)
    ensures Count(f, c) == 1
  {
    var n := |f| - 1;
    assert f == f[..n] + [c];
    CountAbsent(f[..n], c);
    CountAppend(f[..n], [c], c);
    assert Count([c], c) == 1 + Count([c][1..], c);
  }

  /** Text in which `find` sees no delimiter holds none. */
  lemma RestCount(s: string, end: string)
    requires |end| == 1 && Find(s, end) == -1
    ensures Count(s, end[0]) == 0
  {
    forall j | 0 <= j < |s|
      ensures s[j] != end[0]
    {
      assert end == [end[0]];
      OccursAtChar(s, end[0], j);
    }
    CountAbsent(s, end[0]);
  }

  /** Every delimiter in `s` closes exactly one frame. */
  lemma {:induction false} SplitCount(s: string, end: string)
    requires |end| == 1
    ensures |SplitFrames(s, end).frames| == Count(s, end[0])
    decreases |s|
  {
    var i := Find(s, end);
    if i < 0 {
      RestCount(s, end);
    } else {
      SplitCount(s[i + 1..], end);
      FirstFrame(s, end);
      FrameCount(s[..i + 1], end[0]);
      CountAppend(s[..i + 1], s[i + 1..], end[0]);
    }
  }

  /** `handle` dispatches a frame that decodes to `d` as `step`. */
  predicate Dispatches(d: Decoded, methods: set<string>, step: Step)
  {
    d.Object? && PROTOCOL_METHOD in d.fields && d.fields[PROTOCOL_METHOD] == Str(step.name) &&
    (step.Invoked? <==> step.name in methods) &&
    (step.Invoked? ==> step.message == d.fields)
  }

  /** `handle` stops with `exit` on a frame that decodes to `d`. */
  predicate StopsOn(d: Decoded, exit: Exit)
  {
    match exit
    case DecodeFailed => d.Malformed?
    case MissingMethod => d.Object? && PROTOCOL_METHOD !in d.fields
    case MethodNotText => d.Object? && PROTOCOL_METHOD in d.fields && d.fields[PROTOCOL_METHOD].NonStr?
    case _ => false
  }

  /**
   * Decode and dispatch `frames` in order. The frames before the first one
   * that cannot be dispatched each give one step; that frame ends the run.
   */
  function Process(frames: seq<string>, decode: string -> Decoded, methods: set<string>): (o: Outcome)
    ensures |o.steps| <= |frames|
    ensures o.exit == Drained <==> |o.steps| == |frames|
    ensures forall k :: 0 <= k < |o.steps| ==> Dispatches(decode(frames[k]), methods, o.steps[k])
    ensures o.exit != Drained ==> StopsOn(decode(frames[|o.steps|]), o.exit)
  {
    if frames == [] then Outcome([], Drained)
    else
      match decode(frames[0])
      case Malformed => Outcome([], DecodeFailed)
      case Object(fields) =>
        if PROTOCOL_METHOD !in fields then Outcome([], MissingMethod)
        else
          match fields[PROTOCOL_METHOD]
          case NonStr => Outcome([], MethodNotText)
          case Str(name) =>
            var step := if name in methods then Invoked(name, fields) else NotImplemented(name);
            var more := Process(frames[1..], decode, methods);
            Outcome([step] + more.steps, more.exit)
  }

  /** How `Process` treats the first frame. */
  lemma ProcessFirst(frame: string, more: seq<string>, decode: string -> Decoded, methods: set<string>)
    ensures var o, d := Process([frame] + more, decode, methods), decode(frame);
      match d
      case Malformed => o == Outcome([], DecodeFailed)
      case Object(fields) =>
        if PROTOCOL_METHOD !in fields then o == Outcome([], MissingMethod)
        else match fields[PROTOCOL_METHOD]
          case NonStr => o == Outcome([], MethodNotText)
          case Str(name) =>
            o == After([if name in methods then Invoked(name, fields) else NotImplemented(name)],
                       Process(more, decode, methods))
  {
    assert ([frame] + more)[1..] == more;
  }

  /** Steps, then an outcome that follows them. */
  function After(steps: seq<Step>, o: Outcome): Outcome
  {
    Outcome(steps + o.steps, o.exit)
  }

  lemma AfterAfter(a: seq<Step>, b: seq<Step>, o: Outcome)
    ensures After(a, After(b, o)) == After(a + b, o)
  {
    assert a + (b + o.steps) == (a + b) + o.steps;
  }

  /**
   * `Handler.handle(client_socket, messages)` with the method key read as
   * `PROTOCOL_METHOD`. (The source reads `protocol.METHOD`, which
   * common/protocol.py does not define, and prints through `self.verbose`,
   * which `Handler` does not define; see `HandleAsWritten`.)
   */
  method Handle(messages: string, decode: string -> Decoded, methods: set<string>)
    returns (steps: seq<Step>, exit: Exit)
    ensures Outcome(steps, exit) == Process(SplitFrames(messages, PROTOCOL_END).frames, decode, methods)
    ensures |steps| <= Count(messages, '\n')
  {
    EndIsOneCharacter();
    SplitCount(messages, PROTOCOL_END);
    ghost var whole := Process(SplitFrames(messages, PROTOCOL_END).frames, decode, methods);
    var rest := messages;
    steps := [];
    var idx := Find(rest, PROTOCOL_END);
    while idx >= 0
      invariant idx == Find(rest, PROTOCOL_END)
      invariant whole == After(steps, Process(SplitFrames(rest, PROTOCOL_END).frames, decode, methods))
      decreases |rest|
    {
      // cut the first frame, delimiter included, off the remaining text
      var message := rest[..idx + 1];
      ghost var before := rest;
      rest := rest[idx + 1..];
      ghost var more := SplitFrames(rest, PROTOCOL_END).frames;
      SplitNext(before, PROTOCOL_END);
      ProcessFirst(message, more, decode, methods);

      var decoded := decode(message);
      if decoded.Malformed? {
        exit := DecodeFailed;
        return;
      }
      if PROTOCOL_METHOD !in decoded.fields {
        exit := MissingMethod;
        return;
      }
      match decoded.fields[PROTOCOL_METHOD]
      case NonStr =>
        exit := MethodNotText;
        return;
      case Str(name) =>
        var step;
        if name in methods {
          step := Invoked(name, decoded.fields);
        } else {
          // the source prints "Error: Method '...' not implemented" here
          step := NotImplemented(name);
        }
        AfterAfter(steps, [step], Process(more, decode, methods));
        steps := steps + [step];

      idx := Find(rest, PROTOCOL_END);
    }
    exit := Drained;
  }

  /** The shipped handler defines no `handle_<name>`, so no frame is ever invoked. */
  lemma ShippedHandlerInvokesNothing(messages: string, decode: string -> Decoded)
    ensures var o := Process(SplitFrames(messages, PROTOCOL_END).frames, decode, HANDLER_METHODS);
      forall k :: 0 <= k < |o.steps| ==> o.steps[k].NotImplemented?
  {
  }

  /**
   * `Handler.handle` as written: once the first frame decodes, the lookup of
   * `protocol.METHOD` raises `AttributeError`, which the `except` clause for
   * `ValueError` and `KeyError` does not catch.
   */
  function HandleAsWritten(messages: string, decode: string -> Decoded): (o: Outcome)
    ensures o.steps == []
    ensures var frames := SplitFrames(messages, PROTOCOL_END).frames;
      (o.exit == Drained <==> frames == []) &&
      (o.exit == DecodeFailed <==> frames != [] && decode(frames[0]).Malformed?) &&
      (o.exit == UndefinedAttribute <==> frames != [] && decode(frames[0]).Object?)
  {
    EndIsOneCharacter();
    var idx := Find(messages, PROTOCOL_END);
    if idx < 0 then Outcome([], Drained)
    else
      match decode(messages[..idx + 1])
      case Malformed => Outcome([], DecodeFailed)
      case Object(_) => Outcome([], UndefinedAttribute)
  }

  /**
   * Where `Handle` dispatches the first frame, the code as written raises
   * instead and dispatches nothing.
   */
  lemma AsWrittenLosesDispatchableFrame(messages: string, decode: string -> Decoded, methods: set<string>)
    requires var frames := SplitFrames(messages, PROTOCOL_END).frames;
      frames != [] && decode(frames[0]).Object? &&
      PROTOCOL_METHOD in decode(frames[0]).fields && decode(frames[0]).fields[PROTOCOL_METHOD].Str?
    ensures HandleAsWritten(messages, decode) == Outcome([], UndefinedAttribute)
    ensures |Process(SplitFrames(messages, PROTOCOL_END).frames, decode, methods).steps| > 0
  {
  }
}
