/**
 One WebSocket session of src/Session.cpp as a state machine.

 A state holds the handlers posted by `send`, the write queue, the asynchronous
 operations still outstanding, the read buffer and the socket's open flag, plus
 a history of what was sent, written, received and handled. Handlers run one at
 a time on a single `io_context`, so each event is atomic; any enabled event may
 come next.
 */
module SessionModel {
  import opened Common

  datatype MessageType =
    | SignUp | SignUpResponse | Login | LoginResponse | Logout | TextMessage | AddFriend | FriendRequest
    | FriendRequestResponse | FriendList | PrivateChat | GroupChat | PullMessage

  datatype Message = Message(fromUserId: int, toUserId: int, messageType: MessageType, messageId: int,
                             content: string, timestamp: int)

  /** `Message::fromJson`: None stands for the exceptions it throws. */
  type Decoder = string -> Option<Message>

  /** An `async_write` not yet completed. One begun on a closed socket can only fail. */
  datatype PendingWrite = PendingWrite(msg: Message, viable: bool)

  datatype State = State(
    posted: seq<Message>,          // lambdas posted by send, in post order
    writeMsgs: seq<Message>,       // write_msgs_
    writeOps: seq<PendingWrite>,     // outstanding async_write operations
    readOps: nat,                    // outstanding async_read operations
    buffer: string,                // buffer_
    open: bool,                    // ws_.is_open()
    closing: nat,                  // outstanding async_close operations
    started: bool,
    stops: nat,                    // how often stop() ran
    sent: seq<Message>,            // every message given to send
    wire: seq<Message>,            // every message written without error
    received: seq<string>,         // every complete frame read
    handled: seq<Message>,         // every message passed to the business handler
    told: nat)                     // how often the business handler was told of a disconnection

  const FRESH := State([], [], [], 0, "", true, 0, false, 0, [], [], [], [], 0)

  datatype Event =
    | Start
    | Send(msg: Message)
    | RunPost
    | WriteOk(i: nat)
    | WriteErr(i: nat)
    | ReadOk(frame: string)
    | ReadErr(partial: string)
    | Close
    | CloseDone                    // with or without an error
    | PeerDropped

  // ---- The functions of Session ---------------------------------------------

  function Write(s: State): State
    requires s.writeMsgs != []
  {
    s.(writeOps := s.writeOps + [PendingWrite(s.writeMsgs[0], s.open)])
  }

  function Stop(s: State): State {
    s.(open := false, stops := s.stops + 1)
  }

  function ReadMessage(s: State): State {
    s.(readOps := s.readOps + 1)
  }

  /** The lambda posted by `send`. */
  function Enqueue(s: State, msg: Message): State {
    var s' := s.(writeMsgs := s.writeMsgs + [msg]);
    if s.writeMsgs == [] then Write(s') else s'
  }

  function Without<T>(s: seq<T>, i: nat): seq<T>
    requires i < |s|
  {
    s[..i] + s[i + 1..]
  }

  /** The write handler on success. `pop_front` on an empty queue is what the invariant excludes. */
  function OnWritten(s: State, i: nat): State
    requires i < |s.writeOps|
  {
    var rest := if s.writeMsgs == [] then [] else s.writeMsgs[1..];
    var s' := s.(writeOps := Without(s.writeOps, i), wire := s.wire + [s.writeOps[i].msg], writeMsgs := rest);
    if rest != [] && s.open then Write(s') else s'
  }

  function Consume(buffer: string, n: nat): string {
    if n <= |buffer| then buffer[n..] else ""
  }

  function Handle(decode: Decoder, jsonData: string): seq<Message> {
    match decode(jsonData)
    case Some(msg) => [msg]
    case None => []
  }

  /** The read handler on success: the whole buffer is decoded, the frame's length consumed. */
  function OnFrame(decode: Decoder, s: State, frame: string): State
    requires s.readOps > 0
  {
    var jsonData := s.buffer + frame;
    var s' := s.(readOps := s.readOps - 1, buffer := Consume(jsonData, |frame|),
                 received := s.received + [frame], handled := s.handled + Handle(decode, jsonData));
    if s.open then ReadMessage(s') else s'
  }

  predicate Enabled(s: State, e: Event) {
    match e
    case Start => !s.started
    case Send(_) => true
    case RunPost => s.posted != []
    case WriteOk(i) => i < |s.writeOps| && s.writeOps[i].viable
    case WriteErr(i) => i < |s.writeOps|
    case ReadOk(_) => s.readOps > 0
    case ReadErr(_) => s.readOps > 0
    case Close => true
    case CloseDone => s.closing > 0
    case PeerDropped => true
  }

  function Step(decode: Decoder, s: State, e: Event): State
    requires Enabled(s, e)
  {
    match e
    case Start => ReadMessage(s.(started := true))
    case Send(msg) => s.(posted := s.posted + [msg], sent := s.sent + [msg])
    case RunPost => Enqueue(s.(posted := s.posted[1..]), s.posted[0])
    case WriteOk(i) => OnWritten(s, i)
    case WriteErr(i) => Stop(s.(writeOps := Without(s.writeOps, i)))
    case ReadOk(frame) => OnFrame(decode, s, frame)
    case ReadErr(partial) => Stop(s.(readOps := s.readOps - 1, buffer := s.buffer + partial))
    case Close => s.(closing := s.closing + 1)
    case CloseDone => s.(open := false, closing := s.closing - 1, told := s.told + 1)
    case PeerDropped => s.(open := false)
  }

  predicate Possible(decode: Decoder, s: State, es: seq<Event>)
    decreases |es|
  {
    |es| == 0 || (Enabled(s, es[0]) && Possible(decode, Step(decode, s, es[0]), es[1..]))
  }

  function Run(decode: Decoder, s: State, es: seq<Event>): State
    requires Possible(decode, s, es)
    decreases |es|
  {
    if |es| == 0 then s else Run(decode, Step(decode, s, es[0]), es[1..])
  }

  // ---- What every run keeps -------------------------------------------------

  /** The messages in those frames that decode, in order. */
  function Decodable(decode: Decoder, frames: seq<string>): seq<Message> {
    if |frames| == 0 then [] else
      Decodable(decode, frames[..|frames| - 1]) + Handle(decode, frames[|frames| - 1])
  }

  /** Nothing is lost, repeated or reordered between `send` and the wire. */
  ghost predicate Conserved(s: State) {
    s.wire + s.writeMsgs + s.posted == s.sent
  }

  /** At most one write is outstanding, it is for the front of the queue, and an open socket never idles. */
  ghost predicate OneWriter(s: State) {
    && |s.writeOps| <= 1
    && (s.writeOps != [] ==> s.writeMsgs != [] && s.writeOps[0].msg == s.writeMsgs[0])
    && (s.open && s.writeMsgs != [] ==> s.writeOps != [] && s.writeOps[0].viable)
  }

  /** At most one read is outstanding, on an empty buffer; a started session without one is closed. */
  ghost predicate OneReader(decode: Decoder, s: State) {
    && s.readOps <= 1
    && (s.readOps > 0 || !s.started ==> s.buffer == "")
    && (s.started && s.readOps == 0 ==> !s.open)
    && (!s.started ==> s.readOps == 0)
    && s.handled == Decodable(decode, s.received)
  }

  ghost predicate Inv(decode: Decoder, s: State) {
    Conserved(s) && OneWriter(s) && OneReader(decode, s) && (s.stops > 0 ==> !s.open)
  }

  lemma EnqueueConserves(s: State)
    requires s.posted != [] && Conserved(s)
    ensures Conserved(Enqueue(s.(posted := s.posted[1..]), s.posted[0]))
  {
  }

  lemma OnWrittenConserves(s: State)
    requires |s.writeOps| == 1 && Conserved(s) && OneWriter(s)
    ensures Conserved(OnWritten(s, 0))
  {
  }

  lemma FrameDecodesAlone(decode: Decoder, s: State, frame: string)
    requires OneReader(decode, s) && s.readOps > 0
    ensures OneReader(decode, OnFrame(decode, s, frame))
  {
    assert s.buffer + frame == frame;
    assert (s.received + [frame])[..|s.received|] == s.received;
  }

  lemma SendConserves(s: State, msg: Message)
    requires Conserved(s)
    ensures Conserved(s.(posted := s.posted + [msg], sent := s.sent + [msg]))
  {
  }

  lemma StepConserves(decode: Decoder, s: State, e: Event)
    requires Conserved(s) && OneWriter(s) && Enabled(s, e)
    ensures Conserved(Step(decode, s, e))
  {
    match e
    case Send(msg) => SendConserves(s, msg);
    case RunPost => EnqueueConserves(s);
    case WriteOk(i) => OnWrittenConserves(s);
    case _ =>
  }

  lemma StepOneWriter(decode: Decoder, s: State, e: Event)
    requires OneWriter(s) && Enabled(s, e)
    ensures OneWriter(Step(decode, s, e))
  {
  }

  lemma StepOneReader(decode: Decoder, s: State, e: Event)
    requires OneReader(decode, s) && Enabled(s, e)
    ensures OneReader(decode, Step(decode, s, e))
  {
    if e.ReadOk? {
      FrameDecodesAlone(decode, s, e.frame);
    }
  }

  lemma StepKeepsInv(decode: Decoder, s: State, e: Event)
    requires Inv(decode, s) && Enabled(s, e)
    ensures Inv(decode, Step(decode, s, e))
  {
    StepConserves(decode, s, e);
    StepOneWriter(decode, s, e);
    StepOneReader(decode, s, e);
  }

  /**
   In every reachable state: wire, queue and posted handlers together are what
   was sent; one write at most, for the front; one read at most, on an empty
   buffer; the handled messages are the decodable frames in arrival order.
   */
  lemma {:induction false} RunKeepsInv(decode: Decoder, s: State, es: seq<Event>)
    requires Inv(decode, s) && Possible(decode, s, es)
    ensures Inv(decode, Run(decode, s, es))
    decreases |es|
  {
    if |es| > 0 {
      StepKeepsInv(decode, s, es[0]);
      RunKeepsInv(decode, Step(decode, s, es[0]), es[1..]);
    }
  }

  /** `pop_front` never meets an empty queue. */
  lemma WriterHasFront(decode: Decoder, s: State)
    requires Inv(decode, s) && s.writeOps != []
    ensures s.writeMsgs != []
  {
  }

  // ---- Histories are the events ----------------------------------------------

  function SentBy(e: Event): seq<Message> {
    if e.Send? then [e.msg] else []
  }

  /** The messages of the `Send` events, in order. */
  function Sends(es: seq<Event>): seq<Message> {
    if |es| == 0 then [] else SentBy(es[0]) + Sends(es[1..])
  }

  function FrameOf(e: Event): seq<string> {
    if e.ReadOk? then [e.frame] else []
  }

  /** The frames of the `ReadOk` events, in order. */
  function Frames(es: seq<Event>): seq<string> {
    if |es| == 0 then [] else FrameOf(es[0]) + Frames(es[1..])
  }

  /** The socket ceases to be open by an error, a finished close or a dropped peer, and by nothing else. */
  predicate Shuts(e: Event) {
    e.WriteErr? || e.ReadErr? || e.CloseDone? || e.PeerDropped?
  }

  lemma StepHistories(decode: Decoder, s: State, e: Event)
    requires Enabled(s, e)
    ensures var t := Step(decode, s, e);
            && t.sent == s.sent + SentBy(e) && t.received == s.received + FrameOf(e)
            && (t.open <==> s.open && !Shuts(e))
  {
  }

  lemma {:induction false} HistoriesAreEvents(decode: Decoder, s: State, es: seq<Event>)
    requires Possible(decode, s, es)
    ensures var t := Run(decode, s, es); t.sent == s.sent + Sends(es) && t.received == s.received + Frames(es)
    decreases |es|
  {
    if |es| > 0 {
      hide Step, SentBy, FrameOf;
      StepHistories(decode, s, es[0]);
      HistoriesAreEvents(decode, Step(decode, s, es[0]), es[1..]);
    }
  }

  lemma {:induction false} OpenExactly(decode: Decoder, s: State, es: seq<Event>)
    requires Possible(decode, s, es)
    ensures Run(decode, s, es).open <==> s.open && forall i :: 0 <= i < |es| ==> !Shuts(es[i])
    decreases |es|
  {
    if |es| > 0 {
      hide Step, Shuts;
      StepHistories(decode, s, es[0]);
      OpenExactly(decode, Step(decode, s, es[0]), es[1..]);
      assert forall i :: 0 <= i < |es[1..]| ==> es[1..][i] == es[i + 1];
      assert (forall i :: 0 <= i < |es| ==> !Shuts(es[i]))
        <==> !Shuts(es[0]) && forall i :: 0 <= i < |es[1..]| ==> !Shuts(es[1..][i]);
    }
  }

  /** A frame is handled if it decodes, whatever message that gives, and dropped otherwise. */
  lemma ReadHandles(decode: Decoder, s: State, frame: string)
    requires Inv(decode, s) && s.readOps > 0
    ensures var t := Step(decode, s, ReadOk(frame));
            && t.received == s.received + [frame] && t.open == s.open && t.readOps == (if s.open then 1 else 0)
            && (decode(frame).Some? ==> t.handled == s.handled + [decode(frame).value])
            && (decode(frame).None? ==> t.handled == s.handled)
  {
    assert s.buffer + frame == frame;
  }

  /** `chosen` are the indices of all frames that decode, in order, and `handled` what they decode to. */
  ghost predicate Selects(decode: Decoder, chosen: seq<nat>, frames: seq<string>, handled: seq<Message>) {
    && |chosen| == |handled|
    && (forall k :: 0 <= k < |chosen| ==> chosen[k] < |frames| && decode(frames[chosen[k]]) == Some(handled[k]))
    && (forall k, l :: 0 <= k < l < |chosen| ==> chosen[k] < chosen[l])
    && (forall i :: 0 <= i < |frames| && decode(frames[i]).Some? ==> i in chosen)
  }

  lemma SelectsMore(decode: Decoder, chosen: seq<nat>, frames: seq<string>, handled: seq<Message>, frame: string)
    requires Selects(decode, chosen, frames, handled)
    ensures decode(frame).None? ==> Selects(decode, chosen, frames + [frame], handled)
    ensures decode(frame).Some? ==>
              Selects(decode, chosen + [|frames|], frames + [frame], handled + [decode(frame).value])
  {
    var more := chosen + [|frames|];
    assert more[|chosen|] == |frames|;
    assert forall i :: i in chosen ==> i in more;
  }

  lemma SelectsNothing(decode: Decoder)
    ensures Selects(decode, [], [], [])
  {
  }

  lemma {:induction false} DecodableSelected(decode: Decoder, frames: seq<string>) returns (chosen: seq<nat>)
    ensures Selects(decode, chosen, frames, Decodable(decode, frames))
  {
    hide Selects;
    if |frames| == 0 {
      SelectsNothing(decode);
      assert frames == [];
      chosen := [];
    } else {
      var front, last := frames[..|frames| - 1], frames[|frames| - 1];
      var handled := Decodable(decode, front);
      assert Decodable(decode, frames) == handled + Handle(decode, last);
      hide Decodable;
      chosen := DecodableSelected(decode, front);
      assert frames == front + [last];
      SelectsMore(decode, chosen, front, handled, last);
      if decode(last).Some? {
        chosen := chosen + [|front|];
      } else {
        assert handled + Handle(decode, last) == handled;
      }
    }
  }

  /** The handled messages are what those frames decode to that decode, in order. */
  lemma HandledAreDecoded(decode: Decoder, es: seq<Event>)
    requires Possible(decode, FRESH, es)
    ensures exists chosen :: Selects(decode, chosen, Frames(es), Run(decode, FRESH, es).handled)
  {
    RunKeepsInv(decode, FRESH, es);
    HistoriesAreEvents(decode, FRESH, es);
    hide Selects, Frames, Run, Possible, Decodable, Conserved, OneWriter;
    var s := Run(decode, FRESH, es);
    assert FRESH.received + Frames(es) == Frames(es);
    var chosen := DecodableSelected(decode, s.received);
    assert Selects(decode, chosen, Frames(es), s.handled);
  }

  /**
   After every run of a new session: wire, queue and posted handlers together are
   the messages sent, one write and one read at most are outstanding, and the
   handled messages are the frames that decode.
   */
  lemma EveryRunDelivers(decode: Decoder, es: seq<Event>)
    requires Possible(decode, FRESH, es)
    ensures var s := Run(decode, FRESH, es);
            && s.wire + s.writeMsgs + s.posted == Sends(es)
            && s.wire <= Sends(es)
            && |s.writeOps| <= 1 && s.readOps <= 1
            && (s.open ==> (s.writeMsgs != [] <==> |s.writeOps| == 1))
            && s.sent == Sends(es) && s.received == Frames(es)
            && exists chosen :: Selects(decode, chosen, Frames(es), s.handled)
  {
    RunKeepsInv(decode, FRESH, es);
    HistoriesAreEvents(decode, FRESH, es);
    HandledAreDecoded(decode, es);
    hide Selects, Run, Sends, Frames, Possible, Decodable;
    var s := Run(decode, FRESH, es);
    assert FRESH.received + Frames(es) == Frames(es) && FRESH.sent + Sends(es) == Sends(es);
    assert s.wire + s.writeMsgs + s.posted == s.wire + (s.writeMsgs + s.posted);
  }

  // ---- The stalled state ----------------------------------------------------

  predicate Stalled(s: State) {
    s.writeMsgs != [] && s.writeOps == []
  }

  /** A stalled queue means a closed socket, and nothing ever leaves it again. */
  lemma {:induction false} StalledForever(decode: Decoder, s: State, es: seq<Event>)
    requires Inv(decode, s) && Stalled(s) && Possible(decode, s, es)
    ensures !s.open
    ensures var t := Run(decode, s, es); Stalled(t) && !t.open && t.wire == s.wire
    decreases |es|
  {
    if |es| > 0 {
      StepKeepsInv(decode, s, es[0]);
      StalledForever(decode, Step(decode, s, es[0]), es[1..]);
    }
  }

  /** A failed write, or a write finished on a closed socket with more in the queue. */
  predicate Stalls(s: State, e: Event) {
    e.WriteErr? || (e.WriteOk? && !s.open && |s.writeMsgs| > 1)
  }

  lemma StallsExactly(decode: Decoder, s: State, e: Event)
    requires Inv(decode, s) && Enabled(s, e) && !Stalled(s)
    ensures Stalled(Step(decode, s, e)) <==> Stalls(s, e)
  {
  }

  predicate SomeStalls(decode: Decoder, s: State, es: seq<Event>)
    requires Possible(decode, s, es)
    decreases |es|
  {
    |es| > 0 && (Stalls(s, es[0]) || SomeStalls(decode, Step(decode, s, es[0]), es[1..]))
  }

  /** After a run the queue is stalled exactly when some event of it was such an event at its state. */
  lemma {:induction false} RunStallsExactly(decode: Decoder, s: State, es: seq<Event>)
    requires Inv(decode, s) && !Stalled(s) && Possible(decode, s, es)
    ensures Stalled(Run(decode, s, es)) <==> SomeStalls(decode, s, es)
    decreases |es|
  {
    if |es| > 0 {
      var s' := Step(decode, s, es[0]);
      StepKeepsInv(decode, s, es[0]);
      StallsExactly(decode, s, es[0]);
      if Stalled(s') {
        StalledForever(decode, s', es[1..]);
      } else {
        RunStallsExactly(decode, s', es[1..]);
      }
    }
  }

  function Viable(s: State): nat {
    if s.writeOps != [] && s.writeOps[0].viable then 1 else 0
  }

  /** Once the socket is closed, only a write already under way can still reach the wire. */
  lemma {:induction false} ClosedWireGrowsOnceAtMost(decode: Decoder, s: State, es: seq<Event>)
    requires Inv(decode, s) && !s.open && Possible(decode, s, es)
    ensures var t := Run(decode, s, es);
            !t.open && s.wire <= t.wire && |t.wire| + Viable(t) <= |s.wire| + Viable(s)
    decreases |es|
  {
    if |es| > 0 {
      StepKeepsInv(decode, s, es[0]);
      ClosedWireGrowsOnceAtMost(decode, Step(decode, s, es[0]), es[1..]);
    }
  }

  // ---- Draining -------------------------------------------------------------

  function Measure(s: State): nat {
    2 * |s.posted| + |s.writeMsgs|
  }

  /** A posted handler or a write handler. */
  predicate Handler(e: Event) {
    e.RunPost? || e.WriteOk?
  }

  /** No error, no close and no new send. */
  predicate Calm(e: Event) {
    Handler(e) || e.Start? || e.ReadOk?
  }

  function Handlers(es: seq<Event>): nat {
    if |es| == 0 then 0 else (if Handler(es[0]) then 1 else 0) + Handlers(es[1..])
  }

  lemma CalmStep(decode: Decoder, s: State, e: Event)
    requires Inv(decode, s) && s.open && Enabled(s, e) && Calm(e)
    ensures var t := Step(decode, s, e);
            t.open && t.sent == s.sent && Measure(t) == Measure(s) - if Handler(e) then 1 else 0
  {
  }

  /** Each handler of a calm run works off exactly one unit of the measure. */
  lemma {:induction false} CalmRun(decode: Decoder, s: State, es: seq<Event>)
    requires Inv(decode, s) && s.open && Possible(decode, s, es)
    requires forall i :: 0 <= i < |es| ==> Calm(es[i])
    ensures var t := Run(decode, s, es);
            Inv(decode, t) && t.open && t.sent == s.sent && Measure(t) + Handlers(es) == Measure(s)
    decreases |es|
  {
    if |es| > 0 {
      StepKeepsInv(decode, s, es[0]);
      CalmStep(decode, s, es[0]);
      forall i | 0 <= i < |es[1..]| ensures Calm(es[1..][i]) {
        assert es[1..][i] == es[i + 1];
      }
      CalmRun(decode, Step(decode, s, es[0]), es[1..]);
    }
  }

  /** While anything is left, some handler can run. */
  predicate HandlerReady(s: State) {
    s.posted != [] || (s.writeOps != [] && s.writeOps[0].viable)
  }

  /**
   A calm run on an open socket has at most `Measure(s)` handlers; it has that
   many exactly when no handler is left to run, and then everything ever sent is
   on the wire.
   */
  lemma CalmRunDrains(decode: Decoder, s: State, es: seq<Event>)
    requires Inv(decode, s) && s.open && Possible(decode, s, es)
    requires forall i :: 0 <= i < |es| ==> Calm(es[i])
    ensures Handlers(es) <= Measure(s)
    ensures Handlers(es) == Measure(s) <==> !HandlerReady(Run(decode, s, es))
    ensures Handlers(es) == Measure(s) <==> Run(decode, s, es).wire == s.sent
  {
    CalmRun(decode, s, es);
    var t := Run(decode, s, es);
    assert |t.wire + t.writeMsgs + t.posted| == |t.wire| + |t.writeMsgs| + |t.posted|;
    if Measure(t) == 0 {
      assert t.wire + t.writeMsgs + t.posted == t.wire;
    }
  }

  // ---- When a session can still be stopped -----------------------------------

  /** A stalled session without a read: nothing outstanding can fail any more. */
  predicate Stranded(s: State) {
    s.started && s.readOps == 0 && Stalled(s)
  }

  lemma {:induction false} StrandedNeverStops(decode: Decoder, s: State, es: seq<Event>)
    requires Inv(decode, s) && Stranded(s) && Possible(decode, s, es)
    ensures Run(decode, s, es).stops == s.stops
    decreases |es|
  {
    if |es| > 0 {
      StepKeepsInv(decode, s, es[0]);
      StrandedNeverStops(decode, Step(decode, s, es[0]), es[1..]);
    }
  }

  lemma OneStep(decode: Decoder, s: State, e: Event)
    requires Enabled(s, e)
    ensures Possible(decode, s, [e]) && Run(decode, s, [e]) == Step(decode, s, e)
  {
  }

  /** Events after which a session that is not stranded has been stopped. */
  function StoppingRun(s: State, msg: Message): seq<Event> {
    if s.readOps > 0 then [ReadErr("")]
    else if s.writeOps != [] then [WriteErr(0)]
    else if s.posted != [] then [RunPost, WriteErr(0)]
    else [Send(msg), RunPost, WriteErr(0)]
  }

  lemma StoppingRunStops(decode: Decoder, s: State, msg: Message)
    requires Inv(decode, s) && s.started && !Stranded(s)
    ensures Possible(decode, s, StoppingRun(s, msg)) && Run(decode, s, StoppingRun(s, msg)).stops > s.stops
  {
    if s.readOps > 0 {
      OneStep(decode, s, ReadErr(""));
    } else if s.writeOps != [] {
      OneStep(decode, s, WriteErr(0));
    } else if s.posted != [] {
      RunThenFail(decode, s);
    } else {
      RunThenFail(decode, Step(decode, s, Send(msg)));
      assert [Send(msg), RunPost, WriteErr(0)][1..] == [RunPost, WriteErr(0)];
    }
  }

  lemma RunThenFail(decode: Decoder, s: State)
    requires s.posted != [] && s.writeOps == [] && s.writeMsgs == []
    ensures Possible(decode, s, [RunPost, WriteErr(0)])
    ensures Run(decode, s, [RunPost, WriteErr(0)]).stops == s.stops + 1
  {
    OneStep(decode, Step(decode, s, RunPost), WriteErr(0));
    assert [RunPost, WriteErr(0)][1..] == [WriteErr(0)];
  }

  /** A started session can still be stopped by some run exactly when it is not stranded. */
  lemma StoppableExactly(decode: Decoder, s: State)
    requires Inv(decode, s) && s.started
    ensures (exists es :: Possible(decode, s, es) && Run(decode, s, es).stops > s.stops) <==> !Stranded(s)
  {
    if Stranded(s) {
      forall es | Possible(decode, s, es) ensures Run(decode, s, es).stops == s.stops {
        StrandedNeverStops(decode, s, es);
      }
    } else {
      var msg := Message(0, 0, TextMessage, 0, "", 0);
      StoppingRunStops(decode, s, msg);
      assert Possible(decode, s, StoppingRun(s, msg));
    }
  }

  predicate NoSend(es: seq<Event>) {
    forall i :: 0 <= i < |es| ==> !es[i].Send?
  }

  /** Neither reading nor writing, and no posted handler will begin a write. */
  predicate LeftOver(s: State) {
    s.started && s.readOps == 0 && s.writeOps == [] && (s.posted == [] || s.writeMsgs != [])
  }

  lemma {:induction false} LeftOverNeverStops(decode: Decoder, s: State, es: seq<Event>)
    requires LeftOver(s) && Possible(decode, s, es) && NoSend(es)
    ensures LeftOver(Run(decode, s, es)) && Run(decode, s, es).stops == s.stops
    decreases |es|
  {
    if |es| > 0 {
      assert !es[0].Send?;
      assert forall i :: 0 <= i < |es[1..]| ==> es[1..][i] == es[i + 1];
      LeftOverNeverStops(decode, Step(decode, s, es[0]), es[1..]);
    }
  }

  /**
   A started session to which nothing more is sent can still be stopped exactly
   when it is reading, writing, or about to begin a write.
   */
  lemma StoppableUnsentExactly(decode: Decoder, s: State)
    requires Inv(decode, s) && s.started
    ensures (exists es :: Possible(decode, s, es) && NoSend(es) && Run(decode, s, es).stops > s.stops)
       <==> s.readOps > 0 || s.writeOps != [] || (s.posted != [] && s.writeMsgs == [])
  {
    if LeftOver(s) {
      forall es | Possible(decode, s, es) && NoSend(es) ensures Run(decode, s, es).stops == s.stops {
        LeftOverNeverStops(decode, s, es);
      }
    } else {
      var msg := Message(0, 0, TextMessage, 0, "", 0);
      StoppingRunStops(decode, s, msg);
      assert Possible(decode, s, StoppingRun(s, msg)) && NoSend(StoppingRun(s, msg));
    }
  }

  /**
   Which events leave a session over: the last read ends while no write is under
   way, or the last write while no read is, and no posted handler begins another.
   */
  lemma LeftOverExactly(decode: Decoder, s: State, e: Event)
    requires Inv(decode, s) && s.started && !LeftOver(s) && Enabled(s, e)
    ensures LeftOver(Step(decode, s, e)) <==>
            match e
            case ReadOk(_) => !s.open && s.writeOps == [] && (s.posted == [] || s.writeMsgs != [])
            case ReadErr(_) => s.writeOps == [] && (s.posted == [] || s.writeMsgs != [])
            case WriteOk(_) => s.readOps == 0 && (s.posted == [] || |s.writeMsgs| > 1)
            case WriteErr(_) => s.readOps == 0
            case _ => false
  {
  }

  // ---- Runs ---------------------------------------------------------------------

  lemma Prefixed(decode: Decoder, s: State, e: Event, es: seq<Event>)
    requires Enabled(s, e) && Possible(decode, Step(decode, s, e), es)
    ensures Possible(decode, s, [e] + es) && Run(decode, s, [e] + es) == Run(decode, Step(decode, s, e), es)
  {
  }

  /** A run may be longer by two events. */
  lemma {:induction false} TwoMore(decode: Decoder, s: State, es: seq<Event>, e: Event, f: Event)
    requires Possible(decode, s, es)
    requires Enabled(Run(decode, s, es), e) && Enabled(Step(decode, Run(decode, s, es), e), f)
    ensures Possible(decode, s, es + [e, f])
    ensures Run(decode, s, es + [e, f]) == Step(decode, Step(decode, Run(decode, s, es), e), f)
    decreases |es|
  {
    hide Enabled, Step;
    if |es| == 0 {
      OneStep(decode, Step(decode, s, e), f);
      Prefixed(decode, s, e, [f]);
      assert es + [e, f] == [e] + [f];
    } else {
      TwoMore(decode, Step(decode, s, es[0]), es[1..], e, f);
      assert es + [e, f] == [es[0]] + (es[1..] + [e, f]);
      Prefixed(decode, s, es[0], es[1..] + [e, f]);
    }
  }

  /** Stranded sessions do occur: the socket closes between two writes, then one more frame arrives. */
  lemma StrandedReachable(decode: Decoder, msg: Message)
    ensures var es :=
              [] + [Start, Send(msg)] + [Send(msg), RunPost] + [RunPost, PeerDropped] + [WriteOk(0), ReadOk("")];
            Possible(decode, FRESH, es) && Stranded(Run(decode, FRESH, es)) && Run(decode, FRESH, es).stops == 0
  {
    hide Possible, Run;
    EmptyRun(decode, FRESH);
    TwoMore(decode, FRESH, [], Start, Send(msg));
    TwoMore(decode, FRESH, [] + [Start, Send(msg)], Send(msg), RunPost);
    TwoMore(decode, FRESH, [] + [Start, Send(msg)] + [Send(msg), RunPost], RunPost, PeerDropped);
    TwoMore(decode, FRESH, [] + [Start, Send(msg)] + [Send(msg), RunPost] + [RunPost, PeerDropped],
            WriteOk(0), ReadOk(""));
  }

  lemma EmptyRun(decode: Decoder, s: State)
    ensures Possible(decode, s, []) && Run(decode, s, []) == s
  {
  }

  /** A LOGOUT: the read handler begins a close, and so does not read again. */
  function LogoutRun(frame: string): seq<Event> {
    [PeerDropped, ReadOk(frame)] + [Close, CloseDone]
  }

  /** A session that logs out while it has nothing to write is left over, never stopped. */
  lemma LogoutLeavesOver(decode: Decoder, s: State, frame: string)
    requires s.started && s.readOps == 1 && s.writeOps == [] && (s.posted == [] || s.writeMsgs != [])
    ensures Possible(decode, s, LogoutRun(frame))
    ensures var t := Run(decode, s, LogoutRun(frame));
            LeftOver(t) && t.stops == s.stops && t.told == s.told + 1 && t.closing == s.closing
  {
    hide Possible, Run;
    EmptyRun(decode, s);
    TwoMore(decode, s, [], PeerDropped, ReadOk(frame));
    TwoMore(decode, s, [] + [PeerDropped, ReadOk(frame)], Close, CloseDone);
    assert [] + [PeerDropped, ReadOk(frame)] + [Close, CloseDone] == LogoutRun(frame);
  }

  // ---- Who tells the business handler ------------------------------------------

  /** How often `close` was called. */
  function Closes(es: seq<Event>): nat {
    if |es| == 0 then 0 else (if es[0].Close? then 1 else 0) + Closes(es[1..])
  }

  /** The business handler is told once for every completed `close`, and for nothing else. */
  lemma {:induction false} ToldOncePerClose(decode: Decoder, s: State, es: seq<Event>)
    requires Possible(decode, s, es)
    ensures var t := Run(decode, s, es); t.told + t.closing == s.told + s.closing + Closes(es)
    decreases |es|
  {
    if |es| > 0 {
      ToldOncePerClose(decode, Step(decode, s, es[0]), es[1..]);
    }
  }
}
