/**
 The classes `Session` and `Server` of src/Session.cpp and src/Server.cpp.

 Completion handlers are methods that the io_context calls one at a time; the
 operations of the socket (which frame arrives, whether a write fails) are their
 parameters. Each method is a `SessionModel` step on the session's state.
 */
module Session {
  import opened Common
  import opened SessionModel

  class Server {
    var sessions: set<Session>
    ghost var accepted: set<Session>  // every session ever inserted

    /** `ServerModel.Inv`: the set holds the accepted sessions that `stop` never ran on. */
    ghost predicate Valid()
      reads this, accepted
    {
      && sessions <= accepted
      && forall s :: s in accepted ==> s.server == this && s.started && s.Valid() && (s in sessions <==> s.stops == 0)
    }

    constructor ()
      ensures sessions == {} && accepted == {}
      ensures Valid()
    {
      sessions, accepted := {}, {};
    }

    /** The handler of the WebSocket handshake: insert, then start. */
    method OnHandshake(ok: bool, decode: Decoder) returns (session: Session?)
      requires Valid()
      modifies this
      ensures !ok ==> session == null && sessions == old(sessions) && accepted == old(accepted)
      ensures ok ==> session != null && fresh(session) && session.server == this && session.decode == decode
                     && sessions == old(sessions) + {session} && accepted == old(accepted) + {session}
                     && session.View() == Step(decode, FRESH, Start)
      ensures Valid()
    {
      session := null;
      if ok {
        session := new Session(this, decode);
        sessions := sessions + {session};
        session.StartReading();
        accepted := accepted + {session};
      }
    }

    method RemoveSession(session: Session)
      modifies this`sessions
      ensures sessions == old(sessions) - {session}
    {
      sessions := sessions - {session};
    }
  }

  class Session {
    const server: Server
    const decode: Decoder
    var posted: seq<Message>
    var writeMsgs: seq<Message>
    var writeOps: seq<PendingWrite>
    var readOps: nat
    var buffer: string
    var open: bool
    var closing: nat
    ghost var started: bool
    ghost var stops: nat
    ghost var sent: seq<Message>
    ghost var wire: seq<Message>
    ghost var received: seq<string>
    ghost var handled: seq<Message>
    ghost var told: nat

    ghost function View(): State
      reads this
    {
      State(posted, writeMsgs, writeOps, readOps, buffer, open, closing, started, stops, sent, wire, received, handled,
            told)
    }

    ghost predicate Valid()
      reads this
    {
      Inv(decode, View())
    }

    /** This session is one of the server's, all of which are in order. */
    ghost predicate Accepted()
      reads this, server, server.accepted
    {
      this in server.accepted && server.Valid()
    }

    /** Events that stop a session take it out of the set; then all sessions stay in order. */
    twostate lemma StaysAccepted(e: Event)
      requires old(Accepted()) && Enabled(old(View()), e) && View() == Step(decode, old(View()), e)
      requires server.accepted == old(server.accepted)
      requires server.sessions ==
               if e.WriteErr? || e.ReadErr? then old(server.sessions) - {this} else old(server.sessions)
      requires forall s :: s in server.accepted && s != this ==> unchanged(s)
      ensures Accepted()
    {
      hide Inv;
      StepKeepsInv(decode, old(View()), e);
    }

    constructor (server: Server, decode: Decoder)
      ensures this.server == server && this.decode == decode && View() == FRESH
      ensures Valid()
    {
      this.server, this.decode := server, decode;
      posted, writeMsgs, writeOps, readOps, buffer, open, closing := [], [], [], 0, "", true, 0;
      started, stops, sent, wire, received, handled, told := false, 0, [], [], [], [], 0;
    }

    /** `start`. */
    method StartReading()
      requires !started
      requires Valid()
      modifies this
      ensures View() == Step(decode, old(View()), Start)
      ensures started && readOps == old(readOps) + 1
      ensures Valid()
    {
      StepKeepsInv(decode, View(), Start);
      started := true;
      StartRead();
    }

    /** `stop`: close the socket, then tell the server. */
    method StopSession()
      modifies this`open, this`stops, server`sessions
      ensures !open && stops == old(stops) + 1
      ensures View() == Stop(old(View())) && server.sessions == old(server.sessions) - {this}
    {
      open := false;
      stops := stops + 1;
      server.RemoveSession(this);
    }

    /** `send`: post the enqueueing lambda. */
    method SendMessage(msg: Message)
      requires Accepted()
      modifies this
      ensures View() == Step(decode, old(View()), Send(msg))
      ensures posted == old(posted) + [msg] && sent == old(sent) + [msg]
      ensures Accepted()
    {
      posted := posted + [msg];
      sent := sent + [msg];
      StaysAccepted(Send(msg));
    }

    /** The io_context runs the oldest posted lambda. */
    method RunPosted()
      requires Enabled(View(), RunPost)
      requires Accepted()
      modifies this
      ensures View() == Step(decode, old(View()), RunPost)
      ensures posted == old(posted)[1..] && writeMsgs == old(writeMsgs) + [old(posted)[0]]
      ensures writeOps == if old(writeMsgs) != [] then old(writeOps)
                          else old(writeOps) + [PendingWrite(old(posted)[0], open)]
      ensures Accepted()
    {
      var msg := posted[0];
      posted := posted[1..];
      var writing := writeMsgs != [];
      writeMsgs := writeMsgs + [msg];
      if !writing {
        StartWrite();
      }
      StaysAccepted(RunPost);
    }

    /** `write`: begin an async_write of the front message. */
    method StartWrite()
      requires writeMsgs != []
      modifies this`writeOps
      ensures writeOps == old(writeOps) + [PendingWrite(writeMsgs[0], open)]
      ensures View() == Write(old(View()))
    {
      var msg := writeMsgs[0];
      writeOps := writeOps + [PendingWrite(msg, open)];
    }

    /** The handler of the i-th outstanding async_write. */
    method OnWrite(i: nat, failed: bool)
      requires Enabled(View(), if failed then WriteErr(i) else WriteOk(i))
      requires Accepted()
      modifies this, server`sessions
      ensures View() == Step(decode, old(View()), if failed then WriteErr(i) else WriteOk(i))
      ensures failed ==> !open && writeOps == [] && writeMsgs == old(writeMsgs) && wire == old(wire)
      ensures !failed ==>
                && wire == old(wire) + [old(writeMsgs)[0]] && writeMsgs == old(writeMsgs)[1..]
                && writeOps == if writeMsgs != [] && open then [PendingWrite(writeMsgs[0], true)] else []
      ensures server.sessions == if failed then old(server.sessions) - {this} else old(server.sessions)
      ensures Accepted()
    {
      WriterHasFront(decode, View());
      hide Inv, Enqueue, OnFrame;
      ghost var msg := writeOps[i].msg;
      writeOps := Without(writeOps, i);
      if !failed {
        wire := wire + [msg];
        writeMsgs := writeMsgs[1..];
        if writeMsgs != [] {
          if open {
            StartWrite();
          }
        }
      } else {
        StopSession();
      }
      StaysAccepted(if failed then WriteErr(i) else WriteOk(i));
    }

    /** `readMessage`: begin an async_read. */
    method StartRead()
      modifies this`readOps
      ensures readOps == old(readOps) + 1
      ensures View() == ReadMessage(old(View()))
    {
      readOps := readOps + 1;
    }

    /** The handler of an async_read that put `bytes` into the buffer. */
    method OnRead(bytes: string, failed: bool)
      requires Enabled(View(), if failed then ReadErr(bytes) else ReadOk(bytes))
      requires Accepted()
      modifies this, server`sessions
      ensures View() == Step(decode, old(View()), if failed then ReadErr(bytes) else ReadOk(bytes))
      ensures failed ==> !open && readOps == 0 && handled == old(handled) && received == old(received)
      ensures !failed ==>
                && open == old(open) && readOps == (if open then 1 else 0) && received == old(received) + [bytes]
                && handled == match decode(bytes)
                              case Some(msg) => old(handled) + [msg]
                              case None => old(handled)
      ensures server.sessions == if failed then old(server.sessions) - {this} else old(server.sessions)
      ensures Accepted()
    {
      hide Inv, Accepted, Enqueue, OnWritten;
      readOps := readOps - 1;
      buffer := buffer + bytes;
      if !failed {
        ConsumeFrame(bytes);
        assert View() == old(View()).(readOps := readOps, buffer := buffer, received := received, handled := handled);
        if open {
          StartRead();
        }
        StaysAccepted(ReadOk(bytes));
        ReadEffect(bytes);
      } else {
        StopSession();
        StaysAccepted(ReadErr(bytes));
        ReadErrorEffect(bytes);
      }
    }

    twostate lemma ReadEffect(frame: string)
      requires old(Accepted()) && old(readOps) > 0 && View() == Step(decode, old(View()), ReadOk(frame))
      ensures open == old(open) && readOps == (if open then 1 else 0) && received == old(received) + [frame]
      ensures handled == match decode(frame)
                         case Some(msg) => old(handled) + [msg]
                         case None => old(handled)
    {
      ReadHandles(decode, old(View()), frame);
    }

    twostate lemma ReadErrorEffect(partial: string)
      requires old(Accepted()) && old(readOps) > 0 && View() == Step(decode, old(View()), ReadErr(partial))
      ensures !open && readOps == 0 && handled == old(handled) && received == old(received)
    {
    }

    /** Take the frame just read off the buffer; a text that does not decode is only logged. */
    method ConsumeFrame(frame: string)
      modifies this`buffer, this`received, this`handled
      ensures buffer == Consume(old(buffer), |frame|) && received == old(received) + [frame]
      ensures handled == old(handled) + Handle(decode, old(buffer))
      ensures handled == match decode(old(buffer))
                         case Some(msg) => old(handled) + [msg]
                         case None => old(handled)
    {
      var jsonData := buffer;
      buffer := Consume(buffer, |frame|);
      received := received + [frame];
      match decode(jsonData) {
        case Some(msg) => handled := handled + [msg];
        case None =>
      }
    }

    /** `close`: begin an async_close. */
    method CloseSession()
      requires Accepted()
      modifies this
      ensures View() == Step(decode, old(View()), Close)
      ensures closing == old(closing) + 1
      ensures Accepted()
    {
      closing := closing + 1;
      StaysAccepted(Close);
    }

    /** The handler of an async_close tells the business handler, whether or not there was an error. */
    method OnCloseDone()
      requires Accepted()
      requires Enabled(View(), CloseDone)
      modifies this
      ensures View() == Step(decode, old(View()), CloseDone)
      ensures !open && closing == old(closing) - 1 && told == old(told) + 1
      ensures Accepted()
    {
      closing := closing - 1;
      open := false;
      told := told + 1;
      StaysAccepted(CloseDone);
    }

    /** The peer went away. */
    method OnPeerDropped()
      requires Accepted()
      modifies this
      ensures View() == Step(decode, old(View()), PeerDropped)
      ensures !open
      ensures Accepted()
    {
      open := false;
      StaysAccepted(PeerDropped);
    }
  }
}
