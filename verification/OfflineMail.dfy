/**
 The `offline_messages` table of src/Database.cpp: one flat table that is to
 behave like a mailbox per user.
 */
module OfflineMail {
  datatype Row = Row(userId: string, content: string)

  /** The operations that change the table. */
  datatype Event = Store(userId: string, content: string) | MarkRead(userId: string)

  function DeleteFor(rows: seq<Row>, u: string): seq<Row> {
    if |rows| == 0 then [] else
      DeleteFor(rows[..|rows| - 1], u) + if rows[|rows| - 1].userId == u then [] else [rows[|rows| - 1]]
  }

  /** `getOfflineMessages`. */
  function ContentsFor(rows: seq<Row>, u: string): seq<string> {
    if |rows| == 0 then [] else
      ContentsFor(rows[..|rows| - 1], u) + if rows[|rows| - 1].userId == u then [rows[|rows| - 1].content] else []
  }

  function Apply(rows: seq<Row>, e: Event): seq<Row> {
    match e
    case Store(u, content) => rows + [Row(u, content)]
    case MarkRead(u) => DeleteFor(rows, u)
  }

  function Table(trace: seq<Event>): seq<Row> {
    if |trace| == 0 then [] else Apply(Table(trace[..|trace| - 1]), trace[|trace| - 1])
  }

  // ---- The mailbox of one user ------------------------------------------------

  /** Where the history of `u`'s current mail begins: after the last `MarkRead(u)`. */
  function LastRead(trace: seq<Event>, u: string): (n: nat)
    ensures n <= |trace|
    ensures n > 0 ==> trace[n - 1] == MarkRead(u)
    ensures forall i :: n <= i < |trace| ==> trace[i] != MarkRead(u)
  {
    if |trace| == 0 then 0
    else if trace[|trace| - 1] == MarkRead(u) then |trace|
    else LastRead(trace[..|trace| - 1], u)
  }

  /** The contents stored for `u` in a piece of history, in order. */
  function Stored(trace: seq<Event>, u: string): seq<string> {
    if |trace| == 0 then [] else
      var e := trace[|trace| - 1];
      Stored(trace[..|trace| - 1], u) + if e.Store? && e.userId == u then [e.content] else []
  }

  lemma {:induction false} DeleteOnlyOne(rows: seq<Row>, v: string, u: string)
    ensures ContentsFor(DeleteFor(rows, v), u) == if u == v then [] else ContentsFor(rows, u)
  {
    if |rows| > 0 {
      var rows', r := rows[..|rows| - 1], rows[|rows| - 1];
      DeleteOnlyOne(rows', v, u);
      if r.userId != v {
        ContentsAppend(DeleteFor(rows', v), r, u);
      } else {
        assert DeleteFor(rows, v) == DeleteFor(rows', v);
      }
    }
  }

  lemma ContentsAppend(rows: seq<Row>, r: Row, u: string)
    ensures ContentsFor(rows + [r], u) == ContentsFor(rows, u) + if r.userId == u then [r.content] else []
  {
  }

  lemma StoredAppend(trace: seq<Event>, e: Event, u: string)
    ensures Stored(trace + [e], u) == Stored(trace, u) + if e.Store? && e.userId == u then [e.content] else []
  {
  }

  lemma TableAppend(trace: seq<Event>, e: Event)
    ensures Table(trace + [e]) == Apply(Table(trace), e)
  {
  }

  lemma LastReadAppend(trace: seq<Event>, e: Event, u: string)
    ensures LastRead(trace + [e], u) == if e == MarkRead(u) then |trace| + 1 else LastRead(trace, u)
  {
  }

  /** What one operation does to one user's mail. */
  lemma OneOperation(rows: seq<Row>, e: Event, u: string)
    ensures ContentsFor(Apply(rows, e), u)
            == if e == MarkRead(u) then []
               else ContentsFor(rows, u) + if e.Store? && e.userId == u then [e.content] else []
  {
    match e
    case Store(v, content) => ContentsAppend(rows, Row(v, content), u);
    case MarkRead(v) => DeleteOnlyOne(rows, v, u);
  }

  /** After any history, a user's mail is what was stored for that user since the last MarkRead, in order. */
  lemma {:induction false} TableIsMailboxes(trace: seq<Event>, u: string)
    ensures ContentsFor(Table(trace), u) == Stored(trace[LastRead(trace, u)..], u)
  {
    if |trace| > 0 {
      hide ContentsFor, Stored, Table, Apply, LastRead;
      var trace', e := trace[..|trace| - 1], trace[|trace| - 1];
      var since' := trace'[LastRead(trace', u)..];
      assert trace == trace' + [e];
      TableIsMailboxes(trace', u);
      TableAppend(trace', e);
      OneOperation(Table(trace'), e, u);
      LastReadAppend(trace', e, u);
      if e == MarkRead(u) {
        assert trace[LastRead(trace, u)..] == [];
        NothingStored(u);
      } else {
        TailAppend(trace', e, LastRead(trace', u));
        StoredAppend(since', e, u);
      }
    } else {
      assert trace[LastRead(trace, u)..] == [];
    }
  }

  lemma TailAppend(trace: seq<Event>, e: Event, k: nat)
    requires k <= |trace|
    ensures (trace + [e])[k..] == trace[k..] + [e]
  {
  }

  lemma NothingStored(u: string)
    ensures Stored([], u) == []
  {
  }

  /** A query that stops early has read a prefix of the mail. */
  lemma {:induction false} ContentsPrefix(rows: seq<Row>, n: nat, u: string)
    requires n <= |rows|
    ensures ContentsFor(rows[..n], u) <= ContentsFor(rows, u)
  {
    if n < |rows| {
      assert rows[..|rows| - 1][..n] == rows[..n];
      ContentsPrefix(rows[..|rows| - 1], n, u);
    } else {
      assert rows[..n] == rows;
    }
  }

  /** The operations that name `u`. */
  function About(trace: seq<Event>, u: string): seq<Event> {
    if |trace| == 0 then [] else
      About(trace[..|trace| - 1], u) + if trace[|trace| - 1].userId == u then [trace[|trace| - 1]] else []
  }

  /** Mailboxes are separate: a user's mail does not depend on anybody else's operations. */
  lemma {:induction false} MailboxesSeparate(trace: seq<Event>, u: string)
    ensures ContentsFor(Table(trace), u) == ContentsFor(Table(About(trace, u)), u)
  {
    if |trace| > 0 {
      var trace', e := trace[..|trace| - 1], trace[|trace| - 1];
      MailboxesSeparate(trace', u);
      if e.userId == u {
        TableAppend(About(trace', u), e);
      } else {
        assert About(trace, u) == About(trace', u);
      }
      OneOperation(Table(trace'), e, u);
      OneOperation(Table(About(trace', u)), e, u);
    }
  }
}
