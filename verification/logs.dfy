/**
 * The live log stream of one job (GET /jobs/:jobId/logs). The handler
 * keeps a cursor, the log length already sent, and on every poll reads the
 * job's log and status: it sends the unsent suffix of the log as one
 * `data:` event, and on SUCCESS or FAILED sends an `end` event and stops.
 *
 * One poll is `Poll`; a subscription is `Follow` over the rows its polls
 * read, one per poll.
 */
module LogStream {
  import opened Wrappers
  import opened Text
  import opened Records

  /** What one poll reads; a poll of a job with no row reads `None`. */
  datatype Row = Row(logs: string, status: Status)

  /** A server-sent event: a log chunk (escaped) or the end of the stream with the final status. */
  datatype Event = Data(text: string) | End(status: string)

  /** One poll: the log text it sends (before escaping), the cursor after it, and the status it ends on. */
  datatype PollResult = PollResult(chunk: Option<string>, cursor: nat, end: Option<Status>)

  /** A subscription starts with nothing sent. */
  const InitialCursor: nat := 0

  function Poll(cursor: nat, row: Option<Row>): (r: PollResult)
    ensures cursor <= r.cursor
    ensures row.None? ==> r == PollResult(None, cursor, None)
    ensures row.Some? && |row.value.logs| > cursor ==>
      r.chunk == Some(row.value.logs[cursor..]) && r.cursor == |row.value.logs|
    ensures row.Some? && |row.value.logs| <= cursor ==> r.chunk.None? && r.cursor == cursor
    ensures r.end.Some? <==> row.Some? && IsTerminal(row.value.status)
    ensures r.end.Some? ==> r.end.value == row.value.status
  {
    match row
    case None => PollResult(None, cursor, None)
    case Some(Row(logs, status)) =>
      var chunk := if |logs| > cursor then Some(logs[cursor..]) else None;
      var next := if |logs| > cursor then |logs| else cursor;
      PollResult(chunk, next, if status == Success || status == Failed then Some(status) else None)
  }

  /** The events one poll writes: the data chunk first, then the end event. */
  function PollEvents(r: PollResult): seq<Event> {
    (if r.chunk.Some? then [Data(EscapeNewlines(r.chunk.value))] else [])
    + (if r.end.Some? then [End(StatusName(r.end.value))] else [])
  }

  /** The bytes an event puts on the wire. */
  function Wire(e: Event): string {
    match e
    case Data(text) => "data: " + text + "\n\n"
    case End(status) => "event: end\ndata: " + status + "\n\n"
  }

  /** A data event's payload holds no line feed, so its only line feeds are the two that close it. */
  lemma DataEventHasNoLineFeed(r: PollResult, k: nat)
    requires k < |PollEvents(r)| && PollEvents(r)[k].Data?
    ensures '\n' !in PollEvents(r)[k].text
    ensures Count(Wire(PollEvents(r)[k]), '\n') == 2
  {
    var text := PollEvents(r)[k].text;
    assert r.chunk.Some? && text == EscapeNewlines(r.chunk.value);
    var w := Wire(PollEvents(r)[k]);
    assert w == "data: " + (text + "\n\n");
    CountAppend("data: ", text + "\n\n", '\n');
    CountAppend(text, "\n\n", '\n');
    CountZero(text, '\n');
  }

  /** The text one poll sends, before escaping. */
  function Sent(t: PollResult): string {
    if t.chunk.Some? then t.chunk.value else []
  }

  /** What a subscription has done after a number of polls. */
  datatype Tail = Tail(sent: string, events: seq<Event>, cursor: nat, ended: bool)

  /**
   * Poll once per row read, stopping after the first poll that ends the
   * stream; rows after that poll are never read.
   */
  function Follow(cursor: nat, rows: seq<Option<Row>>): (r: Tail)
    ensures cursor <= r.cursor
    decreases |rows|
  {
    if rows == [] then Tail([], [], cursor, false)
    else
      var t := Poll(cursor, rows[0]);
      if t.end.Some? then Tail(Sent(t), PollEvents(t), t.cursor, true)
      else
        var rest := Follow(t.cursor, rows[1..]);
        Tail(Sent(t) + rest.sent, PollEvents(t) + rest.events, rest.cursor, rest.ended)
  }

  /** Every row read holds a prefix of `full`: the log only grew between polls. */
  predicate ReadsPrefixesOf(rows: seq<Option<Row>>, full: string) {
    forall i :: 0 <= i < |rows| && rows[i].Some? ==> rows[i].value.logs <= full
  }

  /**
   * On a log that only grows, the text sent is exactly the slice of the log
   * between the starting and the final cursor: no character is sent twice
   * and none is skipped.
   */
  lemma {:induction false} FollowSendsSlice(cursor: nat, rows: seq<Option<Row>>, full: string)
    requires cursor <= |full|
    requires ReadsPrefixesOf(rows, full)
    ensures var r := Follow(cursor, rows); r.cursor <= |full| && r.sent == full[cursor..r.cursor]
    decreases |rows|
  {
    if rows != [] {
      var t := Poll(cursor, rows[0]);
      if rows[0].Some? && |rows[0].value.logs| > cursor {
        var logs := rows[0].value.logs;
        assert logs <= full;
        assert logs[cursor..] == full[cursor..|logs|];
      }
      if t.end.None? {
        assert ReadsPrefixesOf(rows[1..], full) by {
          forall i | 0 <= i < |rows[1..]| && rows[1..][i].Some? ensures rows[1..][i].value.logs <= full {
            assert rows[1..][i] == rows[i + 1];
          }
        }
        FollowSendsSlice(t.cursor, rows[1..], full);
        var rest := Follow(t.cursor, rows[1..]);
        assert full[cursor..t.cursor] + full[t.cursor..rest.cursor] == full[cursor..rest.cursor];
      }
    }
  }

  /** From a fresh subscription the text sent is a prefix of the log, up to the cursor. */
  lemma FollowFromStart(rows: seq<Option<Row>>, full: string)
    requires ReadsPrefixesOf(rows, full)
    ensures var r := Follow(InitialCursor, rows); r.cursor <= |full| && r.sent == full[..r.cursor] && r.sent <= full
  {
    FollowSendsSlice(InitialCursor, rows, full);
  }

  /** A row whose status ends the stream. */
  predicate EndsStream(row: Option<Row>) {
    row.Some? && IsTerminal(row.value.status)
  }

  /** The stream ends exactly when some poll reads SUCCESS or FAILED; CANCELLED, QUEUED and RUNNING never end it. */
  lemma {:induction false} FollowEndsIff(cursor: nat, rows: seq<Option<Row>>)
    ensures Follow(cursor, rows).ended <==> exists i :: 0 <= i < |rows| && EndsStream(rows[i])
    decreases |rows|
  {
    if rows != [] {
      var t := Poll(cursor, rows[0]);
      if t.end.None? {
        FollowEndsIff(t.cursor, rows[1..]);
        if exists i :: 0 <= i < |rows| && EndsStream(rows[i]) {
          var i :| 0 <= i < |rows| && EndsStream(rows[i]);
          assert i != 0;
          assert rows[1..][i - 1] == rows[i];
        }
        if exists i :: 0 <= i < |rows[1..]| && EndsStream(rows[1..][i]) {
          var i :| 0 <= i < |rows[1..]| && EndsStream(rows[1..][i]);
          assert rows[i + 1] == rows[1..][i];
        }
      } else {
        assert EndsStream(rows[0]);
      }
    }
  }

  /** The text carried by the data events, in order. */
  function DataText(events: seq<Event>): string
    decreases |events|
  {
    if events == [] then []
    else (if events[0].Data? then events[0].text else []) + DataText(events[1..])
  }

  lemma {:induction false} DataTextAppend(a: seq<Event>, b: seq<Event>)
    ensures DataText(a + b) == DataText(a) + DataText(b)
    decreases |a|
  {
    if a == [] {
      assert a + b == b;
    } else {
      assert (a + b)[1..] == a[1..] + b;
      assert (a + b)[0] == a[0];
      DataTextAppend(a[1..], b);
    }
  }

  lemma PollEventsText(t: PollResult)
    ensures DataText(PollEvents(t)) == EscapeNewlines(Sent(t))
    ensures EndOnlyLast(PollEvents(t), t.end.Some?)
    ensures t.end.None? ==> forall k :: 0 <= k < |PollEvents(t)| ==> PollEvents(t)[k].Data?
  {
    var ends: seq<Event> := if t.end.Some? then [End(StatusName(t.end.value))] else [];
    assert DataText(ends) == [] by {
      if t.end.Some? {
        assert ends[1..] == [];
      }
    }
    if t.chunk.Some? {
      var data := [Data(EscapeNewlines(t.chunk.value))];
      assert PollEvents(t) == data + ends;
      DataTextAppend(data, ends);
      assert data[1..] == [];
    } else {
      assert PollEvents(t) == ends;
    }
  }

  /** The data events carry the sent text, escaped. */
  lemma {:induction false} FollowDataIsEscaped(cursor: nat, rows: seq<Option<Row>>)
    ensures var r := Follow(cursor, rows); DataText(r.events) == EscapeNewlines(r.sent)
    decreases |rows|
  {
    if rows != [] {
      var t := Poll(cursor, rows[0]);
      PollEventsText(t);
      if t.end.None? {
        var rest := Follow(t.cursor, rows[1..]);
        FollowDataIsEscaped(t.cursor, rows[1..]);
        DataTextAppend(PollEvents(t), rest.events);
        EscapeAppend(Sent(t), rest.sent);
      }
    }
  }

  /** An end event appears only if the stream ended, and only as the last event. */
  predicate EndOnlyLast(events: seq<Event>, ended: bool) {
    forall k :: 0 <= k < |events| && events[k].End? ==> ended && k == |events| - 1
  }

  lemma DataThenEndOnlyLast(ev: seq<Event>, rest: seq<Event>, ended: bool)
    requires forall k :: 0 <= k < |ev| ==> ev[k].Data?
    requires EndOnlyLast(rest, ended)
    ensures EndOnlyLast(ev + rest, ended)
  {
    forall k | 0 <= k < |ev + rest| && (ev + rest)[k].End? ensures ended && k == |ev + rest| - 1 {
      if k >= |ev| {
        assert (ev + rest)[k] == rest[k - |ev|];
      }
    }
  }

  /** The stream has an end event only if it ended, and then that event is the last one. */
  lemma {:induction false} FollowEndIsLast(cursor: nat, rows: seq<Option<Row>>)
    ensures var r := Follow(cursor, rows); EndOnlyLast(r.events, r.ended)
    decreases |rows|
  {
    if rows != [] {
      var t := Poll(cursor, rows[0]);
      PollEventsText(t);
      if t.end.None? {
        var rest := Follow(t.cursor, rows[1..]);
        FollowEndIsLast(t.cursor, rows[1..]);
        DataThenEndOnlyLast(PollEvents(t), rest.events, rest.ended);
      }
    }
  }
}
