/**
  The session reconciliation of vpn_session_history.py.

  Each run reads the OpenVPN status file (the connections active right now),
  reads the CSV ledger of earlier runs, and writes the ledger back in full:
  rows that are already closed stay as they are, open rows whose connection
  is still listed stay as they are, open rows whose connection has vanished
  are closed at `now`, and connections not yet in the ledger are appended as
  open rows.

  The files are transport only: the status file is its sequence of lines, the
  ledger the sequence of its data rows, and a file that does not exist is
  `None`. The current time arrives already formatted, as `nowStr`.
 */
module SessionHistory {
  import opened Options
  import opened Text
  import opened Dicts
  import opened Timestamp

  /** One connection of the status file: user, public IP, tunnel IP, start. */
  datatype Conn = Conn(user: string, publicIp: string, tunnelIp: string, start: string)

  /** One ledger row, the columns user,public_ip,tunnel_ip,start,end,duration_s. */
  datatype Row = Row(user: string, publicIp: string, tunnelIp: string, start: string, end: string, durationS: string)

  /** The session identity `user|start`. */
  function SessionId(user: string, start: string): string {
    user + "|" + start
  }

  function RowId(r: Row): string {
    SessionId(r.user, r.start)
  }

  function ConnId(c: Conn): string {
    SessionId(c.user, c.start)
  }

  const ClientListMarker: string := "CLIENT_LIST,"

  // ---------------------------------------------------------------------------
  // parse_status_log

  /**
    One stripped line of the status file: a `CLIENT_LIST,` line with at least
    eight comma-separated fields gives the common name (field 1), the real
    address up to its first colon (field 2), the virtual address (field 3)
    and the connected-since text (field 7); every other line gives nothing.
   */
  function ParseClientLine(line: string): Option<Conn> {
    if StartsWith(line, ClientListMarker) then
      var parts := Split(line, ',');
      if |parts| >= 8 then Some(Conn(parts[1], Split(parts[2], ':')[0], parts[3], parts[7]))
      else None
    else None
  }

  /** The assignment `sessions[session_id] = ...` one status line makes, if any. */
  function LineEntry(line: string): Option<(string, Conn)> {
    match ParseClientLine(Strip(line))
    case None => None
    case Some(c) => Some((ConnId(c), c))
  }

  /** The dict `parse_status_log` builds from the lines of the status file. */
  function Snapshot(lines: seq<string>): (d: Dict<string, Conn>)
    ensures Valid(d)
    ensures forall k :: k in d.vals ==> ConnId(d.vals[k]) == k
  {
    var d := Collect(lines, LineEntry);
    assert forall k :: k in d.vals ==> ConnId(d.vals[k]) == k by {
      forall k | k in d.vals ensures ConnId(d.vals[k]) == k {
        CollectFrom(lines, LineEntry, k);
      }
    }
    d
  }

  /** A missing status file means no active connections. */
  function SnapshotOf(status: Option<seq<string>>): (d: Dict<string, Conn>)
    ensures Valid(d)
    ensures forall k :: k in d.vals ==> ConnId(d.vals[k]) == k
    ensures status.None? ==> d.keys == [] && d.vals == map[]
  {
    match status
    case None => Empty()
    case Some(lines) => Snapshot(lines)
  }

  method ParseStatusLog(status: Option<seq<string>>) returns (sessions: Dict<string, Conn>)
    ensures sessions == SnapshotOf(status)
  {
    sessions := Empty();
    if status.None? {
      return;
    }
    var lines := status.value;
    var i := 0;
    while i < |lines|
      invariant 0 <= i <= |lines|
      invariant sessions == Collect(lines[..i], LineEntry)
    {
      ghost var before := sessions;
      CollectStep(lines, i, LineEntry);
      var line := Strip(lines[i]);
      if StartsWith(line, ClientListMarker) {
        var parts := Split(line, ',');
        if |parts| >= 8 {
          var cn := parts[1];
          var realAddr := parts[2];
          var tunnelIp := parts[3];
          var connectedSince := parts[7];
          var publicIp := Split(realAddr, ':')[0];
          var sessionId := SessionId(cn, connectedSince);
          sessions := Put(sessions, sessionId, Conn(cn, publicIp, tunnelIp, connectedSince));
        }
      }
      assert LineEntry(lines[i]).None? ==> sessions == before;
      assert LineEntry(lines[i]).Some? ==>
        sessions == Put(before, LineEntry(lines[i]).value.0, LineEntry(lines[i]).value.1);
      i := i + 1;
    }
    assert lines[..|lines|] == lines;
  }

  // ---------------------------------------------------------------------------
  // load_previous_sessions

  /** The assignment `prev[session_id] = row` one ledger row makes. */
  function RowEntry(row: Row): Option<(string, Row)> {
    Some((RowId(row), row))
  }

  /** The dict `load_previous_sessions` builds from the ledger rows. */
  function PriorIndex(rows: seq<Row>): (d: Dict<string, Row>)
    ensures Valid(d)
    ensures forall k :: k in d.vals ==> RowId(d.vals[k]) == k
  {
    var d := Collect(rows, RowEntry);
    assert forall k :: k in d.vals ==> RowId(d.vals[k]) == k by {
      forall k | k in d.vals ensures RowId(d.vals[k]) == k {
        CollectFrom(rows, RowEntry, k);
      }
    }
    d
  }

  /** A missing ledger means no earlier sessions. */
  function PriorIndexOf(ledger: Option<seq<Row>>): (d: Dict<string, Row>)
    ensures Valid(d)
    ensures forall k :: k in d.vals ==> RowId(d.vals[k]) == k
    ensures ledger.None? ==> d.keys == [] && d.vals == map[]
  {
    match ledger
    case None => Empty()
    case Some(rows) => PriorIndex(rows)
  }

  method LoadPreviousSessions(ledger: Option<seq<Row>>) returns (prev: Dict<string, Row>)
    ensures prev == PriorIndexOf(ledger)
  {
    prev := Empty();
    if ledger.None? {
      return;
    }
    var rows := ledger.value;
    var i := 0;
    while i < |rows|
      invariant 0 <= i <= |rows|
      invariant prev == PriorIndex(rows[..i])
    {
      assert rows[..i + 1][..i] == rows[..i];
      var row := rows[i];
      var sessionId := SessionId(row.user, row.start);
      prev := Put(prev, sessionId, row);
      i := i + 1;
    }
    assert rows[..|rows|] == rows;
  }

  // ---------------------------------------------------------------------------
  // main: the reconciliation

  /**
    `duration_s` of a row closed now: `int((t2 - t1).total_seconds())` written
    as decimal text when both timestamps parse, the empty string otherwise.
    Timestamps carry no microseconds, so the difference is a whole number of
    seconds and `int` does not round.
   */
  function DurationText(start: string, end: string, parse: TimeParser): string {
    var t1 := parse(start);
    var t2 := parse(end);
    if t1.Some? && t2.Some? then IntToString(Seconds(t2.value) - Seconds(t1.value)) else ""
  }

  /** An open row whose connection is gone, ended at `nowStr`. */
  function Close(row: Row, nowStr: string, parse: TimeParser): Row {
    row.(end := nowStr, durationS := DurationText(row.start, nowStr, parse))
  }

  /** What happens to the prior row stored under identity `id`. */
  function Fate(row: Row, id: string, current: map<string, Conn>, nowStr: string, parse: TimeParser): Row {
    if row.end != "" then row
    else if id in current then row
    else Close(row, nowStr, parse)
  }

  /** The first loop of `main`: one row per prior identity, in dict order. */
  function CarryOver(ids: seq<string>, prev: map<string, Row>, current: map<string, Conn>,
                     nowStr: string, parse: TimeParser): (out: seq<Row>)
    requires forall i :: 0 <= i < |ids| ==> ids[i] in prev
    ensures |out| == |ids|
  {
    seq(|ids|, i requires 0 <= i < |ids| => Fate(prev[ids[i]], ids[i], current, nowStr, parse))
  }

  /** The open row of a connection seen for the first time. */
  function NewRow(c: Conn): Row {
    Row(c.user, c.publicIp, c.tunnelIp, c.start, "", "")
  }

  /**
    The second loop of `main`: one open row for every identity of `ids` that
    `known` does not hold, in the order of `ids`.
   */
  function Opened(ids: seq<string>, known: map<string, Row>, current: map<string, Conn>): (out: seq<Row>)
    requires forall i :: 0 <= i < |ids| ==> ids[i] in current
    ensures |out| <= |ids|
  {
    if |ids| == 0 then []
    else
      var last := ids[|ids| - 1];
      Opened(ids[..|ids| - 1], known, current) + (if last in known then [] else [NewRow(current[last])])
  }

  /** Both loops of `main`: the prior rows in index order, then the new sessions. */
  function Merge(prev: Dict<string, Row>, current: Dict<string, Conn>, nowStr: string, parse: TimeParser): seq<Row>
    requires Valid(prev) && Valid(current)
  {
    CarryOver(prev.keys, prev.vals, current.vals, nowStr, parse)
      + Opened(current.keys, prev.vals, current.vals)
  }

  /** The ledger one run of `main` writes (after the header line). */
  function Reconcile(nowStr: string, status: Option<seq<string>>, ledger: Option<seq<Row>>,
                     parse: TimeParser): seq<Row>
  {
    Merge(PriorIndexOf(ledger), SnapshotOf(status), nowStr, parse)
  }

  /** `main` without the file I/O: the rows written after the header. */
  method UpdateLedger(nowStr: string, status: Option<seq<string>>, ledger: Option<seq<Row>>,
                      otherFormats: TimeParser) returns (newLog: seq<Row>)
    ensures newLog == Reconcile(nowStr, status, ledger, OpenvpnTime(otherFormats))
  {
    var sessions := ParseStatusLog(status);
    var prevSessions := LoadPreviousSessions(ledger);
    newLog := ReviewPriorSessions(nowStr, sessions, prevSessions, OpenvpnTime(otherFormats));
    newLog := AppendNewSessions(newLog, sessions, prevSessions);
  }

  /**
    The first loop of `main`: every prior row in dict order, kept, or closed
    at `nowStr` (the in-place update of `row['end']` and `row['duration_s']`)
    when it is open and its identity is not in the snapshot.
   */
  method ReviewPriorSessions(nowStr: string, sessions: Dict<string, Conn>, prevSessions: Dict<string, Row>,
                             parse: TimeParser) returns (newLog: seq<Row>)
    requires Valid(prevSessions)
    ensures newLog == CarryOver(prevSessions.keys, prevSessions.vals, sessions.vals, nowStr, parse)
  {
    newLog := [];
    var i := 0;
    while i < |prevSessions.keys|
      invariant 0 <= i <= |prevSessions.keys|
      invariant newLog == CarryOver(prevSessions.keys[..i], prevSessions.vals, sessions.vals, nowStr, parse)
    {
      var sessionId := prevSessions.keys[i];
      var row := prevSessions.vals[sessionId];
      assert prevSessions.keys[..i + 1] == prevSessions.keys[..i] + [sessionId];
      CarryOverSnoc(prevSessions.keys[..i], sessionId, prevSessions.vals, sessions.vals, nowStr, parse);
      if row.end != "" {
        newLog := newLog + [row];
      } else if sessionId in sessions.vals {
        newLog := newLog + [row];
      } else {
        var startTime := row.start;
        var endTime := nowStr;
        var t1 := parse(startTime);
        var t2 := parse(endTime);
        var duration := if t1.Some? && t2.Some? then IntToString(Seconds(t2.value) - Seconds(t1.value)) else "";
        row := row.(end := endTime, durationS := duration);
        newLog := newLog + [row];
      }
      i := i + 1;
    }
    assert prevSessions.keys[..|prevSessions.keys|] == prevSessions.keys;
  }

  /**
    The second loop of `main`: an open row for every snapshot identity the
    prior ledger does not hold, in snapshot order, after `carried`.
   */
  method AppendNewSessions(carried: seq<Row>, sessions: Dict<string, Conn>, prevSessions: Dict<string, Row>)
    returns (newLog: seq<Row>)
    requires Valid(sessions)
    ensures newLog == carried + Opened(sessions.keys, prevSessions.vals, sessions.vals)
  {
    newLog := carried;
    var j := 0;
    while j < |sessions.keys|
      invariant 0 <= j <= |sessions.keys|
      invariant newLog == carried + OpenedUpTo(sessions, j, prevSessions.vals)
    {
      var sessionId := sessions.keys[j];
      OpenedUpToStep(sessions, j, prevSessions.vals);
      if sessionId !in prevSessions.vals {
        var sess := sessions.vals[sessionId];
        newLog := newLog + [Row(sess.user, sess.publicIp, sess.tunnelIp, sess.start, "", "")];
      }
      j := j + 1;
    }
    assert sessions.keys[..|sessions.keys|] == sessions.keys;
  }

  /** The rows the second loop has added after its first `j` identities. */
  ghost function OpenedUpTo(sessions: Dict<string, Conn>, j: nat, known: map<string, Row>): seq<Row>
    requires Valid(sessions) && j <= |sessions.keys|
  {
    Opened(sessions.keys[..j], known, sessions.vals)
  }

  /** One more identity of the loop: an open row unless the prior ledger knows it. */
  lemma OpenedUpToStep(sessions: Dict<string, Conn>, j: nat, known: map<string, Row>)
    requires Valid(sessions) && j < |sessions.keys|
    ensures sessions.keys[j] in sessions.vals
    ensures OpenedUpTo(sessions, j + 1, known) == OpenedUpTo(sessions, j, known)
      + (if sessions.keys[j] in known then [] else [NewRow(sessions.vals[sessions.keys[j]])])
  {
    assert sessions.keys[..j + 1][..j] == sessions.keys[..j];
  }

  lemma CarryOverSnoc(ids: seq<string>, id: string, prev: map<string, Row>, current: map<string, Conn>,
                      nowStr: string, parse: TimeParser)
    requires forall i :: 0 <= i < |ids| ==> ids[i] in prev
    requires id in prev
    ensures CarryOver(ids + [id], prev, current, nowStr, parse)
      == CarryOver(ids, prev, current, nowStr, parse) + [Fate(prev[id], id, current, nowStr, parse)]
  {
  }
}
