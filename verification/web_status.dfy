/**
  The list-building helpers of vpn_status_web.py: the live connection list,
  the user/status filter of the history view, the row selection of
  `clear_history` and the user list of the filter drop-down.

  The history rows are the ledger rows that vpn_session_history.py writes,
  read back column by column.
 */
module WebStatus {
  import opened Options
  import opened Text
  import opened Dicts
  import opened Seqs
  import opened SessionHistory

  // ---------------------------------------------------------------------------
  // parse_live_status

  /** One row of the live table: user, public IP without port, connected since. */
  datatype LiveConn = LiveConn(user: string, publicIp: string, connectedSince: string)

  function LiveOf(c: Conn): LiveConn {
    LiveConn(c.user, c.publicIp, c.start)
  }

  /**
    What one line of the status file adds to the live list: the same test and
    the same fields as the ledger's snapshot, without the tunnel address.
   */
  function LiveEntry(line: string): Option<LiveConn> {
    match ParseClientLine(Strip(line))
    case None => None
    case Some(c) => Some(LiveOf(c))
  }

  /** The live list: one entry per accepted line, in file order; no status file, no entries. */
  function LiveStatus(status: Option<seq<string>>): (live: seq<LiveConn>)
    ensures status.None? ==> live == []
    ensures status.Some? ==> |live| <= |status.value|
  {
    match status
    case None => []
    case Some(lines) => Gather(lines, LiveEntry)
  }

  method ParseLiveStatus(status: Option<seq<string>>) returns (sessions: seq<LiveConn>)
    ensures sessions == LiveStatus(status)
  {
    sessions := [];
    if status.None? {
      return;
    }
    var lines := status.value;
    var i := 0;
    while i < |lines|
      invariant 0 <= i <= |lines|
      invariant sessions == Gather(lines[..i], LiveEntry)
    {
      GatherStep(lines, i, LiveEntry);
      var line := Strip(lines[i]);
      if StartsWith(line, ClientListMarker) {
        var parts := Split(line, ',');
        if |parts| >= 8 {
          var cn := parts[1];
          var realAddr := parts[2];
          var ip := Split(realAddr, ':')[0];
          var connectedSince := parts[7];
          assert LiveEntry(lines[i]) == Some(LiveConn(cn, ip, connectedSince));
          sessions := sessions + [LiveConn(cn, ip, connectedSince)];
        } else {
          assert LiveEntry(lines[i]) == None;
        }
      } else {
        assert LiveEntry(lines[i]) == None;
      }
      i := i + 1;
    }
    assert lines[..|lines|] == lines;
  }

  /** Every session of the ledger's snapshot is shown in the live list. */
  lemma LiveShowsSnapshot(status: Option<seq<string>>, k: string)
    requires k in SnapshotOf(status).vals
    ensures LiveOf(SnapshotOf(status).vals[k]) in LiveStatus(status)
  {
    var lines := status.value;
    var c := SnapshotOf(status).vals[k];
    CollectFrom(lines, LineEntry, k);
    var i :| 0 <= i < |lines| && LineEntry(lines[i]) == Some((k, c));
    assert LiveEntry(lines[i]) == Some(LiveOf(c));
    GatherMember(lines, LiveEntry, LiveOf(c));
  }

  /** Every entry of the live list is a session of the ledger's snapshot. */
  lemma LiveInSnapshot(status: Option<seq<string>>, x: LiveConn)
    requires x in LiveStatus(status)
    ensures SessionId(x.user, x.connectedSince) in SnapshotOf(status).vals
  {
    var lines := status.value;
    GatherMember(lines, LiveEntry, x);
    var i :| 0 <= i < |lines| && LiveEntry(lines[i]) == Some(x);
    var c := ParseClientLine(Strip(lines[i])).value;
    assert LineEntry(lines[i]) == Some((SessionId(x.user, x.connectedSince), c));
    CollectMember(lines, LineEntry, SessionId(x.user, x.connectedSince));
  }

  /** The live list follows the file: the entries of the first lines come first. */
  lemma LiveInFileOrder(a: seq<string>, b: seq<string>)
    ensures LiveStatus(Some(a + b)) == LiveStatus(Some(a)) + LiveStatus(Some(b))
  {
    GatherConcat(a, b, LiveEntry);
  }

  /**
    A repeated line is listed twice, while the ledger's snapshot, a dict,
    keeps one session for it.
   */
  lemma LiveKeepsDuplicates(lines: seq<string>, line: string, c: Conn)
    requires ParseClientLine(Strip(line)) == Some(c)
    ensures LiveStatus(Some(lines + [line, line])) == LiveStatus(Some(lines)) + [LiveOf(c), LiveOf(c)]
    ensures Snapshot(lines + [line, line]) == Snapshot(lines + [line])
  {
    LiveRepeated(lines, line, c);
    SnapshotRepeated(lines, line, c);
  }

  lemma LiveRepeated(lines: seq<string>, line: string, c: Conn)
    requires ParseClientLine(Strip(line)) == Some(c)
    ensures Gather(lines + [line, line], LiveEntry) == Gather(lines, LiveEntry) + [LiveOf(c), LiveOf(c)]
  {
    var once := lines + [line];
    assert lines + [line, line] == once + [line];
    assert LiveEntry(line) == Some(LiveOf(c));
    GatherSnoc(lines, line, LiveEntry);
    GatherSnoc(once, line, LiveEntry);
  }

  lemma SnapshotRepeated(lines: seq<string>, line: string, c: Conn)
    requires ParseClientLine(Strip(line)) == Some(c)
    ensures Collect(lines + [line, line], LineEntry) == Collect(lines + [line], LineEntry)
  {
    var once := lines + [line];
    assert lines + [line, line] == once + [line];
    assert LineEntry(line) == Some((ConnId(c), c));
    CollectSnoc(lines, line, LineEntry, ConnId(c), c);
    CollectSnoc(once, line, LineEntry, ConnId(c), c);
    PutSame(Collect(once, LineEntry), ConnId(c), c);
  }

  // ---------------------------------------------------------------------------
  // parse_filter

  /** The three `continue` tests of the filter loop, negated: the row is kept. */
  predicate Kept(row: Row, username: string, status: string) {
    && !(username != "" && username != row.user)
    && !(status == "open" && row.end != "")
    && !(status == "closed" && row.end == "")
  }

  function KeepTest(username: string, status: string): Row -> bool {
    row => Kept(row, username, status)
  }

  /** The filtered history: the rows that pass, in history order. */
  function Filtered(history: seq<Row>, username: string, status: string): (r: seq<Row>)
    ensures |r| <= |history|
  {
    Select(history, KeepTest(username, status))
  }

  method ParseFilter(history: seq<Row>, username: string, status: string) returns (filtered: seq<Row>)
    ensures filtered == Filtered(history, username, status)
  {
    filtered := [];
    var i := 0;
    while i < |history|
      invariant 0 <= i <= |history|
      invariant filtered == Select(history[..i], KeepTest(username, status))
    {
      SelectStep(history, i, KeepTest(username, status));
      var row := history[i];
      i := i + 1;
      if username != "" && username != row.user {
        continue;
      }
      if status == "open" && row.end != "" {
        continue;
      }
      if status == "closed" && row.end == "" {
        continue;
      }
      filtered := filtered + [row];
    }
    assert history[..|history|] == history;
  }

  /**
    A row is shown iff it is in the history, belongs to the chosen user (when
    one is chosen), is open when only open sessions are asked for and closed
    when only closed ones are.
   */
  lemma FilterMeaning(history: seq<Row>, username: string, status: string, row: Row)
    ensures row in Filtered(history, username, status) <==>
      && row in history
      && (username != "" ==> row.user == username)
      && (status == "open" ==> row.end == "")
      && (status == "closed" ==> row.end != "")
  {
    SelectMember(history, KeepTest(username, status), row);
  }

  /** The filter only drops rows; the rest keep their order. */
  lemma FilterKeepsOrder(history: seq<Row>, username: string, status: string)
    ensures SubSeq(Filtered(history, username, status), history)
  {
    SelectSubSeq(history, KeepTest(username, status));
  }

  /** No user and no known status: the whole history is shown. */
  lemma FilterOff(history: seq<Row>, username: string, status: string)
    requires username == "" && status != "open" && status != "closed"
    ensures Filtered(history, username, status) == history
  {
    SelectAll(history, KeepTest(username, status));
  }

  /** "Only open" and "only closed" split the rows of a user between them. */
  lemma {:induction false} FilterOpenClosedSplit(history: seq<Row>, username: string)
    ensures |Filtered(history, username, "open")| + |Filtered(history, username, "closed")|
         == |Filtered(history, username, "")|
  {
    if |history| > 0 {
      FilterOpenClosedSplit(history[..|history| - 1], username);
    }
  }

  // ---------------------------------------------------------------------------
  // clear_history

  function NotSelected(ids: seq<string>): Row -> bool {
    row => RowId(row) !in ids
  }

  /**
    The data rows left in the ledger: none after a full reset (`None`),
    otherwise the rows whose `user|start` was not selected, in ledger order.
   */
  function Cleared(rows: seq<Row>, selected: Option<seq<string>>): (r: seq<Row>)
    ensures selected.None? ==> r == []
    ensures |r| <= |rows|
  {
    match selected
    case None => []
    case Some(ids) => Select(rows, NotSelected(ids))
  }

  method ClearHistory(rows: seq<Row>, selected: Option<seq<string>>) returns (written: seq<Row>)
    ensures written == Cleared(rows, selected)
  {
    written := [];
    if selected.None? {
      return;
    }
    var ids := selected.value;
    var i := 0;
    while i < |rows|
      invariant 0 <= i <= |rows|
      invariant written == Select(rows[..i], NotSelected(ids))
    {
      SelectStep(rows, i, NotSelected(ids));
      var row := rows[i];
      var sessionId := SessionId(row.user, row.start);
      if sessionId !in ids {
        written := written + [row];
      }
      i := i + 1;
    }
    assert rows[..|rows|] == rows;
  }

  /** A row survives iff its identity was not selected. */
  lemma ClearMeaning(rows: seq<Row>, ids: seq<string>, row: Row)
    ensures row in Cleared(rows, Some(ids)) <==> row in rows && RowId(row) !in ids
  {
    SelectMember(rows, NotSelected(ids), row);
  }

  /** The surviving rows keep their order. */
  lemma ClearKeepsOrder(rows: seq<Row>, ids: seq<string>)
    ensures SubSeq(Cleared(rows, Some(ids)), rows)
  {
    SelectSubSeq(rows, NotSelected(ids));
  }

  /** Deleting no identities, or identities no row has, leaves the ledger as it was. */
  lemma ClearUnknownIds(rows: seq<Row>, ids: seq<string>)
    requires forall i :: 0 <= i < |rows| ==> RowId(rows[i]) !in ids
    ensures Cleared(rows, Some(ids)) == rows
  {
    SelectAll(rows, NotSelected(ids));
  }

  /** Selecting every row's identity empties the ledger just as the full reset does. */
  lemma ClearAllIds(rows: seq<Row>, ids: seq<string>)
    requires forall i :: 0 <= i < |rows| ==> RowId(rows[i]) in ids
    ensures Cleared(rows, Some(ids)) == Cleared(rows, None)
  {
    SelectNone(rows, NotSelected(ids));
  }

  // ---------------------------------------------------------------------------
  // all_users

  predicate Ascending(xs: seq<string>) {
    forall i, j :: 0 <= i < j < |xs| ==> Less(xs[i], xs[j])
  }

  /** Add `u` to an ascending list without duplicates, at its place. */
  function InsertUser(xs: seq<string>, u: string): (r: seq<string>)
    requires Ascending(xs)
    ensures Ascending(r)
    ensures forall v :: v in r <==> v in xs || v == u
  {
    if |xs| == 0 then [u]
    else if u == xs[0] then xs
    else if Less(u, xs[0]) then
      assert forall j :: 0 < j < |xs| ==> Less(u, xs[j]) by {
        forall j | 0 < j < |xs| ensures Less(u, xs[j]) {
          LessTransitive(u, xs[0], xs[j]);
        }
      }
      [u] + xs
    else
      var rest := InsertUser(xs[1..], u);
      assert forall v :: v in xs <==> v == xs[0] || v in xs[1..] by {
        assert xs == [xs[0]] + xs[1..];
      }
      LessTotal(u, xs[0]);
      assert forall j :: 0 <= j < |rest| ==> Less(xs[0], rest[j]) by {
        forall j | 0 <= j < |rest| ensures Less(xs[0], rest[j]) {
          assert rest[j] in rest;
          if rest[j] != u {
            var t :| 0 <= t < |xs[1..]| && xs[1..][t] == rest[j];
            assert xs[t + 1] == rest[j];
          }
        }
      }
      [xs[0]] + rest
  }

  /**
    `sorted(set(row['user'] for row in history if row['user']))`: every
    non-empty user once, in ascending code-point order.
   */
  function AllUsers(history: seq<Row>): (users: seq<string>)
    ensures Ascending(users)
    ensures forall u :: u in users <==> u != "" && exists i :: 0 <= i < |history| && history[i].user == u
  {
    if |history| == 0 then []
    else
      var init := history[..|history| - 1];
      var last := history[|history| - 1];
      var users := AllUsers(init);
      assert forall i :: 0 <= i < |init| ==> init[i] == history[i];
      if last.user == "" then users else InsertUser(users, last.user)
  }

  /** An ascending list without duplicates is fixed by its elements: `AllUsers` is the only answer. */
  lemma {:induction false} AscendingUnique(xs: seq<string>, ys: seq<string>)
    requires Ascending(xs) && Ascending(ys)
    requires forall v :: v in xs <==> v in ys
    ensures xs == ys
  {
    if |xs| > 0 {
      assert xs[0] in xs;
    }
    if |ys| > 0 {
      assert ys[0] in ys;
    }
    if |xs| > 0 && |ys| > 0 {
      if xs[0] != ys[0] {
        var a := xs[0];
        var b := ys[0];
        assert a in ys && b in xs;
        var i :| 0 <= i < |ys| && ys[i] == a;
        var j :| 0 <= j < |xs| && xs[j] == b;
        LessAsymmetric(a, b);
      }
      forall v ensures v in xs[1..] <==> v in ys[1..] {
        assert xs == [xs[0]] + xs[1..] && ys == [ys[0]] + ys[1..];
        if v in xs[1..] {
          var i :| 0 <= i < |xs[1..]| && xs[1..][i] == v;
          assert xs[i + 1] == v;
          assert Less(xs[0], xs[i + 1]);
          LessIrreflexive(v);
          assert v in ys && v != ys[0];
        }
        if v in ys[1..] {
          var i :| 0 <= i < |ys[1..]| && ys[1..][i] == v;
          assert ys[i + 1] == v;
          assert Less(ys[0], ys[i + 1]);
          LessIrreflexive(v);
          assert v in xs && v != xs[0];
        }
      }
      AscendingUnique(xs[1..], ys[1..]);
      assert xs == [xs[0]] + xs[1..] && ys == [ys[0]] + ys[1..];
    }
  }
}
