/**
  What one run of the session reconciliation promises about the ledger it
  writes, stated over `SessionHistory.Reconcile`: which rows are kept, which
  are closed and how, where new sessions go, that identities are unique, and
  that a second run over the same snapshot changes nothing.
 */
module ReconcileProperties {
  import opened Options
  import opened Text
  import opened Dicts
  import opened Timestamp
  import opened SessionHistory

  /** The identities `user|start` of a sequence of rows, position by position. */
  function Ids(rows: seq<Row>): seq<string> {
    seq(|rows|, i requires 0 <= i < |rows| => RowId(rows[i]))
  }

  // ---------------------------------------------------------------------------
  // The status snapshot

  /** A line yields a connection exactly when it is a long enough `CLIENT_LIST,` line. */
  lemma ClientLineAccepted(line: string)
    ensures ParseClientLine(line).Some? <==> StartsWith(line, ClientListMarker) && |Split(line, ',')| >= 8
  {
  }

  /**
    A status line built from its fields reads back as the connection: the
    name, the address before the port, the virtual address and the start.
   */
  lemma {:induction false} ClientLineRoundTrip(fields: seq<string>, addr: string, port: string)
    requires |fields| >= 8 && fields[0] == "CLIENT_LIST"
    requires forall i :: 0 <= i < |fields| ==> ',' !in fields[i]
    requires fields[2] == addr + ":" + port && ':' !in addr
    ensures ParseClientLine(Join(fields, ',')) == Some(Conn(fields[1], addr, fields[3], fields[7]))
  {
    var line := Join(fields, ',');
    SplitJoin(fields, ',');
    assert fields == [fields[0]] + fields[1..];
    assert line == fields[0] + [','] + Join(fields[1..], ',');
    assert line[..|ClientListMarker|] == ClientListMarker;
    IndexOfSeparator(addr, ':', port);
    assert fields[2][..|addr|] == addr;
  }

  /** The identity of a connection is in the snapshot iff some line yields it. */
  lemma SnapshotMember(lines: seq<string>, k: string)
    ensures k in Snapshot(lines).vals <==>
      exists i :: 0 <= i < |lines| && ParseClientLine(Strip(lines[i])).Some?
                  && ConnId(ParseClientLine(Strip(lines[i])).value) == k
  {
    CollectMember(lines, LineEntry, k);
  }

  /** A later line with the same identity overwrites an earlier one: the last one wins. */
  lemma SnapshotLast(lines: seq<string>, i: nat, c: Conn)
    requires i < |lines| && ParseClientLine(Strip(lines[i])) == Some(c)
    requires forall j :: i < j < |lines| && ParseClientLine(Strip(lines[j])).Some?
               ==> ConnId(ParseClientLine(Strip(lines[j])).value) != ConnId(c)
    ensures ConnId(c) in Snapshot(lines).vals && Snapshot(lines).vals[ConnId(c)] == c
  {
    CollectLast(lines, LineEntry, i);
  }

  /** A line that is not a valid client line leaves the snapshot as it is. */
  lemma MalformedLineIgnored(a: seq<string>, bad: string, b: seq<string>)
    requires ParseClientLine(Strip(bad)).None?
    ensures Snapshot(a + [bad] + b) == Snapshot(a + b)
  {
    CollectSkip(a, bad, b, LineEntry);
  }

  // ---------------------------------------------------------------------------
  // The prior index

  /** An identity is in the prior index iff some ledger row carries it. */
  lemma PriorIndexMember(rows: seq<Row>, k: string)
    ensures k in PriorIndex(rows).vals <==> exists i :: 0 <= i < |rows| && RowId(rows[i]) == k
  {
    CollectMember(rows, RowEntry, k);
  }

  /** Of several ledger rows with one identity, the index keeps the last. */
  lemma PriorIndexLast(rows: seq<Row>, i: nat)
    requires i < |rows|
    requires forall j :: i < j < |rows| ==> RowId(rows[j]) != RowId(rows[i])
    ensures RowId(rows[i]) in PriorIndex(rows).vals && PriorIndex(rows).vals[RowId(rows[i])] == rows[i]
  {
    CollectLast(rows, RowEntry, i);
  }

  /** A ledger without repeated identities is indexed in its own order. */
  lemma PriorIndexDistinct(rows: seq<Row>)
    requires Distinct(Ids(rows))
    ensures PriorIndex(rows).keys == Ids(rows)
    ensures forall i :: 0 <= i < |rows| ==>
      RowId(rows[i]) in PriorIndex(rows).vals && PriorIndex(rows).vals[RowId(rows[i])] == rows[i]
  {
    assert forall i :: 0 <= i < |rows| ==> RowEntry(rows[i]).value.0 == Ids(rows)[i];
    CollectDistinct(rows, RowEntry);
    forall i | 0 <= i < |rows|
      ensures RowId(rows[i]) in PriorIndex(rows).vals && PriorIndex(rows).vals[RowId(rows[i])] == rows[i]
    {
      assert forall j :: i < j < |rows| ==> Ids(rows)[i] != Ids(rows)[j];
      PriorIndexLast(rows, i);
    }
  }

  // ---------------------------------------------------------------------------
  // The rows opened for new sessions

  /** Every identity that is not known gets a row. */
  lemma {:induction false} OpenedMember(ids: seq<string>, known: map<string, Row>, current: map<string, Conn>)
    requires forall i :: 0 <= i < |ids| ==> ids[i] in current
    requires forall k :: k in current ==> ConnId(current[k]) == k
    ensures forall i :: 0 <= i < |ids| && ids[i] !in known ==> ids[i] in Ids(Opened(ids, known, current))
  {
    if |ids| > 0 {
      var n := |ids| - 1;
      var init := ids[..n];
      var before := Opened(init, known, current);
      var out := Opened(ids, known, current);
      OpenedMember(init, known, current);
      assert out == before + (if ids[n] in known then [] else [NewRow(current[ids[n]])]);
      forall i | 0 <= i < |ids| && ids[i] !in known ensures ids[i] in Ids(out) {
        if i < n {
          assert init[i] == ids[i];
          var p :| 0 <= p < |before| && Ids(before)[p] == ids[i];
          assert Ids(out)[p] == ids[i];
        } else {
          assert Ids(out)[|out| - 1] == ids[n];
        }
      }
    }
  }

  /** Rows are opened in the order of the identities. */
  lemma {:induction false} OpenedOrder(ids: seq<string>, known: map<string, Row>, current: map<string, Conn>, i: nat, j: nat)
    requires forall t :: 0 <= t < |ids| ==> ids[t] in current
    requires forall k :: k in current ==> ConnId(current[k]) == k
    requires i < j < |ids| && ids[i] !in known && ids[j] !in known
    ensures exists p, q :: (0 <= p < q < |Opened(ids, known, current)|
      && Ids(Opened(ids, known, current))[p] == ids[i]
      && Ids(Opened(ids, known, current))[q] == ids[j])
  {
    var n := |ids| - 1;
    var init := ids[..n];
    var before := Opened(init, known, current);
    var out := Opened(ids, known, current);
    assert init[i] == ids[i];
    if j == n {
      OpenedMember(init, known, current);
      var p :| 0 <= p < |before| && Ids(before)[p] == ids[i];
      assert Ids(out)[p] == ids[i];
      assert Ids(out)[|out| - 1] == ids[j];
    } else {
      assert init[j] == ids[j];
      OpenedOrder(init, known, current, i, j);
      var p, q :| 0 <= p < q < |before| && Ids(before)[p] == ids[i] && Ids(before)[q] == ids[j];
      assert Ids(out)[p] == ids[i] && Ids(out)[q] == ids[j];
    }
  }

  /** When every identity is known, nothing is added. */
  lemma {:induction false} OpenedAllKnown(ids: seq<string>, known: map<string, Row>, current: map<string, Conn>)
    requires forall i :: 0 <= i < |ids| ==> ids[i] in current && ids[i] in known
    ensures Opened(ids, known, current) == []
  {
    if |ids| > 0 {
      OpenedAllKnown(ids[..|ids| - 1], known, current);
    }
  }

  /**
    Opened rows carry distinct identities, none of them known, and each is
    the open row of the connection with its identity.
   */
  lemma {:induction false} OpenedIds(ids: seq<string>, known: map<string, Row>, current: map<string, Conn>)
    requires forall i :: 0 <= i < |ids| ==> ids[i] in current
    requires forall k :: k in current ==> ConnId(current[k]) == k
    requires Distinct(ids)
    ensures Distinct(Ids(Opened(ids, known, current)))
    ensures forall p :: 0 <= p < |Opened(ids, known, current)| ==>
      && RowId(Opened(ids, known, current)[p]) in ids
      && RowId(Opened(ids, known, current)[p]) !in known
      && Opened(ids, known, current)[p] == NewRow(current[RowId(Opened(ids, known, current)[p])])
  {
    if |ids| > 0 {
      var n := |ids| - 1;
      var init := ids[..n];
      var before := Opened(init, known, current);
      var out := Opened(ids, known, current);
      assert forall t :: 0 <= t < n ==> init[t] == ids[t];
      OpenedIds(init, known, current);
      forall p | 0 <= p < |before| ensures RowId(before[p]) in ids && RowId(before[p]) != ids[n] {
        var t :| 0 <= t < n && init[t] == RowId(before[p]);
        assert ids[t] == init[t];
      }
      if ids[n] in known {
        assert out == before;
      } else {
        assert out == before + [NewRow(current[ids[n]])];
        assert RowId(out[|before|]) == ids[n];
        forall p, q | 0 <= p < q < |out| ensures Ids(out)[p] != Ids(out)[q] {
          assert Ids(out)[p] == RowId(before[p]);
          if q < |before| {
            assert Ids(out)[q] == Ids(before)[q];
            assert Ids(before)[p] != Ids(before)[q];
          }
        }
        forall p | 0 <= p < |out|
          ensures RowId(out[p]) in ids && RowId(out[p]) !in known && out[p] == NewRow(current[RowId(out[p])])
        {
          if p < |before| {
            assert out[p] == before[p];
          }
        }
      }
    }
  }

  /** The prior rows carry the identities they are stored under, in index order. */
  lemma CarryOverIds(ids: seq<string>, prev: map<string, Row>, current: map<string, Conn>, nowStr: string, parse: TimeParser)
    requires forall i :: 0 <= i < |ids| ==> ids[i] in prev
    requires forall k :: k in prev ==> RowId(prev[k]) == k
    ensures Ids(CarryOver(ids, prev, current, nowStr, parse)) == ids
  {
  }

  lemma IdsConcat(xs: seq<Row>, ys: seq<Row>)
    ensures Ids(xs + ys) == Ids(xs) + Ids(ys)
  {
  }

  lemma DistinctConcat(a: seq<string>, b: seq<string>)
    requires Distinct(a) && Distinct(b)
    requires forall j :: 0 <= j < |b| ==> b[j] !in a
    ensures Distinct(a + b)
  {
    forall i, j | 0 <= i < j < |a + b| ensures (a + b)[i] != (a + b)[j] {
      if i < |a| && j >= |a| {
        assert (a + b)[j] == b[j - |a|];
        assert (a + b)[i] in a;
      }
    }
  }

  // ---------------------------------------------------------------------------
  // One run of the reconciliation, over the parsed snapshot and prior index

  /** A prior index: every row is stored under its own identity. */
  predicate IndexedRows(prev: Dict<string, Row>) {
    Valid(prev) && forall k :: k in prev.vals ==> RowId(prev.vals[k]) == k
  }

  /** A snapshot: every connection is stored under its own identity. */
  predicate IndexedConns(current: Dict<string, Conn>) {
    Valid(current) && forall k :: k in current.vals ==> ConnId(current.vals[k]) == k
  }

  /** A run merges the prior index of its ledger with the snapshot of its status file. */
  lemma ReconcileIsMerge(nowStr: string, status: Option<seq<string>>, ledger: Option<seq<Row>>, parse: TimeParser)
    ensures IndexedRows(PriorIndexOf(ledger)) && IndexedConns(SnapshotOf(status))
    ensures Reconcile(nowStr, status, ledger, parse) == Merge(PriorIndexOf(ledger), SnapshotOf(status), nowStr, parse)
  {
  }

  /** The rows of a merge: the prior rows in index order, then the added ones. */
  lemma MergeShape(prev: Dict<string, Row>, current: Dict<string, Conn>, nowStr: string, parse: TimeParser)
    requires IndexedRows(prev) && IndexedConns(current)
    ensures var out := Merge(prev, current, nowStr, parse);
            var added := Opened(current.keys, prev.vals, current.vals);
            && |out| == |prev.keys| + |added|
            && (forall i :: 0 <= i < |prev.keys| ==>
                  out[i] == Fate(prev.vals[prev.keys[i]], prev.keys[i], current.vals, nowStr, parse))
            && (forall p :: 0 <= p < |added| ==> out[|prev.keys| + p] == added[p])
  {
  }

  /** The identities of a merge: the prior keys, then distinct new ones. */
  lemma MergeIds(prev: Dict<string, Row>, current: Dict<string, Conn>, nowStr: string, parse: TimeParser)
    requires IndexedRows(prev) && IndexedConns(current)
    ensures var added := Opened(current.keys, prev.vals, current.vals);
            && Ids(Merge(prev, current, nowStr, parse)) == prev.keys + Ids(added)
            && Distinct(Ids(added))
            && (forall p :: 0 <= p < |added| ==> RowId(added[p]) in current.vals && RowId(added[p]) !in prev.vals)
  {
    var carried := CarryOver(prev.keys, prev.vals, current.vals, nowStr, parse);
    var added := Opened(current.keys, prev.vals, current.vals);
    CarryOverIds(prev.keys, prev.vals, current.vals, nowStr, parse);
    IdsConcat(carried, added);
    OpenedIds(current.keys, prev.vals, current.vals);
  }

  lemma MergeIdsDistinct(prev: Dict<string, Row>, current: Dict<string, Conn>, nowStr: string, parse: TimeParser)
    requires IndexedRows(prev) && IndexedConns(current)
    ensures Distinct(Ids(Merge(prev, current, nowStr, parse)))
  {
    var added := Opened(current.keys, prev.vals, current.vals);
    MergeIds(prev, current, nowStr, parse);
    forall j | 0 <= j < |Ids(added)| ensures Ids(added)[j] !in prev.keys {
      assert RowId(added[j]) !in prev.vals;
    }
    DistinctConcat(prev.keys, Ids(added));
  }

  lemma MergeIdsCover(prev: Dict<string, Row>, current: Dict<string, Conn>, nowStr: string, parse: TimeParser)
    requires IndexedRows(prev) && IndexedConns(current)
    ensures var ids := Ids(Merge(prev, current, nowStr, parse));
            && (forall p :: 0 <= p < |ids| ==> ids[p] in prev.vals || ids[p] in current.vals)
            && (forall k :: k in prev.vals ==> k in ids)
            && (forall k :: k in current.vals ==> k in ids)
  {
    MergeIdsOrigin(prev, current, nowStr, parse);
    MergeIdsHavePrior(prev, current, nowStr, parse);
    forall k | k in current.vals && k !in prev.vals ensures k in Ids(Merge(prev, current, nowStr, parse)) {
      var p := MergeNewSession(prev, current, nowStr, parse, k);
      assert Ids(Merge(prev, current, nowStr, parse))[p] == k;
    }
  }

  lemma MergeIdsOrigin(prev: Dict<string, Row>, current: Dict<string, Conn>, nowStr: string, parse: TimeParser)
    requires IndexedRows(prev) && IndexedConns(current)
    ensures var ids := Ids(Merge(prev, current, nowStr, parse));
            forall p :: 0 <= p < |ids| ==> ids[p] in prev.vals || ids[p] in current.vals
  {
    var added := Opened(current.keys, prev.vals, current.vals);
    var ids := Ids(Merge(prev, current, nowStr, parse));
    var m := |prev.keys|;
    MergeIds(prev, current, nowStr, parse);
    forall p | 0 <= p < |ids| ensures ids[p] in prev.vals || ids[p] in current.vals {
      if p >= m {
        assert ids[p] == Ids(added)[p - m];
      }
    }
  }

  lemma MergeIdsHavePrior(prev: Dict<string, Row>, current: Dict<string, Conn>, nowStr: string, parse: TimeParser)
    requires IndexedRows(prev) && IndexedConns(current)
    ensures forall k :: k in prev.vals ==> k in Ids(Merge(prev, current, nowStr, parse))
  {
    var ids := Ids(Merge(prev, current, nowStr, parse));
    MergeIds(prev, current, nowStr, parse);
    forall k | k in prev.vals ensures k in ids {
      var i :| 0 <= i < |prev.keys| && prev.keys[i] == k;
      assert ids[i] == k;
    }
  }

  /** Two rows of a merge with one identity are the same row. */
  lemma MergeUnique(prev: Dict<string, Row>, current: Dict<string, Conn>, nowStr: string, parse: TimeParser, p: nat, r: Row)
    requires IndexedRows(prev) && IndexedConns(current)
    requires p < |Merge(prev, current, nowStr, parse)|
    requires r in Merge(prev, current, nowStr, parse) && RowId(r) == RowId(Merge(prev, current, nowStr, parse)[p])
    ensures r == Merge(prev, current, nowStr, parse)[p]
  {
    var out := Merge(prev, current, nowStr, parse);
    MergeIdsDistinct(prev, current, nowStr, parse);
    var s :| 0 <= s < |out| && out[s] == r;
    assert Ids(out)[s] == Ids(out)[p];
  }

  // ---------------------------------------------------------------------------
  // One run of the reconciliation, from the files

  /** Every row a run writes carries a distinct identity. */
  lemma ReconcileIdsDistinct(nowStr: string, status: Option<seq<string>>, ledger: Option<seq<Row>>, parse: TimeParser)
    ensures Distinct(Ids(Reconcile(nowStr, status, ledger, parse)))
  {
    ReconcileIsMerge(nowStr, status, ledger, parse);
    MergeIdsDistinct(PriorIndexOf(ledger), SnapshotOf(status), nowStr, parse);
  }

  /** The identities a run writes are exactly those of the ledger and of the snapshot. */
  lemma ReconcileIdsCover(nowStr: string, status: Option<seq<string>>, ledger: Option<seq<Row>>, parse: TimeParser)
    ensures var ids := Ids(Reconcile(nowStr, status, ledger, parse));
            && (forall p :: 0 <= p < |ids| ==> ids[p] in PriorIndexOf(ledger).vals || ids[p] in SnapshotOf(status).vals)
            && (forall k :: k in PriorIndexOf(ledger).vals ==> k in ids)
            && (forall k :: k in SnapshotOf(status).vals ==> k in ids)
  {
    ReconcileIsMerge(nowStr, status, ledger, parse);
    MergeIdsCover(PriorIndexOf(ledger), SnapshotOf(status), nowStr, parse);
  }

  /**
    The row a run writes for a prior identity: kept when it is closed or its
    connection is still listed, closed at `nowStr` otherwise, and it is the
    only output row with that identity.
   */
  lemma ReconcilePriorRow(nowStr: string, status: Option<seq<string>>, ledger: Option<seq<Row>>, parse: TimeParser, k: string)
    requires k in PriorIndexOf(ledger).vals
    ensures var row := PriorIndexOf(ledger).vals[k];
            var out := Reconcile(nowStr, status, ledger, parse);
            var kept := row.end != "" || k in SnapshotOf(status).vals;
            var written := if kept then row else Close(row, nowStr, parse);
            && written in out
            && (forall r :: r in out && RowId(r) == k ==> r == written)
  {
    var prev := PriorIndexOf(ledger);
    var current := SnapshotOf(status);
    ReconcileIsMerge(nowStr, status, ledger, parse);
    MergeShape(prev, current, nowStr, parse);
    var out := Merge(prev, current, nowStr, parse);
    var i :| 0 <= i < |prev.keys| && prev.keys[i] == k;
    assert RowId(out[i]) == k;
    forall r | r in out && RowId(r) == k ensures r == out[i] {
      MergeUnique(prev, current, nowStr, parse, i, r);
    }
  }

  /** A session first seen now is written once, as an open row, after every prior row. */
  lemma NewSessionAppended(nowStr: string, status: Option<seq<string>>, ledger: Option<seq<Row>>, parse: TimeParser, k: string)
    requires k in SnapshotOf(status).vals && k !in PriorIndexOf(ledger).vals
    ensures var out := Reconcile(nowStr, status, ledger, parse);
            var c := SnapshotOf(status).vals[k];
            var row := NewRow(c);
            && row == Row(c.user, c.publicIp, c.tunnelIp, c.start, "", "")
            && (exists p :: |PriorIndexOf(ledger).keys| <= p < |out| && out[p] == row)
            && (forall r :: r in out && RowId(r) == k ==> r == row)
  {
    var prev := PriorIndexOf(ledger);
    var current := SnapshotOf(status);
    ReconcileIsMerge(nowStr, status, ledger, parse);
    var p := MergeNewSession(prev, current, nowStr, parse, k);
    var out := Merge(prev, current, nowStr, parse);
    forall r | r in out && RowId(r) == k ensures r == out[p] {
      MergeUnique(prev, current, nowStr, parse, p, r);
    }
  }

  /** New sessions are appended in the order the status file lists them. */
  lemma NewSessionsInOrder(nowStr: string, status: Option<seq<string>>, ledger: Option<seq<Row>>, parse: TimeParser, i: nat, j: nat)
    requires i < j < |SnapshotOf(status).keys|
    requires SnapshotOf(status).keys[i] !in PriorIndexOf(ledger).vals
    requires SnapshotOf(status).keys[j] !in PriorIndexOf(ledger).vals
    ensures var current := SnapshotOf(status);
            var out := Reconcile(nowStr, status, ledger, parse);
            exists p, q :: (|PriorIndexOf(ledger).keys| <= p < q < |out|
              && out[p] == NewRow(current.vals[current.keys[i]])
              && out[q] == NewRow(current.vals[current.keys[j]]))
  {
    ReconcileIsMerge(nowStr, status, ledger, parse);
    MergeNewInOrder(PriorIndexOf(ledger), SnapshotOf(status), nowStr, parse, i, j);
  }

  /** The added row at position `p` sits at `|prev.keys| + p` of the merge. */
  lemma MergeAddedAt(prev: Dict<string, Row>, current: Dict<string, Conn>, nowStr: string, parse: TimeParser, p: nat)
    requires IndexedRows(prev) && IndexedConns(current)
    requires p < |Opened(current.keys, prev.vals, current.vals)|
    ensures |prev.keys| + p < |Merge(prev, current, nowStr, parse)|
    ensures Merge(prev, current, nowStr, parse)[|prev.keys| + p] == Opened(current.keys, prev.vals, current.vals)[p]
  {
  }

  /** A connection the prior index lacks is added to a merge as an open row. */
  lemma MergeNewSession(prev: Dict<string, Row>, current: Dict<string, Conn>, nowStr: string, parse: TimeParser, k: string) returns (p: nat)
    requires IndexedRows(prev) && IndexedConns(current)
    requires k in current.vals && k !in prev.vals
    ensures |prev.keys| <= p < |Merge(prev, current, nowStr, parse)|
    ensures Merge(prev, current, nowStr, parse)[p] == NewRow(current.vals[k])
    ensures RowId(Merge(prev, current, nowStr, parse)[p]) == k
  {
    var added := Opened(current.keys, prev.vals, current.vals);
    var t :| 0 <= t < |current.keys| && current.keys[t] == k;
    OpenedMember(current.keys, prev.vals, current.vals);
    assert k in Ids(added);
    var q :| 0 <= q < |Ids(added)| && Ids(added)[q] == k;
    OpenedRowAt(current.keys, prev.vals, current.vals, q);
    MergeAddedAt(prev, current, nowStr, parse, q);
    p := |prev.keys| + q;
  }

  /** An added row is the open row of the connection with its identity. */
  lemma OpenedRowAt(ids: seq<string>, known: map<string, Row>, current: map<string, Conn>, p: nat)
    requires forall i :: 0 <= i < |ids| ==> ids[i] in current
    requires forall k :: k in current ==> ConnId(current[k]) == k
    requires Distinct(ids)
    requires p < |Opened(ids, known, current)|
    ensures RowId(Opened(ids, known, current)[p]) in current
    ensures Opened(ids, known, current)[p] == NewRow(current[Ids(Opened(ids, known, current))[p]])
  {
    OpenedIds(ids, known, current);
  }

  lemma MergeNewInOrder(prev: Dict<string, Row>, current: Dict<string, Conn>, nowStr: string, parse: TimeParser, i: nat, j: nat)
    requires IndexedRows(prev) && IndexedConns(current)
    requires i < j < |current.keys| && current.keys[i] !in prev.vals && current.keys[j] !in prev.vals
    ensures var out := Merge(prev, current, nowStr, parse);
            exists p, q :: (|prev.keys| <= p < q < |out|
              && out[p] == NewRow(current.vals[current.keys[i]])
              && out[q] == NewRow(current.vals[current.keys[j]]))
  {
    var added := Opened(current.keys, prev.vals, current.vals);
    var m := |prev.keys|;
    OpenedOrder(current.keys, prev.vals, current.vals, i, j);
    var p, q :| 0 <= p < q < |added| && Ids(added)[p] == current.keys[i] && Ids(added)[q] == current.keys[j];
    OpenedRowAt(current.keys, prev.vals, current.vals, p);
    OpenedRowAt(current.keys, prev.vals, current.vals, q);
    MergeAddedAt(prev, current, nowStr, parse, p);
    MergeAddedAt(prev, current, nowStr, parse, q);
    assert m <= m + p < m + q;
  }

  /** A ledger row that is already closed is written back unchanged. */
  lemma ClosedRowKept(nowStr: string, status: Option<seq<string>>, rows: seq<Row>, parse: TimeParser, i: nat)
    requires i < |rows| && rows[i].end != ""
    requires forall j :: i < j < |rows| ==> RowId(rows[j]) != RowId(rows[i])
    ensures rows[i] in Reconcile(nowStr, status, Some(rows), parse)
  {
    PriorIndexLast(rows, i);
    ReconcilePriorRow(nowStr, status, Some(rows), parse, RowId(rows[i]));
  }

  /** An open ledger row whose connection is still listed is written back unchanged. */
  lemma OpenListedRowKept(nowStr: string, status: Option<seq<string>>, rows: seq<Row>, parse: TimeParser, i: nat)
    requires i < |rows| && rows[i].end == "" && RowId(rows[i]) in SnapshotOf(status).vals
    requires forall j :: i < j < |rows| ==> RowId(rows[j]) != RowId(rows[i])
    ensures rows[i] in Reconcile(nowStr, status, Some(rows), parse)
  {
    PriorIndexLast(rows, i);
    ReconcilePriorRow(nowStr, status, Some(rows), parse, RowId(rows[i]));
  }

  /**
    An open ledger row whose connection has vanished is written with
    `end = nowStr` and the duration text, its other fields unchanged, and it
    is the only row of its identity.
   */
  lemma VanishedRowClosed(nowStr: string, status: Option<seq<string>>, rows: seq<Row>, parse: TimeParser, i: nat)
    requires i < |rows| && rows[i].end == "" && RowId(rows[i]) !in SnapshotOf(status).vals
    requires forall j :: i < j < |rows| ==> RowId(rows[j]) != RowId(rows[i])
    ensures var out := Reconcile(nowStr, status, Some(rows), parse);
            var closed := rows[i].(end := nowStr, durationS := DurationText(rows[i].start, nowStr, parse));
            && closed in out
            && (forall r :: r in out && RowId(r) == RowId(rows[i]) ==> r == closed)
  {
    PriorIndexLast(rows, i);
    ReconcilePriorRow(nowStr, status, Some(rows), parse, RowId(rows[i]));
  }

  /** Without a status file every open row is closed (when `nowStr` is not empty). */
  lemma NoStatusClosesAll(nowStr: string, ledger: Option<seq<Row>>, parse: TimeParser)
    requires nowStr != ""
    ensures forall r :: r in Reconcile(nowStr, None, ledger, parse) ==> r.end != ""
  {
    var prev := PriorIndexOf(ledger);
    var current := SnapshotOf(None);
    ReconcileIsMerge(nowStr, None, ledger, parse);
    MergeShape(prev, current, nowStr, parse);
    var out := Merge(prev, current, nowStr, parse);
    assert |out| == |prev.keys|;
    forall r | r in out ensures r.end != "" {
      var p :| 0 <= p < |out| && out[p] == r;
    }
  }

  /** With a ledger free of repeated identities, prior rows keep their positions. */
  lemma PriorOrderKept(nowStr: string, status: Option<seq<string>>, rows: seq<Row>, parse: TimeParser)
    requires Distinct(Ids(rows))
    ensures var out := Reconcile(nowStr, status, Some(rows), parse);
            && |rows| <= |out|
            && (forall i :: 0 <= i < |rows| ==>
                  RowId(out[i]) == RowId(rows[i])
                  && out[i] == Fate(rows[i], RowId(rows[i]), SnapshotOf(status).vals, nowStr, parse))
  {
    PriorIndexDistinct(rows);
    ReconcileIsMerge(nowStr, status, Some(rows), parse);
    MergeShape(PriorIndex(rows), SnapshotOf(status), nowStr, parse);
  }

  // ---------------------------------------------------------------------------
  // Durations

  /**
    The duration text reads back as the whole seconds from start to end when
    both parse, and is empty otherwise; it is negative exactly when the end
    lies before the start.
   */
  lemma DurationTextMeaning(start: string, end: string, parse: TimeParser)
    ensures var t1 := parse(start);
            var t2 := parse(end);
            && (t1.Some? && t2.Some? ==>
                  && ParseInt(DurationText(start, end, parse)) == Some(Seconds(t2.value) - Seconds(t1.value))
                  && (ParseInt(DurationText(start, end, parse)).value < 0 <==> Before(t2.value, t1.value))
                  && (ParseInt(DurationText(start, end, parse)).value == 0 <==> t1.value == t2.value))
            && (t1.None? || t2.None? ==> DurationText(start, end, parse) == "")
  {
    var t1 := parse(start);
    var t2 := parse(end);
    if t1.Some? && t2.Some? {
      ParseIntOfIntToString(Seconds(t2.value) - Seconds(t1.value));
      SecondsOrder(t2.value, t1.value);
    }
  }

  /**
    With the parser of the session script, the duration between two written
    timestamps is the difference of their second counts.
   */
  lemma DurationOfIsoStamps(a: Stamp, b: Stamp, otherFormats: TimeParser)
    ensures DurationText(FormatIso(a), FormatIso(b), OpenvpnTime(otherFormats)) == IntToString(Seconds(b) - Seconds(a))
  {
  }

  // ---------------------------------------------------------------------------
  // Running again

  /** Closing twice at the same time is closing once. */
  lemma CloseIdempotent(row: Row, nowStr: string, parse: TimeParser)
    ensures Close(Close(row, nowStr, parse), nowStr, parse) == Close(row, nowStr, parse)
    ensures RowId(Close(row, nowStr, parse)) == RowId(row)
  {
  }

  /** Every row a merge writes is a fixed point of the next run's decision. */
  lemma MergeFateOfOutput(prev: Dict<string, Row>, current: Dict<string, Conn>, nowStr: string, parse: TimeParser, p: nat)
    requires IndexedRows(prev) && IndexedConns(current)
    requires p < |Merge(prev, current, nowStr, parse)|
    ensures var out := Merge(prev, current, nowStr, parse);
            Fate(out[p], RowId(out[p]), current.vals, nowStr, parse) == out[p]
  {
    var out := Merge(prev, current, nowStr, parse);
    var added := Opened(current.keys, prev.vals, current.vals);
    var m := |prev.keys|;
    MergeShape(prev, current, nowStr, parse);
    if p < m {
      var k := prev.keys[p];
      var row := prev.vals[k];
      assert RowId(row) == k;
      if row.end == "" && k !in current.vals {
        CloseIdempotent(row, nowStr, parse);
      }
    } else {
      OpenedIds(current.keys, prev.vals, current.vals);
      assert out[p] == added[p - m];
    }
  }

  /**
    Running again at the same time over the same snapshot, with the ledger
    just written, writes the same ledger.
   */
  lemma ReconcileIdempotent(nowStr: string, status: Option<seq<string>>, ledger: Option<seq<Row>>, parse: TimeParser)
    ensures var out := Reconcile(nowStr, status, ledger, parse);
            Reconcile(nowStr, status, Some(out), parse) == out
  {
    var out := Reconcile(nowStr, status, ledger, parse);
    ReconcileIsMerge(nowStr, status, ledger, parse);
    ReconcileIsMerge(nowStr, status, Some(out), parse);
    MergeAgain(PriorIndexOf(ledger), SnapshotOf(status), nowStr, parse);
  }

  /** Merging the index of a merge's output with the same snapshot gives that output again. */
  lemma MergeAgain(prev: Dict<string, Row>, current: Dict<string, Conn>, nowStr: string, parse: TimeParser)
    requires IndexedRows(prev) && IndexedConns(current)
    ensures var out := Merge(prev, current, nowStr, parse);
            Merge(PriorIndex(out), current, nowStr, parse) == out
  {
    var out := Merge(prev, current, nowStr, parse);
    MergeIdsDistinct(prev, current, nowStr, parse);
    PriorIndexDistinct(out);
    var prev2 := PriorIndex(out);
    MergeKnowsAll(prev, current, nowStr, parse);
    OpenedAllKnown(current.keys, prev2.vals, current.vals);
    MergeShape(prev2, current, nowStr, parse);
    var again := Merge(prev2, current, nowStr, parse);
    forall i | 0 <= i < |out| ensures again[i] == out[i] {
      assert prev2.keys[i] == RowId(out[i]);
      MergeFateOfOutput(prev, current, nowStr, parse, i);
    }
  }

  /** Every identity of the snapshot is in the index of a merge's output. */
  lemma MergeKnowsAll(prev: Dict<string, Row>, current: Dict<string, Conn>, nowStr: string, parse: TimeParser)
    requires IndexedRows(prev) && IndexedConns(current)
    ensures forall i :: 0 <= i < |current.keys| ==>
      current.keys[i] in current.vals && current.keys[i] in PriorIndex(Merge(prev, current, nowStr, parse)).vals
  {
    var out := Merge(prev, current, nowStr, parse);
    MergeIdsDistinct(prev, current, nowStr, parse);
    MergeIdsCover(prev, current, nowStr, parse);
    PriorIndexDistinct(out);
    forall i | 0 <= i < |current.keys| ensures current.keys[i] in PriorIndex(out).vals {
      var k := current.keys[i];
      assert k in current.vals;
      var p :| 0 <= p < |out| && Ids(out)[p] == k;
    }
  }

  /**
    A closure is final: a row closed by one run is written unchanged by any
    later run, whatever that run's time and snapshot.
   */
  lemma ClosedOnce(now1: string, now2: string, status1: Option<seq<string>>, status2: Option<seq<string>>,
                   ledger: Option<seq<Row>>, parse: TimeParser, k: string)
    requires now1 != ""
    requires k in PriorIndexOf(ledger).vals && PriorIndexOf(ledger).vals[k].end == ""
    requires k !in SnapshotOf(status1).vals
    ensures var closed := Close(PriorIndexOf(ledger).vals[k], now1, parse);
            var out1 := Reconcile(now1, status1, ledger, parse);
            && closed in out1
            && closed in Reconcile(now2, status2, Some(out1), parse)
  {
    var row := PriorIndexOf(ledger).vals[k];
    var closed := Close(row, now1, parse);
    var out1 := Reconcile(now1, status1, ledger, parse);
    ReconcilePriorRow(now1, status1, ledger, parse, k);
    ReconcileIdsDistinct(now1, status1, ledger, parse);
    var p :| 0 <= p < |out1| && out1[p] == closed;
    forall j | p < j < |out1| ensures RowId(out1[j]) != RowId(out1[p]) {
      assert Ids(out1)[j] != Ids(out1)[p];
    }
    ClosedRowKept(now2, status2, out1, parse, p);
  }

  // ---------------------------------------------------------------------------
  // Identities

  /** Names without `|` make `user|start` identify the pair. */
  lemma SessionIdInjective(u1: string, s1: string, u2: string, s2: string)
    requires '|' !in u1 && '|' !in u2
    requires SessionId(u1, s1) == SessionId(u2, s2)
    ensures u1 == u2 && s1 == s2
  {
    var id := SessionId(u1, s1);
    IndexOfSeparator(u1, '|', s1);
    IndexOfSeparator(u2, '|', s2);
    assert id[..|u1|] == u1 && id[..|u2|] == u2;
    assert id[|u1| + 1..] == s1 && id[|u2| + 1..] == s2;
  }
}
