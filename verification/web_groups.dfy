/**
  `group_history_by_user_day` of vpn_status_web.py: the history view shows
  one line per user and calendar day, the session started last in front and
  the day's other sessions folded away under it.
 */
module WebGroups {
  import opened Options
  import opened Text
  import opened Dicts
  import opened Seqs
  import opened Timestamp
  import opened SessionHistory

  /** One line of the history view. */
  datatype Group = Group(user: string, tag: string, latest: Row, others: seq<Row>)

  /** The rows of a group, the latest first. */
  function Members(g: Group): seq<Row> {
    [g.latest] + g.others
  }

  const UnknownDay: string := "unbekannt"

  /** The day a session started on as YYYY-MM-DD, or "unbekannt" when its start does not parse. */
  function DayTag(start: string, parse: TimeParser): string {
    match parse(start)
    case None => UnknownDay
    case Some(d) => FormatDate(d)
  }

  function GroupKey(row: Row, parse: TimeParser): (string, string) {
    (row.user, DayTag(row.start, parse))
  }

  function KeyOf(parse: TimeParser): Row -> (string, string) {
    row => GroupKey(row, parse)
  }

  /** The sort key of rows: the start column, compared as text. */
  function StartOf(row: Row): string {
    row.start
  }

  /** The sort key of groups: the start of their latest session. */
  function LatestStart(g: Group): string {
    g.latest.start
  }

  /** One entry of `grouped`: the rows of a key sorted newest first, split into latest and others. */
  function MakeGroup(key: (string, string), rows: seq<Row>): Group
    requires |rows| >= 1
  {
    var sorted := SortDesc(rows, StartOf);
    Group(key.0, key.1, sorted[0], sorted[1..])
  }

  /** The groups in the order their keys first occurred, before the final sort. */
  function Unsorted(groups: Dict<(string, string), seq<Row>>): (r: seq<Group>)
    requires Valid(groups)
    requires forall k :: k in groups.vals ==> |groups.vals[k]| >= 1
    ensures |r| == |groups.keys|
  {
    seq(|groups.keys|, i requires 0 <= i < |groups.keys| => MakeGroup(groups.keys[i], groups.vals[groups.keys[i]]))
  }

  function Groups(history: seq<Row>, parse: TimeParser): (d: Dict<(string, string), seq<Row>>)
    ensures Valid(d)
    ensures forall k :: k in d.vals ==> |d.vals[k]| >= 1
  {
    var d := GroupBy(history, KeyOf(parse));
    assert forall k :: k in d.vals ==> |d.vals[k]| >= 1 by {
      forall k | k in d.vals ensures |d.vals[k]| >= 1 {
        GroupByNonEmpty(history, KeyOf(parse), k);
      }
    }
    d
  }

  /** The list the history view shows. */
  function GroupedHistory(history: seq<Row>, parse: TimeParser): seq<Group> {
    SortDesc(Unsorted(Groups(history, parse)), LatestStart)
  }

  lemma GroupStep(history: seq<Row>, i: nat, parse: TimeParser, key: (string, string))
    requires i < |history| && key == GroupKey(history[i], parse)
    ensures GroupBy(history[..i + 1], KeyOf(parse)) == Append(GroupBy(history[..i], KeyOf(parse)), key, history[i])
  {
    GroupByStep(history, i, KeyOf(parse));
  }

  /** The first loop: every row appended to the list of its user and day. */
  method GroupSessions(history: seq<Row>, parse: TimeParser) returns (groups: Dict<(string, string), seq<Row>>)
    ensures groups == GroupBy(history, KeyOf(parse))
  {
    groups := Empty();
    var i := 0;
    while i < |history|
      invariant 0 <= i <= |history|
      invariant groups == GroupBy(history[..i], KeyOf(parse))
    {
      var row := history[i];
      var dt := parse(row.start);
      var tag := if dt.Some? then FormatDate(dt.value) else UnknownDay;
      var key := (row.user, tag);
      GroupStep(history, i, parse, key);
      groups := Append(groups, key, row);
      i := i + 1;
    }
    assert history[..|history|] == history;
  }

  /** The second loop: one group per key, in the dict's key order. */
  method SummarizeGroups(groups: Dict<(string, string), seq<Row>>) returns (grouped: seq<Group>)
    requires Valid(groups)
    requires forall k :: k in groups.vals ==> |groups.vals[k]| >= 1
    ensures grouped == Unsorted(groups)
  {
    grouped := [];
    var j := 0;
    while j < |groups.keys|
      invariant 0 <= j <= |groups.keys|
      invariant grouped == Unsorted(groups)[..j]
    {
      var key := groups.keys[j];
      var rows := groups.vals[key];
      var sortedRows := SortDesc(rows, StartOf);
      var g := Group(key.0, key.1, sortedRows[0], sortedRows[1..]);
      assert g == Unsorted(groups)[j];
      assert Unsorted(groups)[..j + 1] == Unsorted(groups)[..j] + [g];
      grouped := grouped + [g];
      j := j + 1;
    }
    assert Unsorted(groups)[..j] == Unsorted(groups);
  }

  method GroupHistoryByUserDay(history: seq<Row>, otherFormats: TimeParser) returns (grouped: seq<Group>)
    ensures grouped == GroupedHistory(history, OpenvpnTime(otherFormats))
  {
    var groups := GroupSessions(history, OpenvpnTime(otherFormats));
    assert groups == Groups(history, OpenvpnTime(otherFormats));
    grouped := SummarizeGroups(groups);
    grouped := SortDesc(grouped, LatestStart);
  }

  // ---------------------------------------------------------------------------
  // What the view shows

  /** The groups are shown newest first, by the start of their latest session. */
  lemma GroupsNewestFirst(history: seq<Row>, parse: TimeParser)
    ensures Descending(GroupedHistory(history, parse), LatestStart)
  {
    SortDescSorted(Unsorted(Groups(history, parse)), LatestStart);
  }

  /** Each shown group is one of the unsorted groups. */
  lemma ShownGroupOrigin(history: seq<Row>, parse: TimeParser, p: nat) returns (i: nat)
    requires p < |GroupedHistory(history, parse)|
    ensures i < |Groups(history, parse).keys|
    ensures GroupedHistory(history, parse)[p] == Unsorted(Groups(history, parse))[i]
  {
    i := SortDescOrigin(Unsorted(Groups(history, parse)), LatestStart, p);
  }

  /** The rows behind a shown group: the group of its key, before sorting. */
  lemma GroupOrigin(history: seq<Row>, parse: TimeParser, p: nat) returns (rows: seq<Row>)
    requires p < |GroupedHistory(history, parse)|
    ensures var g := GroupedHistory(history, parse)[p];
      && rows == Select(history, HasKey(KeyOf(parse), (g.user, g.tag)))
      && Members(g) == SortDesc(rows, StartOf)
  {
    var d := Groups(history, parse);
    var i := ShownGroupOrigin(history, parse, p);
    var key := d.keys[i];
    var g := GroupedHistory(history, parse)[p];
    GroupByGroups(history, KeyOf(parse), key);
    rows := d.vals[key];
    assert g == MakeGroup(key, rows);
  }

  /** A group holds exactly the rows of its user and day, each as often as the history has it. */
  lemma GroupRows(history: seq<Row>, parse: TimeParser, p: nat)
    requires p < |GroupedHistory(history, parse)|
    ensures var g := GroupedHistory(history, parse)[p];
      multiset(Members(g)) == multiset(Select(history, HasKey(KeyOf(parse), (g.user, g.tag))))
  {
    var rows := GroupOrigin(history, parse, p);
  }

  /** The latest session comes first and the others follow newest first. */
  lemma GroupNewestFirst(history: seq<Row>, parse: TimeParser, p: nat)
    requires p < |GroupedHistory(history, parse)|
    ensures Descending(Members(GroupedHistory(history, parse)[p]), StartOf)
  {
    var rows := GroupOrigin(history, parse, p);
    SortDescSorted(rows, StartOf);
  }

  /** Sessions of a group with the same start keep their history order. */
  lemma GroupTiesInHistoryOrder(history: seq<Row>, parse: TimeParser, p: nat, s: string)
    requires p < |GroupedHistory(history, parse)|
    ensures var g := GroupedHistory(history, parse)[p];
      Select(Members(g), HasKey(StartOf, s))
        == Select(Select(history, HasKey(KeyOf(parse), (g.user, g.tag))), HasKey(StartOf, s))
  {
    var rows := GroupOrigin(history, parse, p);
    SortDescStable(rows, StartOf, s);
  }

  /** The latest session started no earlier than any other session of its group. */
  lemma LatestIsNewest(history: seq<Row>, parse: TimeParser, p: nat, r: Row)
    requires p < |GroupedHistory(history, parse)|
    requires r in GroupedHistory(history, parse)[p].others
    ensures LessEq(r.start, GroupedHistory(history, parse)[p].latest.start)
  {
    var g := GroupedHistory(history, parse)[p];
    GroupNewestFirst(history, parse, p);
    var k :| 0 <= k < |g.others| && g.others[k] == r;
    assert Members(g)[k + 1] == r && Members(g)[0] == g.latest;
  }

  /** No two shown groups have the same user and day. */
  lemma GroupKeysDistinct(history: seq<Row>, parse: TimeParser)
    ensures DistinctBy(GroupedHistory(history, parse), (g: Group) => (g.user, g.tag))
  {
    var d := Groups(history, parse);
    var u := Unsorted(d);
    var proj := (g: Group) => (g.user, g.tag);
    forall i, j | 0 <= i < j < |u| ensures proj(u[i]) != proj(u[j]) {
      assert proj(u[i]) == d.keys[i] && proj(u[j]) == d.keys[j];
    }
    SortDescDistinctBy(u, LatestStart, proj);
  }

  /** Every group of the dict is shown. */
  lemma KeyShown(history: seq<Row>, parse: TimeParser, i: nat) returns (p: nat)
    requires i < |Groups(history, parse).keys|
    ensures p < |GroupedHistory(history, parse)|
    ensures GroupedHistory(history, parse)[p] == Unsorted(Groups(history, parse))[i]
  {
    var u := Unsorted(Groups(history, parse));
    var out := GroupedHistory(history, parse);
    assert u[i] in multiset(u);
    assert u[i] in out;
    p :| 0 <= p < |out| && out[p] == u[i];
  }

  /** Every history row is shown, in the group of its user and day. */
  lemma EveryRowShown(history: seq<Row>, parse: TimeParser, k: nat) returns (p: nat)
    requires k < |history|
    ensures p < |GroupedHistory(history, parse)|
    ensures var g := GroupedHistory(history, parse)[p];
      (g.user, g.tag) == GroupKey(history[k], parse) && history[k] in Members(g)
  {
    var d := Groups(history, parse);
    var key := GroupKey(history[k], parse);
    assert KeyOf(parse)(history[k]) == key;
    GroupByGroups(history, KeyOf(parse), key);
    var i :| 0 <= i < |d.keys| && d.keys[i] == key;
    p := KeyShown(history, parse, i);
    var g := GroupedHistory(history, parse)[p];
    assert (g.user, g.tag) == key;
    GroupRows(history, parse, p);
    SelectMember(history, HasKey(KeyOf(parse), key), history[k]);
    assert history[k] in multiset(Members(g));
  }
}
