# OpenVPN session ledger — a Dafny model

This project models the two Python scripts of an OpenVPN session tracker.

`vpn_session_history.py` runs periodically, for example from cron. Each run does three things:

- It reads the server's status file. The `CLIENT_LIST,` lines are the connections active right now.
- It reads the CSV ledger of earlier runs, with columns `user,public_ip,tunnel_ip,start,end,duration_s`.
- It writes the ledger back in full:
  - closed rows stay as they are;
  - open rows whose connection is still listed stay as they are;
  - open rows whose connection has vanished get `end = now` and a duration in whole seconds;
  - connections not yet in the ledger are appended as open rows.

A session is identified by `user|start`.

`vpn_status_web.py` is the web view of the ledger. From it the model covers the live connection list, the user/status filter, the drop-down user list, the grouping of sessions by user and day, the human-readable duration, the row selection of "delete selected / delete all", and the 24 hourly counts behind the activity graph.

Modules:

| file | module | what it holds |
|---|---|---|
| options.dfy | `Options` | `Option` (Python's `None`) |
| text.dfy | `Text` | `str.strip`, `startswith`, `split`, `str(int)`, `int(str)`, string order |
| seqs.dfy | `Seqs` | list filtering, and the stable `sorted(..., reverse=True)` on a string key |
| dicts.dfy | `Dicts` | Python's insertion-ordered `dict` and `defaultdict(list)` |
| timestamp.dfy | `Timestamp` | `strptime` with the two formats; datetimes as second counts |
| session_history.dfy | `SessionHistory` | `parse_status_log`, `load_previous_sessions`, `main` |
| session_properties.dfy | `ReconcileProperties` | what one run, and two runs, promise about the ledger |
| web_status.dfy | `WebStatus` | `parse_live_status`, `parse_filter`, `clear_history`, `all_users` |
| web_duration.dfy | `WebDuration` | `human_duration` |
| web_groups.dfy | `WebGroups` | `group_history_by_user_day` |
| web_graph.dfy | `WebGraph` | the counting loop of `create_graph_img` |

Files are inputs. The status file is its sequence of lines, and the ledger is the sequence of its data rows. A file that does not exist is `None`.

A Python `dict` is modelled as a key list plus a map. This keeps dict semantics: a key keeps the position where it was first inserted, and its value is the last one assigned. This decides the result when the status file or the ledger repeats an identity.

Timestamps are modelled in two parts:

- `%Y-%m-%d %H:%M:%S` in its zero-padded fixed-width layout is parsed concretely. Its value is a second count computed like `date.toordinal()`.
- Everything else the two `strptime` attempts accept is a parameter, `otherFormats`. This covers the locale format `%a %b %d %H:%M:%S %Y` and the looser spellings of the ISO format (one-digit fields, runs of blanks).

## Model

| member | source | states |
|---|---|---|
| `Timestamp.ParseTime` | vpn_session_history.py:147-152 | the ISO layout is tried first and wins when it parses; otherwise the result is whatever the second format gives, `None` included |
| `Timestamp.ParseFormatIso` | vpn_session_history.py:178 | a time written with `strftime('%Y-%m-%d %H:%M:%S')` parses back to the same datetime |
| `Timestamp.FormatParseIso` | vpn_session_history.py:147-149 | any string the ISO layout accepts is exactly the formatted form of its value |
| `Timestamp.SecondsOrder` | vpn_session_history.py:204 | the second count orders datetimes exactly as Python compares them, so a duration is negative iff end precedes start and zero iff they are equal |
| `Timestamp.OpenvpnTime` | vpn_status_web.py:334-339 | `parse_dt` (and `parse_openvpn_time`) as a parser value under which every written timestamp reads back as itself |
| `SessionHistory.Snapshot` | vpn_session_history.py:63-84 | the snapshot dict is well formed and every connection is stored under its own identity (user, separator, start) |
| `SessionHistory.SnapshotOf` | vpn_session_history.py:57-58 | a missing status file gives an empty snapshot |
| `SessionHistory.ParseStatusLog` | vpn_session_history.py:55-84 | the loop builds exactly the snapshot dict: last write per identity, first position |
| `SessionHistory.PriorIndexOf` | vpn_session_history.py:101-102 | a missing ledger gives an empty prior index, and every row is stored under its own identity |
| `SessionHistory.LoadPreviousSessions` | vpn_session_history.py:99-109 | the loop builds exactly the prior index of the ledger rows |
| `SessionHistory.ReviewPriorSessions` | vpn_session_history.py:189-207 | the first loop of `main` yields, in dict order, each prior row kept or closed at `now_str` |
| `SessionHistory.AppendNewSessions` | vpn_session_history.py:211-220 | the second loop appends an open row for each snapshot identity not in the prior index, in snapshot order |
| `SessionHistory.UpdateLedger` | vpn_session_history.py:177-229 | `main` without file I/O writes exactly `Reconcile` of its inputs |
| `ReconcileProperties.ClientLineAccepted` | vpn_session_history.py:65-68 | a line yields a connection iff it starts with `CLIENT_LIST,` and splits into at least 8 fields |
| `ReconcileProperties.ClientLineRoundTrip` | vpn_session_history.py:69-83 | a client line built from fields reads back as field 1, field 2 before its first `:`, field 3 and field 7 |
| `ReconcileProperties.SnapshotMember` | vpn_session_history.py:63-83 | an identity is in the snapshot iff some line yields a connection with that identity |
| `ReconcileProperties.SnapshotLast` | vpn_session_history.py:76-83 | when an identity repeats, the last line with it wins |
| `ReconcileProperties.MalformedLineIgnored` | vpn_session_history.py:65-68 | inserting a line that is not a valid client line leaves the snapshot unchanged |
| `ReconcileProperties.PriorIndexMember` | vpn_session_history.py:105-108 | an identity is in the prior index iff some ledger row carries it |
| `ReconcileProperties.PriorIndexLast` | vpn_session_history.py:107-108 | of several ledger rows with one identity, the index keeps the last |
| `ReconcileProperties.PriorIndexDistinct` | vpn_session_history.py:105-108 | a ledger without repeated identities is indexed in its own order, row for row |
| `ReconcileProperties.ReconcileIdsDistinct` | vpn_session_history.py:189-220 | the written ledger has pairwise-distinct identities; duplicates in the old ledger collapse to one row |
| `ReconcileProperties.ReconcileIdsCover` | vpn_session_history.py:189-220 | the written identities are exactly those of the old ledger and those of the snapshot |
| `ReconcileProperties.ReconcilePriorRow` | vpn_session_history.py:190-207 | each prior identity is written once: unchanged when closed or still listed, otherwise closed at `now_str` |
| `ReconcileProperties.ClosedRowKept` | vpn_session_history.py:190-192 | a closed ledger row is written back with all fields unchanged, whatever the snapshot |
| `ReconcileProperties.OpenListedRowKept` | vpn_session_history.py:193-196 | an open row whose identity is still in the snapshot is written back unchanged |
| `ReconcileProperties.VanishedRowClosed` | vpn_session_history.py:197-207 | an open row whose identity vanished gets `end = now_str` and the duration text, other fields unchanged, and is the only row of its identity |
| `ReconcileProperties.NewSessionAppended` | vpn_session_history.py:211-220 | a snapshot identity absent from the prior index is written exactly once, as an open row with empty end and duration, after all prior rows |
| `ReconcileProperties.NewSessionsInOrder` | vpn_session_history.py:211-220 | new rows are appended in snapshot order |
| `ReconcileProperties.PriorOrderKept` | vpn_session_history.py:189-207 | with distinct identities, prior rows keep their positions at the front of the output |
| `ReconcileProperties.NoStatusClosesAll` | vpn_session_history.py:57-58 | without a status file, every row written is closed |
| `ReconcileProperties.DurationTextMeaning` | vpn_session_history.py:201-206 | the duration reads back as `t(now) - t(start)` in seconds when both parse (negative iff now precedes start), and is empty otherwise |
| `ReconcileProperties.DurationOfIsoStamps` | vpn_session_history.py:201-204 | with the script's parser, the duration between two written timestamps is the difference of their second counts |
| `ReconcileProperties.ReconcileIdempotent` | vpn_session_history.py:174-175 | a second run with the same time and snapshot over the ledger just written writes the same ledger |
| `ReconcileProperties.ClosedOnce` | vpn_session_history.py:190-207 | a row closed by one run is written unchanged by every later run, whatever its time and snapshot |
| `ReconcileProperties.SessionIdInjective` | vpn_session_history.py:76 | for user names without the separator character, the identity determines user and start |
| `WebStatus.ParseLiveStatus` | vpn_status_web.py:83-101 | the loop builds exactly the live list: one entry per accepted line in file order, none without a status file |
| `WebStatus.LiveShowsSnapshot` | vpn_status_web.py:88-100 | every session in the ledger's snapshot appears in the live list |
| `WebStatus.LiveInSnapshot` | vpn_status_web.py:88-100 | every live entry's identity is in the ledger's snapshot, since both use the same line test and fields |
| `WebStatus.LiveInFileOrder` | vpn_status_web.py:88-100 | the live list of concatenated files is the concatenation of their live lists |
| `WebStatus.LiveKeepsDuplicates` | vpn_status_web.py:96-100 | a repeated line is listed twice, while the snapshot dict keeps one session |
| `WebStatus.ParseFilter` | vpn_status_web.py:168-180 | the loop yields exactly the rows that pass all three tests, in history order |
| `WebStatus.FilterMeaning` | vpn_status_web.py:171-179 | a row is kept iff it is in the history, has the chosen user (when one is set), is open for `open` and closed for `closed` |
| `WebStatus.FilterKeepsOrder` | vpn_status_web.py:168-180 | the result is an order-preserving subsequence of the history |
| `WebStatus.FilterOff` | vpn_status_web.py:168-180 | with an empty user and any status other than `open`/`closed`, the history comes back unchanged |
| `WebStatus.FilterOpenClosedSplit` | vpn_status_web.py:174-178 | `open` and `closed` split a user's rows between them |
| `WebStatus.ClearHistory` | vpn_status_web.py:239-255 | the rows written after the header: none for `None`, otherwise the rows not selected, in order |
| `WebStatus.ClearMeaning` | vpn_status_web.py:252-255 | a row survives iff its identity is not among the selected ids |
| `WebStatus.ClearKeepsOrder` | vpn_status_web.py:252-255 | survivors keep their ledger order |
| `WebStatus.ClearUnknownIds` | vpn_status_web.py:252-255 | selecting ids no row carries leaves the ledger as it was |
| `WebStatus.ClearAllIds` | vpn_status_web.py:239-255 | selecting every row's id empties the ledger just as a full reset does |
| `WebStatus.AllUsers` | vpn_status_web.py:225 | the list is strictly ascending and holds exactly the distinct non-empty users |
| `WebStatus.AscendingUnique` | vpn_status_web.py:225 | a strictly ascending list is fixed by its elements, so that answer is the only one |
| `WebDuration.Breakdown` | vpn_status_web.py:145-147 | floor `divmod` parts with `d*86400 + h*3600 + m*60 + s` equal to the input and `0 <= h < 24`, `0 <= m, s < 60` |
| `WebDuration.BreakdownUnique` | vpn_status_web.py:145-147 | no other parts meet those bounds and that sum |
| `WebDuration.PiecesShape` | vpn_status_web.py:148-152 | zero days, hours and minutes are left out, and the seconds piece is always last |
| `WebDuration.HumanDuration` | vpn_status_web.py:140-143 | the text is empty iff `int()` rejects the cell |
| `WebDuration.HumanDurationRoundTrip` | vpn_status_web.py:140-153 | reading the text back (split on `,`, number and unit per piece) gives the seconds `int()` read |
| `WebGroups.GroupHistoryByUserDay` | vpn_status_web.py:195-214 | the two loops and the final sort build exactly `GroupedHistory` |
| `WebGroups.GroupsNewestFirst` | vpn_status_web.py:213 | groups are in descending order of their latest start |
| `WebGroups.GroupRows` | vpn_status_web.py:196-201 | a group holds exactly the rows of its user and day (`unbekannt` when the start does not parse), each as often as the history has it |
| `WebGroups.GroupNewestFirst` | vpn_status_web.py:205-210 | `latest` comes first and `others` follow, all in descending start order |
| `WebGroups.LatestIsNewest` | vpn_status_web.py:209 | no other row of the group has a later start than `latest` |
| `WebGroups.GroupTiesInHistoryOrder` | vpn_status_web.py:205 | rows of a group with equal starts keep their history order, as the sort is stable |
| `WebGroups.GroupKeysDistinct` | vpn_status_web.py:200-203 | no two groups share user and day |
| `WebGroups.EveryRowShown` | vpn_status_web.py:196-211 | every history row is in the group of its own user and day |
| `WebGraph.CountHour` | vpn_status_web.py:284-292 | the inner loop counts one hour, or raises like Python does |
| `WebGraph.CountActiveSessions` | vpn_status_web.py:276-292 | the outer loop builds exactly the 24 counts, or raises |
| `WebGraph.CountMeaning` | vpn_status_web.py:285-291 | an hour's count is the number of active rows, and it raises iff some row started before the hour's end and has an unparsable end |
| `WebGraph.HistogramMeaning` | vpn_status_web.py:276-292 | there are 24 counts; count `i` is the number of rows whose start parses and is before `bins[i+1]`, and whose end (or now) is after `bins[i]` |
| `WebGraph.HistogramRaises` | vpn_status_web.py:286-290 | the graph raises iff some row started before now and has an end text that does not parse |
| `WebGraph.ActiveHoursContiguous` | vpn_status_web.py:290 | the hours in which a session counts form one unbroken run |
| `WebGraph.OpenSessionEveryHour` | vpn_status_web.py:288-290 | an open session that started before the first hour counts in every hour |
| `WebGraph.FutureSessionNowhere` | vpn_status_web.py:290 | a session starting at or after now counts in no hour |

## Left out

- File I/O is left out: `open`, `os.path.exists`, reading and writing CSV with its quoting, and the header line. A file is its lines or its data rows, and a missing file is `None`.
- Ledger rows with missing columns are left out. `csv.DictReader` would give `None` for a missing cell; every modelled row has six text cells.
- `datetime.now()` is left out. The reconciliation takes `now_str` as a parameter, and the graph takes `now` as a count of microseconds.
- Locale `strptime` is left abstract, as the parameter `otherFormats`. This covers `%a %b %d %H:%M:%S %Y` and the looser ISO spellings. Weekday and month names and locale settings belong to the library.
- `int()` on non-ASCII digits is left out. Only ASCII digits, a sign, surrounding whitespace and single underscores are modelled.
- `main` updates the prior row's dict in place (lines 205-206). The model builds a new row value instead. Nothing reads the old dict afterwards, so no aliasing is observable.
- The unused `still_open` set of `main` is left out; it affects no output.
- `append_session_to_log` is left out. It is unused, and it only appends to a file.
- `load_aliases` is left out. It is only a JSON file read.
- `parse_history` is left out. It is a file read followed by the same `sorted(..., reverse=True)` on `start` that `Seqs.SortDesc` models.
- The Flask routes (`home`, `statimg`, `clear_history_route`, `download_excel`) and the HTML template with its JavaScript are left out. They are web plumbing.
- The Matplotlib drawing, the `%H:%M` axis labels, the base64 encoding and the openpyxl export are left out. They are calls into foreign libraries.
- Concurrent runs and atomic replacement of the ledger file are left out; the scripts have neither.
