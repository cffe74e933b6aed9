# Chart relations — a verified model of the family builder

The wish-charts repository keeps a table of charts. Each row has an
identifier ("WISH"), an observation date ("Date") and free-text references
to other identifiers of the same entity ("Same As"). The script
`tools/build_relations.py` groups the identifiers into families and writes
three things:

- each family's members, ordered by date, with its most recent member;
- a map from each identifier to its family number;
- a map from each subject identifier to its latest date, as text.

This project models that pipeline in Dafny and proves what each stage
promises. One module per stage:

- `Identifiers` models `norm_digits`, `is_wish` and the tokenising of "Same As" (`re.split(r"[,\s;]+", …)`).
- `Dates` models:
  - calendar dates and the order used to pick the most recent date;
  - `parse_date` under its three formats, tried in priority order;
  - `strftime("%Y-%m-%d")` and its round trip through the parser.
- `Rows` models the per-row filter (lines 33-44). It is proved as the `ReadRows` loop against the fold `AcceptedRows`.
- `Graph` models the adjacency map built in lines 47-52. `BuildGraph` is proved equal to `RelationGraph`, a declarative definition (symmetric, no self-loops, exactly the declared pairs). It also tracks the key insertion order of the dictionary (`Dedup` of the mentions).
- `Components` models the breadth-first search of lines 55-65. The components it finds are:
  - disjoint and closed under edges;
  - reachable from their first node;
  - together, cover every node;
  - started in key order.

  Two nodes share a component exactly when a path joins them.
- `DateIndex` models the date index of lines 68-73. Each entry is a date of one of its subject's own records, and no record of that subject is later.
- `Families` models:
  - the stable sort of line 79 (a permutation, sorted, stable);
  - `max` of line 80 (the first member dated no earlier than every other);
  - the family map of line 81;
  - the dates output of line 84.
- `Relations` composes all of the above. `BuildRelations` states the end-to-end result:
  - identifiers share a family exactly when the records connect them;
  - families come in the order the search finds their components, each started at the first key not yet reached;
  - every family is listed in date order;
  - each `latest` is dated no earlier than its family's other members;
  - every emitted date reads back as the indexed date.

Python's set iteration order (`for v in G[u]`) is not fixed. The model picks each neighbour with `:|`, so every property holds for every iteration order.

The program compares dates through `d or datetime.min`. That makes a real date of 0001-01-01 indistinguishable from "no date". The sort key of line 79 already keeps the two apart with `rdate(w) is None`, and line 70 asks for "the most recent date". The model therefore orders "no date" as its own value, below every real date (`Dates.Later`). The code as written, with the input that separates the two, is recorded under Findings.

## Model

| member | source | states |
|---|---|---|
| Identifiers.NormDigits | tools/build_relations.py:23 | the result is all digits and no longer than the input |
| Identifiers.NormDigitsIsDigitSubsequence | tools/build_relations.py:23 | the result is a subsequence of the input whose length is the input's digit count, so exactly the digits are kept |
| Identifiers.NormDigitsKeepsDigits | tools/build_relations.py:23 | text made only of digits is left unchanged |
| Identifiers.NormDigitsIdempotent | tools/build_relations.py:23 | normalising twice equals normalising once |
| Identifiers.IsWishExamples | tools/build_relations.py:20-21 | 5- and 7-digit identifiers are accepted; a leading zero, 4 or 8 digits, or a letter are rejected |
| Identifiers.Split | tools/build_relations.py:40 | splitting gives at least one piece, and no piece contains a comma, semicolon or white space |
| Identifiers.SplitNoSeparator | tools/build_relations.py:40 | text without a separator is one piece, itself: a token is never cut |
| Identifiers.SplitRun | tools/build_relations.py:40 | a leading run of separators, however long, cuts off one empty piece and is dropped |
| Identifiers.SplitAtRun | tools/build_relations.py:40 | a separator-free piece, then a maximal run of separators, then the rest: the cut falls exactly at the run, which is dropped |
| Identifiers.SplitKeepsText | tools/build_relations.py:40 | the pieces joined together are the input with its separators removed: splitting loses no other text |
| Dates.LaterIsStrictTotalOrder | tools/build_relations.py:72 | the date order is irreflexive, transitive and total, with "no date" below every date |
| Dates.LaterAsWrittenConfusesMinDate | tools/build_relations.py:72 | under `or datetime.min` the valid date 0001-01-01 does not count as later than no date, although it is later |
| Dates.LaterAsWrittenAgreesElsewhere | tools/build_relations.py:72 | for valid dates other than 0001-01-01, the comparison as written agrees with the tri-state order |
| Dates.DaysInMonth | tools/build_relations.py:16 | every month has 28 to 31 days; this is the calendar check strptime applies |
| Dates.MonthName | tools/build_relations.py:10 | `%b` accepts exactly the three-letter texts whose lower-case form is one of the twelve English abbreviations, and yields the month number whose abbreviation that is |
| Dates.MakeDate | tools/build_relations.py:16 | a date is built exactly when it is a valid calendar date; otherwise the parse fails |
| Dates.ParseWith | tools/build_relations.py:10-16 | a successful parse under any one format yields a valid calendar date |
| Dates.FirstSuccess | tools/build_relations.py:15-18 | gives no date exactly when every format fails; otherwise gives the result of the first format that succeeds, and every earlier format failed |
| Dates.ParseDate | tools/build_relations.py:13-18 | every parsed date is a valid calendar date |
| Dates.ParseDateUnfold | tools/build_relations.py:13-18 | parse_date strips the text, then tries day-month name-year, then month/day/year, then year-month-day |
| Dates.StripUnchanged | tools/build_relations.py:14 | text without white space at either end is unchanged by the strip |
| Dates.NoSlashNoMonthDayYear | tools/build_relations.py:10 | text without a slash never matches the month/day/year format |
| Dates.AbbreviatedFormatExample | tools/build_relations.py:10 | "05-Jan-24" reads as 2024-01-05 under the first format |
| Dates.ParseDateAbbreviatedExample | tools/build_relations.py:13-18 | parse_date("05-Jan-24") is 2024-01-05 |
| Dates.IsoFormatExample | tools/build_relations.py:10 | "2024-01-05" fails the first two formats and reads as 2024-01-05 under the third |
| Dates.ParseDateIsoExample | tools/build_relations.py:13-18 | parse_date("2024-01-05") is 2024-01-05 |
| Dates.NoFormatReadsEmpty | tools/build_relations.py:10 | no format reads empty text |
| Dates.BlankIsNoDate | tools/build_relations.py:13-18 | any text that is empty after stripping white space is no date, not an error |
| Dates.Pad | tools/build_relations.py:84 | a padded field has exactly the requested width and is all digits |
| Dates.PadValue | tools/build_relations.py:84 | a number below 10^width, written with leading zeros, reads back as the number |
| Dates.FormatDateSplits | tools/build_relations.py:84 | a formatted date consists of a 4-digit year, a 2-digit month and a 2-digit day, joined by hyphens |
| Dates.FormatDateFormats | tools/build_relations.py:84 | a formatted date is rejected by the first two formats and read back exactly by the third |
| Dates.FormatDateRoundTrip | tools/build_relations.py:84 | parse_date of the formatted date is the original date |
| Rows.KeptRefs | tools/build_relations.py:40-43 | kept references are valid identifiers that differ from the subject, and there are no more of them than tokens |
| Rows.KeptRefsExactly | tools/build_relations.py:40-43 | a string is kept exactly when it is valid, differs from the subject, and is the normalised form of some token |
| Rows.AcceptRow | tools/build_relations.py:33-44 | a row is kept exactly when its normalised subject is valid; the kept record is well formed and carries that subject |
| Rows.AcceptedRows | tools/build_relations.py:33-44 | every accepted record is well formed, and there are no more records than rows |
| Rows.ReadRows | tools/build_relations.py:33-44 | the loop's records are the accepted rows, in order |
| Rows.LeadingZeroSubjectDropped | tools/build_relations.py:34-37 | a subject "0001234" keeps its zeros after normalisation and its row is dropped |
| Rows.ShortRowCrashesAsWritten | tools/build_relations.py:40 | a valid row without a "Same As" field stops the run as written; the corrected filter keeps it with no references |
| Rows.ReadRowAsWrittenAgrees | tools/build_relations.py:33-44 | wherever the code as written does not stop, it agrees with the corrected filter |
| Sequences.AppendNewElements | tools/build_relations.py:50-52 | inserting keys in order keeps them distinct and adds exactly the inserted elements |
| Sequences.DedupElements | tools/build_relations.py:47-52 | the key order holds each mentioned identifier exactly once and nothing else |
| Graph.NeighboursAreDeclared | tools/build_relations.py:51-52 | `b` is a neighbour of `a` exactly when some record declares `b` as a reference of `a`, or `a` as one of `b` |
| Graph.MentionsAreNodes | tools/build_relations.py:48-52 | the mentioned identifiers are exactly the subjects and references of the records |
| Graph.RelationGraphProperties | tools/build_relations.py:47-52 | every subject is a node; the nodes are exactly the mentioned identifiers; edges join nodes and go both ways; there are no self-loops; edges are exactly the declared pairs |
| Graph.EnsureNode | tools/build_relations.py:50 | `G[w]` adds `w` with no neighbours if it is missing and changes no other entry |
| Graph.AddEdge | tools/build_relations.py:52 | adding an edge adds the reference as a node |
| Graph.AddEdges | tools/build_relations.py:51-52 | the inner loop adds exactly the references as nodes |
| Graph.AddEdgesNeighbours | tools/build_relations.py:51-52 | after the inner loop, the subject has gained the references, each reference has gained the subject, and nothing else changed |
| Graph.GraphOfKeys | tools/build_relations.py:47-52 | the nodes of the step-by-step build are the mentioned identifiers |
| Graph.GraphOfIsRelationGraph | tools/build_relations.py:47-52 | the step-by-step build equals the declarative relation graph |
| Graph.BuildGraph | tools/build_relations.py:47-52 | the loop yields the relation graph; its key order is the distinct mentions in first-touch order, and those are exactly its keys |
| Graph.KeysFollowOrder | tools/build_relations.py:50-52 | after a record's references are added, the key order is still the deduplicated mentions, and it matches the graph's keys |
| Graph.AddReferences | tools/build_relations.py:51-52 | the inner loop adds each edge in both directions and appends each reference that is not yet a key |
| Components.FirstOutside | tools/build_relations.py:56-57 | gives a key that is not yet visited; gives nothing exactly when every key is visited |
| Components.ConnectedSymmetric | tools/build_relations.py:52 | on a graph whose edges go both ways, connection is symmetric |
| Components.ConnectedTransitive | tools/build_relations.py:60-64 | connection is transitive |
| Components.VisitNeighbours | tools/build_relations.py:62-64 | each unvisited neighbour is queued exactly once, and all neighbours end up visited |
| Components.SearchStep | tools/build_relations.py:60-64 | dequeuing a node and queueing its unvisited neighbours keeps the search invariant: no node listed twice, visited equals listed plus earlier, every listed node reachable |
| Components.SearchProgress | tools/build_relations.py:60-64 | each step either marks a new node or shortens the queue, so the search ends |
| Components.SearchDone | tools/build_relations.py:58-65 | a drained queue leaves a whole component that is disjoint from earlier components and closed under edges |
| Components.Explore | tools/build_relations.py:58-64 | the search from `n` lists a component that starts at `n`, has no node twice, is closed under edges, and is all reachable from `n` |
| Components.ScanStep | tools/build_relations.py:56-65 | adding a component keeps the components disjoint, in key order, and equal to the visited set |
| Components.FindComponents | tools/build_relations.py:55-65 | the components are disjoint and cover every node, and each one starts at the first key that earlier components left out |
| Components.SameComponentIffConnected | tools/build_relations.py:55-65 | two nodes share a component exactly when a path joins them |
| Components.ReferenceConnects | tools/build_relations.py:51-52 | any kept reference of any record joins the subject and the reference in both directions, whichever of them declared it |
| DateIndex.IndexOfKeys | tools/build_relations.py:68-73 | the index has an entry for exactly the subjects of the records |
| DateIndex.IndexOfIsAttained | tools/build_relations.py:72-73 | every entry is the date of one of that subject's own records |
| DateIndex.IndexOfIsLatest | tools/build_relations.py:72-73 | no record of a subject is dated later than its entry |
| DateIndex.IndexDates | tools/build_relations.py:68-73 | the loop yields the date index |
| DateIndex.IndexAsWrittenLosesMinDate | tools/build_relations.py:72 | an undated record followed by one dated 0001-01-01 leaves the subject undated as written; the tri-state index keeps the date |
| Families.SortsBeforeIsStrictTotalOrder | tools/build_relations.py:79 | the sort key order is irreflexive, transitive and total on keys |
| Families.SortMembersPermutes | tools/build_relations.py:79 | the sorted members are a permutation of the component |
| Families.SortMembersSorted | tools/build_relations.py:79 | dated members come before undated ones, and dates are ascending |
| Families.SortMembersStable | tools/build_relations.py:79 | members with equal keys keep their relative order |
| Families.LatestIsFirstMaximal | tools/build_relations.py:80 | the chosen member is dated no earlier than every member, and every member before it is dated strictly earlier (it is the first maximum) |
| Families.LatestAsWrittenPicksUndated | tools/build_relations.py:80 | with an undated member listed before a member dated 0001-01-01, the code as written picks the undated one; the tri-state choice picks the dated one |
| Families.AssignMaps | tools/build_relations.py:81 | assigning a component maps each of its members to its number and leaves other entries as they were |
| Families.FamilyIndexIsLastComponent | tools/build_relations.py:78-81 | exactly the covered identifiers are mapped, each to the last component that lists it |
| Families.FamilyIndexOfDisjoint | tools/build_relations.py:78-81 | for disjoint components, an identifier maps to `i` exactly when component `i` lists it |
| Families.BuildFamilies | tools/build_relations.py:77-82 | there is one family per component, holding its sorted members and its latest member, and the map is the family index |
| Families.FormatOptDate | tools/build_relations.py:84 | an absent date is emitted as null, and only then |
| Families.DateStrings | tools/build_relations.py:84 | there is one entry per indexed identifier, and it is null exactly when the identifier is undated |
| Families.DateStringsRoundTrip | tools/build_relations.py:84 | each emitted date string parses back to the indexed date |
| Relations.MembersOfComponent | tools/build_relations.py:79-82 | a family lists exactly the members of its component |
| Relations.FamilyIsOrdered | tools/build_relations.py:79-82 | a family has no member twice, lists its members in date order, and its latest is a member dated no earlier than any other |
| Relations.FamilyIndexOfFamilies | tools/build_relations.py:81-82 | the map sends each member of family `i` to `i` and maps exactly the covered identifiers |
| Relations.SameFamilyIffConnected | tools/build_relations.py:55-81 | two mapped identifiers share a family number exactly when the graph connects them |
| Relations.IndexOfIsValid | tools/build_relations.py:38 | every indexed date is a valid calendar date |
| Relations.FamilyMapOfComponents | tools/build_relations.py:77-82 | the family map's keys are the graph's nodes, and the map agrees with the members lists in both directions |
| Relations.ComponentsAreConnected | tools/build_relations.py:55-81 | family numbers are equal exactly when the identifiers are connected |
| Relations.FamiliesOfComponentsAreOrdered | tools/build_relations.py:77-82 | every family has distinct members in date order, and a latest member dated no earlier than the rest |
| Relations.BuildRelations | tools/build_relations.py:33-84 | end to end: the family map covers the nodes and matches the members lists; families are exactly the connected classes; families are in date order with a correct latest; the families come in search order, family `i` being the component started at the first key (in insertion order) that the earlier ones left out, holding its members stably sorted and its first most recent member, with the map built as line 81 does; the dates map is keyed by the subjects, null exactly when undated, and each string parses back to the indexed date |

## Left out

- Reading the table and checking its headers (lines 25-31) are left out. The input is a sequence of rows in which a missing field is None. The header failure is I/O that stops the run before any record exists.
- The paths of lines 7-8, the JSON dump and the summary message (lines 86-88) are left out. `Relations.BuildRelations` returns the value that would be written.
- Dates.ParseDate: `strptime` is simplified in several ways:
  - only ASCII digits are accepted;
  - `%d` and `%m` take one or two digits, with no space padding;
  - `%b` takes the English abbreviations in any case;
  - `%y` uses the pivot 69, so 69-99 map to 1969-1999 and 00-68 to 2000-2068.

  Locales and the other directives are not modelled.
- Dates.FormatDate: the year is written as exactly four digits. Some platforms' `strftime` do not zero-pad years below 1000.
- Identifiers.Split: `\s` is the Unicode white-space set of Python's `re` for text. Any character outside that set is modelled as a plain character.
- The `\d` and `$` of `DIGITS` in `is_wish` (line 11) would accept non-ASCII digits and a trailing newline. `Identifiers.IsWish` is only ever applied to `norm_digits` output, which contains only ASCII digits, so those cases are unreachable and the model omits them.
- Graph.AddReferences asks whether a reference is already a key by looking in the key order (`order`), not in the map. `Graph.KeysFollowOrder` proves the two agree.
- Components.Explore: the order of nodes within a component (breadth-first layers) is not proved. The model proves membership, that no node is listed twice, reachability from the start node, and that components start in key order.
- Families.BuildFamilies and the sort and `max` of lines 79-80 use the tri-state date order, with no date below every date. The `or datetime.min` comparison is modelled separately, as written, under Findings.

## Findings

| source | as written | input that shows it | evidently intended | confidence | as-written member | corrected member |
|---|---|---|---|---|---|---|
| tools/build_relations.py:40 | `row.get("Same As","")` returns None when the row is too short to have that field, because the reader fills missing fields with None; `re.split` on None raises and ends the whole run | a row with "WISH" 10001 and no "Same As" value | a missing reference field means no references | not executed | Rows.ShortRowCrashesAsWritten | Rows.ReadRowAsWrittenAgrees |
| tools/build_relations.py:72 | `(d or datetime.min) > (… or datetime.min)` treats the real date 0001-01-01 as equal to no date, so it never replaces an undated entry | two records for 10001: the first undated, the second dated 0001-01-01 | the dated record wins, with no date below every date | not executed | DateIndex.IndexAsWrittenLosesMinDate | DateIndex.IndexOfIsLatest |
| tools/build_relations.py:80 | `max` with key `rdate(w) or datetime.min` ties an undated member with one dated 0001-01-01 and keeps the first | family [10001, 10002], where 10001 is undated and 10002 is dated 0001-01-01 | a dated member is preferred over an undated one | not executed | Families.LatestAsWrittenPicksUndated | Families.LatestIsFirstMaximal |
