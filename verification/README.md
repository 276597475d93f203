# netCBS in Dafny

netCBS builds network variables from the CBS population networks (POPNET), for
example the mean income of a person's family members. A query such as
`[Income] -> Family[301] -> sample` names the characteristics to aggregate. It
then lists one or more hops through the relationship files (family, colleagues,
neighbours, schoolmates, housemates), each restricted to relationship codes, and
ends at the sample.

`transform` walks the hops from every sample person. It joins the persons
reached with the characteristics table and aggregates per sample person. It then
left-joins the aggregates back onto the sample, so every sample row survives.

This project models both implementations in the repository:

- the current package `netcbs/netcbs.py`: the constant tables, the parsing
  and checking of one hop, the aggregation list, version resolution of the
  network files, `validate_query` and `transform`;
- the legacy module `netcbs_.py`: the same pipeline with its own rules.
  It reads the query in written order and matches `all` case-sensitively. A
  person is keyed by (RINPERSOON, RINPERSOONS), duplicate persons are dropped,
  and the version lookup ignores the year.

The model consists of these files:

- `errors.dfy` (`Errors`): the exceptions, as an `Error` datatype, and the `Result`/`Option` wrappers. It also holds the first-failure loop `MapEach`, which the hop loops of both `transform`s run over `LoadHop`.
- `python.dfy` (`Python`): the Python built-ins the code relies on, with their properties. These are `strip`/`lstrip`/`rstrip` (with the full `str.isspace` set), `split`, `split(c, 1)`, `join`, `in`, `lower`, `int()`, `str()`, `replace`, `[::-1]`, `max` and `min`.
- `frames.dfy` (`Frames`): the relational meaning of the SQL and polars operations, over sequences of records. These are the code filter, the hop join (a multiset join, duplicates kept), the join with the characteristics table, `GROUP BY`, the `LEFT JOIN` and the integer aggregates.
- `netcbs.dfy` (`Netcbs`): the pure part of `netcbs/netcbs.py`.
- `transform.dfy` (`NetcbsTransform`): `transform` of `netcbs/netcbs.py`. Its hop loop is a method with a loop invariant, proved against a specification function.
- `legacy.dfy` (`NetcbsLegacy`): `netcbs_.py`, including its `transform` method.
- `tests.dfy` (`NetcbsTests`): the two examples of `tests/test_netcbs.py`, proved for the relational core and end to end through `transform`.

The environment is passed in as values. A directory listing is a map from folder
to file entries (stem and suffix). A network file is a map from path to its rows.
The `format_path_fn` hook of `transform` is a function-valued parameter; its
default, the package's own `format_path`, is `NetcbsTransform.DefaultResolver`.

## Model

| member | source | states |
|---|---|---|
| Netcbs.ContextTablesAgree | netcbs/netcbs.py:53-67 | `context2path` and `context2types` name the same five contexts |
| Netcbs.FamilyInCodebook | netcbs/netcbs.py:17-51 | every family code 301..322 (`range(301, 323)`) has a codebook entry |
| Netcbs.CodesInCodebook | netcbs/netcbs.py:61-67 | every code any context allows is described in the codebook |
| Netcbs.FoldersEndInTab | netcbs/netcbs.py:53-59 | every folder name ends in `TAB`, the suffix `folder[:-3]` cuts off |
| Netcbs.BaseNames | netcbs/netcbs.py:53-67 | context names are non-empty, have no whitespace at either end and contain no `[` |
| Netcbs.Missing | netcbs/netcbs.py:85 | the missing list holds exactly the required columns absent from the frame |
| Netcbs.ValidateColumns | netcbs/netcbs.py:70-87 | passes iff every required column is present; otherwise the error lists exactly the missing ones, and the list is non-empty |
| Netcbs.StrippedNonBlank | netcbs/netcbs.py:104 | every name kept is non-empty and trimmed, and there are no more names than pieces |
| Netcbs.FormatVarsAgg | netcbs/netcbs.py:90-104 | no returned name is empty or has whitespace at either end |
| Netcbs.FormatVarsAggNoComma | netcbs/netcbs.py:103-104 | no returned name contains a comma |
| Netcbs.FormatVarsAggPieces | netcbs/netcbs.py:103-104 | `[p1,p2,...]` reads as the non-blank pieces, stripped, in source order |
| Netcbs.FormatVarsAggRoundTrip | netcbs/netcbs.py:90-104 | a bracketed, comma-joined list of plain names reads back as exactly those names (the empty list included) |
| Netcbs.FormatVarsAggSpaced | netcbs/netcbs.py:103-104 | `[a, b]` with a space after the comma reads as `[a, b]` |
| Netcbs.ParseIds | netcbs/netcbs.py:120 | a failure is always an `int()` failure |
| Netcbs.ParseIdsOk | netcbs/netcbs.py:120 | the code set comprehension succeeds iff every piece is blank or an integer |
| Netcbs.ParseIdsValues | netcbs/netcbs.py:120 | a code is in the set iff some non-blank piece spells it |
| Netcbs.ParseIdsFirstError | netcbs/netcbs.py:120 | the error names the first piece that is neither blank nor an integer |
| Netcbs.ParseContext | netcbs/netcbs.py:107-121 | a segment without `[` fails to unpack; a parsed base is trimmed |
| Netcbs.ParseIdsCodes | netcbs/netcbs.py:120 | the written codes `str(c)` parse back to exactly the set of those codes |
| Netcbs.ParseContextListed | netcbs/netcbs.py:107-121 | `base[c1,c2,...]` parses to `base` and exactly the listed codes (splitting at the first `[` only) |
| Netcbs.CheckContext | netcbs/netcbs.py:124-141 | an accepted hop names a known context (in both tables) and a subset of its codes |
| Netcbs.CheckContextRejects | netcbs/netcbs.py:128-141 | once a hop parses, an unknown base raises `UnknownContext`, and listed codes outside the base's allowed codes raise `InvalidTypes` with those codes |
| Netcbs.CheckContextListed | netcbs/netcbs.py:124-141 | a known context with a list of its own codes checks to exactly those codes |
| Netcbs.CheckContextEmpty | netcbs/netcbs.py:120-141 | `base[]` for a known context checks to no codes: the comprehension skips the blank piece, and the empty set is a subset of the allowed codes |
| Netcbs.CheckContextAll | netcbs/netcbs.py:115-136 | `base[w]` with `w.lower() == "all"` (any letter case) checks to the whole code set of `base` |
| Netcbs.Versions | netcbs/netcbs.py:165-167 | reading the versions fails only on an `int()` failure |
| Netcbs.VersionsSpec | netcbs/netcbs.py:165-167 | the versions are read iff every qualifying stem's text after its last `V` is an integer; they are exactly those integers, and there are none iff no file has the format's suffix and the year in its stem |
| Netcbs.CheckLastVersion | netcbs/netcbs.py:145-170 | the only failures are "no versions" and an `int()` failure |
| Netcbs.CheckLastVersionSpec | netcbs/netcbs.py:164-170 | the result is one of the qualifying versions and at least every other; `NoVersions` exactly when no file qualifies; any other failure comes from a qualifying file whose version is not an integer |
| Netcbs.FileStemYear | netcbs/netcbs.py:213 | the built file name holds the year, so it would qualify in its own folder |
| Netcbs.FileStemVersion | netcbs/netcbs.py:213 | the built file name carries the chosen version after its last `V` |
| Netcbs.FormatPath | netcbs/netcbs.py:198-215 | the codes returned are exactly those `_check_context` returns |
| Netcbs.FormatPathLatest | netcbs/netcbs.py:198-215 | the path is `root/FOLDER[/geconverteerde data]/FOLDER[:-3]<year>TABV<v>.<fmt>` where `v` is the latest qualifying version in that folder |
| Netcbs.CheckHop | netcbs/netcbs.py:310-320 | a hop passes only if it checks and, with `check_files`, its file resolves |
| Netcbs.CheckEach | netcbs/netcbs.py:310-320 | a loop over no hops passes |
| Netcbs.CheckEachOk | netcbs/netcbs.py:310-320 | the hop loop passes iff every hop passes |
| Netcbs.CheckEachFirstError | netcbs/netcbs.py:310-320 | the hop loop raises the error of the first hop that fails |
| Netcbs.Contexts | netcbs/netcbs.py:284-294 | accepted segment lists have at least three segments |
| Netcbs.ContextsSpec | netcbs/netcbs.py:284-294 | passes iff no piece between `->` is blank and there are at least 3 `" -> "` segments; names the check that failed; returns the stripped segments reversed |
| Netcbs.CheckColumns | netcbs/netcbs.py:300-308 | a sample without RINPERSOON fails first; an empty aggregation list fails next |
| Netcbs.CheckColumnsOk | netcbs/netcbs.py:300-308 | the column checks pass iff both frames have RINPERSOON, the list names a variable, and the aggregation frame has every variable |
| Netcbs.CheckQueryParts | netcbs/netcbs.py:300-322 | on success it returns the segments; a column failure is raised before any hop is checked |
| Netcbs.CheckQueryPartsOk | netcbs/netcbs.py:300-322 | passes iff the columns check and every hop between the list and the sample checks |
| Netcbs.ValidateQuery | netcbs/netcbs.py:240-322 | checks in the source's order: blank query, then format, then segments, then columns and hops; on success the stripped, reversed segments |
| NetcbsTransform.Segments | netcbs/netcbs.py:371 | a query always has at least one segment |
| NetcbsTransform.FuncMajorAt | netcbs/netcbs.py:433-435 | the cell of function `f` and variable `v` sits at index f times the number of variables plus v (function-major order) |
| NetcbsTransform.AggColumns | netcbs/netcbs.py:433-440 | one aggregate column per (function, variable), named `func_var`, holding that function over that variable |
| NetcbsTransform.LoadHop | netcbs/netcbs.py:405-427 | a hop loads iff `format_path_fn` succeeds with a non-empty code list and its file can be read; an empty code list raises `EmptyTypeList`, because the statement then reads `IN ()`; the hop keeps the codes `format_path_fn` returns |
| NetcbsTransform.NoCodesFail | netcbs/netcbs.py:405-427 | with the default `format_path_fn`, a hop that checks to no codes raises the `format_path` error or `EmptyTypeList`, and never loads |
| NetcbsTransform.EmptyCodeListFails | netcbs/netcbs.py:405-427 | a hop written `base[]` for a known context never loads |
| NetcbsTransform.DefaultLoadHop | netcbs/netcbs.py:368-369 | with the default `format_path_fn`, a hop failing `_check_context` raises that error; a hop that loads keeps exactly the codes `_check_context` allows and reads the file of the latest version for the year in its context's folder |
| NetcbsTransform.AltersReached | netcbs/netcbs.py:416-445 | a sample person has rows to aggregate iff the hops reach a person with a characteristics row; every such row belongs to a person reached |
| NetcbsTransform.EvaluateRows | netcbs/netcbs.py:433-457 | the output has exactly one row per sample row, in place, carrying the aggregates of what its hops reach, or NULL in every aggregate column when nothing is reached |
| NetcbsTransform.BlockedNulls | netcbs/netcbs.py:416-457 | when the last hop keeps no edge, every sample row survives with NULL aggregates |
| NetcbsTransform.RequireColumns | netcbs/netcbs.py:385-386 | a sample without RINPERSOON fails with that column missing |
| NetcbsTransform.RequireColumnsOk | netcbs/netcbs.py:384-386 | the checks pass iff both frames have RINPERSOON and the aggregation frame has every variable; unlike `validate_query`, an empty list passes |
| NetcbsTransform.CheckInputs | netcbs/netcbs.py:371-386 | two or fewer segments fail first, then a bad format; success implies at least three segments |
| NetcbsTransform.TransformSpec | netcbs/netcbs.py:325-459 | a successful `transform` had at least three segments |
| NetcbsTransform.Finish | netcbs/netcbs.py:396-459 | after the checks, `transform` succeeds iff every hop loads, so it fails when a hop has no codes |
| NetcbsTransform.RunHops | netcbs/netcbs.py:400-429 | the hop loop yields the chain of the loaded hops from the sample, or the first hop's error |
| NetcbsTransform.Transform | netcbs/netcbs.py:325-459 | the imperative `transform` returns exactly what `TransformSpec` describes |
| NetcbsTransform.RunQuery | netcbs/netcbs.py:396-457 | the hop loop plus aggregation equals `Finish` |
| Frames.Filter | netcbs/netcbs.py:422-425 | `WHERE RELATIE IN (types)` keeps each row with a kept code as often as it occurs, and no other row |
| Frames.FilterKeepsAll | netcbs/netcbs.py:422-425 | when every row's code is kept, the file is unchanged |
| Frames.FilterKeepsNone | netcbs/netcbs.py:422-425 | when no row's code is kept, nothing remains |
| Frames.Fanout | netcbs/netcbs.py:416-428 | one accumulated row yields one row per edge leaving its current person, with the same origin |
| Frames.FanoutCount | netcbs/netcbs.py:416-428 | one accumulated row yields (origin, a) exactly as many times as there are edges from its current person to `a` |
| Frames.StepSize | netcbs/netcbs.py:416-428 | the hop join keeps duplicates: its size is the sum of the degrees |
| Frames.StepMembers | netcbs/netcbs.py:416-428 | (o, a) is produced iff some row starting at o stands on an ego with an edge to a |
| Frames.StepAppend | netcbs/netcbs.py:416-428 | the hop join works row by row on the accumulated table |
| Frames.Initial | netcbs/netcbs.py:389-394 | the start table has one row per sample row |
| Frames.InitialLinks | netcbs/netcbs.py:389-400 | every start row links a sample person to itself |
| Frames.ChainReaches | netcbs/netcbs.py:403-429 | the chain holds (o, a) iff a is reached from o by one kept edge of each hop, in order |
| Frames.ChainBlocked | netcbs/netcbs.py:403-429 | when the last hop keeps no edge, the final hop table is empty |
| Frames.MatchRecords | netcbs/netcbs.py:441-443 | one accumulated row joins exactly the characteristics rows of its current person |
| Frames.MatchRecordsSize | netcbs/netcbs.py:441-443 | one accumulated row joins as many rows as the characteristics table has rows for its current person |
| Frames.MatchRecordsCount | netcbs/netcbs.py:441-443 | a characteristics row of the current person is paired with the sample person as often as it occurs, and no other row is paired |
| Frames.JoinRecords | netcbs/netcbs.py:441-443 | every joined row pairs a characteristics row with an accumulated row standing on its person |
| Frames.JoinRecordsSize | netcbs/netcbs.py:441-443 | the join keeps duplicates: its size is the sum, over accumulated rows, of the characteristics rows of their current persons |
| Frames.JoinRecordsCount | netcbs/netcbs.py:441-443 | the joined row (o, rec) occurs m × n times, where m is the number of accumulated rows from o standing on rec's person and n the number of copies of rec |
| Frames.JoinRecordsOrigins | netcbs/netcbs.py:441-444 | a sample person has joined rows iff one of its accumulated rows stands on a person with characteristics |
| Frames.Members | netcbs/netcbs.py:444 | a group's rows are exactly the rows joined to that sample person |
| Frames.MembersCount | netcbs/netcbs.py:444 | a group holds each characteristics row as often as it was joined to that sample person |
| Frames.Keys | netcbs/netcbs.py:444 | the grouping keys are distinct and are exactly the sample persons with joined rows |
| Frames.GroupBy | netcbs/netcbs.py:437-445 | one group per distinct sample person, carrying the summary of its rows |
| Frames.GroupByDistinct | netcbs/netcbs.py:444 | each sample person appears in at most one group |
| Frames.GroupByHas | netcbs/netcbs.py:437-445 | a group exists for a person iff it has a joined row |
| Frames.Nulls | netcbs/netcbs.py:447-454 | a row of NULLs of the given width |
| Frames.MatchGroups | netcbs/netcbs.py:452-453 | the groups matched to a key are exactly the groups with that key |
| Frames.MatchGroupsDistinct | netcbs/netcbs.py:452-453 | with distinct group keys, at most one group matches |
| Frames.LeftJoinKeepsRows | netcbs/netcbs.py:447-454 | with distinct keys on the right, the left join keeps every left row once and in place, with its group's cells or NULLs |
| Frames.ReachedMembers | netcbs/netcbs.py:403-445 | the rows aggregated for a person are characteristics rows of persons its hops reach; there are some iff such a person exists |
| Frames.GroupLookup | netcbs/netcbs.py:437-454 | a left row receives the summary of its person's joined rows, or NULLs when there are none |
| Frames.Present | netcbs/netcbs.py:433-435 | the non-NULL values are exactly the integers in the column |
| Frames.PresentCount | netcbs/netcbs.py:433-435 | each integer is kept as often as it occurs in the column, so `count` and `sum` see every occurrence |
| Frames.Aggregate | netcbs/netcbs.py:433-435 | SQL `count`/`sum`/`min`/`max` ignore NULLs; only `count` of no values is non-NULL (0); `min`/`max` are a value present and a bound on all |
| Frames.Column | netcbs/netcbs.py:433-435 | the column's values, one per row, NULL where the row has none |
| Errors.MapEach | netcbs/netcbs.py:403-429 | a loop that finishes yields one result per item |
| Errors.MapEachOrder | netcbs/netcbs.py:403-429 | result i is the result for item i |
| Errors.MapEachOk | netcbs/netcbs.py:403-429 | the loop finishes iff no item raises |
| Errors.MapEachFirstError | netcbs/netcbs.py:403-429 | the loop raises what the first raising item raises |
| Python.Strip | netcbs/netcbs.py:103 | `str.strip()` leaves no whitespace at either end |
| Python.StripDrops | netcbs/netcbs.py:103 | `str.strip()` drops only whitespace: the result is a slice of the text with only whitespace before and after it |
| Python.StripAllSpace | netcbs/netcbs.py:278 | `s.strip()` is empty iff `s` is all whitespace |
| Python.StripIdempotent | netcbs/netcbs.py:114 | stripping twice is stripping once |
| Python.LStrip | netcbs/netcbs.py:103 | `lstrip("[")` returns a suffix of the text that does not start with `[` |
| Python.LStripDrops | netcbs/netcbs.py:103 | `lstrip("[")` drops only `[` characters; with `LStrip`, it drops the longest such prefix |
| Python.RStrip | netcbs/netcbs.py:103 | `rstrip("]")` returns a prefix of the text that does not end in `]` |
| Python.RStripDrops | netcbs/netcbs.py:103 | `rstrip("]")` drops only `]` characters; with `RStrip`, it drops the longest such suffix |
| Python.Split | netcbs/netcbs.py:104 | `split` always yields at least one piece |
| Python.SplitJoinBack | netcbs/netcbs.py:289 | joining the pieces of a split with the separator gives the string back |
| Python.SplitPieces | netcbs/netcbs.py:289 | no piece of a split contains the separator |
| Python.SplitLeftmost | netcbs/netcbs.py:289 | `split` cuts at the leftmost occurrence of the separator and goes on after it, even where a later occurrence overlaps it |
| Python.SplitOverlapExample | netcbs/netcbs.py:289 | `"x -> -> y".split(" -> ")` is `["x", "-> y"]` |
| Python.SplitJoin | netcbs/netcbs.py:104 | splitting on a character undoes joining on it when no piece holds it |
| Python.SplitCount | netcbs_.py:75 | `s.split(c)` has one more piece than `s` has `c`s, so two-way unpacking needs exactly one `[` |
| Python.SplitLastPiece | netcbs/netcbs.py:166 | `split("V")[-1]` is the text after the last `V` |
| Python.SplitOnce | netcbs/netcbs.py:113 | `split("[", 1)` unpacks iff there is a `[`, into the text before the first one and the rest |
| Python.Lower | netcbs/netcbs.py:117 | `lower()` maps each character |
| Python.RemoveChar | netcbs_.py:77 | `replace("]", "")` removes every `]` and keeps every other character |
| Python.RemoveCharCount | netcbs_.py:77 | `replace("]", "")` keeps every other character as often as it occurs |
| Python.RemoveCharAppend | netcbs_.py:77 | `replace` works part by part, so the characters kept stay in their order |
| Python.Reverse | netcbs/netcbs.py:289 | `[::-1]` reverses |
| Python.Max | netcbs/netcbs.py:170 | `max` is a member and bounds every member |
| Python.ParseIntRoundTrip | netcbs/netcbs.py:120 | `int(str(n)) == n` |
| Python.ParseIntChars | netcbs/netcbs.py:120 | text `int()` accepts is, once stripped, non-empty, with a sign only in front and otherwise digits and underscores; a negative result has a `-` |
| Python.IntToString | netcbs/netcbs.py:213 | `str(n)` is non-empty, trimmed, and holds no `V` or comma |
| NetcbsLegacy.CodebookDiffers | netcbs_.py:13-47 | the legacy codebook has the same codes and names except 309 and 310 |
| NetcbsLegacy.ParseAll | netcbs_.py:81 | a failure is an `int()` failure |
| NetcbsLegacy.ParseAllOk | netcbs_.py:81 | the codes parse iff every comma piece is an integer (an empty piece fails) |
| NetcbsLegacy.ParseAllStricter | netcbs_.py:81 | what the legacy parse accepts, the current one reads the same way |
| NetcbsLegacy.ParseAllCodes | netcbs_.py:81 | the written codes parse back to exactly those codes |
| NetcbsLegacy.CheckContext | netcbs_.py:65-84 | fails to unpack iff the segment does not hold exactly one `[`; an accepted hop is a known context and a subset of its codes |
| NetcbsLegacy.CheckParts | netcbs_.py:76-84 | the literal `all` gives the whole code set; other failures are `KeyError`, `InvalidTypes` or an `int()` failure |
| NetcbsLegacy.BracketContext | netcbs_.py:75-77 | `base[inner]` is taken apart into `base` and `inner` |
| NetcbsLegacy.CheckContextWord | netcbs_.py:78-83 | only the lower-case `all` stands for every code; `ALL` or `All` fails as an integer |
| NetcbsLegacy.CheckPartsListed | netcbs_.py:80-83 | a non-empty list of codes reads as exactly those codes, which must be allowed |
| NetcbsLegacy.CheckContextListed | netcbs_.py:65-84 | `base[c1,...]` checks to the codes if all allowed, `InvalidTypes` if not, `KeyError` for an unknown base |
| NetcbsLegacy.CsvVersions | netcbs_.py:97 | a failure is an `int()` failure |
| NetcbsLegacy.CheckLastVersion | netcbs_.py:86-100 | the only failures are "no versions" and an `int()` failure |
| NetcbsLegacy.CheckLastVersionAnyYear | netcbs_.py:86-100 | the legacy lookup is the current one with the year filter switched off |
| NetcbsLegacy.CheckLastVersionSpec | netcbs_.py:86-100 | the result is the highest version over all csv files; none iff there is no csv file |
| NetcbsLegacy.VersionIgnoresYear | netcbs_.py:86-100 | with two csv files of different years, the legacy lookup takes the other year's higher version |
| NetcbsLegacy.VersionFromOtherYear | netcbs_.py:86-100 | for 2021, files `...2021V1` and `...2022V2` give version 2 (legacy) against 1 (current) |
| NetcbsLegacy.FormatPath | netcbs_.py:102-118 | the codes returned are those of `check_context` |
| NetcbsLegacy.FormatPathLatest | netcbs_.py:102-118 | the path is `root/FOLDER/FOLDER<year>V<v>.csv` with `v` the highest csv version in the folder |
| NetcbsLegacy.ValidateColumns | netcbs_.py:189-202 | passes iff every required column is present |
| NetcbsLegacy.ValidateColumnsFirst | netcbs_.py:189-202 | the error names the first absent column in list order |
| NetcbsLegacy.Unique | netcbs_.py:216-218 | the result has unique keys, keeps only input rows, and keeps every person |
| NetcbsLegacy.UniqueKeeps | netcbs_.py:216-218 | dropping duplicates changes nothing when there are none |
| NetcbsLegacy.PrepareDataframe | netcbs_.py:204-220 | with both key columns the keys become unique; an already unique frame is unchanged; no person is lost |
| NetcbsLegacy.AggregateData | netcbs_.py:251-266 | grouping yields each sample person at most once, with one aggregate cell |
| NetcbsLegacy.Checked | netcbs_.py:153-154 | the check passes iff `check_context` does |
| NetcbsLegacy.CheckInputs | netcbs_.py:146-157 | two or fewer segments fail; on success the aggregated column is the last segment as written |
| NetcbsLegacy.CheckInputsOk | netcbs_.py:146-157 | the checks pass iff every hop checks, both frames have the key pair, and the characteristics frame has the column |
| NetcbsLegacy.LoadHop | netcbs_.py:171-176 | a hop loads iff `format_path` succeeds and its file can be read; the hop keeps the codes `check_context` gives |
| NetcbsLegacy.EvaluateRows | netcbs_.py:159-180 | every row of the sample as given, duplicates included, is kept once and in place, with the aggregate or NULL |
| NetcbsLegacy.AltersReached | netcbs_.py:237-266 | the rows aggregated for a person are characteristics rows of persons its hops reach |
| NetcbsLegacy.TransformSpec | netcbs_.py:120-187 | a successful `transform` had at least three segments |
| NetcbsLegacy.Finish | netcbs_.py:159-187 | after the checks, `transform` succeeds iff every hop loads |
| NetcbsLegacy.RunHops | netcbs_.py:171-177 | the hop loop yields the chain of the loaded hops, or the first hop's error |
| NetcbsLegacy.Transform | netcbs_.py:120-187 | the imperative `transform` returns exactly what `TransformSpec` describes |
| NetcbsLegacy.RunQuery | netcbs_.py:159-180 | de-duplication, the hop loop, aggregation and the left join equal `Finish` |
| NetcbsTests.FamilyLinks | tests/test_netcbs.py:20-31 | one hop through the test's family file, keeping its code, takes 1 to 10, 11; 2 to 20, 21; 3 to 12, 22 |
| NetcbsTests.FamilyJoined | tests/test_netcbs.py:13-31 | each reached person joins exactly its own income row |
| NetcbsTests.SumCount | tests/test_netcbs.py:48-51 | two incomes y, z aggregate to sum y + z and count 2 |
| NetcbsTests.OneHopSums | tests/test_netcbs.py:34-51 | for any six incomes, `transform`'s rows are person 1 with sum x0 + x1, person 2 with x3 + x4, person 3 with x2 + x5, each with count 2 |
| NetcbsTests.NoLinksNulls | tests/test_netcbs.py:54-69 | keeping a code no edge carries leaves 3 rows, all aggregates NULL |
| NetcbsTests.OneHopExample | tests/test_netcbs.py:34-51 | incomes 1000..6000 give sums 3000, 9000, 9000 over 2 rows each (averages 1500, 4500, 4500) |
| NetcbsTests.NoLinksExample | tests/test_netcbs.py:54-69 | with code 999 the 3 sample rows stay and every aggregate is NULL |
| NetcbsTests.QuerySegments | tests/test_netcbs.py:38-39 | `[Income] -> <hop> -> sample` splits into `sample`, the hop, `[Income]` |
| NetcbsTests.VarsExample | netcbs/netcbs.py:90-104 | `[a, b]` reads as `a`, `b` |
| NetcbsTests.ExampleInputs | tests/test_netcbs.py:38-46 | the test's frames and format pass the checks, and the variables are `["Income"]` |
| NetcbsTests.ExampleHops | tests/test_netcbs.py:35-36 | with the fake `format_path`, the hop loads the test's file and code |
| NetcbsTests.ExampleNames | tests/test_netcbs.py:48 | with sum and count the columns are `sum_Income`, `count_Income` |
| NetcbsTests.TransformOf | tests/test_netcbs.py:38-46 | `transform` on the test query returns the sample column plus the aggregate columns over the evaluated rows |
| NetcbsTests.TransformOneHop | tests/test_netcbs.py:34-51 | end to end: `transform` returns 3 rows with sums 3000, 9000, 9000 and counts 2 |
| NetcbsTests.TransformNoLinks | tests/test_netcbs.py:54-69 | end to end: `transform` returns 3 rows whose aggregates are all NULL |

## Left out

- DuckDB, polars, pandas and arrow are not modelled as libraries. This covers the connection, the SQL text, `_to_arrow_table`, `return_pandas` and `lazy`. Their relational meaning is modelled in `Frames` over sequences of records.
- File-system access is not modelled. `Path.glob`, `read_csv`, `read_parquet` and `scan_csv` become given values: a listing of file entries per folder and the rows of each file per path. A file missing from the map raises `ReadFailed`.
- `avg`, `mean` and `stddev_samp` are left out because they are floating point. The aggregates modelled are `count`, `sum`, `min` and `max` with SQL NULL semantics. The tests' `avg` is checked through sum and count (1500 = 3000 / 2).
- The legacy module's `agg_func` is an abstract function from a column's values to a value.
- Logging is left out. This includes the warning for more than four hops, the parquet notice, the per-hop info and the duplicate-removal notice.
- Output row order is not modelled: SQL promises none. The model states row counts and the cells each sample row receives, and lists rows in the sample's order.
- NetcbsLegacy.Unique: keeps the first row of each person. polars `unique` may keep any one of the duplicates, so the model's choice of row is more specific than the library's.
- Column renaming and exclusion are not modelled: `RINPERSOONsample`, `RINPERSOON_1`, `*_sample` and `EXCLUDE (RINPERSOON)`. The output's columns are the sample's columns followed by the aggregate columns.
- In the current package a person is identified by RINPERSOON alone, as its joins are. RINPERSOONS is not modelled there.
- The `isinstance(query, str)` test of `validate_query` is not modelled, because the model's query is always a string.
- `netcbs/create_synthetic_data.py`, `setup.py` and `netcbs/__init__.py` are not part of this model.
- Frames.ChainBlocked: stated for an empty last hop only. An empty hop anywhere in the chain also empties it, but the model does not state that.
- Python.Lower: maps only the ASCII capitals `A`..`Z`; the rest of Unicode case mapping is left out. No other character lower-cases to a letter of `all` (the Kelvin sign becomes `k`), so the comparison with `all` is exact.
- Python.ParseInt: reads ASCII digits only. Python's `int()` also takes the decimal digits of other scripts (`int("３０１") == 301`), so a hop such as `Family[３０１]`, which both `_check_context` and `check_context` accept, raises `NotAnInteger` in the model.
- NetcbsTransform.LoadHop: DuckDB's SQL parser is not modelled. The model takes a hop whose code list is empty to raise `EmptyTypeList`, because `IN ()` has no production in the PostgreSQL-derived grammar that DuckDB parses with.
- A NULL RINPERSOON is not modelled: keys are plain integers. DuckDB and polars never match a NULL key in a join, so such rows would reach no one.

## Behaviour of the code worth knowing

- The hop join of `transform` has no `DISTINCT` (netcbs/netcbs.py:416-428): repeated relationship rows are joined and counted as often as they occur (`Frames.StepSize`, `Frames.FanoutCount`, `Frames.JoinRecordsCount`, `Frames.PresentCount`).
- `agg_funcs` names are put into the SQL text unchecked (netcbs/netcbs.py:433-435); the model takes them from `count`, `sum`, `min` and `max`.
- The anchor segment is never compared with `sample` (netcbs/netcbs.py:284-322); only the number of segments is checked.
- A hop with an empty code list, such as `Family[]` or `Family[ , ]`, passes `_check_context` and `validate_query`: the comprehension at netcbs/netcbs.py:120 skips blank pieces, and the empty set passes the subset test at netcbs/netcbs.py:138. `transform` then joins the codes into an empty `type_list` (netcbs/netcbs.py:409) and runs `WHERE RELATIE IN ()` (netcbs/netcbs.py:425), which fails (`NetcbsTransform.EmptyCodeListFails`). The legacy `check_context` already rejects it, because `int("")` raises.
- `transform` splits the stripped query on `" -> "` without stripping each segment or rejecting blank pieces (netcbs/netcbs.py:371); only `validate_query` does that (netcbs/netcbs.py:284-289).

## Findings

| source | as written | input that shows it | evidently intended | confidence | as-written member | corrected member |
|---|---|---|---|---|---|---|
| netcbs_.py:86-118 | `check_last_version` takes the highest version over every csv file in the folder, whatever its year, and `format_path` puts that version into the name of the requested year's file | folder holding `FAMILIENETWERKTAB2021V1.csv` and `FAMILIENETWERKTAB2022V2.csv`, year 2021: version 2 is chosen, and no 2021 file has it | the highest version among the files of the requested year, as `_check_last_version` in netcbs/netcbs.py:145-170 does | not executed | NetcbsLegacy.VersionFromOtherYear | Netcbs.CheckLastVersionSpec |
