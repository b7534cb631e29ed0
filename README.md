# Vehicle data extraction and availability timelines

A Dafny model of the two algorithmic stages of a tool that reads the vehicle
definitions of the game *Workers & Resources: Soviet Republic* and charts the
years in which each kind of vehicle can be bought.

- **Extraction** (`extract.py`):
  - `load_btf_mapping` reads the text export of the game's string file into an
    id-to-text table.
  - `parse_script_ini` turns the `$DIRECTIVE` lines of one vehicle's
    `script.ini` into a record. It resolves name and country ids through the
    table, lets a skill override the resource transport type, and sorts the
    vehicle into a sheet (road, rail, water, air, other).
  - The loop of `gather_all_vehicle_data` drops excluded vehicles and vehicles
    outside the requested year, then appends each remaining record to the list
    of its sheet.
- **Timelines** (`generate_vehicle_diagrams.py`):
  - Incomplete or non-numeric rows of a sheet are dropped.
  - The rows of one (vehicle type, transport type) group become year intervals,
    with each end clipped to 2020 (the ceiling is a parameter).
  - The intervals are sorted and strictly overlapping ones are merged. Touching
    intervals stay apart.
  - A gap is reported between every two consecutive merged intervals, including
    zero-width gaps between touching ones.

Modules, one per file:

- `Wrappers`: `Option`.
- `Strings`: character classes, strip, replace, lower-casing, digit strings.
- `StringTable`: the string table.
- `Directives`: recognising one script line.
- `ScriptParser`: one record.
- `Collector`: the gathering loop.
- `Timeline`: the interval analysis.

Each loop of the source is a method. It is proved equal to a specification
function, and the properties are lemmas about that function:

| method | specification function |
|---|---|
| `LoadStringTable` | `LastText` |
| `ReadDirectives` | `Interpret` |
| `Collect` | `Bucket` |
| `MergeIntervals` | `MergeAll` |
| `FindGaps` | `GapsOf` |

Two places where the code does more than its own comments say; the model
follows the code:

- **Sort order.** The comment at `generate_vehicle_diagrams.py:64` speaks of
  intervals sorted by start year. Line 67 sorts `(start, end)` tuples, which
  also orders equal starts by their end. `Timeline.Sort` uses the tuple order.
- **Sorting twice.** Line 29 sorts a group's rows by start year, line 32 clips
  the end years, and line 67 sorts the tuples again. `Timeline.SortIgnoresOrder`
  shows that the final sort does not depend on the order of its input, so the
  model sorts once, after clipping.

The regular expressions of `parse_script_ini` are modelled twice. The ghost
predicate `Directives.Matches` states declaratively where a pattern matches:
the text has the pattern's layout at that position, given by split points
such as whitespace on `[a, b)` and a maximal digit run on `[b, c)`. The
matchers (`MatchAt` and the recognisers it calls) compute the match. They are
proved equal to `Matches` in both directions.

## Model

| member | source | states |
|---|---|---|
| Strings.IsSpace | extract.py:70 | `\s` is Python's whitespace set: the ASCII spaces and controls and the Unicode separators |
| Strings.StartsWith | extract.py:66 | `line.startswith(p)`: `p` is the line's first `|p|` characters |
| Strings.Contains | extract.py:105 | `p in line`: the line has `p` at some position |
| Strings.ReplaceAll | extract.py:101 | `str.replace`: every character of the result comes from the text or the replacement |
| Strings.ReplaceChar | extract.py:101 | `.replace("_", " ")`: same length, every `_` becomes a space and every other character stays |
| Strings.Lower | extract.py:101 | `.lower()`: same length, each ASCII capital becomes its small letter and every other character stays |
| Strings.DigitsValue | extract.py:76 | `int()` of a digit run: the decimal value of its digits, leading zeros allowed |
| Strings.NatToString | extract.py:77 | `f"{name_id}"`: a digit string with no leading zero |
| Strings.DigitsValueOfNatToString | extract.py:76-77 | `int()` of the decimal rendering of a number gives the number back |
| Strings.Strip | extract.py:37 | the result is the line with whitespace cut from its two ends and nothing else; it neither starts nor ends with whitespace, and a line without outer whitespace is unchanged |
| Strings.ReplaceAllAbsent | extract.py:101 | `replace` of a pattern that does not occur leaves the text unchanged |
| Strings.ReplaceAllPrefix | extract.py:108 | `replace` on a text that starts with the pattern replaces that first occurrence and goes on with the rest |
| StringTable.MatchEntry | extract.py:34 | a match has the layout `String`, whitespace, digits, `:`, whitespace, a quote, a text without line break, and a final quote at the end of the line; its id is the value of those digits and its text lies between the quotes |
| StringTable.MatchEntryComplete | extract.py:34 | every line with that layout matches, whatever the amount of whitespace, giving that id and that text |
| StringTable.ParseEntry | extract.py:37 | each line is stripped before it is matched |
| StringTable.Fails | extract.py:39 | a matching line whose text the `unicode_escape` decoding rejects |
| StringTable.Store | extract.py:38-39 | a matching line whose text decodes sets its id to the decoded text and leaves every other id as it was; a line that does not match changes nothing |
| StringTable.Entries | extract.py:35-36 | one match result per line of the export, in order |
| StringTable.LastText | extract.py:35-39 | the text of the last line that defines the id, if any; what the loop's table is proved equal to |
| StringTable.MatchEntryOfLayout | extract.py:34 | every line laid out as `String <digits>: "<text>"` matches, giving the id the digits denote and the text |
| StringTable.EntryRoundTrip | extract.py:34-39 | the line written for an entry whose text has no line break is read back as that same entry |
| StringTable.LastTextDefined | extract.py:36-39 | an id gets a text exactly when some line of the export defines it |
| StringTable.LastTextIsLastDefinition | extract.py:36-39 | the text of an id is the one on the last line that defines it; no later line defines it again |
| StringTable.StoreMirrors | extract.py:37-39 | storing one more line's match, when its text decodes, keeps the table equal to the decoded last definitions of the lines read so far |
| StringTable.LoadStringTable | extract.py:32-40 | nothing is returned exactly when some matching line's text does not decode (the `unicode_escape` error); otherwise the table has a key exactly for the ids some line defines, and maps each to the decoded text of the last such line |
| Directives.Matches | extract.py:70-131 | the layout each regex demands at a position, given by split points, and the groups it captures there |
| Directives.NumberAt | extract.py:74 | a result is whitespace followed by a whole digit run (`\s+(\d+)`), and gives where that run starts and ends |
| Directives.NumberAtComplete | extract.py:74 | whitespace followed by a maximal digit run is always read, and read whole |
| Directives.QuotedAt | extract.py:70 | a result is whitespace, an opening quote, and the first later quote with no line break before it (`\s+"(.*?)"`) |
| Directives.QuotedAtComplete | extract.py:70 | that layout is always found, closing at the first quote |
| Directives.WordAt | extract.py:99 | a result is whitespace followed by a whole non-space run (`\s+(\S+)`) |
| Directives.WordAtComplete | extract.py:99 | whitespace followed by a maximal non-space run is always read whole |
| Directives.UpperRunAt | extract.py:106 | a `[A-Z_]+` run is non-empty and maximal, and there is none exactly when the next character is outside the class |
| Directives.SkillAt | extract.py:106 | a result is `$SKILL_`, a maximal `[A-Z_]` run, whitespace and a whole digit run |
| Directives.SkillAtComplete | extract.py:106 | every text with that layout is matched with those split points |
| Directives.VehicleTypeAt | extract.py:112 | a result is `$TYPE`, whitespace, then `VEHICLETYPE_` and a maximal `[A-Z_]` run |
| Directives.VehicleTypeAtComplete | extract.py:112 | every text with that layout is matched with those split points |
| Directives.NumberMatch | extract.py:74-75 | a `<token>\s+(\d+)` match starts with the token and captures the whole digit run after the whitespace |
| Directives.NumberMatchComplete | extract.py:74-75 | every such layout after the token is matched, with that digit run |
| Directives.TwoNumbersMatch | extract.py:79-81 | a `$AVAILABLE`-style match captures the two whole digit runs that follow the token, each after whitespace |
| Directives.TwoNumbersMatchComplete | extract.py:79-81 | every such layout is matched, with those two runs |
| Directives.QuotedMatch | extract.py:70-72 | a `<token>\s+"(.*?)"` match captures the text up to the first closing quote, with no quote or line break in it |
| Directives.QuotedMatchComplete | extract.py:70-72 | every such layout is matched, with that text |
| Directives.WordMatch | extract.py:99-100 | a `<token>\s+(\S+)` match captures the whole non-space run after the whitespace |
| Directives.WordMatchComplete | extract.py:99-100 | every such layout is matched, with that run |
| Directives.SkillMatch | extract.py:106-107 | a skill match captures `SKILL_` and its upper-case tail as the tag, and the whole digit run after the whitespace |
| Directives.SkillMatchComplete | extract.py:106-107 | every skill layout is matched, with its tag and number |
| Directives.VehicleTypeMatch | extract.py:112-114 | a type match captures the whole `VEHICLETYPE_[A-Z_]+` tag after the whitespace |
| Directives.VehicleTypeMatchComplete | extract.py:112-114 | every type layout is matched, with its tag |
| Directives.MatchAt | extract.py:70-131 | a match at a position starts with the pattern's literal text, its groups have the pattern's shape, and the text has the pattern's layout there with exactly those groups |
| Directives.MatchAtComplete | extract.py:70-131 | wherever the text has the pattern's layout, the matcher returns that layout's groups |
| Directives.MatchAtIff | extract.py:70-131 | matching at a position is exactly the declarative regex semantics `Matches` |
| Directives.FirstMatch | extract.py:70-131 | the first attempt that matches is returned, and none is returned only when every attempt fails |
| Directives.Search | extract.py:70-131 | the groups returned by `re.search` have the pattern's shape |
| Directives.SearchIsLeftmost | extract.py:70-131 | `re.search` returns the match at the leftmost position where the pattern matches, and nothing when it matches nowhere |
| Directives.SearchFindsLeftmost | extract.py:70-131 | `re.search` returns the groups of the leftmost position where the text has the pattern's layout |
| Directives.CleanTag | extract.py:108-115 | the cleaned tag has no underscore, and an upper-case tag becomes lower-case letters and spaces |
| Directives.CleanResourceType | extract.py:101-104 | the resource type is cleaned like any tag, except that `passanger` becomes `passenger`; the result is never `passanger` |
| Directives.CleanTagOfPrefixed | extract.py:108-115 | a tag made of the prefix and a body without the prefix cleans to the body, lower-cased, with spaces for underscores |
| Directives.Build | extract.py:69-134 | the directive a branch writes from its groups is of that branch's kind, never an exclusion or no effect, and captured years and capacities are digit strings |
| Directives.Take | extract.py:69-134 | a selected branch yields the directive of its own kind or no effect; captured years and capacities are digit strings |
| Directives.TakeLeftmost | extract.py:69-134 | when the branch's regex first matches the line at position `j` with groups `g`, the branch writes what `g` says |
| Directives.TakeNoEffect | extract.py:69-134 | a branch has no effect exactly when its regex matches nowhere in the line |
| Directives.Chain | extract.py:69-134 | the branches of the `elif` chain in source order: `$NAME_STR`, `$NAME`, `$AVAILABLE`, `$RESOURCE_CAPACITY`, `$COST_RUB`, `$COST_USD`, `$MOVEMENT_SPEED`, `$RESOURCE_TRANSPORT_TYPE`, `$SKILL_`, `$TYPE`, `$COUNTRY` |
| Directives.Selects | extract.py:69-130 | the test of each branch: `startswith` of its token, except the skill branch, which tests `"$SKILL_" in line` |
| Directives.PatternOf | extract.py:70-131 | the regex each branch searches with: quoted text for `$NAME_STR`, two numbers for `$AVAILABLE`, a word for the resource type, the skill and type tags, and one number for the rest |
| Directives.FirstBranch | extract.py:69-134 | the first selected branch of the `elif` chain never excludes; captured years and capacities are digit strings |
| Directives.Classify | extract.py:65-134 | a line excludes the vehicle exactly when it starts with `$PURCHASE_EXCLUDE`; captured years and capacities are digit strings |
| Directives.FirstBranchSkips | extract.py:69-134 | branches whose tests fail are passed over: the chain then behaves as the rest of it |
| Directives.FirstBranchHead | extract.py:69-134 | when the first remaining branch is selected, its body decides the line |
| Directives.ClassifySkips | extract.py:65-134 | for a line that does not exclude, failing earlier tests leaves the line to the later branches |
| Directives.ClassifyPicksFirst | extract.py:65-134 | the first branch whose test passes decides the line, and a line no test selects has no effect |
| Directives.NameStrIsLiteral | extract.py:69-77 | a `$NAME_STR` line is never read as a `$NAME` id: it gives a literal name or nothing |
| Directives.SkillBranchReached | extract.py:105-110 | a line containing `$SKILL_` that no earlier test selects is decided by the skill branch |
| Directives.SkillBeforeTypeAndCountry | extract.py:105-134 | a `$TYPE` or `$COUNTRY` line that contains `$SKILL_` is taken by the skill branch: it sets a skill or nothing |
| Directives.ClassifyAt | extract.py:65-134 | a line that the `j`-th test is the first to select, laid out as that branch's regex at its start, is decided by the groups of that layout |
| Directives.NameStrLine | extract.py:69-72 | `$NAME_STR "<text>"` sets the literal name to the text up to the first closing quote |
| Directives.NameLine | extract.py:73-77 | `$NAME <digits>` refers to the name id the digits denote |
| Directives.AvailableLine | extract.py:78-81 | `$AVAILABLE <digits> <digits>` sets the first and last years to the two digit runs |
| Directives.CapacityLine | extract.py:82-85 | `$RESOURCE_CAPACITY <digits>` sets the capacity to the digit run |
| Directives.CostRubLine | extract.py:86-89 | `$COST_RUB <digits>` sets the rouble price to the digit run |
| Directives.CostUsdLine | extract.py:90-93 | `$COST_USD <digits>` sets the dollar price to the digit run |
| Directives.SpeedLine | extract.py:94-97 | `$MOVEMENT_SPEED <digits>` sets the speed to the digit run |
| Directives.ResourceTypeLine | extract.py:98-104 | `$RESOURCE_TRANSPORT_TYPE <word>` sets the resource type to the cleaned word |
| Directives.SkillLine | extract.py:105-110 | `$SKILL_<TAG> <digits>` gives the cleaned tag as skill and the digit run as its capacity |
| Directives.TypeLine | extract.py:111-116 | `$TYPE VEHICLETYPE_<TAG>` without `$SKILL_` sets the vehicle type to the cleaned tag |
| Directives.CountryLine | extract.py:130-134 | `$COUNTRY <digits>` without `$SKILL_` refers to the country id the digits denote |
| ScriptParser.Category | extract.py:117-128 | the sheet of a vehicle type is one of the five, and each sheet is chosen exactly under its own prefix test |
| ScriptParser.PrefixesExclusive | extract.py:117-128 | the sheet tests exclude one another, so their order does not matter |
| ScriptParser.ResolveFallback | extract.py:74-77 | a known id resolves to its text; an unknown one to the prefix followed by digits without leading zeros that read back as the id |
| ScriptParser.Resolve | extract.py:74-77 | a known id gives its text, an unknown one the fallback prefix followed by the id in decimal, as the f-string writes it |
| ScriptParser.Writes | extract.py:69-134 | which dictionary entry the branch of each directive assigns |
| ScriptParser.Value | extract.py:69-134 | the value each branch assigns to its entry; the name and country ids go through the table with their `Unknown…ID_` fallbacks |
| ScriptParser.Latest | extract.py:65-134 | the last directive that writes a field; it does write that field |
| ScriptParser.Classified | extract.py:65-134 | one directive per line, in line order |
| ScriptParser.ClassifiedAt | extract.py:65-134 | the `i`-th directive is the classification of the `i`-th line |
| ScriptParser.Excluded | extract.py:66-68 | some line is an exclusion |
| ScriptParser.Entry | extract.py:44-134 | an entry of the dictionary after the loop: the value of the last directive writing it, or the initial "N/A" |
| ScriptParser.Apply | extract.py:69-134 | the record after one directive: each directive writes its own entries |
| ScriptParser.Fields | extract.py:65-134 | the record after applying each line's directive in order to an all-"N/A" record; what the loop is proved equal to |
| ScriptParser.ApplyWrites | extract.py:69-134 | a directive changes exactly the entries it writes |
| ScriptParser.Store | extract.py:69-134 | the dictionary assignments of a record-field branch of the loop body (name, years, capacity, prices, speed, type, country), made one after another on a record value, give exactly the record `Apply` describes |
| ScriptParser.Finish | extract.py:139-143 | the precedence step changes only the transport type and the capacity, and the capacity only to the skill's |
| ScriptParser.LastDirectiveWins | extract.py:65-134 | after the loop, each entry of the record is what the last line writing it says, or "N/A" if no line writes it |
| ScriptParser.SheetFollowsType | extract.py:111-129 | `_Sheet` is set exactly when some line gave a vehicle type, and is the category of the last one; the loop never sets the transport type |
| ScriptParser.ReadDirectives | extract.py:57-145 | the loop with its flags and the final precedence step returns exactly the record the line classification determines |
| ScriptParser.Interpret | extract.py:136-145 | no record exactly when some directive excludes |
| ScriptParser.Expected | extract.py:43-145 | the record `parse_script_ini` returns, as a function of the file's lines |
| ScriptParser.ParseScript | extract.py:43-145 | `parse_script_ini` returns exactly the expected record of the file's lines |
| ScriptParser.ExclusionIff | extract.py:65-137 | no record is returned exactly when some line starts with `$PURCHASE_EXCLUDE` |
| ScriptParser.NoEffectChangesNothing | extract.py:65-134 | a line with no effect changes no outcome |
| ScriptParser.UnmatchedLineChangesNothing | extract.py:65-134 | appending a line that no test selects, or whose regex fails, leaves the result unchanged |
| ScriptParser.TransportTypeRule | extract.py:139-143 | a non-empty last skill sets the transport type and replaces the capacity; otherwise a non-empty last resource type sets it, else it stays "N/A" |
| ScriptParser.OtherEntriesFromLastLine | extract.py:65-145 | every entry other than capacity and transport type is what the last line writing it says |
| ScriptParser.SheetOnlyFromType | extract.py:111-129 | `_Sheet` is present exactly when a `$TYPE` line matched; it is then the category of the recorded vehicle type; when absent the vehicle type is "N/A" |
| ScriptParser.YearsDigitsOrNA | extract.py:78-81 | the two years are both "N/A" or both digit strings captured by one `$AVAILABLE` line |
| Collector.SheetName | extract.py:175 | a record goes to its `_Sheet`, or to `other` when it has none |
| Collector.Parsed | extract.py:164-166 | one `parse_script_ini` result per file, in order |
| Collector.Gathered | extract.py:164-173 | the parsed, unexcluded, year-matching records, in file order |
| Collector.OnSheet | extract.py:175-176 | the records that go to a sheet, in order, never more than were read |
| Collector.Bucket | extract.py:164-176 | the list of a sheet: the parsed, unexcluded, year-matching records of that sheet, in file order; what the loop's dictionary is proved equal to |
| Collector.GatheredStep | extract.py:164-173 | reading one more record appends it exactly when it parsed and passes the year filter |
| Collector.Kept | extract.py:168-173 | the year filter: no filter or year 0 keeps every record; otherwise both years must be digit strings enclosing the year |
| Collector.AppendFiles | extract.py:175-176 | appending a vehicle to its sheet's list keeps each list equal to the kept vehicles of that sheet |
| Collector.Append | extract.py:175-176 | the vehicle is added at the end of its sheet's list, created empty if missing; every other list is unchanged |
| Collector.Collect | extract.py:148-178 | the dictionary has a key exactly for the sheets that received a vehicle, and each list holds, in order, the parsed, unexcluded, year-matching records of that sheet |
| Collector.OnSheetMembers | extract.py:175-176 | a vehicle is in a sheet's list exactly when it was kept and belongs to that sheet |
| Collector.GatheredMembers | extract.py:164-173 | a vehicle is kept exactly when some record parses to it and it passes the year filter |
| Collector.BucketMembers | extract.py:164-176 | a vehicle is in a sheet's list exactly when some file parses to it, it passes the filter and its `_Sheet` (or "other") is that sheet |
| Collector.SheetOfParsed | extract.py:117-129 | every parsed record goes to one of road, rail, water, air, other |
| Collector.BucketsAreCategories | extract.py:175-176 | only those five sheets ever appear as keys |
| Collector.FilterEnclosesYear | extract.py:168-173 | with a year filter, a listed vehicle has integer years that enclose the filter year |
| Collector.UnsetYearsDropped | extract.py:168-173 | a record whose years were never set is dropped by any non-zero year filter, and kept without a filter or with year 0 |
| Collector.YearFilterExample | extract.py:168-173 | a vehicle available 1980–1990 is kept for 1985 and dropped for 1995 |
| Timeline.Admissible | generate_vehicle_diagrams.py:20-23 | a row survives when its five fields are present and both years convert |
| Timeline.ToClean | generate_vehicle_diagrams.py:21-22 | the surviving row with its years converted |
| Timeline.ToNumeric | generate_vehicle_diagrams.py:21-22 | a cell converts exactly when it is a digit string, or a sign followed by one; the value is that of the digits, negated after a minus |
| Timeline.ToNumericOfRendered | generate_vehicle_diagrams.py:21-22 | a year written in decimal, with or without a minus sign, converts back to that year |
| Timeline.CleanRows | generate_vehicle_diagrams.py:20-23 | cleaning never adds rows |
| Timeline.CleanRowsMembers | generate_vehicle_diagrams.py:20-23 | a cleaned row is exactly the conversion of an input row with every required field and numeric years |
| Timeline.Clip | generate_vehicle_diagrams.py:32 | clipping keeps the start, and the end becomes the smaller of the end and the ceiling |
| Timeline.GroupIntervals | generate_vehicle_diagrams.py:26-32 | a group has at most one interval per row, and none ends after the ceiling |
| Timeline.GroupIntervalsMembers | generate_vehicle_diagrams.py:26-32 | an interval is in a group exactly when it is the clipped interval of a row with that vehicle type and transport type |
| Timeline.Insert | generate_vehicle_diagrams.py:67 | insertion adds exactly the new interval |
| Timeline.InsertSorted | generate_vehicle_diagrams.py:67 | insertion into a sorted list keeps it sorted |
| Timeline.Sort | generate_vehicle_diagrams.py:67 | `sorted` of tuples yields a permutation of its input in `(start, end)` order |
| Timeline.SortedUnique | generate_vehicle_diagrams.py:67 | two sorted permutations of the same intervals are equal |
| Timeline.SortIgnoresOrder | generate_vehicle_diagrams.py:29-67 | the sorted tuples do not depend on the order of the rows, so the earlier sort by start year changes nothing |
| Timeline.SortSorted | generate_vehicle_diagrams.py:67 | sorting an already sorted list leaves it unchanged |
| Timeline.Step | generate_vehicle_diagrams.py:71-80 | one merge step keeps the length or adds one interval, and never leaves the list empty |
| Timeline.StepRule | generate_vehicle_diagrams.py:71-80 | the list keeps its length exactly when the new interval starts strictly before the last merged end; that interval then keeps its start and ends at the later end, all before it unchanged; otherwise the new interval is appended as it is |
| Timeline.MergeAll | generate_vehicle_diagrams.py:70-80 | the merge never yields more intervals than it reads, and yields none only for no input |
| Timeline.MergeAllChain | generate_vehicle_diagrams.py:70-80 | after merging, each interval starts no earlier than the previous one ends: no two neighbours strictly overlap |
| Timeline.MergeSortedInvariant | generate_vehicle_diagrams.py:67-80 | merging sorted intervals gives sorted intervals, and the last one ends where some input interval it covers ends |
| Timeline.StepKeepsCovered | generate_vehicle_diagrams.py:71-80 | a merge step never uncovers an interval already covered |
| Timeline.MergeCovers | generate_vehicle_diagrams.py:67-80 | every input interval lies inside some merged interval |
| Timeline.MergeExact | generate_vehicle_diagrams.py:70-80 | every year inside a merged interval lies inside some input interval, whatever their order |
| Timeline.MergeChainIdentity | generate_vehicle_diagrams.py:70-80 | merging intervals that already do not overlap changes nothing |
| Timeline.MergeFixedPoint | generate_vehicle_diagrams.py:67-80 | sorting and merging the merged intervals again gives them back: merging is idempotent |
| Timeline.MergeIntervals | generate_vehicle_diagrams.py:70-80 | the loop that updates the last merged interval in place computes the merge |
| Timeline.GapsUpTo | generate_vehicle_diagrams.py:83-86 | at most one gap per pair of neighbours, and no gap ends before it starts |
| Timeline.FindGaps | generate_vehicle_diagrams.py:83-86 | the gap loop reports, in order, each neighbouring pair whose next start is not before the previous end |
| Timeline.GapsOf | generate_vehicle_diagrams.py:83-86 | at most one gap per pair of neighbours, none ending before it starts |
| Timeline.ChainGaps | generate_vehicle_diagrams.py:83-86 | over non-overlapping intervals every pair of neighbours gives a gap |
| Timeline.GapsOfMerged | generate_vehicle_diagrams.py:70-86 | after merging there is exactly one gap between each two consecutive merged intervals, from the earlier end to the later start |
| Timeline.AnalyzeGroup | generate_vehicle_diagrams.py:20-87 | for one group of a sheet: the merged intervals cover every clipped interval, every year inside a merged interval lies in some clipped interval, there are no more merged intervals than clipped ones, and one gap lies between each two of them |
| Timeline.TouchingIntervalsStayApart | generate_vehicle_diagrams.py:76-80 | intervals that touch but do not overlap are not merged |
| Timeline.TouchingIntervalsGapsAt | generate_vehicle_diagrams.py:83-86 | touching intervals produce a zero-width gap at the touching year |
| Timeline.TouchingIntervalsGaps | generate_vehicle_diagrams.py:70-86 | (1950,1960), (1965,1970), (1970,1980) give the gaps (1960,1965) and (1970,1970) |
| Timeline.ClipExample | generate_vehicle_diagrams.py:32 | a row for 1990–2099 becomes the interval (1990, 2020) under the 2020 ceiling |

## Left out

- `run_btftool` is not modelled. It runs an external program, and the string table's input is its output text, given as a sequence of lines.
- File and directory access is not modelled: reading the export with `utf-8-sig` (byte order mark removal), `readlines` on each `script.ini`, and the folder walk of `gather_all_vehicle_data`. The model takes the lines of every `script.ini` in the order found.
- The `unicode_escape` decoding of a table text is the function parameter `decode` of `StringTable.LoadStringTable`. It returns `None` where Python raises `UnicodeDecodeError`, and `LoadStringTable` then returns `None`. The exception is not caught at `extract.py:149`, so the whole run stops. That abort is not modelled: `Collector.Collect` takes a table that loaded.
- Character classes: `\d` and `int()` are modelled on ASCII digits, `.lower()` on ASCII letters, and `\s` with Python's whitespace characters. Non-ASCII digits and letters are not modelled.
- Timeline.ToNumeric: `pd.to_numeric` is modelled for integers (an optional sign and ASCII digits) only. Decimal, exponent and whitespace forms, and the floating-point years pandas produces, are not modelled.
- Workbook reading is not modelled. Which cell contents pandas reads as missing is not modelled: a `Row` gives each cell as an `Option`.
- Timeline.AnalyzeGroup: `groupby` over all groups of a sheet is not modelled. The model analyses one group, given by its vehicle type and transport type.
- The pandas sort by start year (`generate_vehicle_diagrams.py:29`) is not modelled, because `Timeline.SortIgnoresOrder` shows that it does not change the tuples sorted at line 67.
- Drawing is not modelled: `clean_text`, matplotlib, the printed gap warnings and the shaded regions. The gaps are returned as values instead.
- The Excel export, its sheet order and column sizing, and argument parsing are not modelled.
- The dictionary `data` of `parse_script_ini` is a record value that the loop reassigns (`ScriptParser.Store`). No other code holds a reference to it before it is returned, so no aliasing is lost.
- Script lines are classified one by one before the loop that folds them into the record. This is equivalent, because a line's classification does not depend on earlier lines.
