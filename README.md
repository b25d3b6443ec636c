# fw_analyze_logs — parsing and counting engine

A Dafny model of the engine in `fw_log.py`: the class `fw_log_file` and the
line parser `fw_log_line`. The engine does four things:

- **Vendor selection.** The vendor tag picks the Fortinet or the Palo Alto
  pattern. Any other tag falls back to Fortinet with a notice.
- **Ingestion.** The constructor reads a prefix of the log file, bounded by
  `max_line`. It parses each line. A matched line yields the `groupdict()`
  of the match and an unmatched one yields `None`; the entry goes into
  `log_content`. The object keeps the counters `matched_lines` and
  `ignored_lines` and the raw text of the unmatched lines.
- **Aggregation.** `get_log_matching` skips the unmatched entries. It builds,
  for each parsed line, the tuple of the values of the chosen unicity keys,
  with `None` for a missing field. It counts the tuples in an
  insertion-ordered `dict`.
- **Report.** `_order_unicity_dict` turns each dictionary entry into a row:
  the tuple's values, then the count. It sorts the rows by count, highest
  first, with Python's stable `sorted`, and puts the header row
  `keys + ["hit"]` in front.

The modules follow the program:

- `wrappers.dfy`: `Option`, standing for Python's `None`-or-value.
- `ordered_dict.dfy`: Python's insertion-ordered `dict`, as a key sequence
  plus a map.
- `log_line.dfy`: the patterns, vendor selection and `_regexp_on_line`.
- `aggregation.dfy`: the counting dictionary as a function of the parsed
  lines.
- `report.dfy`: the report rows and the stable sort.
- `fw_log_file.dfy`: the class `FwLogFile`, whose constructor and methods
  update its fields as the source does. It also holds the ingestion
  specification and the lemmas that tie the pieces together.

The regular-expression engine is a parameter (`Engine`). For a pattern and a
line it says whether the pattern matches and, if so, what each named group
that took part captured. The two patterns are modelled by their vendor and
their named groups, in declaration order.

Four facts about the code that the model keeps:

- The header's last cell is `"hit"`.
- Aggregation has one level, from the key tuple to a count. There is no
  output-key level.
- Tied rows keep the dictionary's insertion order, which is the order in
  which their tuples first appeared. This comes from the stable sort; there
  is no lexicographic tie-break.
- Only `max_line == -1` means "the whole file". Any other negative bound
  processes no line, because the loop is `range(max_line)`.

## Model

| member | source | states |
|---|---|---|
| LogLine.SelectPattern | fw_log.py:43-49 | "Palo Alto" selects the Palo Alto pattern. Every other tag, "Fortinet" included, selects the Fortinet pattern. The unknown-tag notice is given exactly for tags other than the two known ones. The selected pattern has named groups. |
| LogLine.GroupDictEntries | fw_log.py:238-239 | `groupdict()` has one key per named group. A group that took part maps to its capture; any other group maps to None. |
| LogLine.RegexpOnLineGroups | fw_log.py:234-241 | `line_content` is None exactly when the pattern does not match. On a match it is the dictionary of all the pattern's groups, with captures or None. |
| LogLine.Match | fw_log.py:236-237 | `re.compile(self.regexp).match(log_line)`, reduced to the captures of the named groups; `RegexpOnLineGroups` states how its result becomes `line_content`. |
| LogLine.Truthy | fw_log.py:104 | Python's truth value of a parsed line, tested by `not line_content` and `not log_line_dict` (fw_log.py:206); `MatchIsTruthy` and `AnalyzeLineMatches` state that it holds exactly on a match. |
| LogLine.RegexpOnLine | fw_log.py:234-241 | `_regexp_on_line`; its contract is stated by `RegexpOnLineGroups` and `MatchIsTruthy`. |
| LogLine.GroupDict | fw_log.py:239 | `groupdict()`; its contract is stated by `GroupDictEntries`. |
| LogLine.MatchIsTruthy | fw_log.py:103-104 | For a pattern with named groups, the parsed line is true in Python's sense exactly when the pattern matches. |
| FwLog.ProcessedCount | fw_log.py:58-62 | The number of lines processed is the whole file for -1 or for a bound past the end. Otherwise it is `max_line` when that is in range, and zero for any other negative bound. |
| FwLog.AnalyzeLine | fw_log.py:103-109 | The value `_analyze_line_log` returns; its contract is stated by `AnalyzeLineMatches`, and `AnalyzeLineLog` is proved to return it. |
| FwLog.Ingested | fw_log.py:62-65 | The entries the loop appends; its contract is stated by `IngestedEntries` and `IngestedCounts`, and the constructor is proved to produce it. |
| FwLog.Unmatched | fw_log.py:104-106 | The lines the loop keeps as ignored; its contract is stated by `UnmatchedLines`, `UnmatchedConcat`, `UnmatchedSingle` and `IngestedCounts`. |
| FwLog.AnalyzeLineMatches | fw_log.py:103-109 | `_analyze_line_log` returns None exactly when the pattern does not match. Otherwise it returns the group dictionary of the match. |
| FwLog.IngestedEntries | fw_log.py:62-65 | Ingestion adds exactly one entry per processed line, in file order. Each entry is that line's parse result. |
| FwLog.UnmatchedConcat | fw_log.py:104-106 | The ignored lines of `a + b` are those of `a` followed by those of `b`, so they are kept in file order. |
| FwLog.UnmatchedSingle | fw_log.py:104-106 | A single line is kept as ignored exactly when the pattern does not match it. With `UnmatchedConcat` this fixes the ignored lines, in order. |
| FwLog.IngestedCounts | fw_log.py:104-108 | Every processed line is counted once, as matched or as ignored. |
| FwLog.UnmatchedLines | fw_log.py:104-106 | The stored ignored lines are exactly the processed lines the pattern does not match. |
| FwLog.FwLogFile.constructor | fw_log.py:35-65 | Afterwards the counters agree with the collected entries and lines. An invalid file ingests nothing. Otherwise the entries and ignored lines are those of the first `ProcessedCount` lines, parsed with the pattern the tag selects. As in the source, `max_line` defaults to -1 and the tag to "Fortinet"; the engine is an extra parameter. |
| FwLog.FwLogFile.AnalyzeLineLog | fw_log.py:93-109 | A false parse result adds one to `ignored_lines`, keeps the line's text and returns None. A true one adds one to `matched_lines` and returns the parsed line. Nothing else changes. |
| Aggregation.Lookup | fw_log.py:211 | `record.get(key, None)`; its contract is stated through `SelectTuple`'s ensures. |
| Aggregation.SelectTuple | fw_log.py:210-212 | The tuple has one cell per unicity key, in key order. A key the record has gives its value; a missing key gives None rather than being skipped. |
| Aggregation.Selected | fw_log.py:199-212 | The unmatched entries are skipped: there is one tuple per parsed line, each as long as the key list. |
| OrderedDict.Get | fw_log.py:215 | `unicity_dict.get(unique_in_list, False)`; `IncrementCounts` and `TallyCounts` state the counts the test leads to. |
| OrderedDict.Set | fw_log.py:216-218 | Assignment stores the value. An existing key keeps its place in the iteration order and a new key goes after all the others. The dictionary stays well formed. |
| Aggregation.Increment | fw_log.py:215-218 | The counting step keeps the dictionary well formed. |
| Aggregation.Tally | fw_log.py:198-218 | The counting dictionary is well formed. |
| Aggregation.TallyCounts | fw_log.py:199-218 | The dictionary's keys are exactly the distinct tuples of the parsed lines. Each count is the number of parsed lines with that tuple, and so is at least 1. |
| Aggregation.IncrementCounts | fw_log.py:214-218 | Counting one more tuple keeps the dictionary equal to the multiset of the tuples seen. |
| Aggregation.TallySum | fw_log.py:199-218 | The counts add up to the number of parsed lines. |
| Aggregation.TallyFirstOccurrenceOrder | fw_log.py:215-216 | The dictionary lists its tuples in the order of their first occurrence among the parsed lines. |
| Aggregation.EmptyKeysSingleBucket | fw_log.py:210-218 | With no unicity keys, all parsed lines fall into the single empty tuple, whose count is their number. With no parsed line the dictionary is empty. |
| Report.Header | fw_log.py:140 | `list(unicity_in_keys) + ["hit"]`; `ReportFacts` states that it is row 0 of the report, and `ReportExample` shows its cells. |
| Report.DataRow | fw_log.py:131-133 | The tuple's values followed by the count; `RowsOf`, `ReportRowsAreEntries` and `ReportExample` state its use and its cells. |
| Report.HitOf | fw_log.py:137 | The sort key `operator.itemgetter(-1)`; `RowsOf`'s third ensures states that it is the entry's count, and the `SortByHitDesc*` lemmas state the order it induces. |
| Report.RowsOf | fw_log.py:129-134 | There is one row per dictionary entry, in dictionary order. Each row is the tuple's values followed by its count. |
| Report.RowsOfMembers | fw_log.py:129-134 | A row is among the built rows exactly when it is the row of one of the listed keys. |
| Report.RowsOfHitTotal | fw_log.py:129-134 | The counts of the built rows add up to the sum of the dictionary's values. |
| Report.InsertByHitPermutes | fw_log.py:137 | Inserting a row into the sorted rows adds exactly that row, and adds its count to the total. |
| Report.InsertByHitSorted | fw_log.py:137 | Inserting into rows sorted by decreasing count keeps them sorted. |
| Report.InsertByHitStable | fw_log.py:137 | The inserted row comes after every earlier row with the same count. |
| Report.SortByHitDesc | fw_log.py:137 | `sorted(..., key=itemgetter(-1), reverse=True)`; its contract is stated by `SortByHitDescPermutes`, `SortByHitDescSorted` and `SortByHitDescStable`. |
| Report.SortByHitDescPermutes | fw_log.py:137 | `sorted` returns a permutation of its input, so the total count is unchanged. |
| Report.SortByHitDescSorted | fw_log.py:137 | With `reverse=True`, counts never increase from one row to the next. |
| Report.SortByHitDescStable | fw_log.py:137 | The sort is stable: for each count, the rows with that count keep their input order. |
| Report.BuildReport | fw_log.py:128-141 | The value `_order_unicity_dict` returns; its contract is stated by `ReportFacts` and `ReportRowsAreEntries`, and `OrderUnicityDict` is proved to return it. |
| Report.ReportFacts | fw_log.py:128-141 | Row 0 is the header `keys + ["hit"]`. The data rows are the dictionary's rows, permuted, one per entry. Counts never increase down the table, tied rows keep dictionary order, and the counts add up to the sum of the values. |
| Report.ReportRowsAreEntries | fw_log.py:129-141 | A row is a data row of the report exactly when it is some entry's tuple values followed by that entry's count. |
| FwLog.FwLogFile.OrderUnicityDict | fw_log.py:112-143 | `_order_unicity_dict` returns the report: the header, then one row per entry. The rows are sorted by decreasing count and are a permutation of the entries' rows. |
| FwLog.FwLogFile.GetLogMatching | fw_log.py:196-223 | `get_log_matching` returns the report of the counting dictionary of `log_content`. Its counts never increase and add up to the number of parsed entries, which is `matched_lines`. |
| FwLog.ReportRowsAreCounts | fw_log.py:129-141 | For a dictionary holding the counts of a tuple sequence, the data rows are exactly the distinct tuples, each followed by its number of occurrences. |
| FwLog.ReportListsEveryTuple | fw_log.py:196-223 | Every distinct tuple of the parsed lines has its row in the report, with the number of parsed lines that have it. |
| FwLog.ReportRowIsTuple | fw_log.py:196-223 | Every data row of the report is the row of a tuple of the parsed lines, with its number of occurrences. |
| FwLog.TallyRepeated | fw_log.py:199-218 | A record seen twice around an unparsed line, then a record with another tuple: the first tuple is counted twice and listed first. |
| FwLog.TallyTwoDistinct | fw_log.py:199-218 | Two records with different tuples are counted once each, in the order they were seen. |
| FwLog.ReportOfTwo | fw_log.py:129-141 | A two-entry dictionary whose first count is not below the second reports its entries in dictionary order. |
| FwLog.ReportExample | fw_log.py:196-223 | Two identical accepted connections, an unparsed line and one denied connection, grouped by source and destination, give the header, then ("1.1.1.1", "2.2.2.2", 2), then ("3.3.3.3", "2.2.2.2", 1). |
| FwLog.ReportTieExample | fw_log.py:137-141 | Two tuples seen once each are reported in the order they were first seen. |

## Left out

- The regular expressions (fw_log.py:13-32): Python's `re` engine is not modelled. Matching is the `Engine` parameter, and a pattern is known only by its vendor and its named groups. The triple-quoted text at fw_log.py:18-23 is not code.
- The file system (`_is_file`, `_get_content`, fw_log.py:68-90): the file is given as its lines, or as None when the path is not a regular file.
- FwLog.FwLogFile.constructor: for an invalid file the source returns without setting `log_lines`; the model sets it to the empty sequence.
- The `tqdm` progress bar (fw_log.py:62): it only observes the loop.
- The console notices (fw_log.py:48, 53): only whether the unknown-tag notice is printed is modelled (`VendorChoice.unknownTag`).
- `cls` and the interactive `select_unicity_criterias` (fw_log.py:146-193): these are screen and keyboard interaction.
- The class-level lists `log_content` and `ignored_lines_content` (fw_log.py:10-11) are shared by every instance in Python. The model gives each object its own, which is what the first object created sees.
- The test `len(key_value) == 2` (fw_log.py:130) always holds for a dictionary item, so the model always takes that branch.
- Records are maps, so the field order of `groupdict()` is not modelled. Only the left-out `select_unicity_criterias` depends on it.
- A report cell is a key name or value, `None`, or a count (`Cell`). Python's mixed-type lists are not modelled beyond that.
- analyze_log.py (the driver and the result-file writer) is not part of this model.
