/**
 * `fw_log_file`: reads a prefix of a firewall log, parses each line with the
 * vendor's pattern, keeps the parsed lines and the unmatched ones with their
 * counters, and reports how often each combination of selected fields occurs.
 *
 * The file system is not modelled: the file is given as its lines, or as None
 * when the path is not a regular file.
 */
module FwLog {
  import opened Wrappers
  import opened OrderedDict
  import opened LogLine
  import opened Aggregation
  import opened Report

  /**
   * How many leading lines of a file of `lineCount` lines are parsed for a
   * given `max_line`: the whole file for -1 or for a bound past its end, the
   * first `max_line` lines otherwise, and none for any other negative bound.
   */
  function ProcessedCount(lineCount: nat, maxLine: int): (n: nat)
    ensures n <= lineCount
    ensures maxLine == -1 || maxLine > lineCount ==> n == lineCount
    ensures 0 <= maxLine <= lineCount ==> n == maxLine
    ensures maxLine < -1 ==> n == 0
  {
    if maxLine == -1 then lineCount
    else if maxLine < 0 then 0
    else if maxLine < lineCount then maxLine
    else lineCount
  }

  /** The value `_analyze_line_log` returns: the parsed line when it is true, None otherwise. */
  function AnalyzeLine(engine: Engine, p: Pattern, line: string): Option<Record> {
    var lineContent := RegexpOnLine(engine, p, line);
    if Truthy(lineContent) then lineContent else None
  }

  /** The entries `log_content` gains for `lines`, one per line. */
  function Ingested(lines: seq<string>, p: Pattern, engine: Engine): seq<Option<Record>> {
    if lines == [] then []
    else Ingested(lines[..|lines| - 1], p, engine) + [AnalyzeLine(engine, p, lines[|lines| - 1])]
  }

  /** The lines `ignored_lines_content` gains for `lines`: those that were not parsed, in order. */
  function Unmatched(lines: seq<string>, p: Pattern, engine: Engine): seq<string> {
    if lines == [] then []
    else
      var rest, line := Unmatched(lines[..|lines| - 1], p, engine), lines[|lines| - 1];
      if AnalyzeLine(engine, p, line).None? then rest + [line] else rest
  }

  /**
   * A line is ignored exactly when the pattern does not match it; otherwise
   * its entry is the group dictionary of the match.
   */
  lemma AnalyzeLineMatches(engine: Engine, p: Pattern, line: string)
    requires |p.groupNames| > 0
    ensures AnalyzeLine(engine, p, line).None? <==> Match(engine, p, line).None?
    ensures Match(engine, p, line).Some? ==> AnalyzeLine(engine, p, line) == RegexpOnLine(engine, p, line)
  {
    MatchIsTruthy(engine, p, line);
  }

  /**
   * Ingesting `lines` adds one entry per line, in order: None for a line the
   * pattern does not match, its group dictionary otherwise.
   */
  lemma {:induction false} IngestedEntries(lines: seq<string>, p: Pattern, engine: Engine)
    ensures |Ingested(lines, p, engine)| == |lines|
    ensures forall i :: 0 <= i < |lines| ==> Ingested(lines, p, engine)[i] == AnalyzeLine(engine, p, lines[i])
  {
    if lines != [] {
      var pre := lines[..|lines| - 1];
      IngestedEntries(pre, p, engine);
      var entries := Ingested(lines, p, engine);
      assert entries == Ingested(pre, p, engine) + [AnalyzeLine(engine, p, lines[|lines| - 1])];
      forall i | 0 <= i < |lines| ensures entries[i] == AnalyzeLine(engine, p, lines[i]) {
        if i < |pre| {
          assert pre[i] == lines[i];
        }
      }
    }
  }

  /** Every ingested line is either matched or ignored. */
  lemma {:induction false} IngestedCounts(lines: seq<string>, p: Pattern, engine: Engine)
    ensures MatchedCount(Ingested(lines, p, engine)) + |Unmatched(lines, p, engine)| == |lines|
  {
    if lines != [] {
      var pre, line := lines[..|lines| - 1], lines[|lines| - 1];
      IngestedCounts(pre, p, engine);
      MatchedCountAppend(Ingested(pre, p, engine), AnalyzeLine(engine, p, line));
    }
  }

  /** The ignored lines are exactly the lines the pattern does not match. */
  lemma {:induction false} UnmatchedLines(lines: seq<string>, p: Pattern, engine: Engine)
    requires |p.groupNames| > 0
    ensures forall line :: line in Unmatched(lines, p, engine) <==> line in lines && Match(engine, p, line).None?
  {
    if lines != [] {
      var pre, line := lines[..|lines| - 1], lines[|lines| - 1];
      UnmatchedLines(pre, p, engine);
      AnalyzeLineMatches(engine, p, line);
      assert lines == pre + [line];
    }
  }

  /**
   * The ignored lines of a concatenation are those of the first part followed
   * by those of the second: they are kept in file order.
   */
  lemma {:induction false} UnmatchedConcat(a: seq<string>, b: seq<string>, p: Pattern, engine: Engine)
    ensures Unmatched(a + b, p, engine) == Unmatched(a, p, engine) + Unmatched(b, p, engine)
  {
    if b == [] {
      assert a + b == a;
    } else {
      var pre, line := b[..|b| - 1], b[|b| - 1];
      UnmatchedConcat(a, pre, p, engine);
      assert (a + b)[..|a + b| - 1] == a + pre;
      assert (a + b)[|a + b| - 1] == line;
    }
  }

  /** A single line is kept as ignored exactly when the pattern does not match it. */
  lemma UnmatchedSingle(line: string, p: Pattern, engine: Engine)
    requires |p.groupNames| > 0
    ensures Unmatched([line], p, engine) == if Match(engine, p, line).None? then [line] else []
  {
    assert [line][..0] == [];
    AnalyzeLineMatches(engine, p, line);
  }

  /** Ingesting one more line appends its entry, and its text when it is ignored. */
  lemma IngestStep(lines: seq<string>, line: string, p: Pattern, engine: Engine)
    ensures Ingested(lines + [line], p, engine) == Ingested(lines, p, engine) + [AnalyzeLine(engine, p, line)]
    ensures Unmatched(lines + [line], p, engine) ==
      Unmatched(lines, p, engine) + if AnalyzeLine(engine, p, line).None? then [line] else []
  {
    assert (lines + [line])[..|lines|] == lines;
  }

  lemma MatchedCountAppend(content: seq<Option<Record>>, e: Option<Record>)
    ensures MatchedCount(content + [e]) == MatchedCount(content) + if Truthy(e) then 1 else 0
  {
    assert (content + [e])[..|content|] == content;
  }

  /**
   * Each distinct tuple of the parsed lines has its row in the report on
   * `content`, with the number of parsed lines that have it.
   */
  lemma ReportListsEveryTuple(content: seq<Option<Record>>, keys: seq<string>, t: Tuple)
    requires t in Selected(content, keys)
    ensures DataRow(t, multiset(Selected(content, keys))[t]) in BuildReport(Tally(content, keys), keys)[1..]
  {
    TallyCounts(content, keys);
    var d, s := Tally(content, keys), Selected(content, keys);
    ReportRowsAreCounts(d, s, keys, DataRow(t, multiset(s)[t]));
  }

  /** Every data row of the report on `content` is the row of one of its tuples, with its count. */
  lemma ReportRowIsTuple(content: seq<Option<Record>>, keys: seq<string>, row: Row)
    requires row in BuildReport(Tally(content, keys), keys)[1..]
    ensures exists t :: t in Selected(content, keys) && row == DataRow(t, multiset(Selected(content, keys))[t])
  {
    TallyCounts(content, keys);
    var d, s := Tally(content, keys), Selected(content, keys);
    ReportRowsAreCounts(d, s, keys, row);
  }

  /** The report of a dictionary holding the counts of `s` lists each tuple of `s` with its count. */
  lemma ReportRowsAreCounts(d: Dict<Tuple, int>, s: seq<Tuple>, keys: seq<string>, row: Row)
    requires OrderedDict.Valid(d)
    requires forall t :: t in d.items <==> t in s
    requires forall t :: t in d.items ==> d.items[t] == multiset(s)[t]
    ensures row in BuildReport(d, keys)[1..] <==> exists t :: t in s && row == DataRow(t, multiset(s)[t])
  {
    ReportRowsAreEntries(d, keys, row);
    if exists k :: k in d.items && row == DataRow(k, d.items[k]) {
      var k :| k in d.items && row == DataRow(k, d.items[k]);
      assert k in s && row == DataRow(k, multiset(s)[k]);
    }
    if exists t :: t in s && row == DataRow(t, multiset(s)[t]) {
      var t :| t in s && row == DataRow(t, multiset(s)[t]);
      assert t in d.items && row == DataRow(t, d.items[t]);
    }
  }

  /**
   * Two identical accepted connections, an unparsed line and one denied
   * connection, grouped by source and destination: the repeated pair comes
   * first with 2 hits.
   */
  lemma ReportExample(r1: Record, r2: Record)
    requires r1 == map["src_ip" := Some("1.1.1.1"), "dst_ip" := Some("2.2.2.2"), "action" := Some("accept")]
    requires r2 == map["src_ip" := Some("3.3.3.3"), "dst_ip" := Some("2.2.2.2"), "action" := Some("deny")]
    ensures
      BuildReport(Tally([Some(r1), None, Some(r1), Some(r2)], ["src_ip", "dst_ip"]), ["src_ip", "dst_ip"])
        == [[Text("src_ip"), Text("dst_ip"), Text("hit")],
            [Text("1.1.1.1"), Text("2.2.2.2"), Hit(2)],
            [Text("3.3.3.3"), Text("2.2.2.2"), Hit(1)]]
  {
    var keys := ["src_ip", "dst_ip"];
    var t1, t2 := [Some("1.1.1.1"), Some("2.2.2.2")], [Some("3.3.3.3"), Some("2.2.2.2")];
    ExampleTuples(r1, r2);
    TallyRepeated(r1, r2, keys);
    ReportOfTwo(Dict([t1, t2], map[t1 := 2, t2 := 1]), keys, t1, 2, t2, 1);
    ExampleRows();
  }

  lemma ExampleTuples(r1: Record, r2: Record)
    requires r1 == map["src_ip" := Some("1.1.1.1"), "dst_ip" := Some("2.2.2.2"), "action" := Some("accept")]
    requires r2 == map["src_ip" := Some("3.3.3.3"), "dst_ip" := Some("2.2.2.2"), "action" := Some("deny")]
    ensures |r1| > 0 && |r2| > 0
    ensures SelectTuple(r1, ["src_ip", "dst_ip"]) == [Some("1.1.1.1"), Some("2.2.2.2")]
    ensures SelectTuple(r2, ["src_ip", "dst_ip"]) == [Some("3.3.3.3"), Some("2.2.2.2")]
  {
    assert "src_ip" in r1 && "src_ip" in r2;
  }

  lemma ExampleRows()
    ensures Header(["src_ip", "dst_ip"]) == [Text("src_ip"), Text("dst_ip"), Text("hit")]
    ensures DataRow([Some("1.1.1.1"), Some("2.2.2.2")], 2) == [Text("1.1.1.1"), Text("2.2.2.2"), Hit(2)]
    ensures DataRow([Some("3.3.3.3"), Some("2.2.2.2")], 1) == [Text("3.3.3.3"), Text("2.2.2.2"), Hit(1)]
  {
  }

  /**
   * A record seen twice around an unparsed line, then a record with another
   * tuple: the first tuple is counted twice and listed first.
   */
  lemma TallyRepeated(r1: Record, r2: Record, keys: seq<string>)
    requires |r1| > 0 && |r2| > 0
    requires SelectTuple(r1, keys) != SelectTuple(r2, keys)
    ensures
      var t1, t2 := SelectTuple(r1, keys), SelectTuple(r2, keys);
      Tally([Some(r1), None, Some(r1), Some(r2)], keys) == Dict([t1, t2], map[t1 := 2, t2 := 1])
  {
    var t1, t2 := SelectTuple(r1, keys), SelectTuple(r2, keys);
    var c3 := [Some(r1), None, Some(r1)];
    TallyTwice(r1, keys);
    TallyStep(c3, Some(r2), keys);
    assert c3 + [Some(r2)] == [Some(r1), None, Some(r1), Some(r2)];
    IncrementNew(Dict([t1], map[t1 := 2]), t2);
    assert [t1] + [t2] == [t1, t2];
  }

  /** A record seen twice around an unparsed line is counted twice. */
  lemma TallyTwice(r: Record, keys: seq<string>)
    requires |r| > 0
    ensures
      var t := SelectTuple(r, keys);
      Tally([Some(r), None, Some(r)], keys) == Dict([t], map[t := 2])
  {
    var t := SelectTuple(r, keys);
    var c2 := [Some(r), None];
    TallyOnce(r, keys);
    TallyStep([Some(r)], None, keys);
    assert [Some(r)] + [None] == c2;
    TallyStep(c2, Some(r), keys);
    assert c2 + [Some(r)] == [Some(r), None, Some(r)];
    IncrementExisting(Dict([t], map[t := 1]), t);
    assert map[t := 1][t := 2] == map[t := 2];
  }

  /** A single record is counted once. */
  lemma TallyOnce(r: Record, keys: seq<string>)
    requires |r| > 0
    ensures
      var t := SelectTuple(r, keys);
      Tally([Some(r)], keys) == Dict([t], map[t := 1])
  {
    TallyStep([], Some(r), keys);
    assert [] + [Some(r)] == [Some(r)];
    IncrementNew(Dict([], map[]), SelectTuple(r, keys));
  }

  /** The counting loop's step: a true entry counts its tuple, any other leaves the dictionary as it is. */
  lemma TallyStep(content: seq<Option<Record>>, e: Option<Record>, keys: seq<string>)
    ensures Tally(content + [e], keys) ==
      if Truthy(e) then Increment(Tally(content, keys), SelectTuple(e.value, keys)) else Tally(content, keys)
  {
    assert (content + [e])[..|content|] == content;
  }

  /** A tuple seen for the first time is stored with 1 after all the others. */
  lemma IncrementNew(d: Dict<Tuple, int>, t: Tuple)
    requires OrderedDict.Valid(d) && t !in d.items
    ensures Increment(d, t) == Dict(d.keys + [t], d.items[t := 1])
  {
  }

  /** A tuple seen before keeps its place and has its count raised by one. */
  lemma IncrementExisting(d: Dict<Tuple, int>, t: Tuple)
    requires OrderedDict.Valid(d) && t in d.items && d.items[t] != 0
    ensures Increment(d, t) == Dict(d.keys, d.items[t := d.items[t] + 1])
  {
  }

  /** Two lines seen once each: the tied rows keep the order in which their tuples first appeared. */
  lemma ReportTieExample(r1: Record, r2: Record)
    requires r1 == map["src_ip" := Some("1.1.1.1")]
    requires r2 == map["src_ip" := Some("3.3.3.3")]
    ensures
      BuildReport(Tally([Some(r2), Some(r1)], ["src_ip"]), ["src_ip"])
        == [[Text("src_ip"), Text("hit")], [Text("3.3.3.3"), Hit(1)], [Text("1.1.1.1"), Hit(1)]]
  {
    var keys := ["src_ip"];
    var t1, t2 := [Some("1.1.1.1")], [Some("3.3.3.3")];
    TieTuples(r1, r2);
    TallyTwoDistinct(r2, r1, keys);
    ReportOfTwo(Dict([t2, t1], map[t2 := 1, t1 := 1]), keys, t2, 1, t1, 1);
    TieRows();
  }

  lemma TieTuples(r1: Record, r2: Record)
    requires r1 == map["src_ip" := Some("1.1.1.1")]
    requires r2 == map["src_ip" := Some("3.3.3.3")]
    ensures |r1| > 0 && |r2| > 0
    ensures SelectTuple(r1, ["src_ip"]) == [Some("1.1.1.1")]
    ensures SelectTuple(r2, ["src_ip"]) == [Some("3.3.3.3")]
  {
    assert "src_ip" in r1 && "src_ip" in r2;
  }

  lemma TieRows()
    ensures Header(["src_ip"]) == [Text("src_ip"), Text("hit")]
    ensures DataRow([Some("3.3.3.3")], 1) == [Text("3.3.3.3"), Hit(1)]
    ensures DataRow([Some("1.1.1.1")], 1) == [Text("1.1.1.1"), Hit(1)]
  {
  }

  /** Two records with different tuples are counted once each, in the order they were seen. */
  lemma TallyTwoDistinct(r1: Record, r2: Record, keys: seq<string>)
    requires |r1| > 0 && |r2| > 0
    requires SelectTuple(r1, keys) != SelectTuple(r2, keys)
    ensures
      var t1, t2 := SelectTuple(r1, keys), SelectTuple(r2, keys);
      Tally([Some(r1), Some(r2)], keys) == Dict([t1, t2], map[t1 := 1, t2 := 1])
  {
    var t1, t2 := SelectTuple(r1, keys), SelectTuple(r2, keys);
    TallyOnce(r1, keys);
    TallyStep([Some(r1)], Some(r2), keys);
    assert [Some(r1)] + [Some(r2)] == [Some(r1), Some(r2)];
    IncrementNew(Dict([t1], map[t1 := 1]), t2);
    assert [t1] + [t2] == [t1, t2];
  }

  /** A two-entry dictionary whose first count is not below the second reports its entries in order. */
  lemma ReportOfTwo(d: Dict<Tuple, int>, keys: seq<string>, t1: Tuple, n1: int, t2: Tuple, n2: int)
    requires t1 != t2 && n1 >= n2
    requires d == Dict([t1, t2], map[t1 := n1, t2 := n2])
    ensures OrderedDict.Valid(d)
    ensures BuildReport(d, keys) == [Header(keys), DataRow(t1, n1), DataRow(t2, n2)]
  {
    var a, b := DataRow(t1, n1), DataRow(t2, n2);
    assert RowsOf(d.keys, d.items) == [a, b];
    SortTwo(a, b);
  }

  lemma SortTwo(a: Row, b: Row)
    requires HitOf(a) >= HitOf(b)
    ensures SortByHitDesc([a, b]) == [a, b]
  {
    assert [a, b][..1] == [a] && [a][..0] == [];
    assert SortByHitDesc([a]) == [a];
    assert SortByHitDesc([a, b]) == InsertByHit(b, [a]);
    assert [a][1..] == [];
  }

  class FwLogFile {
    var matchedLines: nat
    var ignoredLines: nat
    var logContent: seq<Option<Record>>
    var ignoredLinesContent: seq<string>
    var logLines: seq<string>

    /** The counters agree with the collected entries and lines. */
    ghost predicate Valid()
      reads this
    {
      && matchedLines == MatchedCount(logContent)
      && matchedLines + ignoredLines == |logContent|
      && ignoredLines == |ignoredLinesContent|
    }

    /**
     * `fw_log_file(log_file, max_line, fw_type)`: picks the pattern for the
     * vendor tag, then parses the first lines of the file as `max_line` says.
     * A path that is not a regular file ingests nothing.
     */
    constructor (logFile: Option<seq<string>>, engine: Engine, maxLine: int := -1, fwType: string := "Fortinet")
      ensures Valid()
      ensures logFile.None? ==> logLines == [] && logContent == [] && ignoredLinesContent == []
      ensures logFile.Some? ==> logLines == logFile.value
      ensures logFile.Some? ==>
        var lines := logFile.value[..ProcessedCount(|logFile.value|, maxLine)];
        var p := SelectPattern(fwType).pattern;
        logContent == Ingested(lines, p, engine) && ignoredLinesContent == Unmatched(lines, p, engine)
    {
      matchedLines, ignoredLines := 0, 0;
      logContent, ignoredLinesContent, logLines := [], [], [];
      new;
      var lineRegexp := SelectPattern(fwType).pattern;
      if logFile.None? {
        return;
      }
      logLines := logFile.value;
      var m := maxLine;
      if m == -1 || m > |logLines| {
        m := |logLines|;
      }
      ghost var n := ProcessedCount(|logLines|, maxLine);
      assert m >= 0 ==> m == n;
      assert m < 0 ==> n == 0;
      var lineNumber := 0;
      ghost var visited: seq<string> := [];
      while lineNumber < m
        invariant 0 <= lineNumber <= n
        invariant logLines == logFile.value
        invariant visited == logLines[..lineNumber]
        invariant matchedLines + ignoredLines == |visited| == |logContent|
        invariant ignoredLines == |ignoredLinesContent|
        invariant logContent == Ingested(visited, lineRegexp, engine)
        invariant ignoredLinesContent == Unmatched(visited, lineRegexp, engine)
      {
        var lineContent := logLines[lineNumber];
        var entry := AnalyzeLineLog(lineContent, lineRegexp, engine);
        IngestStep(visited, lineContent, lineRegexp, engine);
        logContent := logContent + [entry];
        visited := visited + [lineContent];
        lineNumber := lineNumber + 1;
      }
      IngestedCounts(visited, lineRegexp, engine);
      assert lineNumber == n;
    }

    /**
     * `_analyze_line_log`: a false result (no match) counts the line as
     * ignored and keeps its text; a true one counts it as matched. The parsed
     * line or None is returned for the caller to store.
     */
    method AnalyzeLineLog(logLine: string, regexp: Pattern, engine: Engine) returns (entry: Option<Record>)
      modifies this
      ensures entry == AnalyzeLine(engine, regexp, logLine)
      ensures entry.Some? ==> Truthy(entry)
      ensures entry.None? ==>
        && ignoredLines == old(ignoredLines) + 1
        && ignoredLinesContent == old(ignoredLinesContent) + [logLine]
        && matchedLines == old(matchedLines)
      ensures entry.Some? ==>
        && matchedLines == old(matchedLines) + 1
        && ignoredLines == old(ignoredLines)
        && ignoredLinesContent == old(ignoredLinesContent)
      ensures logContent == old(logContent) && logLines == old(logLines)
    {
      var lineContent := RegexpOnLine(engine, regexp, logLine);
      if !Truthy(lineContent) {
        ignoredLines := ignoredLines + 1;
        ignoredLinesContent := ignoredLinesContent + [logLine];
        entry := None;
      } else {
        matchedLines := matchedLines + 1;
        entry := lineContent;
      }
    }

    /**
     * `_order_unicity_dict`: one row per dictionary entry, in dictionary
     * order, then sorted by count (highest first, stable), under the header.
     */
    method OrderUnicityDict(unicityDict: Dict<Tuple, int>, unicityInKeys: seq<string>) returns (unicityList: seq<Row>)
      requires OrderedDict.Valid(unicityDict)
      ensures unicityList == BuildReport(unicityDict, unicityInKeys)
      ensures unicityList[0] == Header(unicityInKeys)
      ensures |unicityList| == |unicityDict.keys| + 1
      ensures NonIncreasing(unicityList[1..])
      ensures multiset(unicityList[1..]) == multiset(RowsOf(unicityDict.keys, unicityDict.items))
    {
      unicityList := [];
      for i := 0 to |unicityDict.keys|
        invariant unicityList == RowsOf(unicityDict.keys[..i], unicityDict.items)
      {
        var key := unicityDict.keys[i];
        var unicityKey := DataRow(key, unicityDict.items[key]);
        assert unicityDict.keys[..i + 1] == unicityDict.keys[..i] + [key];
        unicityList := unicityList + [unicityKey];
      }
      assert unicityDict.keys[..|unicityDict.keys|] == unicityDict.keys;
      unicityList := SortByHitDesc(unicityList);
      unicityList := [Header(unicityInKeys)] + unicityList;
      ReportFacts(unicityDict, unicityInKeys);
    }

    /**
     * `get_log_matching`: counts the parsed lines by their values for the
     * unicity keys and returns the report. Its data rows hold every distinct
     * tuple once, with counts that never increase and add up to the number of
     * parsed lines.
     */
    method GetLogMatching(unicityKeys: seq<string>) returns (unicityList: seq<Row>)
      ensures unicityList == BuildReport(Tally(logContent, unicityKeys), unicityKeys)
      ensures unicityList[0] == Header(unicityKeys)
      ensures NonIncreasing(unicityList[1..])
      ensures HitTotal(unicityList[1..]) == MatchedCount(logContent)
      ensures Valid() ==> HitTotal(unicityList[1..]) == matchedLines
    {
      var unicityDict: Dict<Tuple, int> := Dict([], map[]);
      for i := 0 to |logContent|
        invariant OrderedDict.Valid(unicityDict)
        invariant unicityDict == Tally(logContent[..i], unicityKeys)
      {
        var logLineDict := logContent[i];
        assert logContent[..i + 1] == logContent[..i] + [logLineDict];
        if !Truthy(logLineDict) {
          continue;
        }
        var uniqueInList: Tuple := [];
        for j := 0 to |unicityKeys|
          invariant uniqueInList == SelectTuple(logLineDict.value, unicityKeys[..j])
        {
          assert unicityKeys[..j + 1][..j] == unicityKeys[..j];
          uniqueInList := uniqueInList + [Lookup(logLineDict.value, unicityKeys[j])];
        }
        assert unicityKeys[..|unicityKeys|] == unicityKeys;
        if Get(unicityDict, uniqueInList, 0) == 0 {
          unicityDict := Set(unicityDict, uniqueInList, 1);
        } else {
          unicityDict := Set(unicityDict, uniqueInList, unicityDict.items[uniqueInList] + 1);
        }
      }
      assert logContent[..|logContent|] == logContent;
      unicityList := OrderUnicityDict(unicityDict, unicityKeys);
      ReportFacts(unicityDict, unicityKeys);
      TallySum(logContent, unicityKeys);
    }
  }
}
