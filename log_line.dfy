/**
 * One firewall log line against one vendor pattern: the choice of pattern by
 * vendor tag and the `groupdict()` that a successful match yields.
 *
 * The regular-expression engine itself is not modelled: it is the parameter
 * `engine`, which records for each pattern and line whether the pattern
 * matches at the start of the line and, if so, the text captured by each
 * named group that took part in the match.
 */
module LogLine {
  import opened Wrappers

  datatype Vendor = Fortinet | PaloAlto

  /** A compiled pattern: the vendor whose log format it parses and its named groups, in declaration order. */
  datatype Pattern = Pattern(vendor: Vendor, groupNames: seq<string>)

  /** `fortinet_regexp` */
  const FortinetRegexp := Pattern(Fortinet,
    ["vdom", "src_ip", "src_port", "src_iface", "dst_ip", "dst_port", "dst_iface",
     "protocol", "action", "policy_id", "policy_name", "service"])

  /** `pa_regexp` */
  const PaRegexp := Pattern(PaloAlto,
    ["src_ip", "dst_ip", "src_nat", "dst_nat", "policy_name", "service", "src_zone",
     "dst_zone", "src_iface", "dst_iface", "src_port", "dst_port", "src_nat_port",
     "dst_nat_port", "protocol", "action", "total_bytes", "sent_bytes", "received_bytes",
     "total_packets", "sent_packets", "received_packets"])

  /** What the constructor picks for a vendor tag, and whether it prints the "wrong firewall type" notice. */
  datatype VendorChoice = VendorChoice(pattern: Pattern, unknownTag: bool)

  /** A parsed line: every named group of the pattern, mapped to its capture or to None. */
  type Record = map<string, Option<string>>

  /**
   * The regular-expression engine's verdict on every pattern and line: a
   * pair is present when the pattern matches at the start of the line, and
   * then maps to the text captured by each named group that took part.
   */
  type Engine = imap<(Pattern, string), map<string, string>>

  /** `re.compile(p).match(line)`, reduced to the captures of its named groups. */
  function Match(engine: Engine, p: Pattern, line: string): Option<map<string, string>> {
    if (p, line) in engine then Some(engine[(p, line)]) else None
  }

  /**
   * Vendor selection: "Palo Alto" picks the Palo Alto pattern; "Fortinet" and
   * every other tag pick the Fortinet pattern, an unknown tag with a notice
   * and never with an error.
   */
  function SelectPattern(fwType: string): (c: VendorChoice)
    ensures c.pattern == PaRegexp <==> fwType == "Palo Alto"
    ensures c.pattern == FortinetRegexp <==> fwType != "Palo Alto"
    ensures c.unknownTag <==> fwType != "Fortinet" && fwType != "Palo Alto"
    ensures |c.pattern.groupNames| > 0
  {
    if fwType == "Fortinet" then VendorChoice(FortinetRegexp, false)
    else if fwType == "Palo Alto" then VendorChoice(PaRegexp, false)
    else VendorChoice(FortinetRegexp, true)
  }

  /** Python truthiness of a parsed line: None and the empty dict are both false. */
  predicate Truthy(e: Option<Record>) {
    e.Some? && |e.value| > 0
  }

  /**
   * `fw_log_line(line, regexp).line_content`: None when the pattern does not
   * match, otherwise the group dictionary of the match.
   */
  function RegexpOnLine(engine: Engine, p: Pattern, line: string): Option<Record> {
    match Match(engine, p, line)
    case None => None
    case Some(captured) => Some(GroupDict(p.groupNames, captured))
  }

  /** `groupdict()`: each of `names` mapped to its capture, or to None when it has none. */
  function GroupDict(names: seq<string>, captured: map<string, string>): Record {
    if names == [] then map[]
    else
      var g := names[|names| - 1];
      GroupDict(names[..|names| - 1], captured)[g := if g in captured then Some(captured[g]) else None]
  }

  /**
   * The group dictionary has one key per group name; a group that took part
   * in the match maps to its capture, any other group to None.
   */
  lemma {:induction false} GroupDictEntries(names: seq<string>, captured: map<string, string>)
    ensures GroupDict(names, captured).Keys == set g | g in names
    ensures forall g :: g in names && g in captured ==> GroupDict(names, captured)[g] == Some(captured[g])
    ensures forall g :: g in names && g !in captured ==> GroupDict(names, captured)[g] == None
  {
    if names != [] {
      var pre := names[..|names| - 1];
      GroupDictEntries(pre, captured);
      assert names == pre + [names[|names| - 1]];
    }
  }

  /**
   * Parsing a line gives None exactly when the pattern does not match it, and
   * otherwise the dictionary of all the pattern's groups, None for a group
   * that did not take part in the match.
   */
  lemma RegexpOnLineGroups(engine: Engine, p: Pattern, line: string)
    ensures RegexpOnLine(engine, p, line).None? <==> Match(engine, p, line).None?
    ensures Match(engine, p, line).Some? ==>
      var r, captured := RegexpOnLine(engine, p, line).value, Match(engine, p, line).value;
      && r.Keys == (set g | g in p.groupNames)
      && (forall g :: g in p.groupNames && g in captured ==> r[g] == Some(captured[g]))
      && (forall g :: g in p.groupNames && g !in captured ==> r[g] == None)
  {
    if Match(engine, p, line).Some? {
      GroupDictEntries(p.groupNames, Match(engine, p, line).value);
    }
  }

  /**
   * With a pattern that has named groups, as both built-in patterns do, a
   * line the pattern matches always yields a non-empty, hence true, dictionary.
   */
  lemma MatchIsTruthy(engine: Engine, p: Pattern, line: string)
    requires |p.groupNames| > 0
    ensures Truthy(RegexpOnLine(engine, p, line)) <==> Match(engine, p, line).Some?
  {
    var r := RegexpOnLine(engine, p, line);
    RegexpOnLineGroups(engine, p, line);
    if r.Some? {
      var g := p.groupNames[0];
      assert g in r.value;
    }
  }
}
