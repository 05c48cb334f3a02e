/**
 * The parser of one listed rule (`Rule.Parse`): the line is split into
 * fields and read left to right, one flag and its arguments per step.
 */
module RuleParse {
  import opened Wrappers
  import opened Strings
  import opened Vocabulary
  import opened Targets
  import opened Matches
  import opened RuleModel

  /** One parse step: the rule so far and the next field, or a flag whose arguments run past the end. */
  datatype Step = Next(rule: RuleData, next: nat) | OutOfRange

  /** The rule a parse leaves behind and the error it reports, if any. */
  datatype Parsed = Parsed(rule: RuleData, err: Option<Error>)

  /**
   * What no parse step touches: IP version, table, state, position and
   * command; markers and matches only grow at the end.
   */
  predicate Keeps(r: RuleData, s: RuleData) {
    s.ipVersion == r.ipVersion && s.table == r.table && s.valid == r.valid && s.applied == r.applied
    && s.number == r.number && s.command == r.command
    && r.matches <= s.matches && r.markers <= s.markers
  }

  lemma KeepsTransitive(r: RuleData, s: RuleData, t: RuleData)
    requires Keeps(r, s) && Keeps(s, t)
    ensures Keeps(r, t)
  {
    assert t.matches[..|r.matches|] == r.matches by {
      assert t.matches[..|s.matches|][..|r.matches|] == t.matches[..|r.matches|];
    }
    assert t.markers[..|r.markers|] == r.markers by {
      assert t.markers[..|s.markers|][..|r.markers|] == t.markers[..|r.markers|];
    }
  }

  /** The chain, the criteria other than ports, and the target are the same in `s` as in `r`. */
  predicate KeepsCriteria(r: RuleData, s: RuleData) {
    s.chain == r.chain && s.target == r.target
    && s.protocol == r.protocol && s.protocolNegated == r.protocolNegated
    && s.input == r.input && s.inputNegated == r.inputNegated
    && s.output == r.output && s.outputNegated == r.outputNegated
    && s.source == r.source && s.sourceNegated == r.sourceNegated
    && s.destination == r.destination && s.destinationNegated == r.destinationNegated
  }

  /** The port criteria are the same in `s` as in `r`. */
  predicate KeepsPorts(r: RuleData, s: RuleData) {
    s.sourcePort == r.sourcePort && s.sourcePortNegated == r.sourcePortNegated
    && s.destinationPort == r.destinationPort && s.destinationPortNegated == r.destinationPortNegated
  }

  /** The flags followed by exactly one value. */
  predicate IsCriterionFlag(flag: string) {
    flag == "-A" || flag == "-I" || flag == "-s" || flag == "-d" || flag == "-i" || flag == "-o" || flag == "-p"
  }

  /** A one-value flag: `-A`/`-I` name the chain, the others set a criterion and its negation. */
  function SetCriterion(r: RuleData, flag: string, value: string, negated: bool): (s: RuleData)
    requires IsCriterionFlag(flag)
    ensures Keeps(r, s) && s.markers == r.markers && s.matches == r.matches
    ensures flag == "-A" || flag == "-I" ==> s == r.(chain := value)
    ensures flag == "-s" ==> s == r.(source := value, sourceNegated := negated)
    ensures flag == "-d" ==> s == r.(destination := value, destinationNegated := negated)
    ensures flag == "-i" ==> s == r.(input := value, inputNegated := negated)
    ensures flag == "-o" ==> s == r.(output := value, outputNegated := negated)
    ensures flag == "-p" ==> s == r.(protocol := value, protocolNegated := negated)
  {
    if flag == "-A" || flag == "-I" then r.(chain := value)
    else if flag == "-s" then r.(source := value, sourceNegated := negated)
    else if flag == "-d" then r.(destination := value, destinationNegated := negated)
    else if flag == "-i" then r.(input := value, inputNegated := negated)
    else if flag == "-o" then r.(output := value, outputNegated := negated)
    else r.(protocol := value, protocolNegated := negated)
  }

  /** The first field at or after `k` that starts with `-`: where a comment's words stop. */
  function CommentEnd(f: seq<string>, k: nat): (e: Option<nat>)
    requires k <= |f|
    ensures e.Some? ==> k <= e.value < |f| && HasPrefix(f[e.value], "-")
    ensures e.Some? ==> forall x :: k <= x < e.value ==> !HasPrefix(f[x], "-")
    ensures e.None? ==> forall x :: k <= x < |f| ==> !HasPrefix(f[x], "-")
    decreases |f| - k
  {
    if k == |f| then None
    else if HasPrefix(f[k], "-") then Some(k)
    else CommentEnd(f, k + 1)
  }

  /** A comment's words joined by spaces, with `\"`, `"` and `'` removed. */
  function CommentText(words: seq<string>): (t: string)
    ensures '"' !in t && '\'' !in t
    ensures |t| <= |Join(words, " ")|
    ensures forall c :: c in t ==> c in Join(words, " ")
  {
    RemoveAll(RemoveAll(RemoveAll(Join(words, " "), "\\\""), "\""), "'")
  }

  /** The marker a comment of the form `name:value` (exactly one colon) carries. */
  function CommentMarker(text: string): (mk: Option<Marker>)
    ensures mk.Some? ==> mk.value.String() == text
    ensures mk.Some? ==> ':' !in mk.value.name && ':' !in mk.value.value
    ensures ':' !in text ==> mk.None?
  {
    ContainsChar(text, ':');
    if Contains(text, ":") && |Split(text, ':')| == 2 then
      var parts := Split(text, ':');
      assert Join(parts, [':']) == parts[0] + [':'] + parts[1];
      Some(Marker(parts[0], parts[1]))
    else None
  }

  /** A marker's text gives the marker back, when neither part holds a colon. */
  lemma MarkerRoundTrip(mk: Marker)
    requires ':' !in mk.name && ':' !in mk.value
    ensures CommentMarker(mk.String()) == Some(mk)
  {
    var text := mk.name + ":" + mk.value;
    assert text == mk.name + [':'] + mk.value;
    SplitPair(mk.name, mk.value, ':');
    assert ':' in text by { assert text[|mk.name|] == ':'; }
    ContainsChar(text, ':');
  }

  /**
   * A parsed match: an `id:` or `name:` comment sets the id or the name (the
   * prefix removed); every other match is appended.
   */
  function RecordMatch(r: RuleData, m: Match): (s: RuleData)
    ensures Keeps(r, s) && s.markers == r.markers && KeepsCriteria(r, s) && KeepsPorts(r, s)
    ensures m.Name() == "comment" && HasPrefix(m.Value(), "id:") ==>
              s == r.(id := m.Value()[3..])
    ensures m.Name() == "comment" && !HasPrefix(m.Value(), "id:") && HasPrefix(m.Value(), "name:") ==>
              s == r.(name := m.Value()[5..])
    ensures !(m.Name() == "comment" && (HasPrefix(m.Value(), "id:") || HasPrefix(m.Value(), "name:"))) ==>
              s == r.(matches := r.matches + [m])
  {
    if m.Name() == "comment" && HasPrefix(m.Value(), "id:") then
      assert ReplaceFirst(m.Value(), "id:", "") == m.Value()[3..];
      r.(id := ReplaceFirst(m.Value(), "id:", ""))
    else if m.Name() == "comment" && HasPrefix(m.Value(), "name:") then
      assert ReplaceFirst(m.Value(), "name:", "") == m.Value()[5..];
      r.(name := ReplaceFirst(m.Value(), "name:", ""))
    else
      r.(matches := r.matches + [m])
  }

  /**
   * A comment match: the marker it carries, if any, then the match itself. A
   * text without exactly one colon adds no marker.
   */
  function RecordComment(r: RuleData, text: string, negated: bool): (s: RuleData)
    ensures Keeps(r, s) && KeepsCriteria(r, s) && KeepsPorts(r, s)
    ensures CommentMarker(text).Some? ==> s.markers == r.markers + [CommentMarker(text).value]
    ensures CommentMarker(text).None? ==> s == RecordMatch(r, Comment(text, negated))
    ensures CommentMarker(text).Some? ==>
              s == RecordMatch(r, Comment(text, negated)).(markers := r.markers + [CommentMarker(text).value])
  {
    match CommentMarker(text)
    case Some(mk) =>
      RecordMatchMarkers(r, r.markers + [mk], Comment(text, negated));
      RecordMatch(r.(markers := r.markers + [mk]), Comment(text, negated))
    case None => RecordMatch(r, Comment(text, negated))
  }

  /** What RecordMatch does does not depend on the markers. */
  lemma RecordMatchMarkers(r: RuleData, markers: seq<Marker>, m: Match)
    ensures RecordMatch(r.(markers := markers), m) == RecordMatch(r, m).(markers := markers)
  {
    if m.Name() == "comment" && HasPrefix(m.Value(), "id:") {
      IdMatchMarkers(r, markers, m);
    } else if m.Name() == "comment" && HasPrefix(m.Value(), "name:") {
      NameMatchMarkers(r, markers, m);
    } else {
      OtherMatchMarkers(r, markers, m);
    }
  }

  lemma IdMatchMarkers(r: RuleData, markers: seq<Marker>, m: Match)
    requires m.Name() == "comment" && HasPrefix(m.Value(), "id:")
    ensures RecordMatch(r.(markers := markers), m) == RecordMatch(r, m).(markers := markers)
  {
    var id := ReplaceFirst(m.Value(), "id:", "");
    assert r.(markers := markers).(id := id) == r.(id := id).(markers := markers);
  }

  lemma NameMatchMarkers(r: RuleData, markers: seq<Marker>, m: Match)
    requires m.Name() == "comment" && !HasPrefix(m.Value(), "id:") && HasPrefix(m.Value(), "name:")
    ensures RecordMatch(r.(markers := markers), m) == RecordMatch(r, m).(markers := markers)
  {
    var name := ReplaceFirst(m.Value(), "name:", "");
    assert r.(markers := markers).(name := name) == r.(name := name).(markers := markers);
  }

  lemma OtherMatchMarkers(r: RuleData, markers: seq<Marker>, m: Match)
    requires !(m.Name() == "comment" && (HasPrefix(m.Value(), "id:") || HasPrefix(m.Value(), "name:")))
    ensures RecordMatch(r.(markers := markers), m) == RecordMatch(r, m).(markers := markers)
  {
    MatchesMarkersCommute(r, markers, r.matches + [m]);
  }

  lemma MatchesMarkersCommute(r: RuleData, markers: seq<Marker>, matches: seq<Match>)
    ensures r.(markers := markers).(matches := matches) == r.(matches := matches).(markers := markers)
  {
  }

  /** A tcp or udp match on a destination or source port. */
  predicate IsPortOption(name: string, option: string) {
    (name == "tcp" || name == "udp") && (HasPrefix(option, "dport") || HasPrefix(option, "sport"))
  }

  /** A port match sets the destination port for `dport…`, the source port otherwise. */
  function SetPort(r: RuleData, option: string, value: string, negated: bool): (s: RuleData)
    ensures Keeps(r, s) && s.markers == r.markers && s.matches == r.matches && KeepsCriteria(r, s)
    ensures HasPrefix(option, "dport") ==> s == r.(destinationPort := value, destinationPortNegated := negated)
    ensures !HasPrefix(option, "dport") ==> s == r.(sourcePort := value, sourcePortNegated := negated)
  {
    if HasPrefix(option, "dport") then r.(destinationPort := value, destinationPortNegated := negated)
    else r.(sourcePort := value, sourcePortNegated := negated)
  }

  /**
   * A comment match whose words start at field `j + 3` and stop before the
   * next field that starts with `-`; with no such field the line is truncated.
   */
  function CommentAt(r: RuleData, f: seq<string>, j: nat, negated: bool): (st: Step)
    requires j + 3 < |f|
    ensures st.OutOfRange? <==> CommentEnd(f, j + 3).None?
    ensures st.Next? ==> j + 3 <= st.next < |f| && Keeps(r, st.rule)
    ensures st.Next? ==> HasPrefix(f[st.next], "-") && forall x :: j + 3 <= x < st.next ==> !HasPrefix(f[x], "-")
    ensures st.Next? ==> st.rule == RecordComment(r, CommentText(f[j + 3..st.next]), negated)
    ensures st.Next? ==> KeepsCriteria(r, st.rule) && KeepsPorts(r, st.rule)
  {
    match CommentEnd(f, j + 3)
    case None => OutOfRange
    case Some(e) => Next(RecordComment(r, CommentText(f[j + 3..e]), negated), e)
  }

  /** The match named `name` whose option is field `j + 2` and whose value is field `j + 3`. */
  function MatchAt(r: RuleData, f: seq<string>, name: string, j: nat, negated: bool): (st: Step)
    requires j + 3 < |f|
    ensures st.Next? ==> j + 3 <= st.next <= |f| && Keeps(r, st.rule) && KeepsCriteria(r, st.rule)
    ensures IsPortOption(name, ReplaceFirst(f[j + 2], "--", "")) ==>
              st == Next(SetPort(r, ReplaceFirst(f[j + 2], "--", ""), f[j + 3], negated), j + 4)
    ensures !IsPortOption(name, ReplaceFirst(f[j + 2], "--", "")) && f[j + 1] == "comment" ==>
              st == CommentAt(r, f, j, negated)
    ensures !IsPortOption(name, ReplaceFirst(f[j + 2], "--", "")) && f[j + 1] != "comment" ==>
              st == Next(RecordMatch(r, Generic(name, ReplaceFirst(f[j + 2], "--", ""), f[j + 3], negated)), j + 4)
  {
    var option := ReplaceFirst(f[j + 2], "--", "");
    if IsPortOption(name, option) then Next(SetPort(r, option, f[j + 3], negated), j + 4)
    else if f[j + 1] == "comment" then CommentAt(r, f, j, negated)
    else Next(RecordMatch(r, Generic(name, option, f[j + 3], negated)), j + 4)
  }

  /**
   * `-m <name> [!] --<option> <value>`: tcp/udp port options set the port
   * criteria, a comment takes every word up to the next flag, any other
   * match is recorded as a generic one. The comment test reads the field
   * after the name, which is `!` for a negated match.
   */
  function ParseMatch(r: RuleData, f: seq<string>, i: nat, negated: bool): (st: Step)
    requires i < |f|
    ensures st.Next? ==> i < st.next <= |f| && Keeps(r, st.rule) && KeepsCriteria(r, st.rule)
    ensures i + 3 >= |f| ==> st.OutOfRange?
    ensures i + 3 < |f| && f[i + 2] != "!" ==> st == MatchAt(r, f, f[i + 1], i, negated)
    ensures i + 3 < |f| && f[i + 2] == "!" ==>
              st == if i + 4 < |f| then MatchAt(r, f, f[i + 1], i + 1, true) else OutOfRange
  {
    if i + 2 >= |f| then OutOfRange
    else
      var j := if f[i + 2] == "!" then i + 1 else i;
      if j + 3 >= |f| then OutOfRange
      else MatchAt(r, f, f[i + 1], j, negated || f[i + 2] == "!")
  }

  /** The target names that read arguments of their own after the name. */
  predicate TakesArguments(name: string) {
    name == "DNAT" || name == "SNAT" || name == "DSCP" || name == "MASQUERADE"
  }

  /**
   * `-j`/`-g <target> …`: DNAT, SNAT and DSCP take an option and a value,
   * MASQUERADE takes `--to-ports <ports>` when present; anything else is a
   * jump (`-j`) or goto (`-g`) to that name.
   */
  function ParseTarget(r: RuleData, f: seq<string>, i: nat): (st: Step)
    requires i < |f|
    ensures st.Next? ==> i < st.next <= |f|
    ensures st.Next? ==> st.rule == r.(target := st.rule.target) && st.rule.target.Some?
    ensures i + 1 >= |f| ==> st.OutOfRange?
    ensures i + 1 < |f| && !TakesArguments(f[i + 1]) ==>
              st == Next(r.(target := Some(if f[i] == "-j" then Jump(f[i + 1]) else Goto(f[i + 1]))), i + 2)
    ensures i + 1 < |f| && (f[i + 1] == "DNAT" || f[i + 1] == "SNAT" || f[i + 1] == "DSCP") ==>
              st == if i + 3 >= |f| then OutOfRange
                    else if f[i + 1] == "DSCP" then Next(r.(target := Some(Dscp(0))), i + 4)
                    else Next(r.(target := Some(Unmodelled(f[i + 1], [f[i + 2], f[i + 3]]))), i + 4)
    ensures i + 2 < |f| && f[i + 1] == "MASQUERADE" && f[i + 2] == "--to-ports" ==>
              st == if i + 3 >= |f| then OutOfRange
                    else Next(r.(target := Some(Unmodelled("MASQUERADE", [f[i + 2], f[i + 3]]))), i + 4)
    ensures i + 1 < |f| && f[i + 1] == "MASQUERADE" && !(i + 2 < |f| && f[i + 2] == "--to-ports") ==>
              st == Next(r.(target := Some(Unmodelled("MASQUERADE", []))), i + 2)
  {
    if i + 1 >= |f| then OutOfRange
    else
      var name := f[i + 1];
      if name == "DNAT" || name == "SNAT" || name == "DSCP" then
        if i + 3 >= |f| then OutOfRange
        else
          var t := if name == "DSCP" then Dscp(0).Parse(f[i + 2], f[i + 3])
                   else Unmodelled(name, [f[i + 2], f[i + 3]]);
          Next(r.(target := Some(t)), i + 4)
      else if name == "MASQUERADE" then
        if i + 2 < |f| && f[i + 2] == "--to-ports" then
          if i + 3 >= |f| then OutOfRange
          else Next(r.(target := Some(Unmodelled(name, [f[i + 2], f[i + 3]]))), i + 4)
        else Next(r.(target := Some(Unmodelled(name, []))), i + 2)
      else
        // ACCEPT, DROP, QUEUE, RETURN and user chains alike; an unknown chain is only logged
        Next(r.(target := Some(if f[i] == "-j" then Jump(name) else Goto(name))), i + 2)
  }

  /** The flag at `k` (after any `!`), with its arguments; an unknown field is skipped. */
  function ParseFlag(r: RuleData, f: seq<string>, k: nat, negated: bool): (st: Step)
    requires k < |f|
    ensures st.Next? ==> k < st.next <= |f| && Keeps(r, st.rule)
    ensures !IsCriterionFlag(f[k]) && f[k] != "-m" && f[k] != "-j" && f[k] != "-g" ==> st == Next(r, k + 1)
  {
    var flag := f[k];
    if IsCriterionFlag(flag) then
      if k + 1 >= |f| then OutOfRange else Next(SetCriterion(r, flag, f[k + 1], negated), k + 2)
    else if flag == "-m" then ParseMatch(r, f, k, negated)
    else if flag == "-j" || flag == "-g" then ParseTarget(r, f, k)
    else Next(r, k + 1)
  }

  /** One iteration of the parse loop: an optional `!`, then one flag. */
  function ParseStep(r: RuleData, f: seq<string>, i: nat): (st: Step)
    requires i < |f|
    ensures st.Next? ==> i < st.next <= |f| && Keeps(r, st.rule)
  {
    if f[i] == "!" then
      if i + 1 < |f| then ParseFlag(r, f, i + 1, true) else OutOfRange
    else ParseFlag(r, f, i, false)
  }

  /**
   * The dispatch of one flag: a criterion flag takes one value, `-m` reads a
   * match, `-j` and `-g` read a target.
   */
  lemma FlagDispatch(r: RuleData, f: seq<string>, k: nat, negated: bool)
    requires k < |f|
    ensures IsCriterionFlag(f[k]) ==>
              ParseFlag(r, f, k, negated)
              == if k + 1 >= |f| then OutOfRange else Next(SetCriterion(r, f[k], f[k + 1], negated), k + 2)
    ensures f[k] == "-m" ==> ParseFlag(r, f, k, negated) == ParseMatch(r, f, k, negated)
    ensures f[k] == "-j" || f[k] == "-g" ==> ParseFlag(r, f, k, negated) == ParseTarget(r, f, k)
  {
  }

  /** A `!` negates only the flag right after it; a `!` that ends the line truncates it. */
  lemma StepNegation(r: RuleData, f: seq<string>, i: nat)
    requires i < |f|
    ensures f[i] != "!" ==> ParseStep(r, f, i) == ParseFlag(r, f, i, false)
    ensures f[i] == "!" ==> ParseStep(r, f, i) == if i + 1 < |f| then ParseFlag(r, f, i + 1, true) else OutOfRange
  {
  }

  /** The parse loop from field `i` to the end; a flag cut short stops it with `Truncated`. */
  function ParseFrom(r: RuleData, f: seq<string>, i: nat): (p: Parsed)
    requires i <= |f|
    ensures Keeps(r, p.rule)
    ensures p.err.None? || p.err == Some(Truncated)
    decreases |f| - i
  {
    if i == |f| then Parsed(r, None)
    else
      match ParseStep(r, f, i)
      case OutOfRange => Parsed(r, Some(Truncated))
      case Next(s, n) =>
        var p := ParseFrom(s, f, n);
        KeepsTransitive(r, s, p.rule);
        p
  }

  /**
   * Rule.Parse: an unknown table clears the table and the valid flag and is
   * reported; otherwise the table is set and the fields are parsed.
   */
  function ParseLine(r: RuleData, table: string, line: string): (p: Parsed)
    ensures p.err == Some(UnknownTable(table)) <==> table !in KnownTables
    ensures table !in KnownTables ==> p.rule == r.(table := "", valid := false)
    ensures table in KnownTables ==> p.rule.table == table && Keeps(r.(table := table), p.rule)
  {
    match ConvertToTable(table)
    case Err(_) => Parsed(r.(table := "", valid := false), Some(UnknownTable(table)))
    case Ok(t) => ParseFrom(r.(table := t), Fields(line), 0)
  }

  /** A field the parse loop acts on. */
  predicate Recognised(field: string) {
    field == "!" || IsCriterionFlag(field) || field == "-m" || field == "-j" || field == "-g"
  }

  /** Fields the parser does not know are skipped, and change nothing. */
  lemma {:induction false} SkipsUnknown(r: RuleData, f: seq<string>, i: nat)
    requires i <= |f|
    requires forall k :: i <= k < |f| ==> !Recognised(f[k])
    ensures ParseFrom(r, f, i) == Parsed(r, None)
    decreases |f| - i
  {
    if i < |f| {
      assert ParseStep(r, f, i) == Next(r, i + 1);
      SkipsUnknown(r, f, i + 1);
    }
  }
}
