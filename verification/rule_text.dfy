/**
 * The serialiser: the command line `Rule.String` builds, as its sequence of
 * space-joined segments.
 */
module RuleText {
  import opened Wrappers
  import opened Strings
  import opened Vocabulary
  import opened Targets
  import opened Matches
  import opened RuleModel

  /** One emitted criterion: a flag with its optional negation prefix. */
  function Flag(negated: bool, flag: string, value: string): string {
    NegatedPattern(negated) + flag + " " + value
  }

  /** `-t <table>`, only for a non-empty table. */
  function TableSegments(r: RuleData): seq<string> {
    if r.table != "" then ["-t " + r.table] else []
  }

  /** `--<command>`, the chain, and the position for insert and replace. */
  function CommandSegments(r: RuleData): seq<string> {
    if r.command == NoCmd then []
    else
      ["--" + r.command.Text()]
      + (if r.chain != "" then [r.chain] else [])
      + (if r.command == Insert || r.command == Replace then [IntToString(r.number)] else [])
  }

  /** A one-segment block when `present`, nothing otherwise. */
  function Opt(present: bool, segment: string): seq<string> {
    if present then [segment] else []
  }

  /** Protocol, addresses, ports and interfaces, each only when set. */
  function CriteriaSegments(r: RuleData): seq<string> {
    Opt(r.protocol != "", Flag(r.protocolNegated, "--protocol", r.protocol))
    + Opt(r.source != "", Flag(r.sourceNegated, "--source", r.source))
    + Opt(r.destination != "", Flag(r.destinationNegated, "--destination", r.destination))
    + Opt(r.sourcePort != "", "--match multiport " + Flag(r.sourcePortNegated, "--sports", r.sourcePort))
    + Opt(r.destinationPort != "", "--match multiport " + Flag(r.destinationPortNegated, "--dports", r.destinationPort))
    + Opt(r.input != "", Flag(r.inputNegated, "--in-interface", r.input))
    + Opt(r.output != "", Flag(r.outputNegated, "--out-interface", r.output))
  }

  /** The criteria block assembled one optional segment at a time, in the order above. */
  lemma CriteriaInSteps(r: RuleData, c1: seq<string>, c2: seq<string>, c3: seq<string>,
                        c4: seq<string>, c5: seq<string>, c6: seq<string>, c7: seq<string>)
    requires c1 == Opt(r.protocol != "", Flag(r.protocolNegated, "--protocol", r.protocol))
    requires c2 == c1 + Opt(r.source != "", Flag(r.sourceNegated, "--source", r.source))
    requires c3 == c2 + Opt(r.destination != "", Flag(r.destinationNegated, "--destination", r.destination))
    requires c4 == c3 + Opt(r.sourcePort != "", "--match multiport " + Flag(r.sourcePortNegated, "--sports", r.sourcePort))
    requires c5 == c4 + Opt(r.destinationPort != "", "--match multiport " + Flag(r.destinationPortNegated, "--dports", r.destinationPort))
    requires c6 == c5 + Opt(r.input != "", Flag(r.inputNegated, "--in-interface", r.input))
    requires c7 == c6 + Opt(r.output != "", Flag(r.outputNegated, "--out-interface", r.output))
    ensures c7 == CriteriaSegments(r)
  {
  }

  /** One match: its value is quoted only for the comment match. */
  function MatchSegment(m: Match, quote: string -> string): string {
    var value := if m.Name() == "comment" then quote(m.Value()) else m.Value();
    "--match " + m.Name() + " " + Flag(m.Negated(), "--" + m.Option(), value)
  }

  /** The matches, one segment each, in insertion order. */
  function MatchSegments(ms: seq<Match>, quote: string -> string): (segs: seq<string>)
    ensures |segs| == |ms|
    ensures forall i :: 0 <= i < |ms| ==> segs[i] == MatchSegment(ms[i], quote)
  {
    if ms == [] then []
    else MatchSegments(ms[..|ms| - 1], quote) + [MatchSegment(ms[|ms| - 1], quote)]
  }

  function IdSegment(id: string): string {
    "-m comment --comment id:" + id
  }

  function NameSegment(name: string): string {
    "-m comment --comment name:" + name
  }

  /** The id and name comments, each only when set. */
  function IdentitySegments(r: RuleData): seq<string> {
    Opt(r.id != "", IdSegment(r.id)) + Opt(r.name != "", NameSegment(r.name))
  }

  /** The text of a target: its own String, or the collaborator's for unmodelled variants. */
  function TargetText(t: Target, env: Env): string {
    if t.Modelled() then t.String() else env.targetText(t)
  }

  function TargetSegments(r: RuleData, env: Env): seq<string> {
    if r.target.Some? then [TargetText(r.target.value, env)] else []
  }

  /** The segments before the matches: path, table, command and criteria. */
  function Header(r: RuleData, env: Env): (h: seq<string>)
    ensures |h| >= 1
  {
    [env.binaryPath(r.ipVersion)] + TableSegments(r) + CommandSegments(r) + CriteriaSegments(r)
  }

  /** The segments of `Rule.String`: the binary path first and the target last. */
  function Segments(r: RuleData, env: Env): (s: seq<string>)
    ensures |s| == |Header(r, env)| + |r.matches| + |IdentitySegments(r)| + |TargetSegments(r, env)|
    ensures s[0] == env.binaryPath(r.ipVersion)
    ensures r.target.Some? ==> s[|s| - 1] == TargetText(r.target.value, env)
  {
    Header(r, env) + MatchSegments(r.matches, env.quote) + IdentitySegments(r) + TargetSegments(r, env)
  }

  /** Where each block of `h + m + ids + t` sits. */
  /** The command line assembled block by block, in the order of `Segments`. */
  lemma SegmentsInSteps(r: RuleData, env: Env, o1: seq<string>, o2: seq<string>, o3: seq<string>,
                        o4: seq<string>, o5: seq<string>, o6: seq<string>)
    requires o1 == [env.binaryPath(r.ipVersion)] + TableSegments(r)
    requires o2 == o1 + CommandSegments(r)
    requires o3 == o2 + CriteriaSegments(r)
    requires o4 == o3 + MatchSegments(r.matches, env.quote)
    requires o5 == o4 + IdentitySegments(r)
    requires o6 == o5 + TargetSegments(r, env)
    ensures o6 == Segments(r, env)
  {
  }

  lemma BlockPositions(h: seq<string>, m: seq<string>, ids: seq<string>, t: seq<string>)
    ensures (h + m + ids + t)[..|h|] == h
    ensures forall i :: 0 <= i < |m| ==> (h + m + ids + t)[|h| + i] == m[i]
    ensures forall i :: 0 <= i < |ids| ==> (h + m + ids + t)[|h| + |m| + i] == ids[i]
  {
  }

  /** The segments start with the header: path, table, command and criteria. */
  lemma HeaderFirst(r: RuleData, env: Env)
    ensures Segments(r, env)[..|Header(r, env)|] == Header(r, env)
  {
    BlockPositions(Header(r, env), MatchSegments(r.matches, env.quote), IdentitySegments(r), TargetSegments(r, env));
  }

  /** The matches follow the header, one segment each, in insertion order. */
  lemma MatchesInOrder(r: RuleData, env: Env)
    ensures forall i :: 0 <= i < |r.matches| ==>
              Segments(r, env)[|Header(r, env)| + i] == MatchSegment(r.matches[i], env.quote)
  {
    BlockPositions(Header(r, env), MatchSegments(r.matches, env.quote), IdentitySegments(r), TargetSegments(r, env));
  }

  /** Where the command block of a header sits in the full segment list. */
  lemma MiddleOfHeader(path: string, tab: seq<string>, c: seq<string>, crit: seq<string>,
                        m: seq<string>, ids: seq<string>, t: seq<string>)
    ensures 1 + |tab| + |c| <= |[path] + tab + c + crit + m + ids + t|
    ensures forall k :: 0 <= k < |c| ==> ([path] + tab + c + crit + m + ids + t)[1 + |tab| + k] == c[k]
  {
  }

  /** The command block follows the path and the table. */
  lemma CommandBlock(r: RuleData, env: Env)
    ensures var s := Segments(r, env);
            1 + |TableSegments(r)| + |CommandSegments(r)| <= |s| &&
            forall k :: 0 <= k < |CommandSegments(r)| ==>
              s[1 + |TableSegments(r)| + k] == CommandSegments(r)[k]
  {
    MiddleOfHeader(env.binaryPath(r.ipVersion), TableSegments(r), CommandSegments(r), CriteriaSegments(r), MatchSegments(r.matches, env.quote),
                   IdentitySegments(r), TargetSegments(r, env));
  }

  /** The id comment sits after the matches, before the name comment and the target. */
  lemma IdBeforeNameAndTarget(r: RuleData, env: Env)
    requires r.id != ""
    ensures var s := Segments(r, env);
            s[|s| - |TargetSegments(r, env)| - (if r.name != "" then 2 else 1)] == IdSegment(r.id)
  {
    var h := Header(r, env);
    var m := MatchSegments(r.matches, env.quote);
    var ids := IdentitySegments(r);
    BlockPositions(h, m, ids, TargetSegments(r, env));
    assert ids[0] == IdSegment(r.id);
  }

  /** The name comment sits directly before the target. */
  lemma NameBeforeTarget(r: RuleData, env: Env)
    requires r.name != ""
    ensures var s := Segments(r, env);
            s[|s| - |TargetSegments(r, env)| - 1] == NameSegment(r.name)
  {
    var h := Header(r, env);
    var m := MatchSegments(r.matches, env.quote);
    var ids := IdentitySegments(r);
    BlockPositions(h, m, ids, TargetSegments(r, env));
    assert ids[|ids| - 1] == NameSegment(r.name);
  }

  /** The command line: the segments joined by single spaces. */
  function CommandLine(r: RuleData, env: Env): (line: string)
    ensures HasPrefix(line, env.binaryPath(r.ipVersion))
  {
    Join(Segments(r, env), " ")
  }

  /** A negated flag carries `! ` directly before the flag; otherwise nothing precedes the flag. */
  lemma FlagNegation(negated: bool, flag: string, value: string)
    ensures negated ==> Flag(negated, flag, value) == "! " + flag + " " + value
    ensures !negated ==> Flag(negated, flag, value) == flag + " " + value
  {
  }

  /** The header: `-t <table>` right after the path when a table is set, then `--<command>`. */
  lemma HeaderLayout(r: RuleData, env: Env)
    requires r.command != NoCmd
    ensures var s := Segments(r, env);
            var c := if r.table != "" then 2 else 1;
            (r.table != "" ==> s[1] == "-t " + r.table) && s[c] == "--" + r.command.Text()
  {
    var s := Segments(r, env);
    var h := Header(r, env);
    HeaderFirst(r, env);
    var p := [env.binaryPath(r.ipVersion)] + TableSegments(r);
    var pc := p + CommandSegments(r);
    assert h == pc + CriteriaSegments(r);
    assert pc[|p|] == "--" + r.command.Text();
    assert h[|p|] == pc[|p|];
    assert r.table != "" ==> h[1] == p[1];
    assert s[|p|] == h[|p|] && s[1] == h[1];
  }

  /** The position number is written exactly for insert and replace. */
  lemma NumberOnlyForInsertReplace(r: RuleData)
    requires r.command != NoCmd
    ensures var n := |CommandSegments(r)| - (if r.chain != "" then 2 else 1);
            n == (if r.command == Insert || r.command == Replace then 1 else 0)
    ensures r.command == Insert || r.command == Replace ==>
              CommandSegments(r)[|CommandSegments(r)| - 1] == IntToString(r.number)
  {
  }
}
