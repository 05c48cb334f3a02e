/**
 * The value of a rule (every field of the Go `Rule` struct that the core
 * reads or writes), its errors, the external collaborators, and the
 * defaults filled in before a rule is serialised.
 */
module RuleModel {
  import opened Wrappers
  import opened Vocabulary
  import opened Targets
  import opened Matches

  datatype RuleData = RuleData(
    id: string,
    name: string,
    table: string,
    chain: string,
    ipVersion: string,
    protocol: string,
    protocolNegated: bool,
    input: string,
    inputNegated: bool,
    output: string,
    outputNegated: bool,
    source: string,
    sourceNegated: bool,
    sourcePort: string,
    sourcePortNegated: bool,
    destination: string,
    destinationNegated: bool,
    destinationPort: string,
    destinationPortNegated: bool,
    target: Option<Target>,   // a nil Target is None
    markers: seq<Marker>,
    matches: seq<Match>,
    valid: bool,
    applied: bool,
    number: int,
    command: Cmd)

  /** Go's zero `Rule{}`. */
  const ZeroRule: RuleData := RuleData("", "", "", "", "", "", false, "", false, "", false,
                                        "", false, "", false, "", false, "", false,
                                        None, [], [], false, false, 0, NoCmd)

  datatype Error =
    | TargetInvalid(reason: string)   // the target's own Validate failed
    | NilTarget                       // Validate called on a rule with no target (a Go panic)
    | DuplicateId(id: string)
    | DuplicateName(name: string)
    | NotRoot
    | ExecFailed(reason: string)      // the external command failed
    | UnknownTable(table: string)
    | Truncated                       // a flag without its arguments (a Go index panic)

  /**
   * What the core consumes from outside: the binary path per IP version, the
   * command executor, the privilege check, snapshots of the ids and names in
   * use, the table list, strconv.Quote, and the String/Validate of the target
   * variants whose code is not part of this model.
   */
  datatype Env = Env(
    binaryPath: string -> string,
    exec: string -> Result<string, string>,
    root: bool,
    ids: set<string>,
    names: set<string>,
    tables: seq<string>,
    quote: string -> string,
    targetText: Target -> string,
    targetCheck: (Target, RuleData) -> Option<string>)

  /**
   * setDefaults: IP version IPv4, target jump-to-ACCEPT and command append,
   * each only where the field is empty; all three are set afterwards.
   */
  function Defaulted(r: RuleData): (d: RuleData)
    ensures d.ipVersion != "" && d.target.Some? && d.command != NoCmd
    ensures r.ipVersion == "" ==> d.ipVersion == IPv4
    ensures r.target.None? ==> d.target == Some(Jump(TargetAccept))
    ensures r.command == NoCmd ==> d.command == Append
    ensures r.ipVersion != "" && r.target.Some? && r.command != NoCmd ==> d == r
    ensures d == r.(ipVersion := d.ipVersion, target := d.target, command := d.command)
  {
    r.(ipVersion := if r.ipVersion == "" then IPv4 else r.ipVersion,
       target := if r.target.None? then Some(Jump(TargetAccept)) else r.target,
       command := if r.command == NoCmd then Append else r.command)
  }

  /** Filling in defaults twice is the same as once. */
  lemma DefaultedIdempotent(r: RuleData)
    ensures Defaulted(Defaulted(r)) == Defaulted(r)
  {
  }

  /**
   * NewRule: the given id, the name when one is given, empty markers and
   * matches, the defaults, and neither valid nor applied.
   */
  function NewRuleData(id: string, name: Option<string>): (d: RuleData)
    ensures d.id == id && d.name == (if name.Some? then name.value else "")
    ensures d.ipVersion == IPv4 && d.target == Some(Jump(TargetAccept)) && d.command == Append
    ensures d.markers == [] && d.matches == [] && !d.valid && !d.applied
    ensures d.table == "" && d.chain == "" && d.number == 0
  {
    var named := if name.Some? then ZeroRule.(id := id).(name := name.value) else ZeroRule.(id := id);
    Defaulted(named.(markers := [], matches := [])).(valid := false, applied := false)
  }

  /**
   * SetApp: an `app` marker and a comment match carrying the marker's text,
   * each appended after the ones already present.
   */
  function WithApp(r: RuleData, app: string): (s: RuleData)
    ensures s.markers == r.markers + [Marker("app", app)]
    ensures s.matches == r.matches + [Comment("app:" + app, false)]
    ensures s == r.(markers := s.markers, matches := s.matches)
  {
    var mark := Marker("app", app);
    assert mark.String() == "app:" + app;
    r.(markers := r.markers + [mark], matches := r.matches + [Comment(mark.String(), false)])
  }
}
