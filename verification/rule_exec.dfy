/**
 * Validation and execution of a rule: the checks `Rule.Validate` makes, in
 * their order, and what `execute` leaves behind for each outcome.
 */
module RuleExec {
  import opened Wrappers
  import opened Strings
  import opened Vocabulary
  import opened Targets
  import opened RuleModel
  import opened RuleText

  /**
   * The target's own check. A rule without a target makes the Go method call
   * panic on the nil interface; that is `NilTarget` here.
   */
  function TargetError(r: RuleData, env: Env): (err: Option<Error>)
    ensures r.target.None? ==> err == Some(NilTarget)
    ensures r.target.Some? && r.target.value.Jump? ==> err.None?
    ensures r.target.Some? && r.target.value.Dscp? ==> (err.Some? <==> r.table != TableMangle)
    ensures err.Some? && r.target.Some? ==> err.value.TargetInvalid?
  {
    match r.target
    case None => Some(NilTarget)
    case Some(t) =>
      var reason := if t.Modelled() then t.Validate(r.table) else env.targetCheck(t, r);
      if reason.Some? then Some(TargetInvalid(reason.value)) else None
  }

  /** The id check applies only to the commands that add a rule. */
  predicate AddsRule(c: Cmd) {
    c == Insert || c == Append
  }

  /**
   * Rule.Validate: target, then id (only for insert and append), then name,
   * then privileges; the first failing check is reported.
   */
  function Validation(r: RuleData, env: Env): (err: Option<Error>)
    ensures err.None? <==>
              TargetError(r, env).None? && !(AddsRule(r.command) && r.id in env.ids)
              && r.name !in env.names && env.root
    ensures TargetError(r, env).Some? ==> err == TargetError(r, env)
    ensures err == Some(DuplicateId(r.id)) <==>
              TargetError(r, env).None? && AddsRule(r.command) && r.id in env.ids
    ensures err == Some(DuplicateName(r.name)) <==>
              TargetError(r, env).None? && !(AddsRule(r.command) && r.id in env.ids) && r.name in env.names
    ensures err == Some(NotRoot) <==>
              TargetError(r, env).None? && !(AddsRule(r.command) && r.id in env.ids)
              && r.name !in env.names && !env.root
  {
    var t := TargetError(r, env);
    if t.Some? then t
    else if r.id in env.ids && AddsRule(r.command) then Some(DuplicateId(r.id))
    else if r.name in env.names then Some(DuplicateName(r.name))
    else if !env.root then Some(NotRoot)
    else None
  }

  /** A rule after an attempt to run it, and the error reported, if any. */
  datatype Outcome = Outcome(rule: RuleData, err: Option<Error>)

  /**
   * Rule.execute: a rule that fails validation is left as it is; otherwise its
   * defaults are filled in (by `String`), its command line is run, and it is
   * marked valid and applied exactly when the command succeeded.
   */
  function Executed(r: RuleData, env: Env): (o: Outcome)
    ensures Validation(r, env).Some? ==> o == Outcome(r, Validation(r, env))
    ensures Validation(r, env).None? ==>
              o.rule == Defaulted(r).(valid := o.err.None?, applied := o.err.None?)
    ensures o.err.None? <==>
              Validation(r, env).None? && env.exec(CommandLine(Defaulted(r), env)).Ok?
    ensures o.err.Some? && Validation(r, env).None? ==> o.err.value.ExecFailed?
    ensures o.rule.id == r.id && o.rule.name == r.name && o.rule.matches == r.matches
  {
    var v := Validation(r, env);
    if v.Some? then Outcome(r, v)
    else
      var d := Defaulted(r);
      match env.exec(CommandLine(d, env))
      case Err(e) => Outcome(d.(valid := false, applied := false), Some(ExecFailed(e)))
      case Ok(_) => Outcome(d.(valid := true, applied := true), None)
  }

  /** A rule is marked applied only when it also validated and its command succeeded. */
  lemma AppliedOnlyOnSuccess(r: RuleData, env: Env)
    requires !r.applied
    ensures Executed(r, env).rule.applied <==> Executed(r, env).err.None?
    ensures Executed(r, env).rule.valid == Executed(r, env).rule.applied || Validation(r, env).Some?
  {
  }

  /** Replace and delete never report a duplicate id, whatever ids are in use. */
  lemma NoDuplicateIdForReplaceOrDelete(r: RuleData, env: Env)
    requires r.command == Replace || r.command == Delete
    ensures Validation(r, env) != Some(DuplicateId(r.id))
  {
  }

  /** DSCP targets validate on the mangle table and fail on any other. */
  lemma DscpOnlyOnMangle(r: RuleData, d: int, env: Env)
    requires r.target == Some(Dscp(d))
    ensures TargetError(r, env).None? <==> r.table == TableMangle
    ensures r.table != TableMangle ==> Validation(r, env).Some? && Validation(r, env).value.TargetInvalid?
  {
  }

  /** The commands of Append, Insert, Replace and Delete: each sets the command, Insert also the position. */
  function Appended(r: RuleData, env: Env): (o: Outcome)
    ensures o == Executed(r.(command := Append), env)
    ensures o.err.None? ==> o.rule.command == Append && o.rule.applied
  {
    Executed(r.(command := Append), env)
  }

  function Inserted(r: RuleData, index: int, env: Env): (o: Outcome)
    ensures o == Executed(r.(command := Insert, number := index), env)
    ensures o.rule.command == Insert && o.rule.number == index
  {
    Executed(r.(command := Insert, number := index), env)
  }

  function Replaced(r: RuleData, env: Env): (o: Outcome)
    ensures o == Executed(r.(command := Replace), env)
    ensures o.rule.command == Replace
  {
    Executed(r.(command := Replace), env)
  }

  function Deleted(r: RuleData, env: Env): (o: Outcome)
    ensures o == Executed(r.(command := Delete), env)
    ensures o.rule.command == Delete
  {
    Executed(r.(command := Delete), env)
  }

  /**
   * The command block Insert writes (placed after the path and the table, as
   * `CommandBlock` states): `--insert`, the chain, then the position.
   */
  lemma InsertCommand(r: RuleData, index: int)
    requires r.chain != ""
    ensures CommandSegments(Defaulted(r.(command := Insert, number := index)))
            == ["--insert", r.chain, IntToString(index)]
  {
    var d := Defaulted(r.(command := Insert, number := index));
    assert d.command == Insert && d.chain == r.chain && d.number == index;
    assert "--" + Insert.Text() == "--insert";
    assert CommandSegments(d) == ["--insert"] + [r.chain] + [IntToString(index)];
  }
}
