/**
 * Rule targets: the jump target, the DSCP targets and the other variants a
 * listing can name.
 */
module Targets {
  import opened Wrappers
  import opened Strings
  import opened Vocabulary

  const TargetJumpStr: string := "--jump"
  const TargetDSCPStr: string := "--set-dscp"
  const TargetAccept: string := "ACCEPT"

  /** TargetJump.String: the jump option, one space, then the value. */
  function JumpString(value: string): (s: string)
    ensures HasPrefix(s, TargetJumpStr + " ")
    ensures s[|TargetJumpStr| + 1..] == value
  {
    TargetJumpStr + " " + value
  }

  /**
   * The target of a rule. `Jump` and `Dscp` are the variants whose behaviour is
   * modelled; `Goto` and `Unmodelled` (DNAT, SNAT, MASQUERADE, MARK) are known
   * only by what the parser builds: the value, or the option/value pair handed
   * to the variant's own Parse.
   */
  datatype Target =
    | Jump(value: string)
    | Goto(value: string)
    | Dscp(dscp: int)
    | Unmodelled(kind: string, args: seq<string>)
  {
    predicate Modelled() {
      Jump? || Dscp?
    }

    /** TargetJump.String and TargetDSCP.String. */
    function String(): string
      requires Modelled()
    {
      match this
      case Jump(v) => JumpString(v)
      case Dscp(d) => JumpString("DSCP " + TargetDSCPStr + " " + IntToString(d))
    }

    /** TargetJump.Validate and TargetDSCP.Validate, given the owning rule's table. */
    function Validate(table: string): (err: Option<string>)
      requires Modelled()
      ensures Jump? ==> err.None?
      ensures Dscp? ==> (err.Some? <==> table != TableMangle)
    {
      if Dscp? && table != TableMangle then Some("target DSCP is only valid on the 'mangle' table")
      else None
    }

    /** TargetJump.Parse and TargetDSCP.Parse: both have empty bodies. */
    function Parse(option: string, value: string): (t: Target)
      requires Modelled()
      ensures t == this
    {
      this
    }
  }

  /** Every DSCP target text is a jump text to `DSCP --set-dscp <value>`. */
  lemma DscpString(d: int)
    ensures Dscp(d).String() == "--jump DSCP --set-dscp " + IntToString(d)
    ensures HasPrefix(Dscp(d).String(), TargetJumpStr)
  {
  }

  /** TargetDSCPClass: not a Target (it offers Valid, not Validate). */
  datatype DscpClass = DscpClass(className: string) {
    /** Valid: only the mangle table accepts a DSCP class target. */
    function Valid(table: string): (ok: bool)
      ensures ok <==> table == TableMangle
    {
      table == TableMangle
    }

    /** Parse has an empty body. */
    function Parse(option: string, value: string): (t: DscpClass)
      ensures t == this
    {
      this
    }
  }
}
