/**
 * The `Rule` object: its fields, updated in place by every method, each
 * method proved against the function on `RuleData` that specifies it.
 */
module Rules {
  import opened Wrappers
  import opened Strings
  import opened Vocabulary
  import opened Targets
  import opened Matches
  import opened RuleModel
  import opened RuleText
  import opened RuleExec
  import opened RuleUpdate
  import opened RuleParse

  class Rule {
    var id: string
    var name: string
    var table: string
    var chain: string
    var ipVersion: string
    var protocol: string
    var protocolNegated: bool
    var input: string
    var inputNegated: bool
    var output: string
    var outputNegated: bool
    var source: string
    var sourceNegated: bool
    var sourcePort: string
    var sourcePortNegated: bool
    var destination: string
    var destinationNegated: bool
    var destinationPort: string
    var destinationPortNegated: bool
    var target: Option<Target>
    var markers: seq<Marker>
    var matches: seq<Match>
    var valid: bool
    var applied: bool
    var number: int
    var command: Cmd

    /** The current value of every field. */
    function Data(): RuleData
      reads this
    {
      RuleData(id, name, table, chain, ipVersion, protocol, protocolNegated, input, inputNegated,
               output, outputNegated, source, sourceNegated, sourcePort, sourcePortNegated,
               destination, destinationNegated, destinationPort, destinationPortNegated,
               target, markers, matches, valid, applied, number, command)
    }

    /** `Rule{}`: every field at its zero value. */
    constructor Zero()
      ensures Data() == ZeroRule
    {
      id, name, table, chain, ipVersion, protocol := "", "", "", "", "", "";
      input, output, source, sourcePort, destination, destinationPort := "", "", "", "", "", "";
      protocolNegated, inputNegated, outputNegated, sourceNegated := false, false, false, false;
      sourcePortNegated, destinationNegated, destinationPortNegated := false, false, false;
      target, markers, matches := None, [], [];
      valid, applied, number, command := false, false, 0, NoCmd;
    }

    /** NewRule: the id, the name when given, empty markers and matches, the defaults, not valid, not applied. */
    constructor New(id: string, name: Option<string>)
      ensures Data() == NewRuleData(id, name)
    {
      this.id, this.name, table, chain, ipVersion, protocol := "", "", "", "", "", "";
      input, output, source, sourcePort, destination, destinationPort := "", "", "", "", "", "";
      protocolNegated, inputNegated, outputNegated, sourceNegated := false, false, false, false;
      sourcePortNegated, destinationNegated, destinationPortNegated := false, false, false;
      target, markers, matches := None, [], [];
      valid, applied, number, command := false, false, 0, NoCmd;
      new;
      assert Data() == ZeroRule;
      SetIdentity(id, name);
      ghost var named := Data();
      markers := [];
      matches := [];
      assert Data() == named.(markers := [], matches := []);
      SetDefaults();
      ghost var defaulted := Data();
      SetState(false, false);
      assert Data() == defaulted.(valid := false, applied := false);
    }

    /** The first steps of NewRule: the id, then the name when one is given. */
    method SetIdentity(id: string, name: Option<string>)
      modifies this
      ensures Data() == old(Data()).(id := id, name := if name.Some? then name.value else old(this.name))
    {
      SetId(id);
      if name.Some? {
        SetName(name.value);
      }
    }

    /** setDefaults */
    method SetDefaults()
      modifies this
      ensures Data() == Defaulted(old(Data()))
    {
      FillDefaults();
      assert Data() == old(Data()).(ipVersion := ipVersion, target := target, command := command);
    }

    /** The three defaults, each written only when its field is still empty. */
    method FillDefaults()
      modifies this`ipVersion, this`target, this`command
      ensures ipVersion == (if old(ipVersion) == "" then IPv4 else old(ipVersion))
      ensures target == (if old(target).None? then Some(Jump(TargetAccept)) else old(target))
      ensures command == (if old(command) == NoCmd then Cmd.Append else old(command))
    {
      if ipVersion == "" {
        ipVersion := IPv4;
      }
      if target.None? {
        target := Some(Jump(TargetAccept));
      }
      if command == NoCmd {
        command := Cmd.Append;
      }
    }

    /** setState */
    method SetState(valid: bool, applied: bool)
      modifies this
      ensures Data() == old(Data()).(valid := valid, applied := applied)
    {
      this.valid := valid;
      this.applied := applied;
    }

    /** Validate: changes nothing and reports what `Validation` reports. */
    method Validate(env: Env) returns (err: Option<Error>)
      ensures err == Validation(Data(), env)
    {
      if target.None? {
        return Some(NilTarget);
      }
      var t := target.value;
      var reason := if t.Modelled() then t.Validate(table) else env.targetCheck(t, Data());
      if reason.Some? {
        return Some(TargetInvalid(reason.value));
      }
      if id in env.ids && (command == Cmd.Insert || command == Cmd.Append) {
        return Some(DuplicateId(id));
      }
      if name in env.names {
        return Some(DuplicateName(name));
      }
      if !env.root {
        return Some(NotRoot);
      }
      return None;
    }

    /** String: fills in the defaults, then writes the command line of the defaulted rule. */
    method String(env: Env) returns (s: string)
      modifies this
      ensures Data() == Defaulted(old(Data()))
      ensures s == CommandLine(Data(), env)
    {
      SetDefaults();
      ghost var r := Data();
      var output := [env.binaryPath(ipVersion)];
      if table != "" {
        output := output + ["-t " + table];
      }
      ghost var o1 := output;
      var cmd := CommandText();
      output := output + cmd;
      ghost var o2 := output;
      var criteria := CriteriaText();
      output := output + criteria;
      ghost var o3 := output;
      var segs := MatchesText(env.quote);
      output := output + segs;
      ghost var o4 := output;
      var identity := IdentityText();
      output := output + identity;
      ghost var o5 := output;
      if target.Some? {
        output := output + [TargetText(target.value, env)];
      }
      SegmentsInSteps(r, env, o1, o2, o3, o4, o5, output);
      s := Join(output, " ");
    }

    /** The command, its chain, and the position for insert and replace. */
    method CommandText() returns (c: seq<string>)
      ensures c == CommandSegments(Data())
    {
      c := [];
      if command != NoCmd {
        c := c + ["--" + command.Text()];
        if chain != "" {
          c := c + [chain];
        }
        if command == Cmd.Insert || command == Cmd.Replace {
          c := c + [IntToString(number)];
        }
      }
    }

    /** The protocol, address, port and interface segments, each only when set. */
    method CriteriaText() returns (c: seq<string>)
      ensures c == CriteriaSegments(Data())
    {
      var c1 := AppendIfSet([], protocol, Flag(protocolNegated, "--protocol", protocol));
      var c2 := AppendIfSet(c1, source, Flag(sourceNegated, "--source", source));
      var c3 := AppendIfSet(c2, destination, Flag(destinationNegated, "--destination", destination));
      var c4 := AppendIfSet(c3, sourcePort, "--match multiport " + Flag(sourcePortNegated, "--sports", sourcePort));
      var c5 := AppendIfSet(c4, destinationPort, "--match multiport " + Flag(destinationPortNegated, "--dports", destinationPort));
      var c6 := AppendIfSet(c5, input, Flag(inputNegated, "--in-interface", input));
      c := AppendIfSet(c6, output, Flag(outputNegated, "--out-interface", output));
      CriteriaInSteps(Data(), c1, c2, c3, c4, c5, c6, c);
    }

    /** The pattern `if value != "" { output = append(output, segment) }`. */
    static method AppendIfSet(c: seq<string>, value: string, segment: string) returns (d: seq<string>)
      ensures d == c + Opt(value != "", segment)
    {
      d := c;
      if value != "" {
        d := d + [segment];
      }
    }

    /** One segment per match, in order; a comment's value is quoted. */
    method MatchesText(quote: string -> string) returns (segs: seq<string>)
      ensures segs == MatchSegments(matches, quote)
    {
      segs := [];
      var i := 0;
      while i < |matches|
        invariant 0 <= i <= |matches|
        invariant segs == MatchSegments(matches[..i], quote)
      {
        var m := matches[i];
        var value := m.Value();
        if m.Name() == "comment" {
          value := quote(m.Value());
        }
        var seg := "--match " + m.Name() + " " + Flag(m.Negated(), "--" + m.Option(), value);
        assert seg == MatchSegment(matches[i], quote);
        assert MatchSegments(matches[..i + 1], quote) == MatchSegments(matches[..i], quote) + [seg] by {
          assert matches[..i + 1][..i] == matches[..i];
        }
        segs := segs + [seg];
        i := i + 1;
      }
      assert matches[..i] == matches;
    }

    /** The id and name comments, each only when set. */
    method IdentityText() returns (c: seq<string>)
      ensures c == IdentitySegments(Data())
    {
      c := [];
      if id != "" {
        c := c + [IdSegment(id)];
      }
      if name != "" {
        c := c + [NameSegment(name)];
      }
    }

    /** execute: validate, then run the command line and record the outcome. */
    method Execute(env: Env) returns (err: Option<Error>)
      modifies this
      ensures Data() == Executed(old(Data()), env).rule
      ensures err == Executed(old(Data()), env).err
    {
      var validation := Validate(env);
      if validation.Some? {
        return validation;
      }
      var line := String(env);
      var result := env.exec(line);
      if result.Err? {
        SetState(false, false);
        return Some(ExecFailed(result.error));
      }
      SetState(true, true);
      return None;
    }

    method Append(env: Env) returns (err: Option<Error>)
      modifies this
      ensures Data() == Appended(old(Data()), env).rule && err == Appended(old(Data()), env).err
    {
      command := Cmd.Append;
      err := Execute(env);
    }

    method Insert(index: int, env: Env) returns (err: Option<Error>)
      modifies this
      ensures Data() == Inserted(old(Data()), index, env).rule && err == Inserted(old(Data()), index, env).err
    {
      command := Cmd.Insert;
      number := index;
      assert Data() == old(Data()).(command := Cmd.Insert, number := index);
      err := Execute(env);
    }

    method Replace(env: Env) returns (err: Option<Error>)
      modifies this
      ensures Data() == Replaced(old(Data()), env).rule && err == Replaced(old(Data()), env).err
    {
      command := Cmd.Replace;
      err := Execute(env);
    }

    method Delete(env: Env) returns (err: Option<Error>)
      modifies this
      ensures Data() == Deleted(old(Data()), env).rule && err == Deleted(old(Data()), env).err
    {
      command := Cmd.Delete;
      err := Execute(env);
    }

    /** SetApp: an `app` marker and a comment match with its text. */
    method SetApp(app: string)
      modifies this
      ensures Data() == WithApp(old(Data()), app)
    {
      var mark := Marker("app", app);
      markers := markers + [mark];
      var m := Comment(mark.String(), false);
      matches := matches + [m];
    }

    /** The number of the rule in its chain. */
    method SetNumber(n: int)
      modifies this
      ensures Data() == old(Data()).(number := n)
    {
      number := n;
    }

    method SetName(name: string)
      modifies this
      ensures Data() == old(Data()).(name := name)
    {
      this.name := name;
    }

    method SetId(id: string)
      modifies this
      ensures Data() == old(Data()).(id := id)
    {
      this.id := id;
    }

    method AddMarker(marker: Marker)
      modifies this
      ensures Data() == old(Data()).(markers := old(markers) + [marker])
    {
      markers := markers + [marker];
    }

    method AddMatch(m: Match)
      modifies this
      ensures Data() == old(Data()).(matches := old(matches) + [m])
    {
      matches := matches + [m];
    }

    /**
     * Update, as written: see `UpdateAsWritten` for the two misplaced negation
     * flags. The thirteen guarded copies run in the source's order, in three
     * groups: name and interfaces, source, destination. The fields of `u` are
     * read once, up front: no copy reads a field an earlier copy wrote, so this
     * gives the same result even when `u` is this rule itself.
     */
    method Update(u: Rule)
      modifies this
      ensures Data() == UpdateAsWritten(old(Data()), old(u.Data()))
    {
      var v := u.Data();
      UpdateInterfaces(v);
      UpdateSource(v);
      UpdateDestination(v);
    }

    /** Lines 459-464 of Update: the name and the two interfaces. */
    method UpdateInterfaces(u: RuleData)
      modifies this
      ensures Data() == CopyInterfaces(old(Data()), u)
    {
      CopyInterfaceFields(u);
    }

    method CopyInterfaceFields(u: RuleData)
      modifies this`name, this`input, this`inputNegated, this`output, this`outputNegated
      ensures name == if u.name != "" then u.name else old(name)
      ensures input == if u.input != "" then u.input else old(input)
      ensures inputNegated == (old(inputNegated) || u.inputNegated)
      ensures output == if u.output != "" then u.output else old(output)
      ensures outputNegated == (old(outputNegated) || u.outputNegated)
    {
      if u.name != "" { name := u.name; }
      if u.input != "" { input := u.input; }
      if u.inputNegated { inputNegated := u.inputNegated; }
      if u.output != "" { output := u.output; }
      if u.outputNegated { outputNegated := u.outputNegated; }
    }

    /** Lines 465-468 of Update: the source group. */
    method UpdateSource(u: RuleData)
      modifies this
      ensures Data() == CopySource(old(Data()), u)
    {
      CopySourceFields(u);
    }

    /** A set source negation is written to the output negation. */
    method CopySourceFields(u: RuleData)
      modifies this`source, this`outputNegated, this`sourcePort, this`sourcePortNegated
      ensures source == if u.source != "" then u.source else old(source)
      ensures outputNegated == (old(outputNegated) || u.sourceNegated)
      ensures sourcePort == if u.sourcePort != "" then u.sourcePort else old(sourcePort)
      ensures sourcePortNegated == (old(sourcePortNegated) || u.sourcePortNegated)
    {
      if u.source != "" { source := u.source; }
      if u.sourceNegated { outputNegated := u.sourceNegated; }
      if u.sourcePort != "" { sourcePort := u.sourcePort; }
      if u.sourcePortNegated { sourcePortNegated := u.sourcePortNegated; }
    }

    /** Lines 469-472 of Update: the destination group. */
    method UpdateDestination(u: RuleData)
      modifies this
      ensures Data() == CopyDestination(old(Data()), u)
    {
      CopyDestinationFields(u);
    }

    /** A set destination negation copies the destination port negation. */
    method CopyDestinationFields(u: RuleData)
      modifies this`destination, this`destinationNegated, this`destinationPort, this`destinationPortNegated
      ensures destination == if u.destination != "" then u.destination else old(destination)
      ensures destinationNegated == if u.destinationNegated then u.destinationPortNegated else old(destinationNegated)
      ensures destinationPort == if u.destinationPort != "" then u.destinationPort else old(destinationPort)
      ensures destinationPortNegated == (old(destinationPortNegated) || u.destinationPortNegated)
    {
      if u.destination != "" { destination := u.destination; }
      if u.destinationNegated { destinationNegated := u.destinationPortNegated; }
      if u.destinationPort != "" { destinationPort := u.destinationPort; }
      if u.destinationPortNegated { destinationPortNegated := u.destinationPortNegated; }
    }

    /**
     * Parse: the table is converted first (an unknown one clears the table
     * and the valid flag and is reported); then the fields of the line are
     * read by a cursor, one flag and its arguments per step. A flag whose
     * arguments run past the last field stops the parse with `Truncated`.
     */
    method Parse(table: string, line: string) returns (err: Option<Error>)
      modifies this
      ensures Data() == ParseLine(old(Data()), table, line).rule
      ensures err == ParseLine(old(Data()), table, line).err
    {
      var converted := ConvertToTable(table);
      if converted.Err? {
        this.table := "";
        valid := false;
        return Some(UnknownTable(table));
      }
      this.table := converted.value;
      var f := Fields(line);
      ghost var start := Data();
      assert start == old(Data()).(table := converted.value);
      var idx := 0;
      while idx < |f|
        invariant idx <= |f|
        invariant ParseFrom(Data(), f, idx) == ParseFrom(start, f, 0)
        decreases |f| - idx
      {
        var next := ParseField(f, idx);
        if next.None? {
          return Some(Truncated);
        }
        idx := next.value;
      }
      return None;
    }

    /** One iteration of the parse loop, from field `i`: the next field, or None when a flag is cut short. */
    method ParseField(f: seq<string>, i: nat) returns (next: Option<nat>)
      requires i < |f|
      modifies this
      ensures ParseStep(old(Data()), f, i).OutOfRange? ==> next.None? && Data() == old(Data())
      ensures ParseStep(old(Data()), f, i).Next? ==>
                next == Some(ParseStep(old(Data()), f, i).next) && Data() == ParseStep(old(Data()), f, i).rule
    {
      var k := i;
      var negated := false;
      if f[k] == "!" {
        negated := true;
        k := k + 1;
        if k == |f| {
          return None;
        }
      }
      var flag := f[k];
      if IsCriterionFlag(flag) {
        if k + 1 >= |f| {
          return None;
        }
        SetCriterionField(flag, f[k + 1], negated);
        return Some(k + 2);
      } else if flag == "-m" {
        next := ParseMatchField(f, k, negated);
      } else if flag == "-j" || flag == "-g" {
        next := ParseTargetField(f, k);
      } else {
        // an unknown field is only logged, and skipped
        next := Some(k + 1);
      }
    }

    /** `-A`/`-I` name the chain; `-s`, `-d`, `-i`, `-o` and `-p` set a criterion and its negation. */
    method SetCriterionField(flag: string, value: string, negated: bool)
      requires IsCriterionFlag(flag)
      modifies this
      ensures Data() == SetCriterion(old(Data()), flag, value, negated)
    {
      if flag == "-A" || flag == "-I" {
        chain := value;
      } else if flag == "-s" {
        SetSource(value, negated);
      } else if flag == "-d" {
        SetDestination(value, negated);
      } else if flag == "-i" {
        SetInput(value, negated);
      } else if flag == "-o" {
        SetOutput(value, negated);
      } else {
        SetProtocol(value, negated);
      }
    }

    method SetSource(value: string, negated: bool)
      modifies this
      ensures Data() == old(Data()).(source := value, sourceNegated := negated)
    {
      source := value;
      sourceNegated := negated;
    }

    method SetDestination(value: string, negated: bool)
      modifies this
      ensures Data() == old(Data()).(destination := value, destinationNegated := negated)
    {
      destination := value;
      destinationNegated := negated;
    }

    method SetInput(value: string, negated: bool)
      modifies this
      ensures Data() == old(Data()).(input := value, inputNegated := negated)
    {
      input := value;
      inputNegated := negated;
    }

    method SetOutput(value: string, negated: bool)
      modifies this
      ensures Data() == old(Data()).(output := value, outputNegated := negated)
    {
      output := value;
      outputNegated := negated;
    }

    method SetProtocol(value: string, negated: bool)
      modifies this
      ensures Data() == old(Data()).(protocol := value, protocolNegated := negated)
    {
      protocol := value;
      protocolNegated := negated;
    }

    /** `-m` at field `k`: the name, an optional `!`, then the option and its value. */
    method ParseMatchField(f: seq<string>, k: nat, negated: bool) returns (next: Option<nat>)
      requires k < |f|
      modifies this
      ensures ParseMatch(old(Data()), f, k, negated).OutOfRange? ==> next.None? && Data() == old(Data())
      ensures ParseMatch(old(Data()), f, k, negated).Next? ==>
                next == Some(ParseMatch(old(Data()), f, k, negated).next)
                && Data() == ParseMatch(old(Data()), f, k, negated).rule
    {
      if k + 2 >= |f| {
        return None;
      }
      var name := f[k + 1];
      var j := k;
      var neg := negated;
      if f[k + 2] == "!" {
        neg := true;
        j := j + 1;
      }
      if j + 3 >= |f| {
        return None;
      }
      next := MatchAtField(f, name, j, neg);
    }

    /** The match named `name` whose option is field `j + 2` and whose value is field `j + 3`. */
    method MatchAtField(f: seq<string>, name: string, j: nat, negated: bool) returns (next: Option<nat>)
      requires j + 3 < |f|
      modifies this
      ensures MatchAt(old(Data()), f, name, j, negated).OutOfRange? ==> next.None? && Data() == old(Data())
      ensures MatchAt(old(Data()), f, name, j, negated).Next? ==>
                next == Some(MatchAt(old(Data()), f, name, j, negated).next)
                && Data() == MatchAt(old(Data()), f, name, j, negated).rule
    {
      var option := ReplaceFirst(f[j + 2], "--", "");
      var value := f[j + 3];
      if (name == "tcp" || name == "udp") && (HasPrefix(option, "dport") || HasPrefix(option, "sport")) {
        if HasPrefix(option, "dport") {
          SetDestinationPort(value, negated);
        } else {
          SetSourcePort(value, negated);
        }
        return Some(j + 4);
      }
      if f[j + 1] == "comment" {
        next := CommentField(f, j, negated);
      } else {
        RecordMatchField(Generic(name, option, value, negated));
        next := Some(j + 4);
      }
    }

    method SetDestinationPort(value: string, negated: bool)
      modifies this
      ensures Data() == old(Data()).(destinationPort := value, destinationPortNegated := negated)
    {
      destinationPort := value;
      destinationPortNegated := negated;
    }

    method SetSourcePort(value: string, negated: bool)
      modifies this
      ensures Data() == old(Data()).(sourcePort := value, sourcePortNegated := negated)
    {
      sourcePort := value;
      sourcePortNegated := negated;
    }

    /**
     * A comment match: its words run from field `j + 3` up to the next field
     * starting with `-`, and the joined words without quotes are its text.
     */
    method CommentField(f: seq<string>, j: nat, negated: bool) returns (next: Option<nat>)
      requires j + 3 < |f|
      modifies this
      ensures CommentAt(old(Data()), f, j, negated).OutOfRange? ==> next.None? && Data() == old(Data())
      ensures CommentAt(old(Data()), f, j, negated).Next? ==>
                next == Some(CommentAt(old(Data()), f, j, negated).next)
                && Data() == CommentAt(old(Data()), f, j, negated).rule
    {
      var comment, end := CommentWords(f, j + 3);
      if end.None? {
        // the scan ran past the last field
        return None;
      }
      var value := Join(comment, " ");
      value := RemoveAll(value, "\\\"");
      value := RemoveAll(value, "\"");
      value := RemoveAll(value, "'");
      RecordCommentField(value, negated);
      next := end;
    }

    /** The words of a comment: the fields from `k` up to the first one starting with `-`, if there is one. */
    static method CommentWords(f: seq<string>, k: nat) returns (comment: seq<string>, end: Option<nat>)
      requires k <= |f|
      ensures end == CommentEnd(f, k)
      ensures end.Some? ==> comment == f[k..end.value]
    {
      comment := [];
      var idx := k;
      while idx < |f| && !HasPrefix(f[idx], "-")
        invariant k <= idx <= |f|
        invariant comment == f[k..idx]
        invariant CommentEnd(f, idx) == CommentEnd(f, k)
        decreases |f| - idx
      {
        comment := comment + [f[idx]];
        idx := idx + 1;
      }
      end := if idx == |f| then None else Some(idx);
    }

    /** The marker a `name:value` comment carries (exactly one colon), then the comment match itself. */
    method RecordCommentField(value: string, negated: bool)
      modifies this
      ensures Data() == RecordComment(old(Data()), value, negated)
    {
      if Contains(value, ":") {
        var parts := Split(value, ':');
        if |parts| == 2 {
          AddMarker(Marker(parts[0], parts[1]));
        }
      }
      RecordMatchField(Comment(value, negated));
    }

    /** An `id:` or `name:` comment sets the id or the name; any other match is appended. */
    method RecordMatchField(m: Match)
      modifies this
      ensures Data() == RecordMatch(old(Data()), m)
    {
      if m.Name() == "comment" && HasPrefix(m.Value(), "id:") {
        id := ReplaceFirst(m.Value(), "id:", "");
      } else if m.Name() == "comment" && HasPrefix(m.Value(), "name:") {
        name := ReplaceFirst(m.Value(), "name:", "");
      } else {
        AddMatch(m);
      }
    }

    /** `-j`/`-g` at field `k`: the target and the arguments it takes. */
    method ParseTargetField(f: seq<string>, k: nat) returns (next: Option<nat>)
      requires k < |f|
      modifies this
      ensures ParseTarget(old(Data()), f, k).OutOfRange? ==> next.None? && Data() == old(Data())
      ensures ParseTarget(old(Data()), f, k).Next? ==>
                next == Some(ParseTarget(old(Data()), f, k).next) && Data() == ParseTarget(old(Data()), f, k).rule
    {
      if k + 1 >= |f| {
        return None;
      }
      var name := f[k + 1];
      if name == "ACCEPT" || name == "DROP" || name == "QUEUE" || name == "RETURN" {
        target := Some(if f[k] == "-j" then Jump(name) else Goto(name));
        return Some(k + 2);
      } else if name == "DNAT" || name == "SNAT" {
        if k + 3 >= |f| {
          return None;
        }
        target := Some(Unmodelled(name, [f[k + 2], f[k + 3]]));
        return Some(k + 4);
      } else if name == "DSCP" {
        if k + 3 >= |f| {
          return None;
        }
        target := Some(Dscp(0).Parse(f[k + 2], f[k + 3]));
        return Some(k + 4);
      } else if name == "MASQUERADE" {
        if k + 2 < |f| && f[k + 2] == "--to-ports" {
          if k + 3 >= |f| {
            return None;
          }
          target := Some(Unmodelled(name, [f[k + 2], f[k + 3]]));
          return Some(k + 4);
        }
        target := Some(Unmodelled(name, []));
        return Some(k + 2);
      } else {
        // an unknown chain is only logged
        target := Some(if f[k] == "-j" then Jump(name) else Goto(name));
        return Some(k + 2);
      }
    }
  }
}
