/**
 * Sync and LabelRules: reading every table back from the kernel into fresh
 * `Rule` objects, and giving an id to each rule that has none.
 */
module RuleSync {
  import opened Wrappers
  import opened Strings
  import opened RuleModel
  import opened RuleExec
  import opened RuleParse
  import opened SyncModel
  import opened Rules

  /** The objects are pairwise different. */
  predicate Distinct(rules: seq<Rule>) {
    forall i, j :: 0 <= i < j < |rules| ==> rules[i] != rules[j]
  }

  /** The objects hold the rule values, one for one. */
  ghost predicate Hold(rules: seq<Rule>, values: seq<RuleData>)
    reads set k | 0 <= k < |rules| :: rules[k]
  {
    |rules| == |values| && forall k :: 0 <= k < |rules| ==> rules[k].Data() == values[k]
  }

  /** One more object, different from the others, holding one more value. */
  lemma RuleAdded(rules: seq<Rule>, values: seq<RuleData>, r: Rule)
    requires Hold(rules, values) && Distinct(rules) && r !in rules
    ensures Hold(rules + [r], values + [r.Data()]) && Distinct(rules + [r])
    ensures |rules + [r]| == |rules| + 1 && (rules + [r])[|rules|] == r
    ensures forall k :: 0 <= k < |rules| ==> (rules + [r])[k] == rules[k]
  {
    var rs := rules + [r];
    forall k | 0 <= k < |rs|
      ensures rs[k].Data() == (values + [r.Data()])[k]
    {
      if k < |rules| {
        assert rs[k] == rules[k];
      }
    }
  }

  /**
   * One table of one IP version: list it, then parse each `-A`/`-I` line into
   * a fresh rule numbered per chain, with the counters starting afresh.
   */
  method SyncTable(env: Env, ipver: string, ipt: string, table: string) returns (err: Option<Error>, rules: seq<Rule>)
    requires ipt == env.binaryPath(ipver)
    ensures TableListing(env, ipver, table).Err? ==> err == Some(TableListing(env, ipver, table).error) && rules == []
    ensures TableListing(env, ipver, table).Ok? ==>
              err.None? && Hold(rules, TableListing(env, ipver, table).value)
    ensures forall k :: 0 <= k < |rules| ==> fresh(rules[k])
    ensures Distinct(rules)
  {
    var listing := env.exec(ListCommand(ipt, table));
    if listing.Err? {
      return Some(ExecFailed(listing.error)), [];
    }
    var lines := Split(listing.value, '\n');
    var numbers: map<string, int> := map[];
    ghost var parsed: seq<RuleData> := [];
    err, rules := None, [];
    for i := 0 to |lines|
      invariant TableRules(ipver, table, lines[..i]) == Ok(parsed)
      invariant Hold(rules, parsed) && Distinct(rules)
      invariant forall k :: 0 <= k < |rules| ==> fresh(rules[k])
      invariant Counts(numbers, parsed)
    {
      var e;
      ghost var before := rules;
      e, rules, numbers, parsed := ReadLine(ipver, table, lines, i, rules, numbers, parsed);
      if e.Some? {
        TableErrorPersists(ipver, table, lines, i + 1);
        assert lines[..|lines|] == lines;
        return e, [];
      }
      forall k | 0 <= k < |rules|
        ensures fresh(rules[k])
      {
        if k < |before| {
          assert rules[k] == before[k];
        } else {
          assert k == |before|;
        }
      }
    }
    assert lines[..|lines|] == lines;
    assert TableListing(env, ipver, table) == Ok(parsed);
  }

  /**
   * One line of the listing: a rule line becomes one more rule, numbered in
   * its chain; a parse error is returned; any other line is passed over.
   */
  method ReadLine(ipver: string, table: string, lines: seq<string>, i: nat, rules: seq<Rule>,
                  numbers: map<string, int>, ghost parsed: seq<RuleData>)
      returns (err: Option<Error>, rules': seq<Rule>, numbers': map<string, int>, ghost parsed': seq<RuleData>)
    requires i < |lines| && TableRules(ipver, table, lines[..i]) == Ok(parsed)
    requires Hold(rules, parsed) && Distinct(rules) && Counts(numbers, parsed)
    ensures err.Some? ==> TableRules(ipver, table, lines[..i + 1]) == Err(err.value)
    ensures err.None? ==> TableRules(ipver, table, lines[..i + 1]) == Ok(parsed')
    ensures err.None? ==> Hold(rules', parsed') && Distinct(rules') && Counts(numbers', parsed')
    ensures |rules'| == |rules| || (|rules'| == |rules| + 1 && fresh(rules'[|rules|]))
    ensures |rules| <= |rules'| && forall k :: 0 <= k < |rules| ==> rules'[k] == rules[k]
  {
    if HasPrefix(lines[i], "-A") || HasPrefix(lines[i], "-I") {
      err, rules', numbers', parsed' := ReadRuleLine(ipver, table, lines, i, rules, numbers, parsed);
    } else {
      OtherLineSkipped(ipver, table, lines, i, parsed);
      err, rules', numbers', parsed' := None, rules, numbers, parsed;
    }
  }

  /** A rule line: it is parsed and numbered, and joins the rules read so far. */
  method ReadRuleLine(ipver: string, table: string, lines: seq<string>, i: nat, rules: seq<Rule>,
                      numbers: map<string, int>, ghost parsed: seq<RuleData>)
      returns (err: Option<Error>, rules': seq<Rule>, numbers': map<string, int>, ghost parsed': seq<RuleData>)
    requires i < |lines| && TableRules(ipver, table, lines[..i]) == Ok(parsed) && IsRuleLine(lines[i])
    requires Hold(rules, parsed) && Distinct(rules) && Counts(numbers, parsed)
    ensures err.Some? ==> TableRules(ipver, table, lines[..i + 1]) == Err(err.value)
    ensures err.None? ==> TableRules(ipver, table, lines[..i + 1]) == Ok(parsed')
    ensures err.None? ==> Hold(rules', parsed') && Distinct(rules') && Counts(numbers', parsed')
    ensures |rules'| == |rules| || (|rules'| == |rules| + 1 && fresh(rules'[|rules|]))
    ensures |rules| <= |rules'| && forall k :: 0 <= k < |rules| ==> rules'[k] == rules[k]
  {
    var r;
    err, r, numbers' := ReadRule(ipver, table, lines[i], numbers, parsed);
    if err.Some? {
      RuleLineRead(ipver, table, lines, i, parsed, ZeroRule, err);
      return err, rules, numbers', parsed;
    }
    RuleLineRead(ipver, table, lines, i, parsed, r.Data(), err);
    RuleAdded(rules, parsed, r);
    rules', parsed' := rules + [r], parsed + [r.Data()];
  }

  /** The per-chain counters agree with the rules read so far in this table. */
  ghost predicate Counts(numbers: map<string, int>, parsed: seq<RuleData>) {
    (forall c :: c in numbers ==> numbers[c] == CountChain(parsed, c))
    && (forall c :: c !in numbers ==> CountChain(parsed, c) == 0)
  }

  /** `Rule{}` with the IP version of the pass, then `Parse` of the line. */
  method ParseListed(ipver: string, table: string, line: string) returns (err: Option<Error>, r: Rule)
    ensures fresh(r)
    ensures r.Data() == ListedRule(ipver, table, line).rule
    ensures err == ListedRule(ipver, table, line).err
  {
    r := new Rule.Zero();
    r.ipVersion := ipver;
    assert r.Data() == ZeroRule.(ipVersion := ipver);
    err := r.Parse(table, line);
  }

  /** The counters after one more rule: its chain's counter, created at 0 when missing, goes up by one. */
  lemma CountsStep(numbers: map<string, int>, next: map<string, int>, parsed: seq<RuleData>, r: RuleData)
    requires Counts(numbers, parsed)
    requires next == numbers[r.chain := (if r.chain in numbers then numbers[r.chain] else 0) + 1]
    ensures Counts(next, parsed + [r])
  {
    assert (parsed + [r])[..|parsed|] == parsed;
  }

  /**
   * One rule line: a zero rule with the IP version parses the line; it is
   * numbered one past the rules of its chain read so far in this table.
   */
  method ReadRule(ipver: string, table: string, line: string, numbers: map<string, int>, ghost parsed: seq<RuleData>)
      returns (err: Option<Error>, r: Rule, next: map<string, int>)
    requires Counts(numbers, parsed)
    ensures fresh(r)
    ensures err == ListedRule(ipver, table, line).err
    ensures err.None? ==> r.Data() == Numbered(parsed, ListedRule(ipver, table, line).rule)
    ensures err.None? ==> Counts(next, parsed + [r.Data()])
  {
    err, r := ParseListed(ipver, table, line);
    next := numbers;
    if err.None? {
      ghost var p := r.Data();
      var chain := r.chain;
      var n;
      next, n := Bump(numbers, chain);
      assert n == CountChain(parsed, chain) + 1;
      r.SetNumber(n);
      ghost var d := r.Data();
      assert d == p.(number := n) && d.chain == chain;
      CountsStep(numbers, next, parsed, d);
    }
  }

  /** The chain's counter, created at 0 when missing, goes up by one; `n` is its new value. */
  method Bump(numbers: map<string, int>, chain: string) returns (next: map<string, int>, n: int)
    ensures n == (if chain in numbers then numbers[chain] else 0) + 1
    ensures next == numbers[chain := n]
  {
    next := numbers;
    if chain !in next {
      next := next[chain := 0];
    }
    next := next[chain := next[chain] + 1];
    n := next[chain];
  }

  /** Two lists of objects, each pairwise different and none shared, joined. */
  lemma DistinctAppend(a: seq<Rule>, b: seq<Rule>)
    requires Distinct(a) && Distinct(b)
    requires forall i, j :: 0 <= i < |a| && 0 <= j < |b| ==> a[i] != b[j]
    ensures Distinct(a + b)
  {
    var ab := a + b;
    forall i, j | 0 <= i < j < |ab|
      ensures ab[i] != ab[j]
    {
      if j < |a| {
        assert ab[i] == a[i] && ab[j] == a[j];
      } else if i < |a| {
        assert ab[i] == a[i] && ab[j] == b[j - |a|];
      } else {
        assert ab[i] == b[i - |a|] && ab[j] == b[j - |a|];
      }
    }
  }

  /** Objects holding two lists of values, joined, hold the joined values. */
  lemma HoldAppend(a: seq<Rule>, x: seq<RuleData>, b: seq<Rule>, y: seq<RuleData>)
    requires Hold(a, x) && Hold(b, y)
    ensures Hold(a + b, x + y)
  {
    var ab := a + b;
    forall k | 0 <= k < |ab|
      ensures ab[k].Data() == (x + y)[k]
    {
      if k < |a| {
        assert ab[k] == a[k];
      } else {
        assert ab[k] == b[k - |a|];
      }
    }
  }

  /** One pass: the binary of the IP version lists every table in turn; the first error ends it. */
  method SyncPass(env: Env, ipver: string) returns (err: Option<Error>, rules: seq<Rule>)
    ensures SyncTables(env, ipver, env.tables).Err? ==> err == Some(SyncTables(env, ipver, env.tables).error) && rules == []
    ensures SyncTables(env, ipver, env.tables).Ok? ==> err.None? && Hold(rules, SyncTables(env, ipver, env.tables).value)
    ensures forall k :: 0 <= k < |rules| ==> fresh(rules[k])
    ensures Distinct(rules)
  {
    var ipt := env.binaryPath(ipver);
    ghost var acc: seq<RuleData> := [];
    err, rules := None, [];
    for t := 0 to |env.tables|
      invariant SyncTables(env, ipver, env.tables[..t]) == Ok(acc)
      invariant Hold(rules, acc) && Distinct(rules)
      invariant forall k :: 0 <= k < |rules| ==> fresh(rules[k])
    {
      var e;
      ghost var before := rules;
      e, rules, acc := SyncNextTable(env, ipver, ipt, t, rules, acc);
      if e.Some? {
        PassErrorPersists(env, ipver, env.tables, t + 1);
        assert env.tables[..|env.tables|] == env.tables;
        return e, [];
      }
      forall k | 0 <= k < |rules|
        ensures fresh(rules[k])
      {
        if k < |before| {
          assert rules[k] == before[k];
        }
      }
    }
    assert env.tables[..|env.tables|] == env.tables;
  }

  /** The next table of a pass: its rules follow the rules read so far. */
  method SyncNextTable(env: Env, ipver: string, ipt: string, t: nat, rules: seq<Rule>, ghost acc: seq<RuleData>)
      returns (err: Option<Error>, rules': seq<Rule>, ghost acc': seq<RuleData>)
    requires ipt == env.binaryPath(ipver) && t < |env.tables|
    requires SyncTables(env, ipver, env.tables[..t]) == Ok(acc) && Hold(rules, acc) && Distinct(rules)
    ensures err.Some? ==> SyncTables(env, ipver, env.tables[..t + 1]) == Err(err.value)
    ensures err.None? ==> SyncTables(env, ipver, env.tables[..t + 1]) == Ok(acc') && Hold(rules', acc') && Distinct(rules')
    ensures err.None? ==> acc' == acc + TableListing(env, ipver, env.tables[t]).value
    ensures |rules| <= |rules'| && forall k :: 0 <= k < |rules| ==> rules'[k] == rules[k]
    ensures forall k :: |rules| <= k < |rules'| ==> fresh(rules'[k])
  {
    var found;
    err, found := SyncTable(env, ipver, ipt, env.tables[t]);
    assert env.tables[..t + 1][..t] == env.tables[..t];
    rules', acc' := rules, acc;
    if err.None? {
      ghost var values := TableListing(env, ipver, env.tables[t]).value;
      HoldAppend(rules, acc, found, values);
      DistinctAppend(rules, found);
      rules', acc' := rules + found, acc + values;
      forall k | |rules| <= k < |rules'|
        ensures fresh(rules'[k])
      {
        assert rules'[k] == found[k - |rules|];
      }
    }
  }

  /**
   * Sync: only root may list the tables; then every table of ipv4 and of
   * ipv6, in that order, each line of a listing becoming a fresh rule.
   */
  method Sync(env: Env) returns (rules: seq<Rule>, err: Option<Error>)
    ensures SyncAll(env).Err? ==> err == Some(SyncAll(env).error) && rules == []
    ensures SyncAll(env).Ok? ==> err.None? && Hold(rules, SyncAll(env).value)
    ensures forall k :: 0 <= k < |rules| ==> fresh(rules[k])
    ensures Distinct(rules)
  {
    if !env.root {
      return [], Some(NotRoot);
    }
    ghost var acc: seq<RuleData> := [];
    rules, err := [], None;
    for v := 0 to |IpVersions|
      invariant SyncVersions(env, IpVersions[..v]) == Ok(acc)
      invariant Hold(rules, acc) && Distinct(rules)
      invariant forall k :: 0 <= k < |rules| ==> fresh(rules[k])
    {
      var e;
      ghost var before := rules;
      e, rules, acc := SyncNextPass(env, IpVersions, v, rules, acc);
      if e.Some? {
        SyncErrorPersists(env, IpVersions, v + 1);
        assert IpVersions[..|IpVersions|] == IpVersions;
        return [], e;
      }
      forall k | 0 <= k < |rules|
        ensures fresh(rules[k])
      {
        if k < |before| {
          assert rules[k] == before[k];
        }
      }
    }
    assert IpVersions[..|IpVersions|] == IpVersions;
  }

  /** The next pass of a sync: its rules follow the rules read so far. */
  method SyncNextPass(env: Env, versions: seq<string>, v: nat, rules: seq<Rule>, ghost acc: seq<RuleData>)
      returns (err: Option<Error>, rules': seq<Rule>, ghost acc': seq<RuleData>)
    requires v < |versions| && SyncVersions(env, versions[..v]) == Ok(acc) && Hold(rules, acc) && Distinct(rules)
    ensures err.Some? ==> SyncVersions(env, versions[..v + 1]) == Err(err.value)
    ensures err.None? ==> SyncVersions(env, versions[..v + 1]) == Ok(acc') && Hold(rules', acc') && Distinct(rules')
    ensures |rules| <= |rules'| && forall k :: 0 <= k < |rules| ==> rules'[k] == rules[k]
    ensures forall k :: |rules| <= k < |rules'| ==> fresh(rules'[k])
  {
    var found;
    err, found := SyncPass(env, versions[v]);
    assert versions[..v + 1][..v] == versions[..v];
    rules', acc' := rules, acc;
    if err.None? {
      ghost var values := SyncTables(env, versions[v], env.tables).value;
      HoldAppend(rules, acc, found, values);
      DistinctAppend(rules, found);
      rules', acc' := rules + found, acc + values;
      forall k | |rules| <= k < |rules'|
        ensures fresh(rules'[k])
      {
        assert rules'[k] == found[k - |rules|];
      }
    }
  }

  /**
   * One rule without an id: it takes the id, printing it fills in its
   * defaults, and it is replaced in the kernel; a failed replace is only
   * logged.
   */
  method LabelRule(rule: Rule, id: string, env: Env)
    modifies rule
    ensures rule.Data() == LabelOne(old(rule.Data()), id, env)
  {
    rule.SetId(id);
    var _ := rule.String(env);
    var _ := rule.Replace(env);
  }

  /** Labelling one rule of a list: the other rules keep their values. */
  method LabelAt(rules: seq<Rule>, i: nat, id: string, env: Env, ghost values: seq<RuleData>)
    requires i < |rules| && Distinct(rules) && Hold(rules, values)
    modifies rules[i]
    ensures Hold(rules, values[i := LabelOne(values[i], id, env)])
  {
    LabelRule(rules[i], id, env);
    forall k | 0 <= k < |rules| && k != i
      ensures rules[k].Data() == values[k]
    {
      assert rules[k] != rules[i];
      assert old(rules[k].Data()) == values[k];
    }
  }

  /** The rules after `i` steps of labelling: the first `i` labelled, the rest as synced. */
  ghost function Progress(synced: seq<RuleData>, i: nat, env: Env, nextId: nat -> string): seq<RuleData>
    requires i <= |synced|
  {
    Labelled(synced, env, nextId)[..i] + synced[i..]
  }

  /** Labelling starts from the synced rules and ends with every rule labelled. */
  lemma ProgressEnds(synced: seq<RuleData>, env: Env, nextId: nat -> string)
    ensures Progress(synced, 0, env, nextId) == synced
    ensures Progress(synced, |synced|, env, nextId) == Labelled(synced, env, nextId)
  {
    assert Labelled(synced, env, nextId)[..0] == [];
    assert synced[|synced|..] == [];
  }

  /**
   * One step of labelling: a rule with an id is kept, a rule without one is
   * labelled with the id after those handed out before it.
   */
  lemma ProgressStep(synced: seq<RuleData>, i: nat, env: Env, nextId: nat -> string)
    requires i < |synced|
    ensures Progress(synced, i, env, nextId)[i] == synced[i]
    ensures UnlabelledCount(synced[..i + 1]) == UnlabelledCount(synced[..i]) + (if synced[i].id == "" then 1 else 0)
    ensures synced[i].id != "" ==> Progress(synced, i + 1, env, nextId) == Progress(synced, i, env, nextId)
    ensures synced[i].id == "" ==>
              Progress(synced, i + 1, env, nextId)
              == Progress(synced, i, env, nextId)[i := LabelOne(synced[i], nextId(UnlabelledCount(synced[..i])), env)]
  {
    assert synced[..i + 1][..i] == synced[..i];
    var a := Progress(synced, i + 1, env, nextId);
    var b := Progress(synced, i, env, nextId)[i := LabelledAt(synced, i, env, nextId)];
    assert |a| == |b|;
    forall k | 0 <= k < |a|
      ensures a[k] == b[k]
    {
      if k < i {
        assert a[k] == Labelled(synced, env, nextId)[k];
      } else if k > i {
        assert a[k] == synced[k];
      }
    }
    assert a == b;
  }

  /** Hand out ids to the rules that have none, in order; the other rules are left alone. */
  method LabelAll(rules: seq<Rule>, env: Env, nextId: nat -> string, ghost synced: seq<RuleData>)
    requires Hold(rules, synced) && Distinct(rules)
    modifies set k | 0 <= k < |rules| :: rules[k]
    ensures Hold(rules, Labelled(synced, env, nextId))
  {
    ProgressEnds(synced, env, nextId);
    var issued: nat := 0;
    for i := 0 to |rules|
      invariant issued == UnlabelledCount(synced[..i])
      invariant Hold(rules, Progress(synced, i, env, nextId))
    {
      ProgressStep(synced, i, env, nextId);
      if rules[i].id == "" {
        var id := nextId(issued);
        issued := issued + 1;
        LabelAt(rules, i, id, env, Progress(synced, i, env, nextId));
      }
    }
  }

  /**
   * LabelRules: sync, then hand a new id from `nextId` to every rule that
   * has none, in order. The labelled rules are returned as well.
   */
  method LabelRules(env: Env, nextId: nat -> string) returns (err: Option<Error>, rules: seq<Rule>)
    ensures SyncAll(env).Err? ==> err == Some(SyncAll(env).error) && rules == []
    ensures SyncAll(env).Ok? ==> err.None? && Hold(rules, Labelled(SyncAll(env).value, env, nextId))
  {
    rules, err := Sync(env);
    if err.Some? {
      return;
    }
    LabelAll(rules, env, nextId, SyncAll(env).value);
  }
}
