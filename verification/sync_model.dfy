/**
 * What `Sync` and `LabelRules` compute: the rules of every `-S` listing, per
 * IP version and table, numbered per chain, and the ids `LabelRules` hands
 * out to the rules that have none.
 */
module SyncModel {
  import opened Wrappers
  import opened Strings
  import opened Vocabulary
  import opened RuleModel
  import opened RuleParse
  import opened RuleExec

  /** The IP versions a sync lists, in order. */
  const IpVersions: seq<string> := ["ipv4", "ipv6"]

  /** The command that lists one table: `<binary> -t <table> -S`. */
  function ListCommand(path: string, table: string): (cmd: string)
    ensures HasPrefix(cmd, path) && cmd[|path|..] == " -t " + table + " -S"
  {
    path + " -t " + table + " -S"
  }

  /** Only listing lines that append or insert a rule describe one. */
  predicate IsRuleLine(line: string) {
    HasPrefix(line, "-A") || HasPrefix(line, "-I")
  }

  /** How many lines describe a rule. */
  function RuleLineCount(lines: seq<string>): (n: nat)
    ensures n <= |lines|
    decreases |lines|
  {
    if lines == [] then 0
    else RuleLineCount(lines[..|lines| - 1]) + (if IsRuleLine(lines[|lines| - 1]) then 1 else 0)
  }

  /** How many of `rules` are in `chain`. */
  function CountChain(rules: seq<RuleData>, chain: string): (n: nat)
    ensures n <= |rules|
    decreases |rules|
  {
    if rules == [] then 0
    else CountChain(rules[..|rules| - 1], chain) + (if rules[|rules| - 1].chain == chain then 1 else 0)
  }

  /** The rules of `rules` that are in `chain`, in order. */
  function OnChain(rules: seq<RuleData>, chain: string): (on: seq<RuleData>)
    ensures |on| == CountChain(rules, chain)
    ensures forall k :: 0 <= k < |on| ==> on[k].chain == chain
    decreases |rules|
  {
    if rules == [] then []
    else
      var last := rules[|rules| - 1];
      OnChain(rules[..|rules| - 1], chain) + (if last.chain == chain then [last] else [])
  }

  /** A rule as a sync reads it: from the given pass, neither valid nor applied, with no command. */
  predicate FromPass(r: RuleData, ipver: string, table: string) {
    r.ipVersion == ipver && r.table == table && !r.valid && !r.applied && r.command == NoCmd
  }

  /** A rule as a sync returns it: from one of the versions and tables listed, neither valid nor applied, with no command. */
  predicate Synced(r: RuleData, versions: seq<string>, tables: seq<string>) {
    r.ipVersion in versions && r.table in tables && !r.valid && !r.applied && r.command == NoCmd
  }

  /** Each rule's number is one more than the number of rules of its chain before it. */
  predicate NumberedPerChain(rules: seq<RuleData>) {
    forall k :: 0 <= k < |rules| ==> rules[k].number == CountChain(rules[..k], rules[k].chain) + 1
  }

  /** A listed rule line read into a zero rule that carries the IP version of its pass. */
  function ListedRule(ipver: string, table: string, line: string): (p: Parsed)
    ensures p.err.None? ==> FromPass(p.rule, ipver, table)
  {
    ParseLine(ZeroRule.(ipVersion := ipver), table, line)
  }

  /**
   * The rules read so far, extended by one parsed line: its parse error, or
   * the rule numbered one past the rules of its chain read so far.
   */
  function AddListed(prev: seq<RuleData>, p: Parsed): Result<seq<RuleData>, Error> {
    if p.err.Some? then Err(p.err.value) else Ok(prev + [Numbered(prev, p.rule)])
  }

  /** A rule numbered one past the rules of its chain in `prev`. */
  function Numbered(prev: seq<RuleData>, r: RuleData): RuleData {
    r.(number := CountChain(prev, r.chain) + 1)
  }

  /**
   * The rules of one table's listing: each `-A`/`-I` line is parsed into a
   * zero rule carrying the IP version, then numbered after the rules of its
   * chain seen so far in this table. The first parse error ends the listing.
   */
  function TableRules(ipver: string, table: string, lines: seq<string>): (res: Result<seq<RuleData>, Error>)
    ensures res.Ok? ==> |res.value| == RuleLineCount(lines)
    decreases |lines|
  {
    if lines == [] then Ok([])
    else
      match TableRules(ipver, table, lines[..|lines| - 1])
      case Err(e) => Err(e)
      case Ok(prev) =>
        var line := lines[|lines| - 1];
        if !IsRuleLine(line) then Ok(prev) else AddListed(prev, ListedRule(ipver, table, line))
  }

  /** Every rule of a listing comes from its pass and is numbered per chain. */
  lemma {:induction false} TableRulesRead(ipver: string, table: string, lines: seq<string>)
    requires TableRules(ipver, table, lines).Ok?
    ensures forall k :: 0 <= k < |TableRules(ipver, table, lines).value| ==> FromPass(TableRules(ipver, table, lines).value[k], ipver, table)
    ensures NumberedPerChain(TableRules(ipver, table, lines).value)
    decreases |lines|
  {
    if lines != [] {
      var init := lines[..|lines| - 1];
      TableRulesRead(ipver, table, init);
      var prev := TableRules(ipver, table, init).value;
      var line := lines[|lines| - 1];
      if IsRuleLine(line) {
        var p := ListedRule(ipver, table, line);
        var r := Numbered(prev, p.rule);
        assert TableRules(ipver, table, lines) == AddListed(prev, p);
        NumberedExtend(prev, r);
        assert forall k :: 0 <= k < |prev| ==> (prev + [r])[k] == prev[k];
      }
    }
  }

  /** A rule numbered after the rules of its chain before it keeps the numbering per chain. */
  lemma NumberedExtend(prev: seq<RuleData>, r: RuleData)
    requires NumberedPerChain(prev) && r.number == CountChain(prev, r.chain) + 1
    ensures NumberedPerChain(prev + [r])
  {
    var rules := prev + [r];
    forall k | 0 <= k < |rules|
      ensures rules[k].number == CountChain(rules[..k], rules[k].chain) + 1
    {
      if k < |prev| {
        assert rules[..k] == prev[..k];
      } else {
        assert rules[..k] == prev;
      }
    }
  }

  /** A rule line read after the rules `prev` of the listing so far: its parse error, or one more rule. */
  lemma RuleLineRead(ipver: string, table: string, lines: seq<string>, i: nat, prev: seq<RuleData>, r: RuleData, err: Option<Error>)
    requires i < |lines| && TableRules(ipver, table, lines[..i]) == Ok(prev) && IsRuleLine(lines[i])
    requires err == ListedRule(ipver, table, lines[i]).err
    requires err.None? ==> r == Numbered(prev, ListedRule(ipver, table, lines[i]).rule)
    ensures err.Some? ==> TableRules(ipver, table, lines[..i + 1]) == Err(err.value)
    ensures err.None? ==> TableRules(ipver, table, lines[..i + 1]) == Ok(prev + [r])
  {
    assert lines[..i + 1][..i] == lines[..i];
  }

  /** Any other line of the listing is passed over. */
  lemma OtherLineSkipped(ipver: string, table: string, lines: seq<string>, i: nat, prev: seq<RuleData>)
    requires i < |lines| && TableRules(ipver, table, lines[..i]) == Ok(prev) && !IsRuleLine(lines[i])
    ensures TableRules(ipver, table, lines[..i + 1]) == Ok(prev)
  {
    assert lines[..i + 1][..i] == lines[..i];
  }

  /** An error in a prefix of the listing is the error of the whole listing. */
  lemma {:induction false} TableErrorPersists(ipver: string, table: string, lines: seq<string>, i: nat)
    requires i <= |lines| && TableRules(ipver, table, lines[..i]).Err?
    ensures TableRules(ipver, table, lines) == TableRules(ipver, table, lines[..i])
    decreases |lines| - i
  {
    if i < |lines| {
      assert lines[..i + 1][..i] == lines[..i];
      TableErrorPersists(ipver, table, lines, i + 1);
    } else {
      assert lines[..i] == lines;
    }
  }

  /** Within one table, the rules of every chain are numbered 1, 2, … in listing order. */
  lemma {:induction false} ChainNumbers(rules: seq<RuleData>, chain: string)
    requires NumberedPerChain(rules)
    ensures forall k :: 0 <= k < |OnChain(rules, chain)| ==> OnChain(rules, chain)[k].number == k + 1
    decreases |rules|
  {
    if rules != [] {
      var prev := rules[..|rules| - 1];
      assert NumberedPerChain(prev) by {
        forall k | 0 <= k < |prev|
          ensures prev[k].number == CountChain(prev[..k], prev[k].chain) + 1
        {
          assert prev[..k] == rules[..k];
        }
      }
      ChainNumbers(prev, chain);
      assert rules[..|rules| - 1] == prev;
    }
  }

  /** One table's listing: the list command's output, split into lines; a failed command is reported. */
  function TableListing(env: Env, ipver: string, table: string): (res: Result<seq<RuleData>, Error>)
    ensures env.exec(ListCommand(env.binaryPath(ipver), table)).Err? ==> res.Err? && res.error.ExecFailed?
  {
    match env.exec(ListCommand(env.binaryPath(ipver), table))
    case Err(e) => Err(ExecFailed(e))
    case Ok(out) => TableRules(ipver, table, Split(out, '\n'))
  }

  /** Every rule of a table's listing comes from its pass and is numbered per chain. */
  lemma TableListingRead(env: Env, ipver: string, table: string)
    requires TableListing(env, ipver, table).Ok?
    ensures NumberedPerChain(TableListing(env, ipver, table).value)
    ensures forall k :: 0 <= k < |TableListing(env, ipver, table).value| ==> FromPass(TableListing(env, ipver, table).value[k], ipver, table)
  {
    TableRulesRead(ipver, table, Split(env.exec(ListCommand(env.binaryPath(ipver), table)).value, '\n'));
  }

  /** The rules of the tables in order, for one IP version; the first error ends the pass. */
  function SyncTables(env: Env, ipver: string, tables: seq<string>): (res: Result<seq<RuleData>, Error>)
    ensures res.Ok? ==> forall k :: 0 <= k < |res.value| ==> Synced(res.value[k], [ipver], tables)
    decreases |tables|
  {
    if tables == [] then Ok([])
    else
      var last := tables[|tables| - 1];
      match SyncTables(env, ipver, tables[..|tables| - 1])
      case Err(e) => Err(e)
      case Ok(prev) =>
        match TableListing(env, ipver, last)
        case Err(e) => Err(e)
        case Ok(rules) =>
          TableListingRead(env, ipver, last);
          assert forall t :: t in tables[..|tables| - 1] ==> t in tables;
          Ok(prev + rules)
  }

  /** The rules of every IP version in order; the first error ends the sync. */
  function SyncVersions(env: Env, versions: seq<string>): (res: Result<seq<RuleData>, Error>)
    ensures res.Ok? ==> forall k :: 0 <= k < |res.value| ==> Synced(res.value[k], versions, env.tables)
    decreases |versions|
  {
    if versions == [] then Ok([])
    else
      var last := versions[|versions| - 1];
      match SyncVersions(env, versions[..|versions| - 1])
      case Err(e) => Err(e)
      case Ok(prev) =>
        match SyncTables(env, last, env.tables)
        case Err(e) => Err(e)
        case Ok(rules) =>
          assert forall v :: v in versions[..|versions| - 1] ==> v in versions;
          Ok(prev + rules)
  }

  /** Sync: only root may list the tables; then ipv4 and ipv6, each over every table. */
  function SyncAll(env: Env): (res: Result<seq<RuleData>, Error>)
    ensures !env.root ==> res == Err(NotRoot)
    ensures res.Ok? ==> forall k :: 0 <= k < |res.value| ==> Synced(res.value[k], IpVersions, env.tables)
  {
    if !env.root then Err(NotRoot) else SyncVersions(env, IpVersions)
  }

  /** The rules of `parts`, one part after the other. */
  function Concat(parts: seq<seq<RuleData>>): seq<RuleData>
    decreases |parts|
  {
    if parts == [] then [] else Concat(parts[..|parts| - 1]) + parts[|parts| - 1]
  }

  /** Each table's listing, in the order of `tables`; a failed listing stands as no rules. */
  function TableValues(env: Env, ipver: string, tables: seq<string>): (ls: seq<seq<RuleData>>)
    ensures |ls| == |tables|
    ensures forall i :: 0 <= i < |tables| && TableListing(env, ipver, tables[i]).Ok? ==>
              ls[i] == TableListing(env, ipver, tables[i]).value
  {
    seq(|tables|, i requires 0 <= i < |tables| =>
      var l := TableListing(env, ipver, tables[i]); if l.Ok? then l.value else [])
  }

  /** A pass that succeeds is the pass over all but the last table, then the last table's listing. */
  lemma PassStep(env: Env, ipver: string, tables: seq<string>)
    requires tables != [] && SyncTables(env, ipver, tables).Ok?
    ensures SyncTables(env, ipver, tables[..|tables| - 1]).Ok?
    ensures TableListing(env, ipver, tables[|tables| - 1]).Ok?
    ensures SyncTables(env, ipver, tables).value
         == SyncTables(env, ipver, tables[..|tables| - 1]).value + TableListing(env, ipver, tables[|tables| - 1]).value
  {
  }

  /**
   * A pass that succeeds listed every table, and its rules are the tables'
   * listings one after the other, in the order of the tables.
   */
  lemma {:induction false} PassConcatenation(env: Env, ipver: string, tables: seq<string>)
    requires SyncTables(env, ipver, tables).Ok?
    ensures forall i :: 0 <= i < |tables| ==> TableListing(env, ipver, tables[i]).Ok?
    ensures SyncTables(env, ipver, tables).value == Concat(TableValues(env, ipver, tables))
    decreases |tables|
  {
    if tables != [] {
      var init := tables[..|tables| - 1];
      PassStep(env, ipver, tables);
      PassConcatenation(env, ipver, init);
      var ls := TableValues(env, ipver, tables);
      assert ls[..|tables| - 1] == TableValues(env, ipver, init);
      assert Concat(ls) == Concat(ls[..|ls| - 1]) + ls[|ls| - 1];
      forall i | 0 <= i < |tables|
        ensures TableListing(env, ipver, tables[i]).Ok?
      {
        if i < |tables| - 1 {
          assert tables[i] == init[i];
        }
      }
    }
  }

  /** A sync that succeeds is the sync of all but the last version, then the last version's pass. */
  lemma VersionStep(env: Env, versions: seq<string>)
    requires versions != [] && SyncVersions(env, versions).Ok?
    ensures SyncVersions(env, versions[..|versions| - 1]).Ok?
    ensures SyncTables(env, versions[|versions| - 1], env.tables).Ok?
    ensures SyncVersions(env, versions).value
         == SyncVersions(env, versions[..|versions| - 1]).value + SyncTables(env, versions[|versions| - 1], env.tables).value
  {
  }

  /** A sync that succeeds returns the ipv4 pass followed by the ipv6 pass. */
  lemma SyncInOrder(env: Env)
    requires SyncAll(env).Ok?
    ensures SyncTables(env, "ipv4", env.tables).Ok? && SyncTables(env, "ipv6", env.tables).Ok?
    ensures SyncAll(env).value == SyncTables(env, "ipv4", env.tables).value + SyncTables(env, "ipv6", env.tables).value
  {
    var vs := IpVersions;
    assert SyncAll(env) == SyncVersions(env, vs);
    VersionStep(env, vs);
    assert vs[..1] == ["ipv4"] && vs[1] == "ipv6";
    VersionStep(env, ["ipv4"]);
    assert ["ipv4"][..0] == [];
    assert SyncVersions(env, []) == Ok([]);
    var p4 := SyncTables(env, "ipv4", env.tables).value;
    assert SyncVersions(env, ["ipv4"]).value == [] + p4;
    assert [] + p4 == p4;
  }

  /** How many of `rules` were listed for the same IP version, table and chain as `r`. */
  function CountListed(rules: seq<RuleData>, r: RuleData): (n: nat)
    ensures n <= |rules|
    decreases |rules|
  {
    if rules == [] then 0
    else
      var last := rules[|rules| - 1];
      CountListed(rules[..|rules| - 1], r)
        + (if last.ipVersion == r.ipVersion && last.table == r.table && last.chain == r.chain then 1 else 0)
  }

  /**
   * Each rule's number is one more than the number of rules before it of the
   * same IP version, table and chain: the counters start afresh for every table.
   */
  predicate NumberedPerTableChain(rules: seq<RuleData>) {
    forall k :: 0 <= k < |rules| ==> rules[k].number == CountListed(rules[..k], rules[k]) + 1
  }

  /** No rule of `a` shares both its IP version and its table with a rule of `b`. */
  predicate Apart(a: seq<RuleData>, b: seq<RuleData>) {
    forall i, j :: 0 <= i < |a| && 0 <= j < |b| ==> a[i].ipVersion != b[j].ipVersion || a[i].table != b[j].table
  }

  /** No name occurs twice. */
  predicate NoDuplicates(names: seq<string>) {
    forall i, j :: 0 <= i < j < |names| ==> names[i] != names[j]
  }

  /** Counting over two runs of rules adds up. */
  lemma {:induction false} CountListedAppend(a: seq<RuleData>, b: seq<RuleData>, r: RuleData)
    ensures CountListed(a + b, r) == CountListed(a, r) + CountListed(b, r)
    decreases |b|
  {
    if b == [] {
      assert a + b == a;
    } else {
      var init := b[..|b| - 1];
      CountListedAppend(a, init, r);
      assert (a + b)[..|a + b| - 1] == a + init;
    }
  }

  /** Rules of another IP version or table do not count. */
  lemma {:induction false} CountListedNone(a: seq<RuleData>, r: RuleData)
    requires forall i :: 0 <= i < |a| ==> a[i].ipVersion != r.ipVersion || a[i].table != r.table
    ensures CountListed(a, r) == 0
    decreases |a|
  {
    if a != [] {
      CountListedNone(a[..|a| - 1], r);
    }
  }

  /** Within one pass over one table, counting by version, table and chain is counting by chain. */
  lemma {:induction false} CountListedOneTable(b: seq<RuleData>, r: RuleData)
    requires forall i :: 0 <= i < |b| ==> b[i].ipVersion == r.ipVersion && b[i].table == r.table
    ensures CountListed(b, r) == CountChain(b, r.chain)
    decreases |b|
  {
    if b != [] {
      CountListedOneTable(b[..|b| - 1], r);
    }
  }

  /** One table's listing, numbered per chain, is numbered per version, table and chain. */
  lemma ListingNumbered(b: seq<RuleData>, ipver: string, table: string)
    requires NumberedPerChain(b) && forall k :: 0 <= k < |b| ==> FromPass(b[k], ipver, table)
    ensures NumberedPerTableChain(b)
  {
    forall k | 0 <= k < |b|
      ensures b[k].number == CountListed(b[..k], b[k]) + 1
    {
      CountListedOneTable(b[..k], b[k]);
    }
  }

  /** Two numbered runs from different versions or tables stay numbered when joined. */
  lemma JoinNumbered(a: seq<RuleData>, b: seq<RuleData>)
    requires NumberedPerTableChain(a) && NumberedPerTableChain(b) && Apart(a, b)
    ensures NumberedPerTableChain(a + b)
  {
    var rules := a + b;
    forall k | 0 <= k < |rules|
      ensures rules[k].number == CountListed(rules[..k], rules[k]) + 1
    {
      if k < |a| {
        assert rules[..k] == a[..k];
      } else {
        var j := k - |a|;
        assert rules[..k] == a + b[..j];
        CountListedAppend(a, b[..j], b[j]);
        CountListedNone(a, b[j]);
      }
    }
  }

  /** A pass over distinct tables numbers its rules per table and chain. */
  lemma {:induction false} PassNumbered(env: Env, ipver: string, tables: seq<string>)
    requires SyncTables(env, ipver, tables).Ok? && NoDuplicates(tables)
    ensures NumberedPerTableChain(SyncTables(env, ipver, tables).value)
    decreases |tables|
  {
    if tables != [] {
      var init := tables[..|tables| - 1];
      var last := tables[|tables| - 1];
      PassNumbered(env, ipver, init);
      var prev := SyncTables(env, ipver, init).value;
      var rules := TableListing(env, ipver, last).value;
      TableListingRead(env, ipver, last);
      ListingNumbered(rules, ipver, last);
      assert last !in init;
      JoinNumbered(prev, rules);
    }
  }

  /**
   * A sync over distinct tables numbers every rule one past the rules
   * before it of the same IP version, table and chain.
   */
  lemma SyncNumbered(env: Env)
    requires SyncAll(env).Ok? && NoDuplicates(env.tables)
    ensures NumberedPerTableChain(SyncAll(env).value)
  {
    SyncInOrder(env);
    PassNumbered(env, "ipv4", env.tables);
    PassNumbered(env, "ipv6", env.tables);
    JoinNumbered(SyncTables(env, "ipv4", env.tables).value, SyncTables(env, "ipv6", env.tables).value);
  }

  /** An error in a prefix of the tables is the error of the whole pass. */
  lemma {:induction false} PassErrorPersists(env: Env, ipver: string, tables: seq<string>, i: nat)
    requires i <= |tables| && SyncTables(env, ipver, tables[..i]).Err?
    ensures SyncTables(env, ipver, tables) == SyncTables(env, ipver, tables[..i])
    decreases |tables| - i
  {
    if i < |tables| {
      assert tables[..i + 1][..i] == tables[..i];
      PassErrorPersists(env, ipver, tables, i + 1);
    } else {
      assert tables[..i] == tables;
    }
  }

  /** An error in a prefix of the IP versions is the error of the whole sync. */
  lemma {:induction false} SyncErrorPersists(env: Env, versions: seq<string>, i: nat)
    requires i <= |versions| && SyncVersions(env, versions[..i]).Err?
    ensures SyncVersions(env, versions) == SyncVersions(env, versions[..i])
    decreases |versions| - i
  {
    if i < |versions| {
      assert versions[..i + 1][..i] == versions[..i];
      SyncErrorPersists(env, versions, i + 1);
    } else {
      assert versions[..i] == versions;
    }
  }

  /** A table whose listing fails makes the whole pass fail, whatever comes before or after it. */
  lemma {:induction false} TableErrorAbortsPass(env: Env, ipver: string, tables: seq<string>, i: nat)
    requires i < |tables| && TableListing(env, ipver, tables[i]).Err?
    ensures SyncTables(env, ipver, tables).Err?
    decreases |tables|
  {
    var prefix := tables[..|tables| - 1];
    if i < |tables| - 1 {
      assert prefix[i] == tables[i];
      TableErrorAbortsPass(env, ipver, prefix, i);
    }
  }

  /** A pass that fails makes the whole sync fail: no rules are returned. */
  lemma {:induction false} PassErrorAbortsSync(env: Env, versions: seq<string>, i: nat)
    requires i < |versions| && SyncTables(env, versions[i], env.tables).Err?
    ensures SyncVersions(env, versions).Err?
    decreases |versions|
  {
    var prefix := versions[..|versions| - 1];
    if i < |versions| - 1 {
      assert prefix[i] == versions[i];
      PassErrorAbortsSync(env, prefix, i);
    }
  }

  /** How many of `rules` have no id: the ids handed out before them. */
  function UnlabelledCount(rules: seq<RuleData>): (n: nat)
    ensures n <= |rules|
    decreases |rules|
  {
    if rules == [] then 0
    else UnlabelledCount(rules[..|rules| - 1]) + (if rules[|rules| - 1].id == "" then 1 else 0)
  }

  /** An earlier rule without an id was handed an earlier id. */
  lemma {:induction false} CountMonotone(rules: seq<RuleData>, i: nat, j: nat)
    requires i < j <= |rules| && rules[i].id == ""
    ensures UnlabelledCount(rules[..i]) < UnlabelledCount(rules[..j])
    decreases j - i
  {
    assert rules[..i + 1][..i] == rules[..i];
    if j > i + 1 {
      CountMonotone(rules, i, j - 1);
      assert rules[..j][..j - 1] == rules[..j - 1];
    }
  }

  /**
   * The labelling of one rule without an id: the id is set, printing it fills
   * in the defaults (through `String`), and it is replaced in the kernel;
   * the replace error is only logged.
   */
  function LabelOne(r: RuleData, id: string, env: Env): (s: RuleData)
    ensures s.id == id && s.command == Replace && s.ipVersion != "" && s.target.Some?
    ensures s.name == r.name && s.matches == r.matches && s.chain == r.chain && s.table == r.table
    ensures Replaced(Defaulted(r.(id := id)), env).err.None? ==> s.applied && s.valid
  {
    Replaced(Defaulted(r.(id := id)), env).rule
  }

  /** The rule at `k` after LabelRules: the `k`-th unlabelled rule gets id `nextId(k)`; the others stay as they are. */
  function LabelledAt(rules: seq<RuleData>, k: nat, env: Env, nextId: nat -> string): (s: RuleData)
    requires k < |rules|
    ensures rules[k].id != "" ==> s == rules[k]
    ensures rules[k].id == "" ==> s.id == nextId(UnlabelledCount(rules[..k]))
  {
    if rules[k].id == "" then LabelOne(rules[k], nextId(UnlabelledCount(rules[..k])), env) else rules[k]
  }

  /** Every rule after LabelRules, in order. */
  function Labelled(rules: seq<RuleData>, env: Env, nextId: nat -> string): (out: seq<RuleData>)
    ensures |out| == |rules|
    ensures forall k :: 0 <= k < |rules| ==> out[k] == LabelledAt(rules, k, env, nextId)
  {
    seq(|rules|, k requires 0 <= k < |rules| => LabelledAt(rules, k, env, nextId))
  }

  /** When the generator never gives an empty id, every rule has an id after labelling. */
  lemma EveryRuleLabelled(rules: seq<RuleData>, env: Env, nextId: nat -> string)
    requires forall n: nat :: nextId(n) != ""
    ensures forall k :: 0 <= k < |rules| ==> LabelledAt(rules, k, env, nextId).id != ""
  {
    forall k | 0 <= k < |rules|
      ensures LabelledAt(rules, k, env, nextId).id != ""
    {
      if rules[k].id == "" {
        assert LabelledAt(rules, k, env, nextId).id == nextId(UnlabelledCount(rules[..k]));
      }
    }
  }

  /** When the generator never repeats itself, the ids handed out are pairwise distinct. */
  lemma FreshIdsDistinct(rules: seq<RuleData>, env: Env, nextId: nat -> string, i: nat, j: nat)
    requires forall m: nat, n: nat :: m != n ==> nextId(m) != nextId(n)
    requires i < j < |rules| && rules[i].id == "" && rules[j].id == ""
    ensures LabelledAt(rules, i, env, nextId).id != LabelledAt(rules, j, env, nextId).id
  {
    CountMonotone(rules, i, j);
  }
}
