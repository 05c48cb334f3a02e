/**
 * Rule.Update: copying the set fields of one rule onto another. The code
 * writes two negation flags into the wrong place; `UpdateAsWritten` keeps
 * that behaviour and `MergeIntended` is the merge the method evidently means.
 */
module RuleUpdate {
  import opened RuleModel

  /** Update may change only the name and the interface, address and port criteria; everything else is kept. */
  predicate OnlyCriteriaChange(r: RuleData, m: RuleData) {
    m == r.(name := m.name,
            input := m.input, inputNegated := m.inputNegated,
            output := m.output, outputNegated := m.outputNegated,
            source := m.source, sourceNegated := m.sourceNegated,
            sourcePort := m.sourcePort, sourcePortNegated := m.sourcePortNegated,
            destination := m.destination, destinationNegated := m.destinationNegated,
            destinationPort := m.destinationPort, destinationPortNegated := m.destinationPortNegated)
  }

  /** Lines 459-464: the name and the two interfaces, each copied when set in `u`. */
  function CopyInterfaces(r: RuleData, u: RuleData): RuleData {
    r.(name := if u.name != "" then u.name else r.name,
       input := if u.input != "" then u.input else r.input,
       inputNegated := if u.inputNegated then u.inputNegated else r.inputNegated,
       output := if u.output != "" then u.output else r.output,
       outputNegated := if u.outputNegated then u.outputNegated else r.outputNegated)
  }

  /** Lines 465-468: the source group; a set source negation is written to the OUTPUT negation. */
  function CopySource(r: RuleData, u: RuleData): RuleData {
    r.(source := if u.source != "" then u.source else r.source,
       outputNegated := if u.sourceNegated then u.sourceNegated else r.outputNegated,
       sourcePort := if u.sourcePort != "" then u.sourcePort else r.sourcePort,
       sourcePortNegated := if u.sourcePortNegated then u.sourcePortNegated else r.sourcePortNegated)
  }

  /** Lines 469-472: the destination group; a set destination negation copies the PORT negation. */
  function CopyDestination(r: RuleData, u: RuleData): RuleData {
    r.(destination := if u.destination != "" then u.destination else r.destination,
       destinationNegated := if u.destinationNegated then u.destinationPortNegated else r.destinationNegated,
       destinationPort := if u.destinationPort != "" then u.destinationPort else r.destinationPort,
       destinationPortNegated := if u.destinationPortNegated then u.destinationPortNegated else r.destinationPortNegated)
  }

  /**
   * Update as the code is written: a non-empty string or a true flag in `u`
   * is copied, except that a set source negation is written to the output
   * negation, and a set destination negation copies the destination PORT
   * negation.
   */
  function UpdateAsWritten(r: RuleData, u: RuleData): (m: RuleData)
    ensures OnlyCriteriaChange(r, m)
    ensures m.name == (if u.name != "" then u.name else r.name)
    ensures m.input == (if u.input != "" then u.input else r.input)
    ensures m.output == (if u.output != "" then u.output else r.output)
    ensures m.source == (if u.source != "" then u.source else r.source)
    ensures m.sourcePort == (if u.sourcePort != "" then u.sourcePort else r.sourcePort)
    ensures m.destination == (if u.destination != "" then u.destination else r.destination)
    ensures m.destinationPort == (if u.destinationPort != "" then u.destinationPort else r.destinationPort)
    ensures m.inputNegated == (r.inputNegated || u.inputNegated)
    ensures m.sourcePortNegated == (r.sourcePortNegated || u.sourcePortNegated)
    ensures m.destinationPortNegated == (r.destinationPortNegated || u.destinationPortNegated)
    ensures m.sourceNegated == r.sourceNegated
    ensures m.outputNegated == (r.outputNegated || u.outputNegated || u.sourceNegated)
    ensures m.destinationNegated == (if u.destinationNegated then u.destinationPortNegated else r.destinationNegated)
  {
    CopyDestination(CopySource(CopyInterfaces(r, u), u), u)
  }

  /**
   * The intended merge: every non-empty string and every set flag of `u` is
   * copied onto the same field, the rest of `r` is kept.
   */
  function MergeIntended(r: RuleData, u: RuleData): (m: RuleData)
    ensures OnlyCriteriaChange(r, m)
    ensures u.name != "" ==> m.name == u.name
    ensures u.input != "" ==> m.input == u.input
    ensures u.output != "" ==> m.output == u.output
    ensures u.source != "" ==> m.source == u.source
    ensures u.sourcePort != "" ==> m.sourcePort == u.sourcePort
    ensures u.destination != "" ==> m.destination == u.destination
    ensures u.destinationPort != "" ==> m.destinationPort == u.destinationPort
    ensures m.inputNegated == (r.inputNegated || u.inputNegated)
    ensures m.outputNegated == (r.outputNegated || u.outputNegated)
    ensures m.sourceNegated == (r.sourceNegated || u.sourceNegated)
    ensures m.sourcePortNegated == (r.sourcePortNegated || u.sourcePortNegated)
    ensures m.destinationNegated == (r.destinationNegated || u.destinationNegated)
    ensures m.destinationPortNegated == (r.destinationPortNegated || u.destinationPortNegated)
  {
    r.(name := if u.name != "" then u.name else r.name,
       input := if u.input != "" then u.input else r.input,
       inputNegated := r.inputNegated || u.inputNegated,
       output := if u.output != "" then u.output else r.output,
       outputNegated := r.outputNegated || u.outputNegated,
       source := if u.source != "" then u.source else r.source,
       sourceNegated := r.sourceNegated || u.sourceNegated,
       sourcePort := if u.sourcePort != "" then u.sourcePort else r.sourcePort,
       sourcePortNegated := r.sourcePortNegated || u.sourcePortNegated,
       destination := if u.destination != "" then u.destination else r.destination,
       destinationNegated := r.destinationNegated || u.destinationNegated,
       destinationPort := if u.destinationPort != "" then u.destinationPort else r.destinationPort,
       destinationPortNegated := r.destinationPortNegated || u.destinationPortNegated)
  }

  /** Updating with an empty rule changes nothing (true of both definitions). */
  lemma UpdateWithZero(r: RuleData)
    ensures UpdateAsWritten(r, ZeroRule) == r
    ensures MergeIntended(r, ZeroRule) == r
  {
  }

  /** Two results of an update of `r` that agree on the criteria are equal. */
  lemma CriteriaDetermine(r: RuleData, a: RuleData, b: RuleData)
    requires OnlyCriteriaChange(r, a) && OnlyCriteriaChange(r, b)
    requires a.name == b.name && a.input == b.input && a.inputNegated == b.inputNegated
    requires a.output == b.output && a.outputNegated == b.outputNegated
    requires a.source == b.source && a.sourceNegated == b.sourceNegated
    requires a.sourcePort == b.sourcePort && a.sourcePortNegated == b.sourcePortNegated
    requires a.destination == b.destination && a.destinationNegated == b.destinationNegated
    requires a.destinationPort == b.destinationPort && a.destinationPortNegated == b.destinationPortNegated
    ensures a == b
  {
  }

  /** `m` already carries everything an update with `u` would write into it. */
  predicate Absorbs(m: RuleData, u: RuleData) {
    (u.name != "" ==> m.name == u.name)
    && (u.input != "" ==> m.input == u.input) && (u.inputNegated ==> m.inputNegated)
    && (u.output != "" ==> m.output == u.output) && (u.outputNegated || u.sourceNegated ==> m.outputNegated)
    && (u.source != "" ==> m.source == u.source)
    && (u.sourcePort != "" ==> m.sourcePort == u.sourcePort) && (u.sourcePortNegated ==> m.sourcePortNegated)
    && (u.destination != "" ==> m.destination == u.destination)
    && (u.destinationNegated ==> m.destinationNegated == u.destinationPortNegated)
    && (u.destinationPort != "" ==> m.destinationPort == u.destinationPort)
    && (u.destinationPortNegated ==> m.destinationPortNegated)
  }

  /** An update that brings nothing new leaves the rule as it is. */
  lemma UpdateAbsorbed(m: RuleData, u: RuleData)
    requires Absorbs(m, u)
    ensures UpdateAsWritten(m, u) == m
  {
    var m2 := UpdateAsWritten(m, u);
    assert OnlyCriteriaChange(m, m);
    CriteriaDetermine(m, m2, m);
  }

  /** Updating twice with the same rule is the same as once. */
  lemma UpdateIdempotent(r: RuleData, u: RuleData)
    ensures UpdateAsWritten(UpdateAsWritten(r, u), u) == UpdateAsWritten(r, u)
  {
    UpdateAbsorbed(UpdateAsWritten(r, u), u);
  }

  /** The intended merge is idempotent too. */
  lemma MergeIdempotent(r: RuleData, u: RuleData)
    ensures MergeIntended(MergeIntended(r, u), u) == MergeIntended(r, u)
  {
  }

  /**
   * The two definitions agree whenever neither misplaced write can show: no
   * source negation in `u`, and a destination negation in `u` only together
   * with a destination port negation.
   */
  lemma AgreeWithoutMisplacedFlags(r: RuleData, u: RuleData)
    requires !u.sourceNegated
    requires u.destinationNegated ==> u.destinationPortNegated
    ensures UpdateAsWritten(r, u) == MergeIntended(r, u)
  {
  }

  /** Line 466: a negated source in the update negates the output interface instead. */
  lemma SourceNegationMisplaced()
    ensures var u := ZeroRule.(sourceNegated := true);
            var m := UpdateAsWritten(ZeroRule, u);
            !m.sourceNegated && m.outputNegated
    ensures MergeIntended(ZeroRule, ZeroRule.(sourceNegated := true)).sourceNegated
    ensures !MergeIntended(ZeroRule, ZeroRule.(sourceNegated := true)).outputNegated
  {
  }

  /** Line 470: a negated destination in the update clears an existing destination negation. */
  lemma DestinationNegationLost()
    ensures var r := ZeroRule.(destinationNegated := true);
            var u := ZeroRule.(destinationNegated := true);
            !UpdateAsWritten(r, u).destinationNegated
    ensures MergeIntended(ZeroRule.(destinationNegated := true), ZeroRule.(destinationNegated := true)).destinationNegated
  {
  }
}
