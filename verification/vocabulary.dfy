/**
 * The string-valued vocabularies of the library: IP versions, protocols,
 * actions, tables and rule commands, with the literals the source uses.
 */
module Vocabulary {
  import opened Wrappers

  // IP versions. The two literals are swapped in the source and kept as written.
  const IPv4: string := "ipv6"
  const IPv6: string := "ipv4"

  // Protocols.
  const ProtocolAll: string := "all"
  const ProtocolIP: string := "ip"
  const ProtocolIPv6: string := "ipv6"
  const ProtocolICMP: string := "icmp"
  const ProtocolTCP: string := "tcp"
  const ProtocolUDP: string := "udp"
  const ProtocolSCTP: string := "sctp"

  // Actions.
  const ActionJump: string := "jump"
  const ActionGoTo: string := "goto"

  // Tables.
  const TableFilter: string := "filter"
  const TableNat: string := "nat"
  const TableMangle: string := "mangle"
  const TableRaw: string := "raw"
  const TableSecurity: string := "security"
  const KnownTables: seq<string> := [TableFilter, TableNat, TableMangle, TableRaw, TableSecurity]

  /** The pending command of a rule; `NoCmd` is Go's empty `Cmd`. */
  datatype Cmd = NoCmd | Append | Insert | Replace | Delete {
    /** The long option name written after `--`. */
    function Text(): string {
      match this
      case NoCmd => ""
      case Append => "append"
      case Insert => "insert"
      case Replace => "replace"
      case Delete => "delete"
    }
  }

  /** GetNegatedPattern: the prefix placed before a negated flag. */
  function NegatedPattern(negated: bool): string {
    if negated then "! " else ""
  }

  /** ConvertToTable: a known table name is accepted as it is. */
  function ConvertToTable(name: string): Result<string, string> {
    if name in KnownTables then Ok(name) else Err(name)
  }
}
