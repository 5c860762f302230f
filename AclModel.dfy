/**
 * The values the IOS-XE `show access-lists` parser builds, one datatype per
 * nested dictionary of its result (ACL, ACE, actions, l2/l3/l4 matches,
 * port clauses), the shapes a stripped output line can take, and the ways
 * a parse can fail.
 *
 * A dictionary key the parser never sets is an absent `Option`, an empty
 * `map` or `set`, or `false` for `per_user`; a dictionary of networks keyed
 * by the network text is the set of those texts.
 */
module AclModel {
  import opened Wrappers
  import opened Text
  import opened AclTables

  /** Why the parser raises instead of returning a result. */
  datatype Failure =
    | NoOpenAcl                      // an ACE line before any header: `acl_dict` is unbound
    | MissingSrc                     // an extended line with an empty `src`: `group['src1']`
    | ClauseNotFound(clause: string) // the keyword is there but its search finds nothing
    | MisspelledSearch               // an extended line mentioning `options`: `re.sealrch`
    | MissingPortToken               // a source range with fewer than two tokens, or a blank destination port text: `split()[1]`

  datatype Result<T> = Ok(value: T) | Err(error: Failure) {
    predicate IsFailure() {
      Err?
    }

    function PropagateFailure<U>(): Result<U>
      requires Err?
    {
      Err(error)
    }

    function Extract(): T
      requires Ok?
    {
      value
    }
  }

  // ---------------------------------------------------------------------
  // The result

  /** `lower_port` / `upper_port` of a `range` clause. */
  datatype PortRange = PortRange(lower: PortValue, upper: PortValue)

  /** `operator` / `port` of an `eq`, `gt`, `lt` or `neq` clause. */
  datatype PortOperator = PortOperator(operator: string, port: PortValue)

  /** `source_port` or `destination_port`: a range, an operator, or both
      when two lines with the same sequence number merge. */
  datatype PortMatch = PortMatch(range: Option<PortRange>, operator: Option<PortOperator>)

  /** The `l4` entry of one protocol. */
  datatype L4 = L4(
    icmpType: Option<nat>,
    icmpCode: Option<nat>,
    established: bool,
    sourcePort: Option<PortMatch>,
    destinationPort: Option<PortMatch>)

  /** The `l3` entry of one protocol. */
  datatype L3 = L3(
    protocol: string,
    sourceNetwork: set<string>,
    destinationNetwork: set<string>,
    dscp: Option<string>,
    ttlOperator: Option<string>,
    ttl: Option<nat>,
    precedence: Option<string>,
    precedenceCode: Option<nat>)

  /** The `l2` / `eth` entry of a MAC ACE. */
  datatype Eth = Eth(
    destinationMac: string,
    sourceMac: string,
    etherType: Option<string>,
    cos: Option<nat>,
    vlan: Option<nat>,
    protocolFamily: Option<string>,
    lsap: Option<string>)

  /** `matches`: the l3 and l4 entries are keyed by protocol name. */
  datatype Matches = Matches(l2: Option<Eth>, l3: map<string, L3>, l4: map<string, L4>)

  datatype Actions = Actions(forwarding: string, logging: Option<string>)

  /** One access-control entry; `matchedPackets` is `statistics`. */
  datatype Ace = Ace(name: string, actions: Actions, matches: Matches, matchedPackets: Option<nat>)

  /** One access list; its ACEs are keyed by their sequence number text. */
  datatype Acl = Acl(name: string, aclType: string, perUser: bool, aces: map<Digits, Ace>)

  // ---------------------------------------------------------------------
  // The input, one stripped line at a time

  /** The header forms: `Standard IP access list`, `Extended IP access
      list`, `ip access-list extended`, `IPv6 access list`, `Extended MAC
      access list`. */
  datatype HeaderKind = StandardIp | ExtendedIp | IpAccessListExtended | Ipv6 | ExtendedMac

  /** An operator and the port text after it. */
  datatype PortClause = PortClause(operator: string, port: string)

  /** What the line patterns of the parser capture from one line, in the
      order they are tried: a header, a standard IPv4 ACE, an extended IPv4
      or IPv6 ACE, a MAC ACE, or nothing. */
  datatype Shape =
    | Header(kind: HeaderKind, name: string, perUser: Option<string>)
    | Standard(number: Option<Digits>, forwarding: string, src: string, wildcard: Option<string>)
    | Extended(sequence: Digits, forwarding: string, protocol: string, src: string,
               srcPort: Option<PortClause>, dst: string, dstPort: Option<PortClause>,
               left: Option<string>)
    | Mac(forwarding: string, src: string, dst: string, left: Option<string>)
    | Other
}
