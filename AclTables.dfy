/**
 * The constant tables of the IOS-XE `show access-lists` parser and the one
 * translation that reads them: a port token becomes a number when it is
 * decimal, the well-known port of its name when OPER_MAP knows it, and
 * stays the raw token otherwise.
 */
module AclTables {
  import opened Text

  /** A port as the parser stores it: an int, or the raw token as a string. */
  datatype PortValue = Num(n: nat) | Str(text: string)

  /** Well-known TCP port names, the first half of the source's table. */
  const TCP_PORT_NAMES: map<string, nat> := map[
    "bgp" := 179, "chargen" := 19, "cmd" := 514, "daytime" := 13,
    "discard" := 9, "domain" := 53, "echo" := 7, "exec" := 512, "finger" := 79,
    "ftp" := 21, "ftp-data" := 20, "gopher" := 70, "hostname" := 101,
    "ident" := 113, "irc" := 194, "klogin" := 543, "kshell" := 544,
    "login" := 513, "lpd" := 515, "msrpc" := 135, "nntp" := 119,
    "onep-plain" := 15001, "onep-tls" := 15002, "pim-auto-rp" := 496,
    "pop2" := 109, "pop3" := 110, "smtp" := 25, "sunrpc" := 111,
    "syslog" := 514, "tacacs" := 49, "talk" := 517, "telnet" := 23,
    "time" := 37, "uucp" := 540, "whois" := 43, "www" := 80
  ]

  /** Well-known UDP port names, the second half of the source's table. */
  const UDP_PORT_NAMES: map<string, nat> := map[
    "biff" := 512, "bootpc" := 68, "bootps" := 67, "discard" := 9,
    "dnsix" := 195, "domain" := 53, "echo" := 7, "isakmp" := 500,
    "mobile-ip" := 434, "nameserver" := 42, "netbios-dgm" := 138,
    "netbios-ns" := 137, "netbios-ss" := 139, "non500-isakmp" := 4500,
    "ntp" := 123, "pim-auto-rp" := 496, "rip" := 520, "ripv6" := 21,
    "snmp" := 161, "snmptrap" := 162, "sunrpc" := 111, "syslog" := 514,
    "tacacs" := 49, "talk" := 517, "tftp" := 69, "time" := 37, "who" := 513,
    "xdmcp" := 177
  ]

  /** The port-name table: the TCP names, then the UDP names. Nine names
      (discard, domain, echo, pim-auto-rp, sunrpc, syslog, tacacs, talk,
      time) appear in both halves with the same number, so, as in a Python
      dictionary display, the later entry changes nothing. */
  const OPER_MAP: map<string, nat> := TCP_PORT_NAMES + UDP_PORT_NAMES

  /** A Python dictionary key: the precedence table is keyed by int, and
      the parser looks it up with a string. */
  datatype PyKey = IntKey(i: int) | StrKey(s: string)

  /** The IP precedence names of section 3.1 of RFC 791, by value. */
  const PRECED_MAP: map<PyKey, string> := map[
    IntKey(5) := "critical", IntKey(3) := "flash", IntKey(4) := "flash-override",
    IntKey(2) := "immediate", IntKey(6) := "internet", IntKey(7) := "network",
    IntKey(1) := "priority", IntKey(0) := "routine"
  ]

  /** IP option names and numbers. The source's `any-options` entry is a
      random number and is not part of this table. */
  const OPT_MAP: map<string, nat> := map[
    "add-ext" := 147, "com-security" := 134, "dps" := 151, "encode" := 15,
    "eool" := 0, "ext-ip" := 145, "ext-security" := 133, "finn" := 205,
    "imitd" := 144, "lsr" := 131, "mtup" := 11, "mtur" := 12,
    "no-op" := 1, "nsapa" := 150, "record-route" := 7, "router-alert" := 148,
    "sdb" := 149, "security" := 130, "ssr" := 137, "stream-id" := 136,
    "timestamp" := 68, "traceroute" := 82, "ump" := 152, "visa" := 142,
    "zsu" := 10
  ]

  /** A TCP name that the UDP half lacks keeps its TCP number. */
  lemma TcpOnlyPort(name: string)
    requires name in TCP_PORT_NAMES && name !in UDP_PORT_NAMES
    ensures OPER_MAP[name] == TCP_PORT_NAMES[name]
  {
  }

  /** `eq www` in the device's output is port 80, a TCP-only name. */
  lemma WwwIsPort80()
    ensures PortToken("www") == Num(80)
  {
    assert "www" !in UDP_PORT_NAMES && TCP_PORT_NAMES["www"] == 80;
    TcpOnlyPort("www");
    PortNamesAreNotNumbers("www");
  }

  /** `domain` is in both halves of the table, with port 53 in each. */
  lemma DomainIsPort53()
    ensures TCP_PORT_NAMES["domain"] == 53 && PortToken("domain") == Num(53)
  {
    assert "domain" in UDP_PORT_NAMES && UDP_PORT_NAMES["domain"] == 53;
    UdpPort("domain");
    PortNamesAreNotNumbers("domain");
  }

  /** A UDP name keeps its UDP number, the later half of the table winning. */
  lemma UdpPort(name: string)
    requires name in UDP_PORT_NAMES
    ensures OPER_MAP[name] == UDP_PORT_NAMES[name]
  {
  }

  /** PRECED_MAP names exactly the eight precedence values 0 to 7, by int. */
  lemma PrecedenceTableCoversEightValues()
    ensures forall k :: k in PRECED_MAP ==> k.IntKey? && 0 <= k.i < 8
    ensures forall v :: 0 <= v < 8 ==> IntKey(v) in PRECED_MAP
    ensures PRECED_MAP[IntKey(7)] == "network" && PRECED_MAP[IntKey(0)] == "routine"
  {
  }

  /** Every IP option number fits in the one-byte option type field. */
  lemma OptionNumbersAreBytes()
    ensures forall name :: name in OPT_MAP ==> OPT_MAP[name] < 256
    ensures OPT_MAP["record-route"] == 7 && OPT_MAP["router-alert"] == 148
  {
  }

  /** One port token: `int(tok)` if it is decimal, else `OPER_MAP[tok]`,
      and the token itself when the lookup fails. */
  function PortToken(tok: string): (v: PortValue)
    ensures v.Num? <==> IsDigits(tok) || tok in OPER_MAP
    ensures v.Str? ==> v.text == tok
  {
    if IsDigits(tok) then Num(Value(tok))
    else if tok in OPER_MAP then Num(OPER_MAP[tok])
    else Str(tok)
  }

  /** The precedence name the parser finds for a numeric precedence word:
      the string key is never in the int-keyed table, so there is none. */
  lemma NumericPrecedenceHasNoName(word: string)
    ensures StrKey(word) !in PRECED_MAP
  {
  }

  /** A name of the TCP half begins with a letter. */
  lemma TcpNameStartsWithLetter(name: string)
    requires name in TCP_PORT_NAMES
    ensures name != [] && 'a' <= name[0] <= 'z'
  {
    TcpNameListed(name);
  }

  /** The names of the TCP half, one by one. */
  lemma TcpNameListed(name: string)
    requires name in TCP_PORT_NAMES
    ensures
      name == "bgp" || name == "chargen" || name == "cmd" || name == "daytime" ||
      name == "discard" || name == "domain" || name == "echo" || name == "exec" ||
      name == "finger" || name == "ftp" || name == "ftp-data" || name == "gopher" ||
      name == "hostname" || name == "ident" || name == "irc" || name == "klogin" ||
      name == "kshell" || name == "login" || name == "lpd" || name == "msrpc" ||
      name == "nntp" || name == "onep-plain" || name == "onep-tls" ||
      name == "pim-auto-rp" || name == "pop2" || name == "pop3" || name == "smtp" ||
      name == "sunrpc" || name == "syslog" || name == "tacacs" || name == "talk" ||
      name == "telnet" || name == "time" || name == "uucp" || name == "whois" ||
      name == "www"
  {
  }

  /** A name of the UDP half begins with a letter. */
  lemma UdpNameStartsWithLetter(name: string)
    requires name in UDP_PORT_NAMES
    ensures name != [] && 'a' <= name[0] <= 'z'
  {
    UdpNameListed(name);
  }

  /** The names of the UDP half, one by one. */
  lemma UdpNameListed(name: string)
    requires name in UDP_PORT_NAMES
    ensures
      name == "biff" || name == "bootpc" || name == "bootps" || name == "discard" ||
      name == "dnsix" || name == "domain" || name == "echo" || name == "isakmp" ||
      name == "mobile-ip" || name == "nameserver" || name == "netbios-dgm" ||
      name == "netbios-ns" || name == "netbios-ss" || name == "non500-isakmp" ||
      name == "ntp" || name == "pim-auto-rp" || name == "rip" || name == "ripv6" ||
      name == "snmp" || name == "snmptrap" || name == "sunrpc" ||
      name == "syslog" || name == "tacacs" || name == "talk" || name == "tftp" ||
      name == "time" || name == "who" || name == "xdmcp"
  {
  }

  /** Every name in OPER_MAP begins with a letter, so no name is read as a
      number first. */
  lemma PortNamesAreNotNumbers(name: string)
    requires name in OPER_MAP
    ensures !IsDigits(name)
  {
    if name in TCP_PORT_NAMES {
      TcpNameStartsWithLetter(name);
    } else {
      UdpNameStartsWithLetter(name);
    }
  }

  /** Decimal text `str(n)` translates to the number `n`, and a known name
      to its well-known number. */
  lemma PortTokenTranslates(n: nat, name: string)
    requires name in OPER_MAP
    ensures PortToken(NatToString(n)) == Num(n)
    ensures PortToken(name) == Num(OPER_MAP[name])
  {
    PortNamesAreNotNumbers(name);
  }

  /** A token that is neither decimal nor a known name comes back unchanged:
      an unknown name never makes the parse fail. */
  lemma UnknownPortTokenKept(tok: string)
    requires !IsDigits(tok) && tok !in OPER_MAP
    ensures PortToken(tok) == Str(tok)
  {
  }
}
