/**
 * Reading the info response of a refresh: the node name check, the two
 * generation fields and the legacy services list ("host:port" entries
 * separated by ';', with an optional host-name remapping).
 */
module Info {

  import opened Wrappers
  import opened Strings
  import opened Seqs
  import opened Types

  /** The answer to an info request: command name to response string. */
  type InfoMap = map<string, string>

  const NODE: string := "node"
  const PEERS_GENERATION: string := "peers-generation"
  const PARTITION_GENERATION: string := "partition-generation"
  const SERVICES: string := "services"
  const SERVICES_ALTERNATE: string := "services-alternate"

  /** What a refresh learns from the reported node name. */
  datatype NameCheck = NameMissing | NameChanged(reported: string) | NameMatches

  /** The check of verifyNodeName: a missing or empty name, a different name, or the node's own name. */
  function CheckName(info: InfoMap, name: string): (r: NameCheck)
    ensures r == NameMissing <==> NODE !in info || info[NODE] == ""
    ensures r == NameMatches <==> NODE in info && info[NODE] != "" && info[NODE] == name
    ensures r.NameChanged? ==> r.reported == info[NODE] && r.reported != "" && r.reported != name
  {
    if NODE !in info || info[NODE] == "" then NameMissing
    else if info[NODE] != name then NameChanged(info[NODE])
    else NameMatches
  }

  /**
   * A generation reported under key: None when the field is missing, empty or
   * not a 32-bit decimal number (each of which makes the refresh throw).
   */
  function Generation(info: InfoMap, key: string): (r: Option<int>)
    ensures r.Some? <==> key in info && info[key] != "" && ParseInt(info[key]).Some?
    ensures r.Some? ==> InInt32(r.value)
  {
    if key !in info || info[key] == "" then None else ParseInt(info[key])
  }

  /** The info command that lists a node's services in the configured addressing mode. */
  function ServicesKey(alternate: bool): string
  {
    if alternate then SERVICES_ALTERNATE else SERVICES
  }

  /** The services string, empty when the response has none. */
  function Services(info: InfoMap, alternate: bool): string
  {
    var key := ServicesKey(alternate);
    if key in info then info[key] else ""
  }

  /** The ';'-separated entries of the services string; none at all when it is missing or empty. */
  function FriendEntries(info: InfoMap, alternate: bool): (entries: seq<string>)
    ensures Services(info, alternate) == "" ==> entries == []
    ensures forall i :: 0 <= i < |entries| ==> ';' !in entries[i]
  {
    var s := Services(info, alternate);
    if s == "" then [] else JavaSplit(s, ';')
  }

  /** The host name to connect to: the remapped one when the IP map has an entry for it. */
  function Remap(hostname: string, ipMap: Option<map<string, string>>): (r: string)
    ensures ipMap.Some? && hostname in ipMap.value ==> r == ipMap.value[hostname]
    ensures ipMap.None? || hostname !in ipMap.value ==> r == hostname
  {
    if ipMap.Some? && hostname in ipMap.value then ipMap.value[hostname] else hostname
  }

  /**
   * One services entry read as a host: the text before the first ':' (remapped)
   * and the number after it. An entry without a second ':'-separated piece or
   * with a port that is not a number is None (the array-index and
   * number-format exceptions of the source).
   */
  function ParseFriend(entry: string, ipMap: Option<map<string, string>>): (r: Option<Host>)
    ensures ':' !in entry ==> r.None?
    ensures r.Some? <==> |JavaSplit(entry, ':')| >= 2 && ParseInt(JavaSplit(entry, ':')[1]).Some?
    ensures r.Some? ==> r.value.name == Remap(JavaSplit(entry, ':')[0], ipMap) && InInt32(r.value.port)
  {
    var info := JavaSplit(entry, ':');
    if |info| < 2 then None
    else
      match ParseInt(info[1])
      case None => None
      case Some(port) => Some(Host(Remap(info[0], ipMap), port))
  }

  /** The test that ends addFriends' loop with an exception. */
  function Unparsable(ipMap: Option<map<string, string>>): string -> bool
  {
    (e: string) => ParseFriend(e, ipMap).None?
  }

  /** How many leading entries parse before the first one that does not. */
  function ParsedCount(entries: seq<string>, ipMap: Option<map<string, string>>): (k: nat)
    ensures k <= |entries|
    ensures forall i :: 0 <= i < k ==> ParseFriend(entries[i], ipMap).Some?
    ensures k < |entries| ==> ParseFriend(entries[k], ipMap).None?
  {
    FirstIndex(entries, Unparsable(ipMap))
  }

  /** The hosts of the entries that addFriends gets through, in order. */
  function ParsedFriends(entries: seq<string>, ipMap: Option<map<string, string>>): (hosts: seq<Host>)
    ensures |hosts| == ParsedCount(entries, ipMap)
    ensures forall i :: 0 <= i < |hosts| ==> ParseFriend(entries[i], ipMap) == Some(hosts[i])
  {
    var k := ParsedCount(entries, ipMap);
    seq(k, i requires 0 <= i < k => ParseFriend(entries[i], ipMap).value)
  }

  /** Whether every services entry parses, so that addFriends does not throw. */
  predicate FriendsParse(info: InfoMap, alternate: bool, ipMap: Option<map<string, string>>)
  {
    ParsedCount(FriendEntries(info, alternate), ipMap) == |FriendEntries(info, alternate)|
  }

  // ------------------------------------------------ the format the server sends

  /** The "host:port" text of one address. */
  function FormatHost(h: Host): string
  {
    h.name + ":" + IntToString(h.port)
  }

  /** A services string listing hosts, ';'-separated. */
  function FormatServices(hosts: seq<Host>): string
  {
    Join(seq(|hosts|, i requires 0 <= i < |hosts| => FormatHost(hosts[i])), ';')
  }

  /** An address the services list can carry: a name without separators and a 32-bit port. */
  predicate WellFormedHost(h: Host)
  {
    ':' !in h.name && ';' !in h.name && InInt32(h.port)
  }

  /** Reading one formatted entry gives back the (remapped) host. */
  lemma ParseFormattedHost(h: Host, ipMap: Option<map<string, string>>)
    requires WellFormedHost(h)
    ensures ParseFriend(FormatHost(h), ipMap) == Some(Host(Remap(h.name, ipMap), h.port))
  {
    var digits := IntToString(h.port);
    IntToStringHasNo(h.port, ':');
    ParseIntRoundTrip(h.port);
    assert FormatHost(h) == Join([h.name, digits], ':');
    JavaSplitJoin([h.name, digits], ':');
  }

  /**
   * A services response listing well-formed hosts parses, entry for entry,
   * into those hosts (remapped): the legacy list format round-trips.
   */
  lemma ServicesRoundTrip(info: InfoMap, alternate: bool, ipMap: Option<map<string, string>>, hosts: seq<Host>)
    requires |hosts| >= 1
    requires forall i :: 0 <= i < |hosts| ==> WellFormedHost(hosts[i])
    requires ServicesKey(alternate) in info && info[ServicesKey(alternate)] == FormatServices(hosts)
    ensures |FriendEntries(info, alternate)| == |hosts|
    ensures FriendsParse(info, alternate, ipMap)
    ensures forall i :: 0 <= i < |hosts| ==>
      ParsedFriends(FriendEntries(info, alternate), ipMap)[i] == Host(Remap(hosts[i].name, ipMap), hosts[i].port)
  {
    var texts := seq(|hosts|, i requires 0 <= i < |hosts| => FormatHost(hosts[i]));
    forall i | 0 <= i < |texts| ensures ';' !in texts[i] {
      IntToStringHasNo(hosts[i].port, ';');
    }
    assert texts[|texts| - 1] != [];
    JavaSplitJoin(texts, ';');
    assert Services(info, alternate) == Join(texts, ';');
    assert Services(info, alternate) != "" by {
      assert |texts[0]| >= 1;
      JoinStartsWith(texts, ';');
    }
    var entries := FriendEntries(info, alternate);
    assert entries == texts;
    forall i | 0 <= i < |hosts| ensures ParseFriend(entries[i], ipMap) == Some(Host(Remap(hosts[i].name, ipMap), hosts[i].port)) {
      ParseFormattedHost(hosts[i], ipMap);
    }
    FirstIndexUnique(entries, Unparsable(ipMap), |entries|);
  }

  lemma JoinStartsWith(parts: seq<string>, sep: char)
    requires |parts| >= 1
    ensures |Join(parts, sep)| >= |parts[0]|
  {
  }
}
