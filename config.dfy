/** What `ofApp::setup` takes from the parsed configuration: the connection
    parameters with their defaults, the address they are joined into, and
    the identifier-to-name registrations of the `variable` entries. */
module Config {
  import opened Wrappers
  import opened Numeric

  /** The `connection` table; each key may be absent. */
  datatype ConnectionConfig = ConnectionConfig(protocol: Option<string>, host: Option<string>, port: Option<Uint32>)

  /** One entry of the `variable` table array; each key may be absent. */
  datatype VariableEntry = VariableEntry(name: Option<string>, id: Option<Uint32>)

  /** The parsed configuration document. */
  datatype Configuration = Configuration(connection: ConnectionConfig, variables: seq<VariableEntry>)

  const DEFAULT_PROTOCOL: string := "tcp"
  const DEFAULT_HOST: string := "localhost"
  const DEFAULT_PORT: Uint32 := 8889

  /** A connect address taken apart. */
  datatype Endpoint = Endpoint(protocol: string, host: string, port: nat)

  /** The address `_setup_socket` connects to: protocol, "://", host, ":"
      and the port in decimal. The port is exactly the text after the last
      ':', and a protocol without ':' is exactly the text before the first. */
  function Address(protocol: string, host: string, port: Uint32): (addr: string)
    ensures var d := |addr| - |DecimalString(port)|;
      0 < d && addr[d..] == DecimalString(port) && LastIndex(addr, ':') == Some(d - 1)
    ensures ':' !in protocol ==> FirstIndex(addr, ':') == Some(|protocol|) && addr[..|protocol|] == protocol
  {
    NoColonInDigits(DecimalString(port));
    ColonPositions(protocol, host, DecimalString(port));
    protocol + "://" + host + ":" + DecimalString(port)
  }

  /** A decimal rendering holds no ':'. */
  lemma NoColonInDigits(digits: string)
    requires AllDigits(digits)
    ensures ':' !in digits
  {
    forall k | 0 <= k < |digits| ensures digits[k] != ':' {
      assert IsDigit(digits[k]);
    }
  }

  /** Where the separators of an address lie when the port text has no ':'. */
  lemma ColonPositions(protocol: string, host: string, digits: string)
    requires ':' !in digits
    ensures var addr := protocol + "://" + host + ":" + digits; var d := |addr| - |digits|;
      0 < d && addr[d..] == digits && LastIndex(addr, ':') == Some(d - 1)
    ensures var addr := protocol + "://" + host + ":" + digits;
      ':' !in protocol ==> FirstIndex(addr, ':') == Some(|protocol|) && addr[..|protocol|] == protocol
  {
    var addr := protocol + "://" + host + ":" + digits;
    var i, j := |protocol|, |protocol| + 3 + |host|;
    assert addr[j] == ':' && addr[j + 1..] == digits;
    LastIndexAt(addr, ':', j);
    assert addr[..i] == protocol && addr[i] == ':';
    if ':' !in protocol {
      FirstIndexAt(addr, ':', i);
    }
  }

  /** The connection parameters with their defaults filled in. The port is
      kept as a `nat` in `Endpoint` so that `ParseAddress` can produce one;
      here it always fits in 32 bits. */
  function ConnectionEndpoint(c: ConnectionConfig): (e: Endpoint)
    ensures e.port < 0x1_0000_0000
    ensures c == ConnectionConfig(None, None, None) ==> e == Endpoint("tcp", "localhost", 8889)
  {
    Endpoint(c.protocol.GetOr(DEFAULT_PROTOCOL), c.host.GetOr(DEFAULT_HOST), c.port.GetOr(DEFAULT_PORT))
  }

  /** The address `setup` connects to for a connection table: the address of
      its endpoint, from which that endpoint can be read back. */
  function ConnectAddress(c: ConnectionConfig): (addr: string)
    ensures ':' !in ConnectionEndpoint(c).protocol ==> ParseAddress(addr) == Some(ConnectionEndpoint(c))
  {
    var e := ConnectionEndpoint(c);
    if ':' !in e.protocol then AddressRoundTrip(e.protocol, e.host, e.port); Address(e.protocol, e.host, e.port)
    else Address(e.protocol, e.host, e.port)
  }

  /** The first position of c in s, if any. */
  function FirstIndex(s: string, c: char): (r: Option<nat>)
    ensures r.None? ==> c !in s
    ensures r.Some? ==> r.value < |s| && s[r.value] == c && c !in s[..r.value]
  {
    if s == [] then None
    else if s[0] == c then Some(0)
    else match FirstIndex(s[1..], c)
      case None => None
      case Some(k) => (assert s[..k + 1] == [s[0]] + s[1..][..k]; Some(k + 1))
  }

  /** The last position of c in s, if any. */
  function LastIndex(s: string, c: char): (r: Option<nat>)
    ensures r.None? ==> c !in s
    ensures r.Some? ==> r.value < |s| && s[r.value] == c && c !in s[r.value + 1..]
  {
    if s == [] then None
    else if s[|s| - 1] == c then Some(|s| - 1)
    else match LastIndex(s[..|s| - 1], c)
      case None => (assert s == s[..|s| - 1] + [s[|s| - 1]]; None)
      case Some(k) => (assert s[k + 1..] == s[..|s| - 1][k + 1..] + [s[|s| - 1]]; Some(k))
  }

  /** The first position is the only one with no earlier occurrence. */
  lemma FirstIndexAt(s: string, c: char, i: nat)
    requires i < |s| && s[i] == c && c !in s[..i]
    ensures FirstIndex(s, c) == Some(i)
  {
  }

  /** The last position is the only one with no later occurrence. */
  lemma LastIndexAt(s: string, c: char, j: nat)
    requires j < |s| && s[j] == c && c !in s[j + 1..]
    ensures LastIndex(s, c) == Some(j)
  {
  }

  /** Reads an address back: the protocol runs up to the first ':', which
      must open "://"; the port is the decimal text after the last ':'; the
      host is what lies between. */
  function ParseAddress(addr: string): Option<Endpoint> {
    match (FirstIndex(addr, ':'), LastIndex(addr, ':'))
    case (Some(i), Some(j)) =>
      if i + 3 <= j && addr[i..i + 3] == "://" && j + 1 < |addr| && AllDigits(addr[j + 1..])
      then Some(Endpoint(addr[..i], addr[i + 3..j], DecimalValue(addr[j + 1..])))
      else None
    case _ => None
  }

  /** The address loses nothing: a protocol without ':' (as every URL scheme
      is), any host, and the port are all recovered from it. */
  lemma AddressRoundTrip(protocol: string, host: string, port: Uint32)
    requires ':' !in protocol
    ensures ParseAddress(Address(protocol, host, port)) == Some(Endpoint(protocol, host, port))
  {
    var addr := Address(protocol, host, port);
    var j := |addr| - |DecimalString(port)| - 1;
    assert addr[|protocol|..|protocol| + 3] == "://";
    assert addr[|protocol| + 3..j] == host;
    DecimalRoundTrip(port);
  }

  /** Each absent connection parameter takes its default, each present one
      is used as given, and the address joins them. */
  lemma ConnectAddressUsesDefaults(c: ConnectionConfig)
    ensures ':' !in ConnectionEndpoint(c).protocol ==> ParseAddress(ConnectAddress(c)) == Some(ConnectionEndpoint(c))
    ensures c.protocol.None? ==> ConnectionEndpoint(c).protocol == "tcp"
    ensures c.host.None? ==> ConnectionEndpoint(c).host == "localhost"
    ensures c.port.None? ==> ConnectionEndpoint(c).port == 8889
    ensures c.protocol.Some? ==> ConnectionEndpoint(c).protocol == c.protocol.value
    ensures c.host.Some? ==> ConnectionEndpoint(c).host == c.host.value
    ensures c.port.Some? ==> ConnectionEndpoint(c).port == c.port.value
  {
  }

  /** With an empty connection table the program connects to
      "tcp://localhost:8889". */
  lemma DefaultConnectAddress()
    ensures ConnectAddress(ConnectionConfig(None, None, None)) == "tcp://localhost:8889"
  {
  }

  /** An entry is registered only when it has both a name and an id. */
  predicate IsComplete(e: VariableEntry) {
    e.name.Some? && e.id.Some?
  }

  /** The registrations made by the `variable` loop, starting from m: entries
      in order, incomplete ones skipped, a repeated id overwritten. */
  function Registered(m: map<Uint32, string>, entries: seq<VariableEntry>): (r: map<Uint32, string>)
    ensures m.Keys <= r.Keys
    decreases |entries|
  {
    if entries == [] then m
    else
      var r := Registered(m, entries[..|entries| - 1]);
      var e := entries[|entries| - 1];
      if IsComplete(e) then r[e.id.value := e.name.value] else r
  }

  /** The ids of the complete entries. */
  function DeclaredIds(entries: seq<VariableEntry>): set<Uint32>
    decreases |entries|
  {
    if entries == [] then {}
    else
      var e := entries[|entries| - 1];
      DeclaredIds(entries[..|entries| - 1]) + (if IsComplete(e) then {e.id.value} else {})
  }

  /** Reading one more entry: the step the registration loop takes. */
  lemma RegisteredNext(m: map<Uint32, string>, entries: seq<VariableEntry>, i: nat)
    requires i < |entries|
    ensures Registered(m, entries[..i + 1]) ==
      if IsComplete(entries[i]) then Registered(m, entries[..i])[entries[i].id.value := entries[i].name.value]
      else Registered(m, entries[..i])
    ensures DeclaredIds(entries[..i + 1]) ==
      DeclaredIds(entries[..i]) + if IsComplete(entries[i]) then {entries[i].id.value} else {}
  {
    assert entries[..i + 1][..i] == entries[..i];
  }

  /** An id is declared exactly when some complete entry carries it. */
  lemma {:induction false} DeclaredIdsAreCompleteIds(entries: seq<VariableEntry>, k: Uint32)
    ensures k in DeclaredIds(entries) <==>
      exists i :: 0 <= i < |entries| && IsComplete(entries[i]) && entries[i].id == Some(k)
    decreases |entries|
  {
    if entries != [] {
      var prefix := entries[..|entries| - 1];
      DeclaredIdsAreCompleteIds(prefix, k);
      if exists i :: 0 <= i < |entries| && IsComplete(entries[i]) && entries[i].id == Some(k) {
        var i :| 0 <= i < |entries| && IsComplete(entries[i]) && entries[i].id == Some(k);
        if i < |prefix| {
          assert prefix[i] == entries[i];
        }
      }
      if exists i :: 0 <= i < |prefix| && IsComplete(prefix[i]) && prefix[i].id == Some(k) {
        var i :| 0 <= i < |prefix| && IsComplete(prefix[i]) && prefix[i].id == Some(k);
        assert entries[i] == prefix[i];
      }
    }
  }

  /** Registration adds one key per declared id and removes none. */
  lemma {:induction false} RegisteredKeys(m: map<Uint32, string>, entries: seq<VariableEntry>)
    ensures Registered(m, entries).Keys == m.Keys + DeclaredIds(entries)
    decreases |entries|
  {
    if entries != [] {
      RegisteredKeys(m, entries[..|entries| - 1]);
    }
  }

  /** Last write wins: a declared id is bound to the name of the last
      complete entry that carries it. */
  lemma {:induction false} RegisteredLastWins(m: map<Uint32, string>, entries: seq<VariableEntry>, j: nat)
    requires j < |entries| && IsComplete(entries[j])
    requires forall i :: j < i < |entries| && IsComplete(entries[i]) ==> entries[i].id != entries[j].id
    ensures entries[j].id.value in Registered(m, entries)
    ensures Registered(m, entries)[entries[j].id.value] == entries[j].name.value
    decreases |entries|
  {
    if j < |entries| - 1 {
      var prefix := entries[..|entries| - 1];
      assert prefix[j] == entries[j];
      RegisteredLastWins(m, prefix, j);
    }
  }

  /** An id that no complete entry carries keeps its earlier binding, or
      stays absent. */
  lemma {:induction false} RegisteredKeepsUndeclared(m: map<Uint32, string>, entries: seq<VariableEntry>, k: Uint32)
    requires k !in DeclaredIds(entries)
    ensures k in Registered(m, entries) <==> k in m
    ensures k in m ==> Registered(m, entries)[k] == m[k]
    decreases |entries|
  {
    if entries != [] {
      RegisteredKeepsUndeclared(m, entries[..|entries| - 1], k);
    }
  }
}
