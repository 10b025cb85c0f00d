/** `IPRangeScanner`: probes every host of an IPv4 block for an ONVIF device
    service and returns, sorted, the hosts that have one.

    The network is a pair of parameters: `connects(ip, port)` says whether a
    TCP connection to the port succeeds (`connect_ex` returns 0; a refusal,
    a timeout and a raised socket error are all `false`), and `fetch(url)`
    is the outcome of the HTTP GET on a device service URL. */
module RangeScan {
  import opened Wrappers
  import opened Ordering
  import opened IPv4
  import opened Text

  /** The ports tried, in order. */
  const Ports: seq<nat> := [80, 8080, 8000, 8888, 5005, 37777]

  /** The HTTP statuses that reveal a device service: OK, Unauthorized
      (it exists but wants credentials), Method Not Allowed, and Internal
      Server Error (a SOAP fault). */
  const ServiceStatuses: set<int> := {200, 401, 405, 500}

  /** The outcome of `requests.get`: a response with its status code, or an
      exception. */
  datatype Answer = Response(status: int) | Raised

  /** `f"http://{ip}:{port}/onvif/device_service"`. */
  function ServiceUrl(ip: string, port: nat): (url: string)
    ensures |url| > 7 + |ip| && url[..7] == "http://" && url[7..7 + |ip|] == ip
  {
    "http://" + ip + ":" + Decimal(port) + "/onvif/device_service"
  }

  /** The port is open and its device service URL answers with one of the
      revealing statuses. */
  predicate Answers(ip: string, port: nat, connects: (string, nat) -> bool, fetch: string -> Answer)
  {
    connects(ip, port)
    && fetch(ServiceUrl(ip, port)).Response?
    && fetch(ServiceUrl(ip, port)).status in ServiceStatuses
  }

  /** Some port of `Ports` reveals a device service on `ip`. */
  predicate IsOnvif(ip: string, connects: (string, nat) -> bool, fetch: string -> Answer)
  {
    exists k :: 0 <= k < |Ports| && Answers(ip, Ports[k], connects, fetch)
  }

  /** One pass of the loop of `_check_onvif`: connect to the port and, if
      it is open, fetch the device service URL.  Every exception is
      swallowed, and counts as no answer. */
  method ProbePort(ip: string, port: nat, connects: (string, nat) -> bool, fetch: string -> Answer)
    returns (hit: bool)
    ensures hit == Answers(ip, port, connects, fetch)
  {
    hit := false;
    if connects(ip, port) {
      var answer := fetch(ServiceUrl(ip, port));
      if answer.Response? && answer.status in ServiceStatuses {
        hit := true;
      }
    }
  }

  /** None of `ports` reveals a device service on `ip`. */
  predicate Silent(ip: string, ports: seq<nat>, connects: (string, nat) -> bool, fetch: string -> Answer)
  {
    forall k :: 0 <= k < |ports| ==> !Answers(ip, ports[k], connects, fetch)
  }

  /** `IsOnvif` holds exactly when not every port of `Ports` is silent. */
  lemma SilentOnvif(ip: string, connects: (string, nat) -> bool, fetch: string -> Answer)
    ensures Silent(ip, Ports, connects, fetch) <==> !IsOnvif(ip, connects, fetch)
  {
  }

  /** The loop of `_check_onvif` over a list of ports: tries them in order
      and stops at the first one that reveals a device service.  `probed`
      lists the ports it connected to, in order. */
  method ProbePorts(ip: string, ports: seq<nat>, connects: (string, nat) -> bool, fetch: string -> Answer)
    returns (found: bool, probed: seq<nat>)
    ensures |probed| <= |ports| && probed == ports[..|probed|]
    ensures found ==> |probed| >= 1 && Answers(ip, probed[|probed| - 1], connects, fetch)
    ensures found ==> Silent(ip, probed[..|probed| - 1], connects, fetch)
    ensures !found ==> probed == ports && Silent(ip, ports, connects, fetch)
  {
    found := false;
    probed := [];
    while |probed| < |ports| && !found
      invariant |probed| <= |ports| && probed == ports[..|probed|]
      invariant found ==> |probed| >= 1 && Answers(ip, probed[|probed| - 1], connects, fetch)
      invariant found ==> Silent(ip, probed[..|probed| - 1], connects, fetch)
      invariant !found ==> Silent(ip, probed, connects, fetch)
      decreases |ports| - |probed|
    {
      var port := ports[|probed|];
      found := ProbePort(ip, port, connects, fetch);
      assert (probed + [port])[..|probed|] == probed;
      probed := probed + [port];
    }
  }

  /** `_check_onvif`: true exactly when some port of `Ports` reveals a
      device service; the ports after the first one that does are not
      tried. */
  method CheckOnvif(ip: string, connects: (string, nat) -> bool, fetch: string -> Answer)
    returns (found: bool, probed: seq<nat>)
    ensures found <==> IsOnvif(ip, connects, fetch)
    ensures 1 <= |probed| <= |Ports| && probed == Ports[..|probed|]
    ensures Silent(ip, probed[..|probed| - 1], connects, fetch)
    ensures found ==> Answers(ip, probed[|probed| - 1], connects, fetch)
    ensures !found ==> probed == Ports
  {
    found, probed := ProbePorts(ip, Ports, connects, fetch);
    SilentOnvif(ip, connects, fetch);
    if !found {
      assert probed[..|probed| - 1] == Ports[..5];
    }
  }

  /** `found_ips`: the hosts of `hosts` that have a device service, in the
      order of `hosts`. */
  function OnvifList(hosts: seq<string>, connects: (string, nat) -> bool, fetch: string -> Answer): seq<string>
    decreases |hosts|
  {
    if hosts == [] then []
    else
      var last := hosts[|hosts| - 1];
      OnvifList(hosts[..|hosts| - 1], connects, fetch) + if IsOnvif(last, connects, fetch) then [last] else []
  }

  /** The same hosts, as a set. */
  function OnvifHosts(hosts: seq<string>, connects: (string, nat) -> bool, fetch: string -> Answer): set<string>
  {
    Elems(OnvifList(hosts, connects, fetch))
  }

  lemma {:induction false} OnvifListMembers(hosts: seq<string>, connects: (string, nat) -> bool, fetch: string -> Answer, ip: string)
    ensures ip in OnvifList(hosts, connects, fetch) <==> ip in hosts && IsOnvif(ip, connects, fetch)
    decreases |hosts|
  {
    if hosts != [] {
      var front := hosts[..|hosts| - 1];
      OnvifListMembers(front, connects, fetch, ip);
      assert hosts == front + [hosts[|hosts| - 1]];
    }
  }

  lemma OnvifHostsMembers(hosts: seq<string>, connects: (string, nat) -> bool, fetch: string -> Answer, ip: string)
    ensures ip in OnvifHosts(hosts, connects, fetch) <==> ip in hosts && IsOnvif(ip, connects, fetch)
  {
    OnvifListMembers(hosts, connects, fetch, ip);
  }

  /** A list of distinct hosts gives a list of distinct finds. */
  lemma {:induction false} OnvifListDistinct(hosts: seq<string>, connects: (string, nat) -> bool, fetch: string -> Answer)
    requires Distinct(hosts)
    ensures Distinct(OnvifList(hosts, connects, fetch))
    decreases |hosts|
  {
    if hosts != [] {
      var n := |hosts| - 1;
      var front := hosts[..n];
      assert Distinct(front);
      OnvifListDistinct(front, connects, fetch);
      OnvifListMembers(front, connects, fetch, hosts[n]);
      assert hosts[n] !in front;
    }
  }

  /** The hosts of the block written in `cidr` that have a device service;
      nothing when `cidr` is not an IPv4 block. */
  function Found(cidr: string, connects: (string, nat) -> bool, fetch: string -> Answer): set<string>
  {
    match ParseNetwork(cidr)
    case None => {}
    case Some(net) => OnvifHosts(Hosts(net), connects, fetch)
  }

  /** The checks of every host, collected in a list in the order of the
      hosts. */
  method CheckHosts(hosts: seq<string>, connects: (string, nat) -> bool, fetch: string -> Answer)
    returns (found: seq<string>)
    ensures found == OnvifList(hosts, connects, fetch)
    ensures Elems(found) == OnvifHosts(hosts, connects, fetch)
    ensures Distinct(hosts) ==> Distinct(found)
  {
    found := [];
    for i := 0 to |hosts|
      invariant found == OnvifList(hosts[..i], connects, fetch)
    {
      var onvif, probed := CheckOnvif(hosts[i], connects, fetch);
      assert hosts[..i + 1][..i] == hosts[..i];
      if onvif {
        found := found + [hosts[i]];
      }
    }
    assert hosts[..|hosts|] == hosts;
    if Distinct(hosts) {
      OnvifListDistinct(hosts, connects, fetch);
    }
  }

  /** `scan`: every host is checked; the hosts found are returned sorted.
      The hosts of a block are distinct, so the found list has no
      duplicates and the result is a sorted permutation of it, exactly as
      `sorted(found_ips)`.  The order in which the concurrent checks
      complete does not show in the result (see `Ordering.SortedListUnique`). */
  method Scan(cidr: string, connects: (string, nat) -> bool, fetch: string -> Answer)
    returns (ips: seq<string>)
    ensures StrictlySorted(ips)
    ensures Elems(ips) == Found(cidr, connects, fetch)
    ensures ParseNetwork(cidr).None? ==> ips == []
    ensures ParseNetwork(cidr).Some? ==>
      multiset(ips) == multiset(OnvifList(Hosts(ParseNetwork(cidr).value), connects, fetch))
  {
    var network := ParseNetwork(cidr);
    if network.None? {
      return [];
    }
    var hosts := Hosts(network.value);
    HostsParse(network.value);
    var found := CheckHosts(hosts, connects, fetch);
    ips := SortedList(Elems(found));
    SortedPermutation(ips, found);
  }

  /** An address is reported exactly when the block holds it as a host and
      one of its ports reveals a device service; so for prefixes up to /30
      the network and broadcast addresses never are. */
  lemma FoundAddresses(cidr: string, connects: (string, nat) -> bool, fetch: string -> Answer, n: Address)
    ensures FormatAddress(n) in Found(cidr, connects, fetch) <==>
      ParseNetwork(cidr).Some? && n in HostAddresses(ParseNetwork(cidr).value)
      && IsOnvif(FormatAddress(n), connects, fetch)
  {
    if ParseNetwork(cidr).Some? {
      HostsMembership(ParseNetwork(cidr).value, n);
      OnvifHostsMembers(Hosts(ParseNetwork(cidr).value), connects, fetch, FormatAddress(n));
    }
  }

  /** Everything reported is an address of the block. */
  lemma FoundInBlock(cidr: string, connects: (string, nat) -> bool, fetch: string -> Answer, ip: string)
    requires ip in Found(cidr, connects, fetch)
    ensures ParseNetwork(cidr).Some? && ParseAddress(ip).Some?
    ensures var net := ParseNetwork(cidr).value;
      net.base <= ParseAddress(ip).value < net.base + BlockSize(net.prefix)
  {
    var net := ParseNetwork(cidr).value;
    var hosts := Hosts(net);
    HostsParse(net);
    OnvifHostsMembers(hosts, connects, fetch, ip);
    var i :| 0 <= i < |hosts| && hosts[i] == ip;
  }

  // ---------------------------------------------------------------------
  // A worked scenario: one camera on a /24
  // ---------------------------------------------------------------------

  lemma NetworkAddressText()
    ensures FormatAddress(167772160) == "10.0.0.0"
    ensures Decimal(24) == "24"
  {
    assert Octets(167772160) == [10, 0, 0, 0];
    assert Decimal(10) == "10";
    assert Decimal(0) == "0";
    assert Join(["0", "0", "0"], '.') == "0.0.0";
    assert Decimal(24) == Decimal(2) + ['4'];
  }

  lemma CameraAddressText()
    ensures FormatAddress(167772165) == "10.0.0.5"
  {
    assert Octets(167772165) == [10, 0, 0, 5];
    assert Decimal(10) == "10";
    assert Decimal(0) == "0";
    assert Decimal(5) == "5";
    assert Join(["0", "0", "5"], '.') == "0.0.5";
  }

  /** Only 10.0.0.5 accepts a connection, and only on port 80. */
  function OneCamera(ip: string, port: nat): bool
  {
    ip == "10.0.0.5" && port == 80
  }

  /** Every device service URL answers 401 Unauthorized. */
  function Unauthorized(url: string): Answer
  {
    Response(401)
  }

  lemma OneCameraOnvif(ip: string)
    ensures IsOnvif(ip, OneCamera, Unauthorized) <==> ip == "10.0.0.5"
  {
    if ip == "10.0.0.5" {
      assert Answers(ip, Ports[0], OneCamera, Unauthorized);
    }
  }

  /** When exactly one host of the block has a device service, that host
      is all that is found. */
  lemma FoundSingle(cidr: string, n: Address, connects: (string, nat) -> bool, fetch: string -> Answer)
    requires ParseNetwork(cidr).Some? && n in HostAddresses(ParseNetwork(cidr).value)
    requires forall ip :: ip in Hosts(ParseNetwork(cidr).value) ==> (IsOnvif(ip, connects, fetch) <==> ip == FormatAddress(n))
    ensures Found(cidr, connects, fetch) == {FormatAddress(n)}
  {
    var net := ParseNetwork(cidr).value;
    HostsMembership(net, n);
    OnvifSingle(Hosts(net), FormatAddress(n), connects, fetch);
  }

  /** When exactly one of the hosts checked has a device service, it is all
      that is found. */
  lemma OnvifSingle(hosts: seq<string>, x: string, connects: (string, nat) -> bool, fetch: string -> Answer)
    requires x in hosts
    requires forall ip :: ip in hosts ==> (IsOnvif(ip, connects, fetch) <==> ip == x)
    ensures OnvifHosts(hosts, connects, fetch) == {x}
  {
    forall ip ensures ip in OnvifHosts(hosts, connects, fetch) <==> ip == x {
      OnvifHostsMembers(hosts, connects, fetch, ip);
    }
  }

  /** `10.0.0.0/24` parses to the block of 10.0.0.0 to 10.0.0.255 ... */
  lemma ExampleBlock()
    ensures ParseNetwork("10.0.0.0/24") == Some(Network(167772160, 24))
  {
    NetworkAddressText();
    var text := FormatAddress(167772160) + ['/'] + Decimal(24);
    assert text == "10.0.0.0/24";
    ParseNetworkWithPrefix(167772160, 24);
    ExampleAligned();
  }

  lemma ExampleAligned()
    ensures BlockSize(24) == 256
    ensures MaskHostBits(167772160, 24) == 167772160
  {
    assert Pow2(8) == 256;
  }

  /** ... of which 10.0.0.5 is a host. */
  lemma ExampleHost()
    ensures 167772165 in HostAddresses(Network(167772160, 24))
  {
    ExampleAligned();
    HostAddressesSkipEnds(Network(167772160, 24));
  }

  /** Scanning 10.0.0.0/24 where only 10.0.0.5 runs a device service on
      port 80, answering 401, reports exactly `["10.0.0.5"]`. */
  lemma OneCameraScan(ips: seq<string>)
    requires StrictlySorted(ips)
    requires Elems(ips) == Found("10.0.0.0/24", OneCamera, Unauthorized)
    ensures ips == ["10.0.0.5"]
  {
    ExampleBlock();
    ExampleHost();
    CameraAddressText();
    forall ip ensures IsOnvif(ip, OneCamera, Unauthorized) <==> ip == FormatAddress(167772165) {
      OneCameraOnvif(ip);
    }
    FoundSingle("10.0.0.0/24", 167772165, OneCamera, Unauthorized);
    SortedSingleton(ips, "10.0.0.5");
  }
}
