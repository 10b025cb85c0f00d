/** `WSDiscoveryScanner`: the Probe / ProbeMatch exchange of section 5 of the
    April 2005 WS-Discovery specification, as profiled by ONVIF, with the
    socket replaced by what it delivers.

    A socket is given as a sequence of rounds, one per `sendto`: the
    replies `recvfrom` returns after that send, in order, and how the
    listening ended — a receive timeout, which ends only that round, or any
    other error, which abandons every remaining round.  A round the sequence
    does not cover is one in which nothing arrives before the timeout.  A
    `sendto` that fails is a round with no replies ending in an error. */
module Multicast {
  import opened Wrappers
  import opened Ordering
  import opened Probe

  /** One datagram: its payload, decoded as UTF-8, and the sender's address. */
  datatype Reply = Reply(payload: string, sender: string)

  datatype Ending = Timeout | Failure

  datatype Round = Round(replies: seq<Reply>, ending: Ending)

  /** The round after the `j`-th send. */
  function RoundAt(rounds: seq<Round>, j: nat): Round
  {
    if j < |rounds| then rounds[j] else Round([], Timeout)
  }

  /** `range(retries + 1)`: how many rounds an attempt starts when none fails. */
  function Sends(retries: int): nat
  {
    if retries + 1 > 0 then retries + 1 else 0
  }

  /** The host an XAddr contributes, as a set of at most one. */
  function HostSet(xaddr: string): set<string>
  {
    match HostOf(xaddr)
    case Some(h) => {h}
    case None => {}
  }

  /** The hosts each item of `xs` adds, gathered one item after the other. */
  function Gather<T>(xs: seq<T>, f: T -> set<string>): set<string>
    decreases |xs|
  {
    if |xs| == 0 then {}
    else Gather(xs[..|xs| - 1], f) + f(xs[|xs| - 1])
  }

  /** A host is gathered exactly when some item adds it. */
  lemma {:induction false} GatherMembers<T>(xs: seq<T>, f: T -> set<string>, h: string)
    ensures h in Gather(xs, f) <==> exists k :: 0 <= k < |xs| && h in f(xs[k])
    decreases |xs|
  {
    if |xs| > 0 {
      var n := |xs| - 1;
      var front := xs[..n];
      GatherMembers(front, f, h);
      if exists k :: 0 <= k < |xs| && h in f(xs[k]) {
        var k :| 0 <= k < |xs| && h in f(xs[k]);
        if k < n {
          assert front[k] == xs[k];
        }
      }
      if h in Gather(front, f) {
        var k :| 0 <= k < |front| && h in f(front[k]);
        assert xs[k] == front[k];
      }
    }
  }

  /** Hosts taken from a list of XAddrs, one after the other. */
  function XAddrHosts(xaddrs: seq<string>): set<string>
  {
    Gather(xaddrs, HostSet)
  }

  /** What one reply adds to the attempt's set: the hosts of its XAddrs, and
      its sender when it lists no XAddrs at all. */
  function ReplyHosts(reply: Reply): set<string>
  {
    var xaddrs := ExtractXAddrs(reply.payload);
    XAddrHosts(xaddrs) + if xaddrs == [] then {reply.sender} else {}
  }

  /** What a run of replies adds, one after the other. */
  function RepliesHosts(replies: seq<Reply>): set<string>
  {
    Gather(replies, ReplyHosts)
  }

  /** The host of an XAddr is added exactly when the XAddr yields one. */
  lemma XAddrHostsMembers(xaddrs: seq<string>, h: string)
    ensures h in XAddrHosts(xaddrs) <==> exists k :: 0 <= k < |xaddrs| && HostOf(xaddrs[k]) == Some(h)
  {
    GatherMembers(xaddrs, HostSet, h);
  }

  /** The fallback rule: a reply contributes its sender if and only if it
      lists no XAddrs; otherwise exactly the hosts of its `http://` XAddrs.
      So a reply whose XAddrs all lack `http://` contributes nothing. */
  lemma ReplyHostsFallback(reply: Reply, h: string)
    ensures ExtractXAddrs(reply.payload) == [] ==> ReplyHosts(reply) == {reply.sender}
    ensures ExtractXAddrs(reply.payload) != [] ==>
      (h in ReplyHosts(reply) <==>
        exists k :: 0 <= k < |ExtractXAddrs(reply.payload)| && HostOf(ExtractXAddrs(reply.payload)[k]) == Some(h))
  {
    XAddrHostsMembers(ExtractXAddrs(reply.payload), h);
  }

  /** A reply that lists XAddrs, none of them `http://` ones, adds nothing. */
  lemma NoHttpXAddrsAddNothing(reply: Reply)
    requires ExtractXAddrs(reply.payload) != []
    requires forall k :: 0 <= k < |ExtractXAddrs(reply.payload)| ==> HostOf(ExtractXAddrs(reply.payload)[k]).None?
    ensures ReplyHosts(reply) == {}
  {
    forall h ensures h !in ReplyHosts(reply) {
      ReplyHostsFallback(reply, h);
    }
  }

  lemma RepliesHostsMembers(replies: seq<Reply>, h: string)
    ensures h in RepliesHosts(replies) <==> exists k :: 0 <= k < |replies| && h in ReplyHosts(replies[k])
  {
    GatherMembers(replies, ReplyHosts, h);
  }


  /** What one round yields: the hosts its replies contribute and how it ended. */
  datatype Heard = Heard(hosts: set<string>, ending: Ending)

  function HeardIn(round: Round): Heard
  {
    Heard(RepliesHosts(round.replies), round.ending)
  }

  /** What the first `n` rounds of a socket yield. */
  function HeardAll(rounds: seq<Round>, n: nat): (heard: seq<Heard>)
    ensures |heard| == n
    decreases n
  {
    if n == 0 then [] else HeardAll(rounds, n - 1) + [HeardIn(RoundAt(rounds, n - 1))]
  }

  lemma {:induction false} HeardAllAt(rounds: seq<Round>, n: nat, j: nat)
    requires j < n
    ensures HeardAll(rounds, n)[j] == HeardIn(RoundAt(rounds, j))
    decreases n
  {
    if j < n - 1 {
      HeardAllAt(rounds, n - 1, j);
    }
  }

  /** The state of an attempt: the hosts gathered, the rounds started (each
      begins with a `sendto`, which may itself be what fails), and
      whether an error has ended it. */
  datatype Listen = Listen(hosts: set<string>, started: nat, failed: bool)

  /** The state once the rounds of `heard` have been tried, one per send; an
      error ends the attempt and later rounds are not sent. */
  function Listened(heard: seq<Heard>): Listen
    decreases |heard|
  {
    if heard == [] then Listen({}, 0, false)
    else
      var before := Listened(heard[..|heard| - 1]);
      var round := heard[|heard| - 1];
      if before.failed then before
      else Listen(before.hosts + round.hosts, before.started + 1, round.ending == Failure)
  }

  /** The outcome of one attempt on a socket that delivers `rounds`. */
  function Attempt(rounds: seq<Round>, retries: int): Listen
  {
    Listened(HeardAll(rounds, Sends(retries)))
  }

  /** No round before the `n`-th ended in an error. */
  ghost predicate Uninterrupted(heard: seq<Heard>, n: nat)
  {
    forall j :: 0 <= j < n && j < |heard| ==> heard[j].ending == Timeout
  }

  /** Once an error has ended an attempt, later rounds change nothing. */
  lemma {:induction false} ListenedStops(heard: seq<Heard>, j: nat)
    requires j <= |heard| && Listened(heard[..j]).failed
    ensures Listened(heard) == Listened(heard[..j])
    decreases |heard|
  {
    if |heard| > j {
      var n := |heard| - 1;
      assert heard[..n][..j] == heard[..j];
      ListenedStops(heard[..n], j);
    } else {
      assert heard[..j] == heard;
    }
  }

  /** While no error has happened, every round has been started. */
  lemma {:induction false} ListenedStarted(heard: seq<Heard>)
    requires !Listened(heard).failed
    ensures Listened(heard).started == |heard|
    decreases |heard|
  {
    if heard != [] {
      ListenedStarted(heard[..|heard| - 1]);
    }
  }

  /** Timeouts end only their own round: when no round errs, every round is
      started and the attempt is not cut short. */
  lemma {:induction false} ListenedAllRounds(heard: seq<Heard>)
    requires Uninterrupted(heard, |heard|)
    ensures Listened(heard).started == |heard| && !Listened(heard).failed
    decreases |heard|
  {
    if heard != [] {
      var n := |heard| - 1;
      assert Uninterrupted(heard[..n], n);
      ListenedAllRounds(heard[..n]);
    }
  }

  /** An error in round `f`, the first one, stops the attempt there: exactly
      `f + 1` rounds are started, what round `f` received before the error is
      kept, and no later round contributes. */
  lemma ListenedFirstFailure(heard: seq<Heard>, f: nat)
    requires f < |heard| && Uninterrupted(heard, f) && heard[f].ending == Failure
    ensures Listened(heard) == Listened(heard[..f + 1])
    ensures Listened(heard).started == f + 1
    ensures Listened(heard).hosts == Listened(heard[..f]).hosts + heard[f].hosts
  {
    assert Uninterrupted(heard[..f], f);
    ListenedAllRounds(heard[..f]);
    assert heard[..f + 1][..f] == heard[..f];
    ListenedStops(heard, f + 1);
  }

  /** No host is invented: a host is gathered if and only if one of the
      rounds actually run yielded it. */
  lemma {:induction false} ListenedMembers(heard: seq<Heard>, h: string)
    ensures Listened(heard).started <= |heard|
    ensures h in Listened(heard).hosts <==>
      exists j :: 0 <= j < Listened(heard).started && h in heard[j].hosts
    decreases |heard|
  {
    if heard != [] {
      var n := |heard| - 1;
      var prefix := heard[..n];
      ListenedMembers(prefix, h);
      forall j | 0 <= j < n ensures prefix[j] == heard[j] { }
      if !Listened(prefix).failed {
        ListenedStarted(prefix);
      }
    }
  }

  /** `_discover_on_interface`'s gathering in terms of the replies themselves:
      a host is gathered if and only if a reply received in one of the rounds
      run contributes it. */
  lemma GatheredFromReplies(rounds: seq<Round>, n: nat, h: string)
    ensures h in Listened(HeardAll(rounds, n)).hosts <==>
      exists j, k :: 0 <= j < Listened(HeardAll(rounds, n)).started && 0 <= k < |RoundAt(rounds, j).replies|
        && h in ReplyHosts(RoundAt(rounds, j).replies[k])
  {
    var heard := HeardAll(rounds, n);
    ListenedMembers(heard, h);
    forall j | 0 <= j < Listened(heard).started
      ensures h in heard[j].hosts <==> exists k :: 0 <= k < |RoundAt(rounds, j).replies| && h in ReplyHosts(RoundAt(rounds, j).replies[k])
    {
      HeardAllAt(rounds, n, j);
      RepliesHostsMembers(RoundAt(rounds, j).replies, h);
    }
  }

  /** The inner `for xaddr in xaddrs` loop and the fallback after it: what
      one reply adds to the set. */
  method AddReply(found: set<string>, reply: Reply) returns (found': set<string>)
    ensures found' == found + ReplyHosts(reply)
  {
    found' := found;
    var xaddrs := ExtractXAddrs(reply.payload);
    var t := 0;
    while t < |xaddrs|
      invariant 0 <= t <= |xaddrs|
      invariant found' == found + XAddrHosts(xaddrs[..t])
    {
      match HostOf(xaddrs[t]) {
        case Some(h) => found' := found' + {h};
        case None =>
      }
      assert xaddrs[..t + 1][..t] == xaddrs[..t];
      t := t + 1;
    }
    assert xaddrs[..t] == xaddrs;
    if xaddrs == [] {
      found' := found' + {reply.sender};
    }
  }

  /** The `while True: recvfrom` loop of one round: what its replies add to
      the set, one after the other. */
  method ReceiveRound(found: set<string>, replies: seq<Reply>) returns (found': set<string>)
    ensures found' == found + RepliesHosts(replies)
  {
    found' := found;
    var k := 0;
    while k < |replies|
      invariant 0 <= k <= |replies|
      invariant found' == found + RepliesHosts(replies[..k])
    {
      found' := AddReply(found', replies[k]);
      assert replies[..k + 1][..k] == replies[..k];
      k := k + 1;
    }
    assert replies[..k] == replies;
  }

  /** `_discover_on_interface` once the socket is set up: `retries + 1` send
      rounds, each reading replies until its timeout; the set of hosts is
      returned sorted, each once.  `started` counts the rounds begun; when a
      `sendto` fails, its round is counted but no probe went out. */
  method DiscoverOnInterface(rounds: seq<Round>, retries: int) returns (ips: seq<string>, started: nat)
    ensures StrictlySorted(ips)
    ensures Elems(ips) == Attempt(rounds, retries).hosts
    ensures started == Attempt(rounds, retries).started
  {
    var found: set<string> := {};
    var failed := false;
    started := 0;
    var n := Sends(retries);
    var j := 0;
    while j < n && !failed
      invariant 0 <= j <= n
      invariant Listened(HeardAll(rounds, j)) == Listen(found, started, failed)
    {
      var round := RoundAt(rounds, j);
      started := started + 1;
      found := ReceiveRound(found, round.replies);
      failed := round.ending == Failure;
      ListenedNext(rounds, j);
      j := j + 1;
    }
    if failed {
      assert HeardAll(rounds, n)[..j] == HeardAll(rounds, j) by {
        HeardAllPrefix(rounds, j, n);
      }
      ListenedStops(HeardAll(rounds, n), j);
    }
    ips := SortedList(found);
  }

  /** One more round on an attempt that has not failed: its hosts are added,
      it is counted, and its ending decides whether the attempt fails. */
  lemma ListenedNext(rounds: seq<Round>, j: nat)
    requires !Listened(HeardAll(rounds, j)).failed
    ensures var before := Listened(HeardAll(rounds, j));
      var round := RoundAt(rounds, j);
      Listened(HeardAll(rounds, j + 1)) ==
        Listen(before.hosts + RepliesHosts(round.replies), before.started + 1, round.ending == Failure)
  {
    assert HeardAll(rounds, j + 1)[..j] == HeardAll(rounds, j);
  }

  lemma {:induction false} HeardAllPrefix(rounds: seq<Round>, j: nat, n: nat)
    requires j <= n
    ensures HeardAll(rounds, n)[..j] == HeardAll(rounds, j)
    decreases n
  {
    if n > j {
      HeardAllPrefix(rounds, j, n - 1);
      assert HeardAll(rounds, n)[..n - 1] == HeardAll(rounds, n - 1);
    }
  }

  /** An empty interface name is falsy in Python, so its socket keeps the
      default path. */
  function PathOf(iface: string): Option<string>
  {
    if iface == "" then None else Some(iface)
  }

  /** The union of what each listed interface's attempt gathers. */
  function InterfacesHosts(ifaces: seq<string>, retries: int, network: Option<string> -> seq<Round>): set<string>
  {
    Gather(ifaces, iface => Attempt(network(PathOf(iface)), retries).hosts)
  }

  /** What `discover` returns, as a set: one attempt on the default path when
      no interface is listed, else the union over the listed ones. */
  function Discovered(interfaces: Option<seq<string>>, retries: int, network: Option<string> -> seq<Round>): set<string>
  {
    match interfaces
    case None => Attempt(network(None), retries).hosts
    case Some(ifaces) =>
      if ifaces == [] then Attempt(network(None), retries).hosts
      else InterfacesHosts(ifaces, retries, network)
  }

  /** A host is in the union if and only if some interface's attempt found it. */
  lemma InterfacesHostsMembers(ifaces: seq<string>, retries: int, network: Option<string> -> seq<Round>, h: string)
    ensures h in InterfacesHosts(ifaces, retries, network) <==>
      exists i :: 0 <= i < |ifaces| && h in Attempt(network(PathOf(ifaces[i])), retries).hosts
  {
    GatherMembers(ifaces, iface => Attempt(network(PathOf(iface)), retries).hosts, h);
  }

  /** `discover`: with no interfaces (None or an empty list) the default-path
      attempt's own sorted list; otherwise one attempt per interface, in
      order, and the sorted union.  A failure to select an interface is not
      seen here: that socket simply listens on whatever path `network` gives
      it, and discovery goes on. */
  method Discover(interfaces: Option<seq<string>>, retries: int, network: Option<string> -> seq<Round>)
    returns (ips: seq<string>)
    ensures StrictlySorted(ips)
    ensures Elems(ips) == Discovered(interfaces, retries, network)
  {
    if interfaces.None? || interfaces.value == [] {
      var started;
      ips, started := DiscoverOnInterface(network(None), retries);
      return;
    }
    var ifaces := interfaces.value;
    var results: set<string> := {};
    for i := 0 to |ifaces|
      invariant results == InterfacesHosts(ifaces[..i], retries, network)
    {
      var found, started := DiscoverOnInterface(network(PathOf(ifaces[i])), retries);
      results := results + Elems(found);
      assert ifaces[..i + 1][..i] == ifaces[..i];
    }
    assert ifaces[..|ifaces|] == ifaces;
    ips := SortedList(results);
  }

  /** Every interface's own finding is kept in the union, and nothing else
      is in it. */
  lemma DiscoveredMembers(ifaces: seq<string>, retries: int, network: Option<string> -> seq<Round>, h: string)
    requires ifaces != []
    ensures h in Discovered(Some(ifaces), retries, network) <==>
      exists i :: 0 <= i < |ifaces| && h in Attempt(network(PathOf(ifaces[i])), retries).hosts
  {
    InterfacesHostsMembers(ifaces, retries, network, h);
  }
}
