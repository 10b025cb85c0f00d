/** `get_network_interfaces`: the IPv4 addresses of this host, read from the
    output of `ip -4 addr show`, or, when that command is missing or fails,
    the address of the interface that routes towards the public internet.

    Both outside effects are parameters: `command` is the decoded output of
    `ip -4 addr show` (`None` when the program is not found or exits with an
    error status), and `primary` is the local address of a UDP socket
    connected to 8.8.8.8 port 80 (`None` when any step of that raises). */
module Interfaces {
  import opened Wrappers
  import opened Text
  import opened Ordering

  const Loopback := "127.0.0.1"

  /** A non-empty run of ASCII digits: what `\\d+` matches. */
  predicate DigitRunNonEmpty(s: string)
  {
    s != [] && AllDigits(s)
  }

  /** Length of the run of digits that starts at `i`. */
  function DigitRun(s: string, i: nat): (n: nat)
    requires i <= |s|
    ensures i + n <= |s|
    decreases |s| - i
  {
    if i == |s| || !IsDigit(s[i]) then 0 else 1 + DigitRun(s, i + 1)
  }

  /** The run is all digits, and it is maximal. */
  lemma {:induction false} DigitRunSpan(s: string, i: nat)
    requires i <= |s|
    ensures DigitRunNonEmpty(s[i..i + DigitRun(s, i)]) || DigitRun(s, i) == 0
    ensures Lacks(s[i..i + DigitRun(s, i)], '.')
    ensures i + DigitRun(s, i) < |s| ==> !IsDigit(s[i + DigitRun(s, i)])
    decreases |s| - i
  {
    if i < |s| && IsDigit(s[i]) {
      DigitRunSpan(s, i + 1);
      assert s[i..i + DigitRun(s, i)] == [s[i]] + s[i + 1..i + 1 + DigitRun(s, i + 1)];
    }
  }

  /** Where `\d+(\.\d+){n-1}` ends when it starts at `i`: digits and dots
      are disjoint, so every `\d+` takes its whole run of digits. */
  function GroupsEnd(s: string, i: nat, n: nat): (r: Option<nat>)
    requires i <= |s| && n >= 1
    ensures r.Some? ==> i < r.value <= |s|
    decreases n
  {
    var run := DigitRun(s, i);
    if run == 0 then None
    else if n == 1 then Some(i + run)
    else if i + run < |s| && s[i + run] == '.' then GroupsEnd(s, i + run + 1, n - 1)
    else None
  }

  /** `inet ` starts at `p`. */
  predicate TagAt(line: string, p: nat)
  {
    p + 5 <= |line|
    && line[p] == 'i' && line[p + 1] == 'n' && line[p + 2] == 'e' && line[p + 3] == 't' && line[p + 4] == ' '
  }

  /** `inet (\d+\.\d+\.\d+\.\d+)` matches at `p`. */
  predicate InetAt(line: string, p: nat)
  {
    TagAt(line, p) && GroupsEnd(line, p + 5, 4).Some?
  }

  /** The first match at or after `p`. */
  function SearchInet(line: string, p: nat): (r: Option<nat>)
    ensures r.Some? ==> p <= r.value && InetAt(line, r.value)
    ensures r.Some? ==> forall q :: p <= q < r.value ==> !InetAt(line, q)
    ensures r.None? ==> forall q :: p <= q ==> !InetAt(line, q)
    decreases |line| - p
  {
    if p + 5 > |line| then None
    else if InetAt(line, p) then Some(p)
    else SearchInet(line, p + 1)
  }

  /** `re.search(r'inet (\d+\.\d+\.\d+\.\d+)', line).group(1)`. */
  function LineAddress(line: string): (r: Option<string>)
  {
    match SearchInet(line, 0)
    case None => None
    case Some(p) => Some(line[p + 5..GroupsEnd(line, p + 5, 4).value])
  }

  /** A line yields an address exactly when `inet ` followed by four dotted
      runs of digits occurs in it ... */
  lemma LineAddressExists(line: string)
    ensures LineAddress(line).None? <==> forall p :: !InetAt(line, p)
  {
  }

  /** ... and the address is the one after the leftmost occurrence; it ends
      where the fourth run of digits ends. */
  lemma LineAddressLeftmost(line: string)
    requires LineAddress(line).Some?
    ensures InetAt(line, SearchInet(line, 0).value)
    ensures forall q: nat :: q < SearchInet(line, 0).value ==> !InetAt(line, q)
    ensures var p := SearchInet(line, 0).value; var e := GroupsEnd(line, p + 5, 4).value;
      LineAddress(line).value == line[p + 5..e] && (e < |line| ==> !IsDigit(line[e]))
  {
    GroupsEndMaximal(line, SearchInet(line, 0).value + 5, 4);
  }

  lemma {:induction false} GroupsEndMaximal(s: string, i: nat, n: nat)
    requires i <= |s| && n >= 1 && GroupsEnd(s, i, n).Some?
    ensures GroupsEnd(s, i, n).value < |s| ==> !IsDigit(s[GroupsEnd(s, i, n).value])
    decreases n
  {
    var run := DigitRun(s, i);
    if n > 1 {
      GroupsEndMaximal(s, i + run + 1, n - 1);
    } else {
      DigitRunSpan(s, i);
    }
  }

  /** The `n` dotted runs of digits between `i` and their end: `n` pieces
      when split on `.`, each a non-empty run of digits. */
  lemma {:induction false} GroupsShape(s: string, i: nat, n: nat)
    requires i <= |s| && n >= 1 && GroupsEnd(s, i, n).Some?
    ensures |SplitOn(s[i..GroupsEnd(s, i, n).value], '.')| == n
    ensures forall k :: 0 <= k < n ==> DigitRunNonEmpty(SplitOn(s[i..GroupsEnd(s, i, n).value], '.')[k])
    decreases n
  {
    var run := DigitRun(s, i);
    var e := GroupsEnd(s, i, n).value;
    var digits := s[i..i + run];
    DigitRunSpan(s, i);
    if n == 1 {
      assert s[i..e] == digits;
      SplitOnLacking(digits, '.');
    } else {
      var e' := GroupsEnd(s, i + run + 1, n - 1).value;
      assert e' == e;
      GroupsShape(s, i + run + 1, n - 1);
      var rest := s[i + run + 1..e];
      var restParts := SplitOn(rest, '.');
      assert s[i..e] == digits + ['.'] + rest;
      SplitOnFirst(digits, '.', rest);
      var parts := [digits] + restParts;
      assert SplitOn(s[i..e], '.') == parts;
      forall k | 0 <= k < n ensures DigitRunNonEmpty(parts[k]) {
        if k > 0 {
          assert parts[k] == restParts[k - 1];
        }
      }
    }
  }

  /** A run of at least `len` digits starts at `i` when `s[i..i + len]` is
      all digits. */
  lemma {:induction false} DigitRunAtLeast(s: string, i: nat, len: nat)
    requires i + len <= |s| && AllDigits(s[i..i + len])
    ensures DigitRun(s, i) >= len
    decreases len
  {
    if len > 0 {
      assert IsDigit(s[i..i + len][0]);
      assert s[i + 1..i + len] == s[i..i + len][1..];
      DigitRunAtLeast(s, i + 1, len - 1);
    }
  }

  /** `n` dot-separated non-empty runs of digits make up `x`. */
  predicate DottedRuns(x: string, n: nat)
  {
    var parts := SplitOn(x, '.');
    |parts| == n && forall k :: 0 <= k < n ==> DigitRunNonEmpty(parts[k])
  }

  /** Completeness of the matcher: when `n` dot-separated non-empty runs of
      digits occupy `s[i..e]`, `GroupsEnd` matches them, and the match
      reaches at least to `e` (the last `\d+` is greedy). */
  lemma {:induction false} GroupsComplete(s: string, i: nat, n: nat, e: nat)
    requires i <= e <= |s| && n >= 1 && DottedRuns(s[i..e], n)
    ensures GroupsEnd(s, i, n).Some? && e <= GroupsEnd(s, i, n).value
    decreases n
  {
    var x := s[i..e];
    var parts := SplitOn(x, '.');
    var len := |parts[0]|;
    if n == 1 {
      SplitOnSingle(x, '.');
      DigitRunAtLeast(s, i, len);
    } else {
      SplitOnHead(x, '.');
      assert s[i..i + len] == x[..len] == parts[0];
      DigitRunAtLeast(s, i, len);
      GroupsStep(s, i, len);
      assert s[i + len + 1..e] == x[len + 1..] == Join(parts[1..], '.');
      GroupsComplete(s, i + len + 1, n - 1, e);
    }
  }

  /** A run of digits that a dot follows is exactly the run at its start. */
  lemma GroupsStep(s: string, i: nat, len: nat)
    requires i + len < |s| && s[i + len] == '.' && DigitRun(s, i) >= len
    ensures DigitRun(s, i) == len
  {
    DigitRunSpan(s, i);
  }

  /** The pattern `inet (\d+\.\d+\.\d+\.\d+)` matches `line[p..e]`,
      stated without the matcher. */
  predicate InetPattern(line: string, p: nat, e: nat)
  {
    TagAt(line, p) && p + 5 <= e <= |line| && DottedRuns(line[p + 5..e], 4)
  }

  /** The matcher finds a match at `p` exactly when the pattern matches
      there for some end. */
  lemma InetAtIff(line: string, p: nat)
    ensures InetAt(line, p) <==> exists e: nat :: InetPattern(line, p, e)
  {
    if InetAt(line, p) {
      var e := GroupsEnd(line, p + 5, 4).value;
      GroupsShape(line, p + 5, 4);
      assert InetPattern(line, p, e);
    }
    if exists e: nat :: InetPattern(line, p, e) {
      var e: nat :| InetPattern(line, p, e);
      GroupsComplete(line, p + 5, 4, e);
    }
  }

  /** `re.search` finds an address on a line exactly when `inet ` followed by
      four dot-separated runs of digits occurs in it ... */
  lemma LineAddressNone(line: string)
    ensures LineAddress(line).None? <==> forall p: nat, e: nat :: !InetPattern(line, p, e)
  {
    LineAddressExists(line);
    if LineAddress(line).None? {
      forall p: nat, e: nat ensures !InetPattern(line, p, e) {
        InetAtIff(line, p);
      }
    } else {
      var p := SearchInet(line, 0).value;
      InetAtIff(line, p);
    }
  }

  /** ... and the address it finds follows the leftmost such occurrence. */
  lemma LineAddressFirstPattern(line: string)
    requires LineAddress(line).Some?
    ensures exists e: nat :: InetPattern(line, SearchInet(line, 0).value, e)
    ensures forall q: nat, e: nat :: q < SearchInet(line, 0).value ==> !InetPattern(line, q, e)
  {
    var p := SearchInet(line, 0).value;
    InetAtIff(line, p);
    forall q: nat, e: nat | q < p ensures !InetPattern(line, q, e) {
      InetAtIff(line, q);
    }
  }

  /** What `ip -4 addr show` can put into the result: four non-empty runs of
      digits joined by dots.  The octets are not range-checked. */
  lemma LineAddressShape(line: string)
    requires LineAddress(line).Some?
    ensures |SplitOn(LineAddress(line).value, '.')| == 4
    ensures forall k :: 0 <= k < 4 ==> DigitRunNonEmpty(SplitOn(LineAddress(line).value, '.')[k])
  {
    GroupsShape(line, SearchInet(line, 0).value + 5, 4);
  }

  /** A line without `inet ` (an `inet6` line, for instance) yields nothing. */
  lemma NoInetNoAddress(line: string)
    requires forall p :: !TagAt(line, p)
    ensures LineAddress(line).None?
  {
  }

  /** What the search finds on each line. */
  function LineMatches(lines: seq<string>): (m: seq<Option<string>>)
    ensures |m| == |lines|
    ensures forall k :: 0 <= k < |lines| ==> m[k] == LineAddress(lines[k])
  {
    seq(|lines|, k requires 0 <= k < |lines| => LineAddress(lines[k]))
  }

  /** The addresses the lines yield, the loopback address excepted. */
  function LinesAddresses(lines: seq<string>): set<string>
    decreases |lines|
  {
    if lines == [] then {}
    else
      var last := LineAddress(lines[|lines| - 1]);
      LinesAddresses(lines[..|lines| - 1])
      + if last.Some? && last.value != Loopback then {last.value} else {}
  }

  lemma {:induction false} LinesAddressesMembers(lines: seq<string>, a: string)
    ensures a in LinesAddresses(lines) <==> a != Loopback && Some(a) in LineMatches(lines)
    decreases |lines|
  {
    if lines != [] {
      var front := lines[..|lines| - 1];
      LinesAddressesMembers(front, a);
      assert LineMatches(lines) == LineMatches(front) + [LineAddress(lines[|lines| - 1])];
    }
  }

  /** The addresses `get_network_interfaces` reports. */
  function InterfaceAddresses(command: Option<string>, primary: Option<string>): set<string>
  {
    match command
    case Some(output) => LinesAddresses(SplitOn(output, '\n'))
    case None => if primary.Some? then {primary.value} else {}
  }

  /** The loop over the lines of the command output, collecting addresses
      in a list. */
  method CollectAddresses(lines: seq<string>) returns (ips: seq<string>)
    ensures Elems(ips) == LinesAddresses(lines)
  {
    ips := [];
    for i := 0 to |lines|
      invariant Elems(ips) == LinesAddresses(lines[..i])
    {
      assert lines[..i + 1][..i] == lines[..i];
      var found := LineAddress(lines[i]);
      if found.Some? {
        var ip := found.value;
        if ip != Loopback {
          ips := ips + [ip];
        }
      }
    }
    assert lines[..|lines|] == lines;
  }

  /** `get_network_interfaces`: the addresses, each once, sorted. */
  method GetNetworkInterfaces(command: Option<string>, primary: Option<string>) returns (ips: seq<string>)
    ensures StrictlySorted(ips)
    ensures Elems(ips) == InterfaceAddresses(command, primary)
  {
    var found: seq<string> := [];
    match command {
      case Some(output) =>
        found := CollectAddresses(SplitOn(output, '\n'));
      case None =>
        if primary.Some? {
          found := [primary.value];
        }
    }
    ips := SortedList(Elems(found));
  }

  /** With the command available, the loopback address is never reported
      and every address reported follows `inet ` on some line of the
      output; the fallback address is reported as it is, loopback or not. */
  lemma ReportedAddresses(command: Option<string>, primary: Option<string>, a: string)
    requires a in InterfaceAddresses(command, primary)
    ensures command.Some? ==> a != Loopback && Some(a) in LineMatches(SplitOn(command.value, '\n'))
    ensures command.None? ==> primary == Some(a)
  {
    if command.Some? {
      LinesAddressesMembers(SplitOn(command.value, '\n'), a);
    }
  }
}
