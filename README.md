# ONVIF device discovery, modelled in Dafny

The `onvif_scanner` package finds ONVIF IP cameras on a network in two
ways. This project models both, plus the helper that lists the host's
own addresses:

* `WSDiscoveryScanner` sends a WS-Discovery Probe to the multicast group
  239.255.255.250:3702. It sends `retries + 1` times, on the default path or
  on each listed interface. After each send it reads ProbeMatch replies until
  the receive times out; a socket error ends the attempt. Each reply adds the
  host of every `http://` URI in the `XAddrs` element that `re.search` picks:
  the one at the leftmost `<`, with the longest opening tag and the shortest
  content. A reply that lists no URIs adds the address it came from. The
  union is returned sorted.
* `IPRangeScanner` parses a CIDR block with `ipaddress.ip_network(...,
  strict=False)` and checks every host of the block. On each port of a fixed
  list, in order, it tries a TCP connection. If the port is open, it fetches
  `http://<ip>:<port>/onvif/device_service`. Status 200, 401, 405 or 500
  marks the host as a device. The hosts found are returned sorted.
* `get_network_interfaces` lists the IPv4 addresses in the output of
  `ip -4 addr show`, leaving out 127.0.0.1. When the command is missing or
  fails, it falls back to the local address of a UDP socket connected towards
  8.8.8.8.

The network, the subprocess and the HTTP client are parameters of the model:

* a socket is the sequence of rounds it delivers (`Multicast.Round`);
* `discover`'s network is a function from an interface to such a sequence;
* the port check and the HTTP fetch are the functions `connects` and `fetch`;
* the command output and the fallback address are `Option<string>`
  arguments.

Everything between those inputs and the returned list is modelled as the code
does it:

* the three regular expressions (the `XAddrs` element, `http://([^:/]+)`
  and `inet (\d+\.\d+\.\d+\.\d+)`), including the backtracking order
  of Python's matcher;
* `str.split` in both forms;
* the IPv4 half of `ipaddress`: octet and mask parsing, host-bit masking and
  `hosts()`;
* Python's string order;
* the loops that gather and sort the results.

Modules:

* `Text` — `s.split(sep)`, `sep.join`, `s.split()`.
* `Ordering` — Python's `<` on `str`, and `sorted(list(set))`.
* `Probe` — `_extract_xaddrs` and the `http://([^:/]+)` host capture.
* `Multicast` — `_discover_on_interface` and `discover`.
* `IPv4` — `ip_network` for IPv4 text, `str(IPv4Address)`, `hosts()`.
* `RangeScan` — `_check_onvif` and `scan`.
* `Interfaces` — `get_network_interfaces`.
* `Wrappers` — `Option`.

Four points where what the scanner does is easy to mistake. The model
follows the code in each:

* The results are sorted as Python sorts strings: lexicographically. They are
  not sorted by address value. So "10.0.0.10" comes before "10.0.0.9"
  (`Ordering.LexicographicNotNumeric`).
* `hosts()` leaves out the network and broadcast addresses only up to /30. A
  /31 keeps both of its addresses, and a /32 yields its one address
  (`IPv4.HostAddressesSmallBlocks`).
* Only the statuses 200, 401, 405 and 500 mark a host as a device
  (`onvif_scanner/scanner.py:138`). A 400 answer (malformed request) does
  not, and neither does any other status (`RangeScan.ProbePort`).
* The port check's connection timeout is the caller's `timeout`
  (`onvif_scanner/scanner.py:129`), not the fixed 0.2 s that
  `tests/test_scanner.py:66-67` expects. Timeouts are not modelled.

## Model

| member | source | states |
|---|---|---|
| Ordering.SortedList | onvif_scanner/scanner.py:83 | `sorted(list(ips))`: the result is strictly sorted in Python string order, holds exactly the set's elements, and has the set's size (no duplicates) |
| Ordering.SortedListUnique | onvif_scanner/scanner.py:120 | two strictly sorted lists with the same elements are equal, so the completion order of the concurrent checks never shows in `scan`'s result |
| Ordering.SortedSingleton | onvif_scanner/scanner.py:120 | a sorted list whose only element is `x` is `[x]` |
| Ordering.DistinctOnce | onvif_scanner/scanner.py:120 | in a list without duplicates every element occurs once |
| Ordering.SortedPermutation | onvif_scanner/scanner.py:120 | a strictly sorted list with the elements of a duplicate-free list is a permutation of it |
| Ordering.Insert | onvif_scanner/scanner.py:83 | inserting into a strictly sorted list keeps it strictly sorted and adds exactly the new element |
| Ordering.InsertFront | onvif_scanner/scanner.py:83 | an element below the head can be put in front, keeping the order and adding just that element |
| Ordering.InsertBehind | onvif_scanner/scanner.py:83 | an element above the head goes behind it, keeping the order and adding just that element |
| Ordering.SortedCons | onvif_scanner/scanner.py:83 | a list whose elements all lie above `x` stays strictly sorted with `x` in front |
| Ordering.ElemsCons | onvif_scanner/scanner.py:83 | the elements of `[x] + s` are `x` and those of `s` |
| Ordering.ElemsEmpty | onvif_scanner/scanner.py:83 | a list has no elements exactly when it is empty |
| Ordering.StrictlySortedDistinct | onvif_scanner/scanner.py:22 | a strictly sorted list holds no duplicates |
| Ordering.DistinctCardinality | onvif_scanner/scanner.py:22 | a duplicate-free list has as many elements as its set |
| Ordering.BelowIrreflexive | onvif_scanner/scanner.py:22 | no string sorts below itself |
| Ordering.BelowTransitive | onvif_scanner/scanner.py:22 | string order is transitive |
| Ordering.BelowTotal | onvif_scanner/scanner.py:22 | of two different strings, one sorts below the other |
| Ordering.BelowAsymmetric | onvif_scanner/scanner.py:22 | string order is asymmetric |
| Ordering.BelowCommonPrefix | onvif_scanner/scanner.py:22 | strings that agree up to position k are ordered by their characters at k |
| Ordering.LexicographicNotNumeric | onvif_scanner/scanner.py:120 | "10.0.0.10" sorts before "10.0.0.9": the results are ordered as text, not as addresses |
| Text.SplitOnJoin | onvif_scanner/utils.py:13 | no piece of `s.split(sep)` contains the separator, and joining the pieces with it gives `s` back |
| Text.JoinSplitOn | onvif_scanner/scanner.py:107 | joining pieces that lack the separator and splitting again gives back the pieces (used for the dotted quad that `str(ip)` writes) |
| Text.SplitOnLacking | onvif_scanner/scanner.py:103 | a string without the separator splits into itself alone (an address with no `/`) |
| Text.SplitOnFirst | onvif_scanner/scanner.py:103 | a separator that follows a separator-free piece ends that piece |
| Text.SplitOnSingle | onvif_scanner/utils.py:14 | a text that splits into one piece is that piece |
| Text.SplitOnHead | onvif_scanner/utils.py:14 | a text that splits into several pieces is the first, the separator, and the rest joined; the rest splits into the remaining pieces |
| Text.JoinLacks | onvif_scanner/scanner.py:107 | joining pieces that lack a character other than the separator gives a text that lacks it too |
| Text.SplitWsTokens | onvif_scanner/scanner.py:92 | every token of `content.split()` is non-empty and holds no whitespace, and the tokens laid end to end are exactly the non-whitespace characters of the content, in order |
| Text.SplitWsBlank | onvif_scanner/scanner.py:92 | whitespace alone splits into no tokens |
| Text.SqueezeNoSpace | onvif_scanner/scanner.py:92 | removing whitespace from a string without any leaves it unchanged |
| Text.SqueezeAppend | onvif_scanner/scanner.py:92 | removing whitespace distributes over concatenation |
| Text.WordLength | onvif_scanner/scanner.py:92 | the token at the head of the text runs up to the first whitespace character, which it does not include |
| Text.SplitWsSkip | onvif_scanner/scanner.py:92 | leading whitespace does not change `s.split()` |
| Text.WordLengthOf | onvif_scanner/scanner.py:92 | a token followed by whitespace or the end of the text is read whole |
| Text.SplitWsWord | onvif_scanner/scanner.py:92 | a whitespace-free word followed by whitespace or the end is the first token, and the rest splits on its own |
| Text.InterleaveHead | onvif_scanner/scanner.py:92 | tokens laid out between whitespace gaps start with whitespace, or are empty |
| Text.SplitWsInterleave | onvif_scanner/scanner.py:92 | non-empty whitespace-free tokens separated by non-empty whitespace, with any whitespace at the ends, split back into exactly those tokens: the token boundaries are the whitespace runs |
| Text.SplitWsTwoWords | onvif_scanner/scanner.py:92 | "a b" splits into ["a", "b"] |
| Probe.TagRunFromCorrect | onvif_scanner/scanner.py:89 | the matcher's longest-first scan for `[^:]*:?XAddrs>` (case-insensitive) succeeds exactly when that sub-pattern matches from the position |
| Probe.TagRunStep | onvif_scanner/scanner.py:89 | a match of `[^:]*:?XAddrs>` ends at the current position, takes the colon there, or continues past a non-colon |
| Probe.TagAtNoColon | onvif_scanner/scanner.py:89 | the tag name does not start with a colon |
| Probe.FirstClose | onvif_scanner/scanner.py:89 | the lazy `(.*?)` stops at the first position where a closing `</…XAddrs>` tag matches, and finds none when there is none |
| Probe.OpenFromCorrect | onvif_scanner/scanner.py:89 | after `<`, the opening tag chosen is the longest one that has a closing tag after it, and that closing tag is the first one; when none is found, no opening tag there has a closing tag after it |
| Probe.MatchAt | onvif_scanner/scanner.py:89 | a match starting at one `<` exists exactly when the matcher finds one there, and the one it finds has the latest content start and, for that start, the earliest end |
| Probe.SearchFromCorrect | onvif_scanner/scanner.py:89 | scanning forward from `i` finds the leftmost match at or after `i`, with the greedy and lazy choices above, or proves that there is none |
| Probe.FindXAddrsIsFirstMatch | onvif_scanner/scanner.py:89-90 | `re.search` finds no match exactly when the pattern matches nowhere; otherwise the match with the leftmost `<`, then the longest opening tag, then the shortest content |
| Probe.FindXAddrs | onvif_scanner/scanner.py:89 | the captured group lies within the payload |
| Probe.ExtractXAddrs | onvif_scanner/scanner.py:85-94 | every URI returned is non-empty and free of whitespace; they come from the `XAddrs` element `re.search` picks (`Probe.FindXAddrsIsFirstMatch`) |
| Probe.ExtractXAddrsContent | onvif_scanner/scanner.py:85-94 | without a matching `XAddrs` element the list is empty; with one, the URIs laid end to end are exactly the picked element's content with its whitespace removed |
| Probe.ExtractXAddrsTokens | onvif_scanner/scanner.py:89-93 | when the picked element's content is whitespace-separated URIs, with any whitespace at the ends, exactly those URIs are returned, in order |
| Probe.NoTagNoXAddrs | onvif_scanner/scanner.py:89-94 | a payload without `<` yields no URIs |
| Probe.FirstHostStart | onvif_scanner/scanner.py:68 | finds the leftmost position where `http://` followed by a host character starts, or shows there is none |
| Probe.HostLength | onvif_scanner/scanner.py:68 | the greedy `[^:/]+` takes every character up to the first `:` or `/` |
| Probe.HostOf | onvif_scanner/scanner.py:68-70 | a captured host is non-empty and holds no `:` or `/` |
| Probe.HostOfMatch | onvif_scanner/scanner.py:68-70 | there is no host exactly when `http://` followed by a host character occurs nowhere; otherwise the host is the longest run after the first such `http://`, and it ends at the end of the URI or before a `:` or `/` |
| Probe.NoHttpNoHost | onvif_scanner/scanner.py:68-69 | a URI with no `http://` (an `https://` one, say) adds no host |
| Multicast.GatherMembers | onvif_scanner/scanner.py:66-70 | a host is gathered from a list exactly when some item of the list adds it |
| Multicast.XAddrHostsMembers | onvif_scanner/scanner.py:66-70 | a host is added from a reply's URIs exactly when one of the URIs yields it |
| Multicast.ReplyHostsFallback | onvif_scanner/scanner.py:65-74 | a reply adds its sender exactly when it lists no URIs; otherwise exactly the hosts of its `http://` URIs |
| Multicast.NoHttpXAddrsAddNothing | onvif_scanner/scanner.py:66-74 | a reply that lists URIs, none with a host, adds nothing (and not its sender) |
| Multicast.RepliesHostsMembers | onvif_scanner/scanner.py:61-74 | a host comes from a run of replies exactly when one reply of the run adds it |
| Multicast.AddReply | onvif_scanner/scanner.py:65-74 | the inner loop and fallback add exactly what the reply contributes to the set |
| Multicast.ReceiveRound | onvif_scanner/scanner.py:61-77 | the `recvfrom` loop of one round adds exactly what its replies contribute, in order |
| Multicast.HeardAll | onvif_scanner/scanner.py:58 | one summary per round started |
| Multicast.HeardAllAt | onvif_scanner/scanner.py:58-77 | the j-th summary is what the j-th round delivered |
| Multicast.HeardAllPrefix | onvif_scanner/scanner.py:58 | the summaries of the first j rounds do not depend on how many rounds follow |
| Multicast.ListenedNext | onvif_scanner/scanner.py:58-79 | a round on an attempt that has not failed adds its hosts, is counted, and fails the attempt exactly when it ended in an error |
| Multicast.ListenedStops | onvif_scanner/scanner.py:78-79 | once an error has ended the attempt, later rounds change nothing |
| Multicast.ListenedStarted | onvif_scanner/scanner.py:58-59 | while no error has occurred, every round has been started |
| Multicast.ListenedAllRounds | onvif_scanner/scanner.py:58-77 | a receive timeout ends only its own round: without errors all `retries + 1` rounds are started and the attempt is not cut short |
| Multicast.ListenedFirstFailure | onvif_scanner/scanner.py:57-79 | the first error, in round f, stops the attempt: f + 1 rounds are started (the failing `sendto` or `recvfrom` is in the last), what arrived before the error is kept, and no later round contributes |
| Multicast.ListenedMembers | onvif_scanner/scanner.py:57-79 | no host is invented: a host is gathered exactly when a round that was run yielded it |
| Multicast.GatheredFromReplies | onvif_scanner/scanner.py:57-79 | a host is gathered exactly when a reply received in a round that was run contributes it |
| Multicast.DiscoverOnInterface | onvif_scanner/scanner.py:42-83 | returns the attempt's hosts sorted with no duplicates, and reports how many rounds were started |
| Multicast.InterfacesHostsMembers | onvif_scanner/scanner.py:19-21 | a host is in the union exactly when the attempt on some listed interface found it |
| Multicast.Discover | onvif_scanner/scanner.py:11-22 | with no interfaces (None or an empty list) the default-path attempt; otherwise the union of one attempt per interface; sorted, without duplicates |
| Multicast.DiscoveredMembers | onvif_scanner/scanner.py:19-22 | with interfaces listed, every interface's finding is kept and nothing else is reported |
| IPv4.Decimal | onvif_scanner/scanner.py:131 | `str(n)`: non-empty ASCII digits, no leading zero, whose value is `n` |
| IPv4.DecimalLength | onvif_scanner/scanner.py:107 | one digit below 10, at most two below 100, at most three below 1000 |
| IPv4.LeadingDigitPositive | onvif_scanner/scanner.py:103 | digits that do not start with `0` have a positive value |
| IPv4.DecimalOfDigits | onvif_scanner/scanner.py:103 | digits without a superfluous leading zero are the decimal form of their own value |
| IPv4.Octets | onvif_scanner/scanner.py:107 | the four octets of an address rebuild it |
| IPv4.OctetsFromOctets | onvif_scanner/scanner.py:103 | the octets of an address built from octets are those octets |
| IPv4.DigitsLackDot | onvif_scanner/scanner.py:107 | a run of digits holds no dot |
| IPv4.ParseDecimalOctet | onvif_scanner/scanner.py:103 | every value below 256, written in decimal, is accepted as an octet |
| IPv4.ParseFormatAddress | onvif_scanner/scanner.py:103-107 | the dotted quad of any address parses back to that address |
| IPv4.FormatParseAddress | onvif_scanner/scanner.py:103-107 | every accepted address text is the dotted quad of its value, so each address has exactly one accepted spelling (no leading zeros, exactly four parts) |
| IPv4.FormatInjective | onvif_scanner/scanner.py:107 | different addresses are written differently |
| IPv4.FormatShape | onvif_scanner/scanner.py:103 | a dotted quad holds no `/` and is not a bare run of digits |
| IPv4.Pow2 | onvif_scanner/scanner.py:103 | powers of two are positive |
| IPv4.Pow2Split | onvif_scanner/scanner.py:103 | 2^(k+j) = 2^k * 2^j |
| IPv4.Pow2Of32 | onvif_scanner/scanner.py:103 | 2^32 is the size of the address space |
| IPv4.Pow2Monotone | onvif_scanner/scanner.py:103 | powers of two grow with the exponent |
| IPv4.Pow2Strict | onvif_scanner/scanner.py:103 | powers of two grow strictly with the exponent |
| IPv4.Netmask | onvif_scanner/scanner.py:103 | a netmask is a 32-bit value |
| IPv4.MaskPrefixFrom | onvif_scanner/scanner.py:103 | finds the smallest prefix length from `from` whose netmask (or hostmask) is the given value, or shows there is none |
| IPv4.ParseMask | onvif_scanner/scanner.py:103 | an accepted mask is a prefix length of at most 32 |
| IPv4.ParseMaskDecimal | onvif_scanner/scanner.py:103 | a prefix length written in decimal reads back as itself |
| IPv4.NetmaskInjective | onvif_scanner/scanner.py:103 | different prefix lengths have different netmasks |
| IPv4.ParseMaskNetmask | onvif_scanner/scanner.py:103 | a mask written as a dotted-quad netmask (`255.255.255.0`) gives its prefix length |
| IPv4.HostmaskNotNetmask | onvif_scanner/scanner.py:103 | for prefixes strictly between 0 and 32, a hostmask is never also a netmask |
| IPv4.HostmaskInjective | onvif_scanner/scanner.py:103 | different prefix lengths have different hostmasks |
| IPv4.ParseMaskHostmask | onvif_scanner/scanner.py:103 | a mask written as a dotted-quad hostmask (`0.0.0.255`) gives its prefix length, for prefixes strictly between 0 and 32 |
| IPv4.SpaceAligned | onvif_scanner/scanner.py:103 | the address space is a whole number of /p blocks |
| IPv4.BlockEnd | onvif_scanner/scanner.py:103 | an aligned block ends inside the address space |
| IPv4.MaskHostBits | onvif_scanner/scanner.py:103 | `strict=False` clears the host bits: the base is aligned to the block size, the address lies in the block, and the block fits in the address space |
| IPv4.MaskHostBitsWhole | onvif_scanner/scanner.py:103 | a /32 has no host bits to clear |
| IPv4.ParseNetwork | onvif_scanner/scanner.py:102-105 | every accepted CIDR text gives a block whose base is aligned to its size |
| IPv4.ParseNetworkContains | onvif_scanner/scanner.py:103 | the accepted block contains the address written before the mask |
| IPv4.ParseNetworkOneSlash | onvif_scanner/scanner.py:102-105 | more than one `/` is rejected (so `scan` returns `[]`) |
| IPv4.ParseNetworkBareAddress | onvif_scanner/scanner.py:103 | an address without a mask is the /32 block of that address |
| IPv4.SplitCidr | onvif_scanner/scanner.py:103 | `a.b.c.d/p` splits on `/` into the address and the prefix |
| IPv4.ParseNetworkWithPrefix | onvif_scanner/scanner.py:103 | `a.b.c.d/p` is the /p block that contains `a.b.c.d` |
| IPv4.HostAddresses | onvif_scanner/scanner.py:107 | every host lies in the block |
| IPv4.HostAddressesAscending | onvif_scanner/scanner.py:107 | hosts are listed in increasing order, each once |
| IPv4.HostAddressesSkipEnds | onvif_scanner/scanner.py:107 | up to /30, the network and broadcast addresses are not hosts, every address between them is, and there are two fewer hosts than addresses |
| IPv4.HostAddressesSmallBlocks | onvif_scanner/scanner.py:107 | a /31 lists both of its addresses and a /32 lists its one address |
| IPv4.Hosts | onvif_scanner/scanner.py:107 | one text per host |
| IPv4.HostsMembership | onvif_scanner/scanner.py:107 | an address's text is among the host texts exactly when the address is a host |
| IPv4.HostsParse | onvif_scanner/scanner.py:107 | every listed host text parses back to its address, and no text is listed twice |
| RangeScan.ServiceUrl | onvif_scanner/scanner.py:131 | the URL starts with `http://` followed by the host |
| RangeScan.ProbePort | onvif_scanner/scanner.py:126-143 | one port: true exactly when the port is open and the device-service URL answers 200, 401, 405 or 500; an exception counts as no answer |
| RangeScan.SilentOnvif | onvif_scanner/scanner.py:125-144 | the ports are all silent exactly when the host is not a device |
| RangeScan.ProbePorts | onvif_scanner/scanner.py:125-144 | the ports are tried in order and the loop stops at the first that answers; every port tried before it is silent; when none answers, all are tried |
| RangeScan.CheckOnvif | onvif_scanner/scanner.py:122-144 | `_check_onvif` is true exactly when some port of [80, 8080, 8000, 8888, 5005, 37777] answers; the ports tried are a prefix of that list, all silent but possibly the last; the ports after the first that answers are not tried, and when none answers all six are tried |
| RangeScan.OnvifHostsMembers | onvif_scanner/scanner.py:110-118 | a host is found exactly when it is one of the hosts checked and it is a device |
| RangeScan.OnvifListMembers | onvif_scanner/scanner.py:110-118 | a host is in the collected list exactly when it is one of the hosts checked and it is a device |
| RangeScan.OnvifListDistinct | onvif_scanner/scanner.py:110-118 | distinct hosts give a collected list without duplicates |
| RangeScan.CheckHosts | onvif_scanner/scanner.py:110-118 | the collection loop keeps exactly the hosts whose check succeeds, in the order of the hosts, each once when the hosts are distinct |
| RangeScan.Scan | onvif_scanner/scanner.py:101-120 | `scan` returns the devices of the block sorted, without duplicates, and as a permutation of the list the loop collects; an invalid CIDR gives `[]` |
| RangeScan.FoundAddresses | onvif_scanner/scanner.py:101-120 | an address is reported exactly when it is a host of the parsed block and a device, so up to /30 the network and broadcast addresses never are |
| RangeScan.FoundInBlock | onvif_scanner/scanner.py:101-120 | everything reported is a valid address inside the block |
| RangeScan.OnvifSingle | onvif_scanner/scanner.py:110-118 | when, among the hosts checked, exactly one is a device, it is all that is found |
| RangeScan.FoundSingle | onvif_scanner/scanner.py:101-118 | when, among the hosts of the block, exactly one is a device, it is all that is found |
| RangeScan.OneCameraOnvif | onvif_scanner/scanner.py:122-144 | with only 10.0.0.5 accepting connections, and only on port 80 where every URL answers 401, exactly 10.0.0.5 is a device |
| RangeScan.NetworkAddressText | onvif_scanner/scanner.py:103 | the address 167772160 is written "10.0.0.0", and 24 is written "24" |
| RangeScan.CameraAddressText | onvif_scanner/scanner.py:107 | the address 167772165 is written "10.0.0.5" |
| RangeScan.ExampleAligned | onvif_scanner/scanner.py:103 | a /24 block holds 256 addresses, and 10.0.0.0 is aligned to it |
| RangeScan.ExampleBlock | onvif_scanner/scanner.py:103 | "10.0.0.0/24" parses to the /24 block based at 10.0.0.0 |
| RangeScan.ExampleHost | onvif_scanner/scanner.py:107 | 10.0.0.5 is a host of 10.0.0.0/24 |
| RangeScan.OneCameraScan | onvif_scanner/scanner.py:101-144 | scanning 10.0.0.0/24 when only 10.0.0.5 answers, on port 80 with 401, reports exactly `["10.0.0.5"]` |
| Interfaces.DigitRun | onvif_scanner/utils.py:14 | the run of digits stays within the line |
| Interfaces.DigitRunSpan | onvif_scanner/utils.py:14 | the run is all ASCII digits (or empty), holds no dot, and is maximal |
| Interfaces.DigitRunAtLeast | onvif_scanner/utils.py:14 | `\d+` is greedy: the run reaches past every stretch of digits that starts at the position |
| Interfaces.GroupsStep | onvif_scanner/utils.py:14 | a run of digits followed by a `.` ends exactly at that dot |
| Interfaces.GroupsComplete | onvif_scanner/utils.py:14 | wherever n dot-separated runs of digits occur, the group matcher succeeds and its match reaches at least as far |
| Interfaces.GroupsEnd | onvif_scanner/utils.py:14 | when the dotted groups match, they end after their start and within the line |
| Interfaces.GroupsEndMaximal | onvif_scanner/utils.py:14 | the last group takes the whole run of digits, so no digit follows the match |
| Interfaces.GroupsShape | onvif_scanner/utils.py:14-16 | n dotted groups split on `.` into n pieces, each a non-empty run of digits |
| Interfaces.SearchInet | onvif_scanner/utils.py:14 | finds the leftmost position from `p` where `inet \d+.\d+.\d+.\d+` matches, or shows there is none |
| Interfaces.InetAtIff | onvif_scanner/utils.py:14 | the matcher succeeds at a position exactly when `inet ` and four dot-separated runs of digits start there |
| Interfaces.LineAddressNone | onvif_scanner/utils.py:14-15 | a line yields no address exactly when the pattern occurs nowhere in it |
| Interfaces.LineAddressFirstPattern | onvif_scanner/utils.py:14-15 | the address comes from an occurrence of the pattern, and no occurrence starts before it |
| Interfaces.LineAddressExists | onvif_scanner/utils.py:14-15 | a line yields an address exactly when the pattern matches somewhere in it |
| Interfaces.LineAddressLeftmost | onvif_scanner/utils.py:14-16 | the address is the group after the leftmost `inet `, and it runs to the end of the fourth run of digits |
| Interfaces.LineAddressShape | onvif_scanner/utils.py:14-16 | an address read from a line is four non-empty runs of digits joined by dots; the octets are not range-checked |
| Interfaces.NoInetNoAddress | onvif_scanner/utils.py:14-15 | a line with no `inet ` yields nothing |
| Interfaces.LineMatches | onvif_scanner/utils.py:13-14 | one search result per line, in order |
| Interfaces.LinesAddressesMembers | onvif_scanner/utils.py:13-18 | an address is collected exactly when it is not 127.0.0.1 and some line yields it |
| Interfaces.CollectAddresses | onvif_scanner/utils.py:13-18 | the loop over the lines collects exactly those addresses |
| Interfaces.GetNetworkInterfaces | onvif_scanner/utils.py:5-29 | the result is sorted, without duplicates, and holds exactly the addresses read from the command output; when the command is unavailable or fails, the fallback address, if any |
| Interfaces.ReportedAddresses | onvif_scanner/utils.py:9-29 | with the command's output, every address reported follows `inet ` on a line and is not 127.0.0.1; without it, the only possible address is the fallback one, and it is reported even if it is loopback |

## Left out

- Socket set-up is not modelled:
  - the probe envelope, its random `uuid4` MessageID and the UTF-8 encoding
    of the message;
  - the multicast TTL option;
  - the effect of `IP_MULTICAST_IF`.

  The interface only selects which sequence of rounds the socket delivers.
  A failure to select it falls back to the default path, which is part of
  that choice.
- Timeouts: the values passed to `settimeout`, `requests.get` and `scan`
  are not modelled. A receive timeout is a round's `Timeout` ending, and a
  connect timeout is `connects` returning false.
- Decoding: payloads are taken as text already decoded with
  `errors='ignore'`, and the command output as decoded UTF-8. A decoding
  error in `get_network_interfaces`, or any other error the subprocess
  raises besides a missing program or a failure exit status, propagates in
  the source. The model has no such path.
- A socket that cannot be created, or whose options cannot be set, raises
  out of `discover` in the source. That is not modelled.
- `Multicast.Discover`: `network` is a function of the interface. A socket
  for an interface that is listed twice is assumed to deliver the same
  rounds both times.
- `ip_network` is modelled for IPv4 text only. IPv6 blocks, and inputs that
  are not strings, are not modelled. IPv6 text is treated as invalid, so
  the model returns `[]` where the source would scan the IPv6 hosts.
- `\d` is modelled as the ASCII digits. Python also matches other Unicode
  decimal digits in `ip -4 addr show` output.
- `ThreadPoolExecutor` concurrency and `max_workers` are not modelled. The
  checks are modelled one after the other. Completion order does not show in
  the sorted result (`Ordering.SortedListUnique`). An exception from a
  future is already absorbed inside `_check_onvif` and is not modelled
  separately.
- `requests.get` and `connect_ex` are the oracles `fetch` and `connects`.
  Each is a function, so the same URL is assumed to always get the same
  answer.
- The rest of the package is not part of this model:
  `onvif_scanner/inspector.py`, `onvif_scanner/output.py`,
  `onvif_scanner/cli.py` and `onvif_scanner/models.py`.
  - So is credential handling (explicit credentials, then default
    credentials, then a prompt). None of it is in `scanner.py` or
    `utils.py`.
