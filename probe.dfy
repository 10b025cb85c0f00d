/** Reading a WS-Discovery ProbeMatch (section 5.3 of the April 2005
    WS-Discovery specification, as profiled by ONVIF): the service addresses
    listed in its XAddrs element, and the host named by each address.

    The source finds the element with the regular expression
    `(?i)<[^:]*:?XAddrs>(.*?)</[^:]*:?XAddrs>` under DOTALL and takes the
    host with `http://([^:/]+)`.  Both are modelled here by the steps
    Python's backtracking matcher takes, and each is tied to a declarative
    description of what a match is. */
module Probe {
  import opened Wrappers
  import opened Text

  // ---------------------------------------------------------------------
  // The XAddrs element
  // ---------------------------------------------------------------------

  /** The tag name, in the lower case Python folds to. */
  const TagName: string := "xaddrs"

  /** `c` matches the letter `lower` of the pattern under IGNORECASE: the
      letter itself, its ASCII capital, and for `s` also U+017F LATIN SMALL
      LETTER LONG S, which Python's matcher treats as an `s`. */
  predicate FoldsTo(c: char, lower: char)
    requires 'a' <= lower <= 'z'
  {
    c == lower || c as int == lower as int - 32 || (lower == 's' && c == '\U{17f}')
  }

  /** `XAddrs>` (in any letter case) starts at position `m`. */
  predicate TagAt(s: string, m: nat)
  {
    m + 7 <= |s|
    && (forall j :: 0 <= j < 6 ==> FoldsTo(s[m + j], TagName[j]))
    && s[m + 6] == '>'
  }

  lemma TagAtNoColon(s: string, m: nat)
    requires TagAt(s, m)
    ensures s[m] != ':'
  {
    assert FoldsTo(s[m], TagName[0]);
  }

  predicate ColonFree(s: string, a: nat, b: nat)
    requires a <= b <= |s|
  {
    forall x :: a <= x < b ==> s[x] != ':'
  }

  /** `[^:]*:?XAddrs>` matches `s[m..e]`. */
  ghost predicate TagRun(s: string, m: nat, e: nat)
  {
    m + 7 <= e <= |s| && TagAt(s, e - 7)
    && (ColonFree(s, m, e - 7) || (m + 8 <= e && s[e - 8] == ':' && ColonFree(s, m, e - 8)))
  }

  /** An opening tag `<[^:]*:?XAddrs>` spans `s[i..c]`. */
  ghost predicate Opening(s: string, i: nat, c: nat)
  {
    i < |s| && s[i] == '<' && TagRun(s, i + 1, c)
  }

  /** `[^:]*:?XAddrs>` matches somewhere from `m` on. */
  ghost predicate TagRunAt(s: string, m: nat)
  {
    exists e: nat :: TagRun(s, m, e)
  }

  /** A closing tag `</[^:]*:?XAddrs>` starts at `k`. */
  ghost predicate Closing(s: string, k: nat)
  {
    k + 2 <= |s| && s[k] == '<' && s[k + 1] == '/' && TagRunAt(s, k + 2)
  }

  /** The whole pattern matches with an opening tag at `i`, the captured
      content `s[c..k]` and a closing tag at `k`. */
  ghost predicate Matches(s: string, i: nat, c: nat, k: nat)
  {
    Opening(s, i, c) && c <= k && Closing(s, k)
  }

  /** The positions of one match: the `<` that opens it and the captured group. */
  datatype Found = Found(open: nat, start: nat, end: nat)

  /** Whether `[^:]*:?XAddrs>` can match from `m`, trying the longest run of
      non-colons first as the matcher does. */
  predicate TagRunFrom(s: string, m: nat)
    decreases |s| - m
  {
    m <= |s|
    && (TagAt(s, m)
        || (m < |s| && s[m] == ':' && TagAt(s, m + 1))
        || (m < |s| && s[m] != ':' && TagRunFrom(s, m + 1)))
  }

  /** One step of a run: it ends here, takes the colon here, or goes on. */
  lemma TagRunStep(s: string, m: nat, e: nat)
    requires m < |s|
    ensures TagRun(s, m, e) <==>
      (e == m + 7 && TagAt(s, m))
      || (e == m + 8 && s[m] == ':' && TagAt(s, m + 1))
      || (s[m] != ':' && TagRun(s, m + 1, e))
  {
    if TagRun(s, m, e) && e != m + 7 && !(e == m + 8 && s[m] == ':' && TagAt(s, m + 1)) {
      if !ColonFree(s, m, e - 7) {
        assert e - 8 != m;
      }
    }
  }

  lemma {:induction false} TagRunFromCorrect(s: string, m: nat)
    requires m <= |s|
    ensures TagRunFrom(s, m) <==> TagRunAt(s, m)
    decreases |s| - m
  {
    if m < |s| {
      TagRunFromCorrect(s, m + 1);
    }
    if TagRunFrom(s, m) {
      if TagAt(s, m) {
        TagRunStep(s, m, m + 7);
      } else if m < |s| && s[m] == ':' && TagAt(s, m + 1) {
        TagRunStep(s, m, m + 8);
      } else {
        var e: nat :| TagRun(s, m + 1, e);
        TagRunStep(s, m, e);
      }
    } else if m < |s| {
      forall e: nat ensures !TagRun(s, m, e) {
        TagRunStep(s, m, e);
      }
    }
  }

  /** The lazy `(.*?)`: the first position from `c` on where a closing tag
      matches. */
  function FirstClose(s: string, c: nat): (r: Option<nat>)
    requires c <= |s|
    ensures r.Some? ==> c <= r.value && Closing(s, r.value)
    ensures r.Some? ==> forall k: nat :: c <= k < r.value ==> !Closing(s, k)
    ensures r.None? ==> forall k: nat :: c <= k ==> !Closing(s, k)
    decreases |s| - c
  {
    if c + 2 > |s| then None
    else
      TagRunFromCorrect(s, c + 2);
      if s[c] == '<' && s[c + 1] == '/' && TagRunFrom(s, c + 2) then Some(c)
      else FirstClose(s, c + 1)
  }

  /** The opening tag's run of non-colons from `m`, tried longest first: the
      greatest content start reachable from `m` that has a closing tag after
      it, with the first such closing tag. */
  function OpenFrom(s: string, m: nat): (r: Option<(nat, nat)>)
    requires m <= |s|
    ensures r.Some? ==> r.value.0 <= r.value.1 <= |s|
    decreases |s| - m
  {
    if m == |s| then None
    else if s[m] == ':' then
      if TagAt(s, m + 1) then
        match FirstClose(s, m + 8)
        case Some(k) => Some((m + 8, k))
        case None => None
      else None
    else
      match OpenFrom(s, m + 1)
      case Some(found) => Some(found)
      case None =>
        if TagAt(s, m) then
          match FirstClose(s, m + 7)
          case Some(k) => Some((m + 7, k))
          case None => None
        else None
  }

  lemma {:induction false} OpenFromCorrect(s: string, m: nat)
    requires m <= |s|
    ensures OpenFrom(s, m).Some? ==>
      var (c, k) := OpenFrom(s, m).value;
      TagRun(s, m, c) && FirstClose(s, c) == Some(k)
      && forall c': nat :: TagRun(s, m, c') && FirstClose(s, c').Some? ==> c' <= c
    ensures OpenFrom(s, m).None? ==>
      forall c': nat :: TagRun(s, m, c') ==> FirstClose(s, c').None?
    decreases |s| - m
  {
    if m < |s| {
      forall c': nat ensures TagRun(s, m, c') <==>
        (c' == m + 7 && TagAt(s, m))
        || (c' == m + 8 && s[m] == ':' && TagAt(s, m + 1))
        || (s[m] != ':' && TagRun(s, m + 1, c'))
      {
        TagRunStep(s, m, c');
      }
      if s[m] != ':' {
        OpenFromCorrect(s, m + 1);
      } else if TagAt(s, m) {
        TagAtNoColon(s, m);
      }
    }
  }

  /** `re.search`: the leftmost position from `i` on where the pattern matches. */
  function SearchFrom(s: string, i: nat): (r: Option<Found>)
    requires i <= |s|
    ensures r.Some? ==> r.value.start <= r.value.end <= |s|
    decreases |s| - i
  {
    if i == |s| then None
    else if s[i] == '<' && OpenFrom(s, i + 1).Some? then
      var (c, k) := OpenFrom(s, i + 1).value;
      Some(Found(i, c, k))
    else SearchFrom(s, i + 1)
  }

  /** The match Python reports, if any. */
  function FindXAddrs(s: string): (r: Option<Found>)
    ensures r.Some? ==> r.value.start <= r.value.end <= |s|
  {
    SearchFrom(s, 0)
  }

  /** The matches whose `<` is at `i`: none unless `OpenFrom` finds one,
      and then the one it finds has the greatest content start and, for that
      start, the first closing tag. */
  lemma MatchAt(s: string, i: nat)
    requires i < |s|
    ensures !(s[i] == '<' && OpenFrom(s, i + 1).Some?) ==> forall c: nat, k: nat :: !Matches(s, i, c, k)
    ensures s[i] == '<' && OpenFrom(s, i + 1).Some? ==>
      var (c, k) := OpenFrom(s, i + 1).value;
      Matches(s, i, c, k)
      && (forall c': nat, k': nat :: Matches(s, i, c', k') ==> c' <= c)
      && (forall k': nat :: Matches(s, i, c, k') ==> k <= k')
  {
    if s[i] == '<' {
      OpenFromCorrect(s, i + 1);
      if OpenFrom(s, i + 1).Some? {
        var (c, k) := OpenFrom(s, i + 1).value;
        forall c': nat, k': nat | Matches(s, i, c', k') ensures c' <= c {
          assert FirstClose(s, c').Some?;
        }
      }
    }
  }

  lemma {:induction false} SearchFromCorrect(s: string, i: nat)
    requires i <= |s|
    ensures SearchFrom(s, i).None? ==> forall i': nat, c: nat, k: nat :: i <= i' ==> !Matches(s, i', c, k)
    ensures SearchFrom(s, i).Some? ==>
      var f := SearchFrom(s, i).value;
      i <= f.open && Matches(s, f.open, f.start, f.end)
      && (forall i': nat, c: nat, k: nat :: i <= i' < f.open ==> !Matches(s, i', c, k))
      && (forall c: nat, k: nat :: Matches(s, f.open, c, k) ==> c <= f.start)
      && (forall k: nat :: Matches(s, f.open, f.start, k) ==> f.end <= k)
    decreases |s| - i
  {
    if i < |s| {
      SearchFromCorrect(s, i + 1);
      MatchAt(s, i);
    }
  }

  /** What Python's `re.search` finds: the match whose `<` is leftmost; of
      the matches there the one whose opening tag is longest (the greedy
      `[^:]*`); of those the one with the shortest content (the lazy `.*?`).
      With no match anywhere it finds nothing. */
  lemma FindXAddrsIsFirstMatch(s: string)
    ensures FindXAddrs(s).None? <==> forall i: nat, c: nat, k: nat :: !Matches(s, i, c, k)
    ensures FindXAddrs(s).Some? ==>
      var f := FindXAddrs(s).value;
      Matches(s, f.open, f.start, f.end)
      && (forall i: nat, c: nat, k: nat :: i < f.open ==> !Matches(s, i, c, k))
      && (forall c: nat, k: nat :: Matches(s, f.open, c, k) ==> c <= f.start)
      && (forall k: nat :: Matches(s, f.open, f.start, k) ==> f.end <= k)
  {
    SearchFromCorrect(s, 0);
  }

  /** `_extract_xaddrs`: the whitespace-separated tokens of the content that
      `re.search` captures (see `FindXAddrsIsFirstMatch`: the leftmost `<`
      that opens a match, the longest opening tag there, then the shortest
      content), or none when the pattern matches nowhere. */
  function ExtractXAddrs(payload: string): (uris: seq<string>)
    ensures forall k :: 0 <= k < |uris| ==> uris[k] != [] && NoSpace(uris[k])
  {
    match FindXAddrs(payload)
    case None => []
    case Some(f) =>
      SplitWsTokens(payload[f.start..f.end]);
      SplitWs(payload[f.start..f.end])
  }

  /** The tokens are the content of the element the matcher found, with its
      whitespace taken out; without an element there are none. */
  lemma ExtractXAddrsContent(payload: string)
    ensures FindXAddrs(payload).None? ==> ExtractXAddrs(payload) == []
    ensures FindXAddrs(payload).Some? ==>
      var f := FindXAddrs(payload).value;
      Concat(ExtractXAddrs(payload)) == Squeeze(payload[f.start..f.end])
  {
    match FindXAddrs(payload)
    case None =>
    case Some(f) => SplitWsTokens(payload[f.start..f.end]);
  }

  /** The URIs are exactly the whitespace-separated pieces of the captured
      content: when that content is the tokens interleaved with runs of
      whitespace, those tokens are returned, in order. */
  lemma ExtractXAddrsTokens(payload: string, gaps: seq<string>, tokens: seq<string>)
    requires FindXAddrs(payload).Some?
    requires |gaps| == |tokens| + 1
    requires payload[FindXAddrs(payload).value.start..FindXAddrs(payload).value.end] == Interleave(gaps, tokens)
    requires forall k :: 0 <= k < |gaps| ==> AllSpace(gaps[k])
    requires forall k :: 0 < k < |tokens| ==> gaps[k] != []
    requires forall k :: 0 <= k < |tokens| ==> tokens[k] != [] && NoSpace(tokens[k])
    ensures ExtractXAddrs(payload) == tokens
  {
    SplitWsInterleave(gaps, tokens);
  }

  /** A payload without any `<` holds no XAddrs element. */
  lemma {:induction false} NoTagNoXAddrs(payload: string)
    requires forall i :: 0 <= i < |payload| ==> payload[i] != '<'
    ensures ExtractXAddrs(payload) == []
  {
    FindXAddrsIsFirstMatch(payload);
  }

  // ---------------------------------------------------------------------
  // The host of an XAddr
  // ---------------------------------------------------------------------

  /** A character `[^:/]` matches. */
  predicate HostChar(c: char)
  {
    c != ':' && c != '/'
  }

  /** `http://([^:/]+)` can start at `p`: the scheme, case-sensitively, then
      at least one host character. */
  predicate HostStart(x: string, p: nat)
  {
    HttpAt(x, p) && p + 7 < |x| && HostChar(x[p + 7])
  }

  /** `http://` starts at `p`. */
  predicate HttpAt(x: string, p: nat)
  {
    p + 7 <= |x| && x[p..p + 7] == "http://"
  }

  /** The leftmost `p` from `from` on where `http://([^:/]+)` matches. */
  function FirstHostStart(x: string, from: nat): (r: Option<nat>)
    ensures r.Some? ==> from <= r.value && HostStart(x, r.value)
    ensures r.Some? ==> forall q: nat :: from <= q < r.value ==> !HostStart(x, q)
    ensures r.None? ==> forall q: nat :: from <= q ==> !HostStart(x, q)
    decreases |x| - from
  {
    if from + 7 >= |x| then None
    else if HostStart(x, from) then Some(from)
    else FirstHostStart(x, from + 1)
  }

  /** Length of the run of host characters at the head of `s`: the greedy `+`. */
  function HostLength(s: string): (n: nat)
    ensures n <= |s|
    ensures forall j :: 0 <= j < n ==> HostChar(s[j])
    ensures n < |s| ==> !HostChar(s[n])
    decreases |s|
  {
    if s == [] || !HostChar(s[0]) then 0 else 1 + HostLength(s[1..])
  }

  /** The captured host of `re.search(r'http://([^:/]+)', x)`, if it matches. */
  function HostOf(x: string): (h: Option<string>)
    ensures h.Some? ==> h.value != [] && forall j :: 0 <= j < |h.value| ==> HostChar(h.value[j])
  {
    match FirstHostStart(x, 0)
    case None => None
    case Some(p) => Some(x[p + 7..][..HostLength(x[p + 7..])])
  }

  /** The host is the longest run of characters other than `:` and `/` right
      after the first `http://` that is followed by one; it is preceded by
      `http://` in the URI and ends at the URI's end or before `:` or `/`. */
  lemma HostOfMatch(x: string)
    ensures HostOf(x).None? <==> forall p: nat :: !HostStart(x, p)
    ensures HostOf(x).Some? ==>
      exists p: nat :: HostStart(x, p) && (forall q: nat :: q < p ==> !HostStart(x, q))
        && var h := HostOf(x).value;
           p + 7 + |h| <= |x| && x[p + 7..p + 7 + |h|] == h
           && (p + 7 + |h| == |x| || !HostChar(x[p + 7 + |h|]))
  {
    match FirstHostStart(x, 0)
    case None =>
    case Some(p) =>
      var h := HostOf(x).value;
      assert x[p + 7..p + 7 + |h|] == h;
  }

  /** An XAddr with no `http://` in it (an `https://` one, say) names no host. */
  lemma NoHttpNoHost(x: string)
    requires forall p: nat :: !HttpAt(x, p)
    ensures HostOf(x) == None
  {
    HostOfMatch(x);
  }
}
