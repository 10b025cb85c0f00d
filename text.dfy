/** The two forms of Python's `str.split` that the scanners rely on:
    `s.split(sep)` with a one-character separator (lines of command output,
    the parts of a CIDR string, the octets of an address) and `s.split()`
    with no argument (the URIs listed in an XAddrs element). */
module Text {

  /** `c.isspace()` in Python: the characters `str.split()` breaks on. */
  predicate IsSpace(c: char)
  {
    c == ' ' || ('\t' <= c <= '\r') || ('\U{1c}' <= c <= '\U{1f}')
    || c == '\U{85}' || c == '\U{a0}' || c == '\U{1680}'
    || ('\U{2000}' <= c <= '\U{200a}') || c == '\U{2028}' || c == '\U{2029}'
    || c == '\U{202f}' || c == '\U{205f}' || c == '\U{3000}'
  }

  /** An ASCII digit: `c.isascii() and c.isdigit()`, and what `\d` matches
      in the ASCII range. */
  predicate IsDigit(c: char)
  {
    '0' <= c <= '9'
  }

  predicate AllDigits(s: string)
  {
    forall i :: 0 <= i < |s| ==> IsDigit(s[i])
  }

  predicate NoSpace(s: string)
  {
    forall i :: 0 <= i < |s| ==> !IsSpace(s[i])
  }

  predicate Lacks(s: string, sep: char)
  {
    forall i :: 0 <= i < |s| ==> s[i] != sep
  }

  /** Python's `s.split(sep)`: always one more piece than there are
      separators, empty pieces included. */
  function SplitOn(s: string, sep: char): (r: seq<string>)
    ensures |r| >= 1
    decreases |s|
  {
    if s == [] then [[]]
    else
      var rest := SplitOn(s[1..], sep);
      if s[0] == sep then [[]] + rest
      else [[s[0]] + rest[0]] + rest[1..]
  }

  /** Python's `sep.join(parts)`. */
  function Join(parts: seq<string>, sep: char): string
    decreases |parts|
  {
    if parts == [] then []
    else if |parts| == 1 then parts[0]
    else parts[0] + [sep] + Join(parts[1..], sep)
  }

  /** No piece holds the separator, and joining the pieces gives `s` back. */
  lemma {:induction false} SplitOnJoin(s: string, sep: char)
    ensures forall k :: 0 <= k < |SplitOn(s, sep)| ==> Lacks(SplitOn(s, sep)[k], sep)
    ensures Join(SplitOn(s, sep), sep) == s
    decreases |s|
  {
    if s != [] {
      SplitOnJoin(s[1..], sep);
      var rest := SplitOn(s[1..], sep);
      assert s == [s[0]] + s[1..];
      if s[0] != sep {
        var r := SplitOn(s, sep);
        assert r[0] == [s[0]] + rest[0];
        assert r[1..] == rest[1..];
        forall k | 0 <= k < |r| ensures Lacks(r[k], sep) {
          if k > 0 {
            assert r[k] == rest[k];
          }
        }
        if |rest| > 1 {
          assert rest == [rest[0]] + rest[1..];
        }
      }
    }
  }

  /** The converse: splitting pieces that lack the separator, once joined,
      gives the pieces back. */
  lemma {:induction false} JoinSplitOn(parts: seq<string>, sep: char)
    requires |parts| >= 1
    requires forall k :: 0 <= k < |parts| ==> Lacks(parts[k], sep)
    ensures SplitOn(Join(parts, sep), sep) == parts
    decreases |parts|, |parts[0]|
  {
    var p := parts[0];
    if p == [] {
      if |parts| > 1 {
        JoinSplitOn(parts[1..], sep);
        assert Join(parts, sep) == [sep] + Join(parts[1..], sep);
        assert Join(parts, sep)[1..] == Join(parts[1..], sep);
        assert parts == [[]] + parts[1..];
      }
    } else {
      var parts' := [p[1..]] + parts[1..];
      forall k | 0 <= k < |parts'| ensures Lacks(parts'[k], sep) {
        if k > 0 {
          assert parts'[k] == parts[k];
        }
      }
      JoinSplitOn(parts', sep);
      var s := Join(parts, sep);
      assert s == [p[0]] + Join(parts', sep) by {
        if |parts| > 1 {
          assert parts'[1..] == parts[1..];
        }
      }
      assert s[1..] == Join(parts', sep);
      assert s[0] == p[0] != sep;
      assert p == [p[0]] + p[1..];
      assert parts'[0] == p[1..] && parts'[1..] == parts[1..];
      assert parts == [[p[0]] + p[1..]] + parts[1..];
    }
  }

  /** A string without the separator is one piece. */
  lemma {:induction false} SplitOnLacking(s: string, sep: char)
    requires Lacks(s, sep)
    ensures SplitOn(s, sep) == [s]
    decreases |s|
  {
    if s != [] {
      SplitOnLacking(s[1..], sep);
      assert s == [s[0]] + s[1..];
    }
  }

  /** A first piece without the separator, then the separator, then the
      rest: the first piece comes off on its own. */
  lemma {:induction false} SplitOnFirst(a: string, sep: char, rest: string)
    requires Lacks(a, sep)
    ensures SplitOn(a + [sep] + rest, sep) == [a] + SplitOn(rest, sep)
    decreases |a|
  {
    var s := a + [sep] + rest;
    if a == [] {
      assert s[1..] == rest;
    } else {
      SplitOnFirst(a[1..], sep, rest);
      assert s[1..] == a[1..] + [sep] + rest;
      assert a == [a[0]] + a[1..];
    }
  }

  /** Joining pieces that lack a character other than the separator gives
      a string that lacks it too. */
  lemma {:induction false} JoinLacks(parts: seq<string>, sep: char, c: char)
    requires c != sep
    requires forall k :: 0 <= k < |parts| ==> Lacks(parts[k], c)
    ensures Lacks(Join(parts, sep), c)
    decreases |parts|
  {
    if |parts| > 1 {
      JoinLacks(parts[1..], sep, c);
      assert forall k :: 0 <= k < |parts[1..]| ==> parts[1..][k] == parts[k + 1];
    }
  }

  /** With more than one piece, the text is the first piece, the separator,
      and a text that splits into the remaining pieces. */
  lemma SplitOnHead(x: string, sep: char)
    requires |SplitOn(x, sep)| >= 2
    ensures var parts := SplitOn(x, sep);
      x == parts[0] + [sep] + Join(parts[1..], sep)
      && SplitOn(Join(parts[1..], sep), sep) == parts[1..]
  {
    var parts := SplitOn(x, sep);
    SplitOnJoin(x, sep);
    assert forall k :: 0 <= k < |parts[1..]| ==> parts[1..][k] == parts[k + 1];
    JoinSplitOn(parts[1..], sep);
  }

  /** With one piece, the text is that piece. */
  lemma SplitOnSingle(x: string, sep: char)
    requires |SplitOn(x, sep)| == 1
    ensures SplitOn(x, sep)[0] == x
  {
    SplitOnJoin(x, sep);
  }

  /** Length of the run of non-space characters at the head of `s`. */
  function WordLength(s: string): (n: nat)
    ensures n <= |s|
    ensures NoSpace(s[..n])
    ensures n < |s| ==> IsSpace(s[n])
    decreases |s|
  {
    if s == [] || IsSpace(s[0]) then 0
    else
      assert s[..1 + WordLength(s[1..])] == [s[0]] + s[1..][..WordLength(s[1..])];
      1 + WordLength(s[1..])
  }

  /** Python's `s.split()`: the maximal runs of non-space characters. */
  function SplitWs(s: string): seq<string>
    decreases |s|
  {
    if s == [] then []
    else if IsSpace(s[0]) then SplitWs(s[1..])
    else
      var n := WordLength(s);
      [s[..n]] + SplitWs(s[n..])
  }

  /** `s` with every space character removed. */
  function Squeeze(s: string): string
    decreases |s|
  {
    if s == [] then []
    else if IsSpace(s[0]) then Squeeze(s[1..])
    else [s[0]] + Squeeze(s[1..])
  }

  function Concat(parts: seq<string>): string
    decreases |parts|
  {
    if parts == [] then [] else parts[0] + Concat(parts[1..])
  }

  lemma {:induction false} SqueezeNoSpace(s: string)
    requires NoSpace(s)
    ensures Squeeze(s) == s
    decreases |s|
  {
    if s != [] {
      SqueezeNoSpace(s[1..]);
      assert s == [s[0]] + s[1..];
    }
  }

  lemma {:induction false} SqueezeAppend(a: string, b: string)
    ensures Squeeze(a + b) == Squeeze(a) + Squeeze(b)
    decreases |a|
  {
    if a != [] {
      SqueezeAppend(a[1..], b);
      assert (a + b)[1..] == a[1..] + b;
    } else {
      assert a + b == b;
    }
  }

  /** Every token is non-empty and free of spaces, and the tokens, laid end
      to end, are exactly the non-space characters of `s` in order. */
  lemma {:induction false} SplitWsTokens(s: string)
    ensures forall k :: 0 <= k < |SplitWs(s)| ==> SplitWs(s)[k] != [] && NoSpace(SplitWs(s)[k])
    ensures Concat(SplitWs(s)) == Squeeze(s)
    decreases |s|
  {
    if s != [] {
      if IsSpace(s[0]) {
        SplitWsTokens(s[1..]);
      } else {
        var n := WordLength(s);
        SplitWsTokens(s[n..]);
        var r := SplitWs(s);
        assert r == [s[..n]] + SplitWs(s[n..]);
        forall k | 0 <= k < |r| ensures r[k] != [] && NoSpace(r[k]) {
          if k == 0 {
            assert s[..n][0] == s[0];
          } else {
            assert r[k] == SplitWs(s[n..])[k - 1];
          }
        }
        assert r[1..] == SplitWs(s[n..]);
        SqueezeNoSpace(s[..n]);
        SqueezeAppend(s[..n], s[n..]);
        assert s == s[..n] + s[n..];
      }
    }
  }

  /** A string made of spaces alone splits into nothing. */
  lemma {:induction false} SplitWsBlank(s: string)
    requires forall i :: 0 <= i < |s| ==> IsSpace(s[i])
    ensures SplitWs(s) == []
    decreases |s|
  {
    if s != [] {
      SplitWsBlank(s[1..]);
    }
  }

  predicate AllSpace(s: string)
  {
    forall i :: 0 <= i < |s| ==> IsSpace(s[i])
  }

  /** Leading whitespace is skipped. */
  lemma {:induction false} SplitWsSkip(w: string, s: string)
    requires AllSpace(w)
    ensures SplitWs(w + s) == SplitWs(s)
    decreases |w|
  {
    if w != [] {
      assert (w + s)[1..] == w[1..] + s;
      SplitWsSkip(w[1..], s);
    } else {
      assert w + s == s;
    }
  }

  /** A word that runs up to whitespace, or to the end, is one token. */
  lemma WordLengthOf(t: string, s: string)
    requires t != [] && NoSpace(t) && (s == [] || IsSpace(s[0]))
    ensures WordLength(t + s) == |t|
  {
    if s != [] {
      assert (t + s)[|t|] == s[0];
    }
  }

  lemma SplitWsWord(t: string, s: string)
    requires t != [] && NoSpace(t) && (s == [] || IsSpace(s[0]))
    ensures SplitWs(t + s) == [t] + SplitWs(s)
  {
    WordLengthOf(t, s);
    assert (t + s)[..|t|] == t && (t + s)[|t|..] == s;
  }

  /** `gaps[0] + tokens[0] + gaps[1] + ... + tokens[n-1] + gaps[n]`. */
  function Interleave(gaps: seq<string>, tokens: seq<string>): string
    requires |gaps| == |tokens| + 1
    decreases |tokens|
  {
    if tokens == [] then gaps[0]
    else gaps[0] + tokens[0] + Interleave(gaps[1..], tokens[1..])
  }

  /** An interleaving opens with its first gap, so it starts with whitespace
      or, when that gap is empty and no token follows, is empty. */
  lemma InterleaveHead(gaps: seq<string>, tokens: seq<string>)
    requires |gaps| == |tokens| + 1 && AllSpace(gaps[0])
    requires tokens != [] ==> gaps[0] != []
    ensures var s := Interleave(gaps, tokens); s == [] || IsSpace(s[0])
  {
    if tokens != [] {
      assert Interleave(gaps, tokens)[0] == gaps[0][0];
    }
  }

  /** `s.split()` undoes the interleaving of tokens with whitespace: given
      non-empty tokens without whitespace, separated by non-empty runs of
      whitespace and with any whitespace at either end, it returns exactly
      those tokens.  With `SplitWsTokens` this fixes where the tokens break:
      "a b" splits into ["a", "b"], never ["ab"]. */
  lemma {:induction false} SplitWsInterleave(gaps: seq<string>, tokens: seq<string>)
    requires |gaps| == |tokens| + 1
    requires forall k :: 0 <= k < |gaps| ==> AllSpace(gaps[k])
    requires forall k :: 0 < k < |tokens| ==> gaps[k] != []
    requires forall k :: 0 <= k < |tokens| ==> tokens[k] != [] && NoSpace(tokens[k])
    ensures SplitWs(Interleave(gaps, tokens)) == tokens
    decreases |tokens|
  {
    if tokens == [] {
      SplitWsBlank(gaps[0]);
    } else {
      var rest := Interleave(gaps[1..], tokens[1..]);
      assert forall k :: 0 <= k < |gaps[1..]| ==> gaps[1..][k] == gaps[k + 1];
      SplitWsInterleave(gaps[1..], tokens[1..]);
      InterleaveHead(gaps[1..], tokens[1..]);
      SplitWsSkip(gaps[0], tokens[0] + rest);
      SplitWsWord(tokens[0], rest);
      assert gaps[0] + tokens[0] + rest == gaps[0] + (tokens[0] + rest);
    }
  }

  /** Two words are two tokens, not one. */
  lemma SplitWsTwoWords()
    ensures SplitWs("a b") == ["a", "b"]
  {
    SplitWsInterleave(["", " ", ""], ["a", "b"]);
    assert Interleave(["", " ", ""], ["a", "b"]) == "a b";
  }
}
