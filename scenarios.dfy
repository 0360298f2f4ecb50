/**
 * Worked inputs: the hop lines of the parser's documented example output,
 * a timeout marker taken as a hostname, and the laws that let such inputs
 * be evaluated (a spaced line tokenises to its words, a dotted quad is an
 * address, a plain decimal is kept as it is).
 */
module Scenarios {
  import opened Wrappers
  import opened Text
  import opened Fields
  import opened Trace

  // ---------------------------------------------------------------------
  // Lines written as words separated by runs of whitespace
  // ---------------------------------------------------------------------

  /** The words, each followed by its gap of whitespace. */
  function Laid(words: seq<string>, gaps: seq<string>): string
    requires |gaps| == |words|
  {
    if words == [] then [] else words[0] + (gaps[0] + Laid(words[1..], gaps[1..]))
  }

  /** Every gap is whitespace, and every gap but the last is not empty. */
  predicate Separates(gaps: seq<string>) {
    forall k :: 0 <= k < |gaps| ==> IsBlank(gaps[k]) && (k + 1 < |gaps| ==> gaps[k] != [])
  }

  lemma {:induction false} TokensOfLaidWords(words: seq<string>, gaps: seq<string>)
    requires |gaps| == |words| && Separates(gaps)
    requires forall k :: 0 <= k < |words| ==> IsWord(words[k])
    ensures Tokens(Laid(words, gaps)) == words
  {
    if words != [] {
      var w, g, rest := words[0], gaps[0], Laid(words[1..], gaps[1..]);
      assert Separates(gaps[1..]) by {
        forall k | 0 <= k < |gaps[1..]|
          ensures IsBlank(gaps[1..][k]) && (k + 1 < |gaps[1..]| ==> gaps[1..][k] != [])
        {
          assert gaps[1..][k] == gaps[k + 1];
        }
      }
      assert Tokens(rest) == words[1..] by {
        TokensOfLaidWords(words[1..], gaps[1..]);
      }
      if g == [] {
        assert |words| == 1 && rest == [];
        assert w + (g + rest) == w;
        TokensOfWord(w, []);
        assert w + [] == w;
      } else {
        assert IsSpace((g + rest)[0]);
        TokensOfWord(w, g + rest);
        TokensSkipBlank(g, rest);
      }
      assert words == [w] + words[1..];
    }
  }

  /** A line of words with any whitespace before, between and after them
      splits into exactly those words. */
  lemma TokensOfLaid(lead: string, words: seq<string>, gaps: seq<string>)
    requires IsBlank(lead) && |gaps| == |words| && Separates(gaps)
    requires forall k :: 0 <= k < |words| ==> IsWord(words[k])
    ensures Tokens(lead + Laid(words, gaps)) == words
  {
    TokensSkipBlank(lead, Laid(words, gaps));
    TokensOfLaidWords(words, gaps);
  }

  // ---------------------------------------------------------------------
  // Addresses and decimals
  // ---------------------------------------------------------------------

  predicate IsOctetText(g: string) {
    1 <= |g| <= 3 && AllDigits(g)
  }

  lemma {:induction false} DigitRunIs(s: string, i: nat, n: nat)
    requires i + n <= |s|
    requires forall k :: i <= k < i + n ==> IsDigit(s[k])
    requires i + n == |s| || !IsDigit(s[i + n])
    ensures DigitRun(s, i) == n
    decreases n
  {
    if n > 0 {
      DigitRunIs(s, i + 1, n - 1);
    }
  }

  /** A group of digits followed by a '.' and a text on which the scan goes on. */
  lemma GroupThenDot(g: string, rest: string, dots: nat)
    requires IsOctetText(g) && dots > 0
    requires GroupsFrom(rest, 0, dots - 1)
    ensures GroupsFrom(g + "." + rest, 0, dots)
  {
    var s := g + "." + rest;
    DigitRunIs(s, 0, |g|);
    assert s[|g| + 1..] == rest;
    GroupsFromShift(s, |g| + 1, dots - 1);
  }

  /** The scan from position i depends only on what follows i. */
  lemma {:induction false} GroupsFromShift(s: string, i: nat, dots: nat)
    requires i <= |s|
    ensures GroupsFrom(s, i, dots) == GroupsFrom(s[i..], 0, dots)
    decreases dots
  {
    var t, n := s[i..], DigitRun(s, i);
    assert DigitRun(t, 0) == n by {
      DigitRunShift(s, i, 0);
    }
    if dots > 0 && 1 <= n <= 3 && i + n < |s| {
      assert t[n] == s[i + n] && t[n + 1..] == s[i + n + 1..];
      assert GroupsFrom(s, i + n + 1, dots - 1) == GroupsFrom(s[i + n + 1..], 0, dots - 1) by {
        GroupsFromShift(s, i + n + 1, dots - 1);
      }
      assert GroupsFrom(t, n + 1, dots - 1) == GroupsFrom(t[n + 1..], 0, dots - 1) by {
        GroupsFromShift(t, n + 1, dots - 1);
      }
    }
  }

  lemma {:induction false} DigitRunShift(s: string, i: nat, j: nat)
    requires i + j <= |s|
    ensures DigitRun(s, i + j) == DigitRun(s[i..], j)
    decreases |s| - (i + j)
  {
    if i + j < |s| {
      DigitRunShift(s, i, j + 1);
    }
  }

  /** A dotted quad in text form, a.b.c.d. */
  function Quad(a: string, b: string, c: string, d: string): string {
    a + "." + (b + "." + (c + "." + d))
  }

  /** Four groups of one to three digits joined by dots begin with an IPv4 shape. */
  lemma DottedQuadMatches(a: string, b: string, c: string, d: string)
    requires IsOctetText(a) && IsOctetText(b) && IsOctetText(c) && IsOctetText(d)
    ensures MatchesIPv4Prefix(Quad(a, b, c, d))
  {
    DigitRunIs(d, 0, |d|);
    GroupThenDot(c, d, 1);
    GroupThenDot(b, c + "." + d, 2);
    GroupThenDot(a, b + "." + (c + "." + d), 3);
  }

  /** strip("()") removes one pair of enclosing parentheses. */
  lemma StripParensWrapped(t: string)
    requires t != [] && t[0] !in {'(', ')'} && t[|t| - 1] !in {'(', ')'}
    ensures StripParens("(" + t + ")") == t
  {
    var w := "(" + t + ")";
    assert w[1..][0] == t[0];
    assert LeadCount(w, {'(', ')'}) == 1;
    assert w[..|w| - 1][|w| - 2] == t[|t| - 1];
    assert TrailCount(w, {'(', ')'}) == 1;
    assert w[1..|w| - 1] == t;
  }

  /** A token that starts with neither a digit nor a parenthesis is no address. */
  lemma NotAddress(t: string)
    requires t != [] && !IsDigit(t[0]) && t[0] !in {'(', ')'}
    ensures !IsAddress(t)
  {
    var cs := {'(', ')'};
    assert LeadCount(t, cs) == 0;
    var r := StripParens(t);
    assert r != [] && r[0] == t[0];
  }

  /** A bare dotted quad is an address and strips to itself. */
  lemma QuadIsAddress(a: string, b: string, c: string, d: string)
    requires IsOctetText(a) && IsOctetText(b) && IsOctetText(c) && IsOctetText(d)
    ensures StripParens(Quad(a, b, c, d)) == Quad(a, b, c, d)
    ensures IsAddress(Quad(a, b, c, d))
  {
    var q := Quad(a, b, c, d);
    assert q[0] == a[0] && q[|q| - 1] == d[|d| - 1];
    StripSetUnchanged(q, {'(', ')'});
    DottedQuadMatches(a, b, c, d);
  }

  /** A parenthesised dotted quad is an address and strips to the bare quad. */
  lemma WrappedQuadIsAddress(a: string, b: string, c: string, d: string)
    requires IsOctetText(a) && IsOctetText(b) && IsOctetText(c) && IsOctetText(d)
    ensures StripParens("(" + Quad(a, b, c, d) + ")") == Quad(a, b, c, d)
    ensures IsAddress("(" + Quad(a, b, c, d) + ")")
  {
    var q := Quad(a, b, c, d);
    assert q[0] == a[0] && q[|q| - 1] == d[|d| - 1];
    StripParensWrapped(q);
    DottedQuadMatches(a, b, c, d);
  }

  /** A timing token as tracers print it: a digit first, then digits and at most one point. */
  predicate IsPlainDecimal(t: string) {
    t != [] && IsDigit(t[0]) && (forall i :: 0 <= i < |t| ==> IsDigitOrDot(t[i])) && Count(t, '.') <= 1
  }

  /** Each group but the last of an IPv4 shape is followed by a '.'. */
  lemma {:induction false} GroupsFromDots(s: string, i: nat, dots: nat)
    requires i <= |s| && GroupsFrom(s, i, dots)
    ensures Count(s[i..], '.') >= dots
    decreases dots
  {
    if dots > 0 {
      var n, u := DigitRun(s, i), s[i..];
      GroupsFromDots(s, i + n + 1, dots - 1);
      CountSplit(u, n + 1, '.');
      assert u[n + 1..] == s[i + n + 1..];
      assert u[..n + 1][n] == '.';
      CountNone(u[..n + 1], '.');
    }
  }

  /** A plain decimal has too few points to be an address. */
  lemma PlainDecimalNotAddress(t: string)
    requires IsPlainDecimal(t)
    ensures !IsAddress(t)
  {
    assert IsDigitOrDot(t[|t| - 1]);
    StripSetUnchanged(t, {'(', ')'});
    assert t[0..] == t;
    if MatchesIPv4Prefix(t) {
      GroupsFromDots(t, 0, 3);
    }
  }

  /** A plain decimal is recorded as it is. */
  lemma PlainDecimalKept(t: string)
    requires IsPlainDecimal(t)
    ensures RttOf(t) == Some(t)
  {
    KeepAccepted(t, IsDigitOrDot);
  }

  /** Tokens with the unit or a comparison sign attached keep only their
      number: "<1", as Windows tracers print a sub-millisecond time, and
      "1.2ms". */
  lemma AttachedUnitCleaned()
    ensures RttOf("<1") == Some("1")
    ensures RttOf("1.2ms") == Some("1.2")
  {
    assert !IsDigitOrDot('<') && !IsDigitOrDot('m') && !IsDigitOrDot('s');
    CleanAround("<", "1", "");
    assert "<" + ("1" + "") == "<1";
    CleanAround("", "1.2", "ms");
    assert "" + ("1.2" + "ms") == "1.2ms";
    assert IsDigit("1"[0]) && IsDigit("1.2"[0]);
    assert Count("1.2", '.') == 1;
  }

  /** A name as tracers print it before the address. */
  predicate IsHostName(w: string) {
    IsWord(w) && !IsDigit(w[0]) && w[0] !in {'(', ')'} && w != "ms"
  }

  // ---------------------------------------------------------------------
  // The three documented kinds of hop line
  // ---------------------------------------------------------------------

  /** Tokens that are not "ms" add no timing. */
  lemma {:induction false} RawRttsSkip(t: seq<string>, n: nat, m: nat)
    requires n <= m <= |t|
    requires forall i :: n <= i < m ==> t[i] != "ms"
    ensures RawRtts(t, m) == RawRtts(t, n)
    decreases m - n
  {
    if n < m {
      RawRttsSkip(t, n, m - 1);
    }
  }

  /** An "ms" token adds the timing of the token before it. */
  lemma RawRttsAtMs(t: seq<string>, n: nat)
    requires 0 < n < |t| && t[n] == "ms"
    ensures RawRtts(t, n + 1) == RawRtts(t, n) + [RttOf(t[n - 1])]
  {
  }

  lemma FirstMsAt(t: seq<string>, k: nat)
    requires k < |t| && t[k] == "ms"
    requires forall i :: 0 <= i < k ==> t[i] != "ms"
    ensures IndexOf(t, "ms") == Some(k)
  {
  }

  lemma HopNumberToken(n: int)
    ensures ParseInt(IntToString(n)) == Some(n)
    ensures IntToString(n) != "ms" && IntToString(n) != "*"
  {
    ParseIntToString(n);
    var s := IntToString(n);
    assert s[0] == '-' || IsDigit(s[0]);
  }

  /** A name followed by an address: the name is the hostname. */
  lemma NamedAddress(span: seq<string>)
    requires |span| == 2 && !IsAddress(span[0]) && IsAddress(span[1])
    ensures Identify(span) == Identity(Some(StripParens(span[1])), Some(span[0]))
  {
    FirstAddressAt(span, 1);
  }

  /** Three "value ms" pairs after the first `k` tokens. */
  lemma ThreeTimings(t: seq<string>, k: nat)
    requires |t| == k + 6
    requires forall i :: 0 <= i < k + 1 ==> t[i] != "ms"
    requires t[k + 1] == "ms" && t[k + 2] != "ms" && t[k + 3] == "ms" && t[k + 4] != "ms" && t[k + 5] == "ms"
    ensures RawRtts(t, |t|) == [RttOf(t[k]), RttOf(t[k + 2]), RttOf(t[k + 4])]
  {
    RawRttsSkip(t, 0, k + 1);
    RawRttsAtMs(t, k + 1);
    RawRttsSkip(t, k + 2, k + 3);
    RawRttsAtMs(t, k + 3);
    RawRttsSkip(t, k + 4, k + 5);
    RawRttsAtMs(t, k + 5);
  }

  /** The three plain decimals before the "ms" tokens are the RTTs. */
  lemma PlainTimings(t: seq<string>, k: nat, t1: string, t2: string, t3: string)
    requires IsPlainDecimal(t1) && IsPlainDecimal(t2) && IsPlainDecimal(t3)
    requires |t| == k + 6 && t[k] == t1 && t[k + 2] == t2 && t[k + 4] == t3
    requires t[k + 1] == "ms" && t[k + 3] == "ms" && t[k + 5] == "ms"
    requires forall i :: 0 <= i < k ==> t[i] != "ms"
    ensures Fit3(RawRtts(t, |t|)) == [Some(t1), Some(t2), Some(t3)]
  {
    assert IsDigit(t1[0]) && IsDigit(t2[0]) && IsDigit(t3[0]);
    ThreeTimings(t, k);
    PlainDecimalKept(t1);
    PlainDecimalKept(t2);
    PlainDecimalKept(t3);
  }

  /** A record assembled from its hop number, identity and timings. */
  lemma RecordFrom(t: seq<string>, n: int, id: Identity, rtt: seq<Option<string>>)
    requires t != [] && ParseInt(t[0]) == Some(n)
    requires Identify(IdentitySpan(t)) == id && Fit3(RawRtts(t, |t|)) == rtt
    ensures TokensRecord(t) == Some(Hop(n, id.ip, id.hostname, rtt))
  {
    RecordParts(t);
  }

  /** The usual hop line: a hop number, two identity tokens, then three
      timings each followed by "ms". The two tokens are the identity span. */
  lemma NineTokenSpan(t: seq<string>, x0: string, n: int, x1: string, x2: string,
                      t1: string, t2: string, t3: string)
    requires ParseInt(x0) == Some(n) && x1 != "ms" && x2 != "ms" && IsPlainDecimal(t1)
    requires t == [x0, x1, x2, t1, "ms", t2, "ms", t3, "ms"]
    ensures IdentitySpan(t) == [x1, x2]
  {
    assert x0 != "ms" && t1 != "ms" by {
      assert x0[0] != 'm' && IsDigit(t1[0]) && "ms"[0] == 'm';
    }
    FirstMsAt(t, 4);
  }

  /** The same line: its three timings are the RTTs. */
  lemma NineTokenTimings(t: seq<string>, x0: string, n: int, x1: string, x2: string,
                         t1: string, t2: string, t3: string)
    requires ParseInt(x0) == Some(n) && x1 != "ms" && x2 != "ms"
    requires IsPlainDecimal(t1) && IsPlainDecimal(t2) && IsPlainDecimal(t3)
    requires t == [x0, x1, x2, t1, "ms", t2, "ms", t3, "ms"]
    ensures Fit3(RawRtts(t, |t|)) == [Some(t1), Some(t2), Some(t3)]
  {
    assert x0 != "ms" by {
      assert x0[0] != 'm' && "ms"[0] == 'm';
    }
    assert |t| == 9 && t[3] == t1 && t[5] == t2 && t[7] == t3;
    assert t[4] == "ms" && t[6] == "ms" && t[8] == "ms";
    assert t[0] != "ms" && t[1] != "ms" && t[2] != "ms";
    PlainTimings(t, 3, t1, t2, t3);
  }

  /** `n  name (a.b.c.d)  t1 ms  t2 ms  t3 ms`: the name is the hostname, the
      bare quad the address, the three timings the RTTs. */
  lemma ResolvedHop(t: seq<string>, n: int, name: string, a: string, b: string, c: string, d: string,
                    t1: string, t2: string, t3: string)
    requires IsOctetText(a) && IsOctetText(b) && IsOctetText(c) && IsOctetText(d)
    requires IsHostName(name)
    requires IsPlainDecimal(t1) && IsPlainDecimal(t2) && IsPlainDecimal(t3)
    requires t == [IntToString(n), name, "(" + Quad(a, b, c, d) + ")", t1, "ms", t2, "ms", t3, "ms"]
    ensures TokensRecord(t) == Some(Hop(n, Some(Quad(a, b, c, d)), Some(name), [Some(t1), Some(t2), Some(t3)]))
  {
    var addr := "(" + Quad(a, b, c, d) + ")";
    assert addr[0] == '(' && "ms"[0] == 'm';
    HopNumberToken(n);
    NotAddress(name);
    WrappedQuadIsAddress(a, b, c, d);
    NamedAddress([name, addr]);
    NineTokenSpan(t, IntToString(n), n, name, addr, t1, t2, t3);
    NineTokenTimings(t, IntToString(n), n, name, addr, t1, t2, t3);
    RecordFrom(t, n, Identity(Some(Quad(a, b, c, d)), Some(name)), [Some(t1), Some(t2), Some(t3)]);
  }

  /** A line that splits into those tokens gives that record. */
  lemma ResolvedHopLine(line: string, n: int, name: string, a: string, b: string, c: string, d: string,
                        t1: string, t2: string, t3: string)
    requires IsOctetText(a) && IsOctetText(b) && IsOctetText(c) && IsOctetText(d)
    requires IsHostName(name)
    requires IsPlainDecimal(t1) && IsPlainDecimal(t2) && IsPlainDecimal(t3)
    requires Tokens(line) == [IntToString(n), name, "(" + Quad(a, b, c, d) + ")", t1, "ms", t2, "ms", t3, "ms"]
    ensures LineRecord(line) == Some(Hop(n, Some(Quad(a, b, c, d)), Some(name), [Some(t1), Some(t2), Some(t3)]))
  {
    ResolvedHop(Tokens(line), n, name, a, b, c, d, t1, t2, t3);
  }

  lemma WordAppend(x: string, y: string)
    requires IsWord(x) && IsWord(y)
    ensures IsWord(x + y)
  {
    forall i | 0 <= i < |x + y|
      ensures !IsSpace((x + y)[i])
    {
      if i < |x| { assert (x + y)[i] == x[i]; } else { assert (x + y)[i] == y[i - |x|]; }
    }
  }

  lemma DigitsAreWord(s: string)
    requires s != [] && AllDigits(s)
    ensures IsWord(s)
  {
    forall i | 0 <= i < |s|
      ensures !IsSpace(s[i])
    {
      assert IsDigit(s[i]);
    }
  }

  /** Every token printed on a resolved hop line is a word. */
  lemma ResolvedHopWords(n: int, name: string, a: string, b: string, c: string, d: string, t: string)
    requires IsOctetText(a) && IsOctetText(b) && IsOctetText(c) && IsOctetText(d)
    requires IsHostName(name) && IsPlainDecimal(t)
    ensures IsWord(IntToString(n)) && IsWord(name) && IsWord("(" + Quad(a, b, c, d) + ")")
    ensures IsWord(t) && IsWord("ms")
  {
    var dot := ".";
    assert IsWord(dot) && IsWord("(") && IsWord(")") && IsWord("ms") && IsWord("-");
    DigitsAreWord(a);
    DigitsAreWord(b);
    DigitsAreWord(c);
    DigitsAreWord(d);
    WordAppend(c, dot);
    WordAppend(c + dot, d);
    WordAppend(b, dot);
    WordAppend(b + dot, c + dot + d);
    WordAppend(a, dot);
    WordAppend(a + dot, b + dot + (c + dot + d));
    var q := Quad(a, b, c, d);
    WordAppend("(", q);
    WordAppend("(" + q, ")");
    if n < 0 {
      DigitsAreWord(NatToString(-n));
      WordAppend("-", NatToString(-n));
    } else {
      DigitsAreWord(NatToString(n));
    }
    forall i | 0 <= i < |t|
      ensures !IsSpace(t[i])
    {
      assert IsDigitOrDot(t[i]);
    }
  }

  lemma NineWords(words: seq<string>)
    requires |words| == 9
    requires IsWord(words[0]) && IsWord(words[1]) && IsWord(words[2])
    requires IsWord(words[3]) && IsWord(words[4]) && IsWord(words[5])
    requires IsWord(words[6]) && IsWord(words[7]) && IsWord(words[8])
    ensures forall k :: 0 <= k < |words| ==> IsWord(words[k])
  {
  }

  /** A resolved hop line as tracers print it, with any whitespace before,
      between and after its tokens, gives its record. */
  lemma ResolvedHopText(lead: string, gaps: seq<string>, n: int, name: string,
                        a: string, b: string, c: string, d: string,
                        t1: string, t2: string, t3: string)
    requires IsOctetText(a) && IsOctetText(b) && IsOctetText(c) && IsOctetText(d)
    requires IsHostName(name)
    requires IsPlainDecimal(t1) && IsPlainDecimal(t2) && IsPlainDecimal(t3)
    requires IsBlank(lead) && |gaps| == 9 && Separates(gaps)
    ensures LineRecord(lead + Laid([IntToString(n), name, "(" + Quad(a, b, c, d) + ")", t1, "ms", t2, "ms", t3, "ms"], gaps))
            == Some(Hop(n, Some(Quad(a, b, c, d)), Some(name), [Some(t1), Some(t2), Some(t3)]))
  {
    var words := [IntToString(n), name, "(" + Quad(a, b, c, d) + ")", t1, "ms", t2, "ms", t3, "ms"];
    ResolvedHopWords(n, name, a, b, c, d, t1);
    ResolvedHopWords(n, name, a, b, c, d, t2);
    ResolvedHopWords(n, name, a, b, c, d, t3);
    assert words[0] == IntToString(n) && words[1] == name && words[2] == "(" + Quad(a, b, c, d) + ")";
    assert words[3] == t1 && words[5] == t2 && words[7] == t3;
    assert words[4] == "ms" && words[6] == "ms" && words[8] == "ms";
    NineWords(words);
    TokensOfLaid(lead, words, gaps);
    ResolvedHopLine(lead + Laid(words, gaps), n, name, a, b, c, d, t1, t2, t3);
  }

  /** An address first in the span: it is the address and there is no hostname. */
  lemma AddressFirst(span: seq<string>)
    requires span != [] && IsAddress(span[0])
    ensures Identify(span) == Identity(Some(StripParens(span[0])), None)
  {
    FirstAddressAt(span, 0);
  }

  /** `n  a.b.c.d (a.b.c.d)  t1 ms  t2 ms  t3 ms`, the form of an unresolved
      hop: the bare quad is the address and there is no hostname. */
  lemma NumericHop(t: seq<string>, n: int, a: string, b: string, c: string, d: string,
                   t1: string, t2: string, t3: string)
    requires IsOctetText(a) && IsOctetText(b) && IsOctetText(c) && IsOctetText(d)
    requires IsPlainDecimal(t1) && IsPlainDecimal(t2) && IsPlainDecimal(t3)
    requires t == [IntToString(n), Quad(a, b, c, d), "(" + Quad(a, b, c, d) + ")", t1, "ms", t2, "ms", t3, "ms"]
    ensures TokensRecord(t) == Some(Hop(n, Some(Quad(a, b, c, d)), None, [Some(t1), Some(t2), Some(t3)]))
  {
    var q := Quad(a, b, c, d);
    var addr := "(" + q + ")";
    assert addr[0] == '(' && q[0] == a[0] && "ms"[0] == 'm';
    HopNumberToken(n);
    QuadIsAddress(a, b, c, d);
    AddressFirst([q, addr]);
    NineTokenSpan(t, IntToString(n), n, q, addr, t1, t2, t3);
    NineTokenTimings(t, IntToString(n), n, q, addr, t1, t2, t3);
    RecordFrom(t, n, Identity(Some(q), None), [Some(t1), Some(t2), Some(t3)]);
  }

  /** `n  * * *`, a hop that answered no probe: no address, no hostname, three timeouts. */
  lemma TimedOutHop(t: seq<string>, n: int)
    requires t == [IntToString(n), "*", "*", "*"]
    ensures TokensRecord(t) == Some(Hop(n, None, None, [None, None, None]))
  {
    HopNumberToken(n);
    assert "*"[0] != "ms"[0];
    assert "ms" !in t;
    var span := ["*", "*", "*"];
    assert IdentitySpan(t) == span;
    NotAddress("*");
    assert FirstAddress(span) == None;
    RawRttsSkip(t, 0, 4);
    RecordFrom(t, n, Identity(None, None), [None, None, None]);
  }

  /** A timeout marker just before the address is taken as the hostname. */
  lemma TimeoutAsHostname(t: seq<string>, n: int, a: string, b: string, c: string, d: string,
                          t1: string, t2: string, t3: string)
    requires IsOctetText(a) && IsOctetText(b) && IsOctetText(c) && IsOctetText(d)
    requires IsPlainDecimal(t1) && IsPlainDecimal(t2) && IsPlainDecimal(t3)
    requires t == [IntToString(n), "*", "(" + Quad(a, b, c, d) + ")", t1, "ms", t2, "ms", t3, "ms"]
    ensures TokensRecord(t) == Some(Hop(n, Some(Quad(a, b, c, d)), Some("*"), [Some(t1), Some(t2), Some(t3)]))
  {
    assert IsHostName("*");
    ResolvedHop(t, n, "*", a, b, c, d, t1, t2, t3);
  }

  /** The bare-address line: a hop number, one identity token, then three
      timings each followed by "ms". The one token is the identity span. */
  lemma EightTokenSpan(t: seq<string>, x0: string, n: int, x1: string,
                       t1: string, t2: string, t3: string)
    requires ParseInt(x0) == Some(n) && x1 != "ms" && IsPlainDecimal(t1)
    requires t == [x0, x1, t1, "ms", t2, "ms", t3, "ms"]
    ensures IdentitySpan(t) == [x1]
  {
    assert x0 != "ms" && t1 != "ms" by {
      assert x0[0] != 'm' && IsDigit(t1[0]) && "ms"[0] == 'm';
    }
    FirstMsAt(t, 3);
  }

  /** The same line: its three timings are the RTTs. */
  lemma EightTokenTimings(t: seq<string>, x0: string, n: int, x1: string,
                          t1: string, t2: string, t3: string)
    requires ParseInt(x0) == Some(n) && x1 != "ms"
    requires IsPlainDecimal(t1) && IsPlainDecimal(t2) && IsPlainDecimal(t3)
    requires t == [x0, x1, t1, "ms", t2, "ms", t3, "ms"]
    ensures Fit3(RawRtts(t, |t|)) == [Some(t1), Some(t2), Some(t3)]
  {
    assert x0 != "ms" by {
      assert x0[0] != 'm' && "ms"[0] == 'm';
    }
    assert |t| == 8 && t[2] == t1 && t[4] == t2 && t[6] == t3;
    assert t[3] == "ms" && t[5] == "ms" && t[7] == "ms";
    assert t[0] != "ms" && t[1] != "ms";
    PlainTimings(t, 2, t1, t2, t3);
  }

  /** `n  a.b.c.d  t1 ms  t2 ms  t3 ms`, a hop printed without a name: the
      quad is the address and there is no hostname. */
  lemma BareAddressHop(t: seq<string>, n: int, a: string, b: string, c: string, d: string,
                       t1: string, t2: string, t3: string)
    requires IsOctetText(a) && IsOctetText(b) && IsOctetText(c) && IsOctetText(d)
    requires IsPlainDecimal(t1) && IsPlainDecimal(t2) && IsPlainDecimal(t3)
    requires t == [IntToString(n), Quad(a, b, c, d), t1, "ms", t2, "ms", t3, "ms"]
    ensures TokensRecord(t) == Some(Hop(n, Some(Quad(a, b, c, d)), None, [Some(t1), Some(t2), Some(t3)]))
  {
    var q := Quad(a, b, c, d);
    assert q[0] == a[0] && "ms"[0] == 'm';
    HopNumberToken(n);
    QuadIsAddress(a, b, c, d);
    AddressFirst([q]);
    EightTokenSpan(t, IntToString(n), n, q, t1, t2, t3);
    EightTokenTimings(t, IntToString(n), n, q, t1, t2, t3);
    RecordFrom(t, n, Identity(Some(q), None), [Some(t1), Some(t2), Some(t3)]);
  }

  /** `n  t1 ms  * ms  t3 ms`: the first "ms" sits at index 2, so the span is
      every token after the hop number; none is an address, and the timeout
      marker before the second "ms" gives a missing RTT. */
  lemma MixedTimingsSpan(t: seq<string>, x0: string, n: int, t1: string, t3: string)
    requires ParseInt(x0) == Some(n) && IsPlainDecimal(t1) && IsPlainDecimal(t3)
    requires t == [x0, t1, "ms", "*", "ms", t3, "ms"]
    ensures Identify(IdentitySpan(t)) == Identity(None, None)
  {
    assert x0 != "ms" && t1 != "ms" by {
      assert x0[0] != 'm' && IsDigit(t1[0]) && "ms"[0] == 'm';
    }
    FirstMsAt(t, 2);
    var span := t[1..];
    assert IdentitySpan(t) == span;
    PlainDecimalNotAddress(t1);
    PlainDecimalNotAddress(t3);
    NotAddress("ms");
    NotAddress("*");
    assert |span| == 6 && span[0] == t1 && span[2] == "*" && span[4] == t3;
    assert span[1] == "ms" && span[3] == "ms" && span[5] == "ms";
    NoAddressInSix(span);
  }

  /** Six tokens none of which is address-shaped: the scan finds nothing. */
  lemma NoAddressInSix(span: seq<string>)
    requires |span| == 6
    requires !IsAddress(span[0]) && !IsAddress(span[1]) && !IsAddress(span[2])
    requires !IsAddress(span[3]) && !IsAddress(span[4]) && !IsAddress(span[5])
    ensures Identify(span) == Identity(None, None)
  {
    assert FirstAddressFrom(span, 6) == None;
    assert FirstAddressFrom(span, 5) == None;
    assert FirstAddressFrom(span, 4) == None;
    assert FirstAddressFrom(span, 3) == None;
    assert FirstAddressFrom(span, 2) == None;
    assert FirstAddressFrom(span, 1) == None;
    assert FirstAddress(span) == None;
  }

  lemma MixedTimingsRtts(t: seq<string>, x0: string, n: int, t1: string, t3: string)
    requires ParseInt(x0) == Some(n) && IsPlainDecimal(t1) && IsPlainDecimal(t3)
    requires t == [x0, t1, "ms", "*", "ms", t3, "ms"]
    ensures Fit3(RawRtts(t, |t|)) == [Some(t1), None, Some(t3)]
  {
    assert x0 != "ms" && t1 != "ms" && t3 != "ms" by {
      assert x0[0] != 'm' && IsDigit(t1[0]) && IsDigit(t3[0]) && "ms"[0] == 'm';
    }
    assert |t| == 7 && t[1] == t1 && t[3] == "*" && t[5] == t3;
    assert t[2] == "ms" && t[4] == "ms" && t[6] == "ms";
    assert t[0] != "ms" && t[3] != "ms" by {
      assert "*"[0] != "ms"[0];
    }
    ThreeTimings(t, 1);
    PlainDecimalKept(t1);
    PlainDecimalKept(t3);
  }

  lemma MixedTimingsHop(t: seq<string>, n: int, t1: string, t3: string)
    requires IsPlainDecimal(t1) && IsPlainDecimal(t3)
    requires t == [IntToString(n), t1, "ms", "*", "ms", t3, "ms"]
    ensures TokensRecord(t) == Some(Hop(n, None, None, [Some(t1), None, Some(t3)]))
  {
    HopNumberToken(n);
    MixedTimingsSpan(t, IntToString(n), n, t1, t3);
    MixedTimingsRtts(t, IntToString(n), n, t1, t3);
    RecordFrom(t, n, Identity(None, None), [Some(t1), None, Some(t3)]);
  }
}
