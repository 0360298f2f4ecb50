/**
 * The per-field logic of one traceroute hop line: round-trip-time tokens,
 * the IPv4-shaped address test, the identity span and the address/hostname
 * scan over it.
 */
module Fields {
  import opened Wrappers
  import opened Text

  // =====================================================================
  // Round-trip times
  // =====================================================================

  predicate IsDigitOrDot(c: char) {
    IsDigit(c) || c == '.'
  }

  /** re.sub(r'[^0-9.]', '', token) */
  function Clean(token: string): (r: string)
    ensures forall i :: 0 <= i < |r| ==> IsDigitOrDot(r[i])
  {
    Keep(token, IsDigitOrDot)
  }

  /** Cleaning keeps the digits and dots of a token and drops whatever
      surrounds them: "<1" gives "1", "1.2ms" gives "1.2". */
  lemma CleanAround(pre: string, t: string, post: string)
    requires forall i :: 0 <= i < |pre| ==> !IsDigitOrDot(pre[i])
    requires forall i :: 0 <= i < |t| ==> IsDigitOrDot(t[i])
    requires forall i :: 0 <= i < |post| ==> !IsDigitOrDot(post[i])
    ensures Clean(pre + (t + post)) == t
  {
    KeepAppend(pre, t + post, IsDigitOrDot);
    KeepAppend(t, post, IsDigitOrDot);
    KeepNone(pre, IsDigitOrDot);
    KeepAccepted(t, IsDigitOrDot);
    KeepNone(post, IsDigitOrDot);
  }

  function Count(s: string, c: char): nat {
    if s == [] then 0 else (if s[0] == c then 1 else 0) + Count(s[1..], c)
  }

  predicate HasDigit(s: string) {
    exists i :: 0 <= i < |s| && IsDigit(s[i])
  }

  /** The test `float(cleaned)` performs on a string of digits and dots:
      at least one digit and at most one decimal point. */
  predicate IsDecimal(s: string)
    ensures IsDecimal(s) ==> s != [] && Count(s, '.') < |s|
  {
    HasDigit(s) && Count(s, '.') <= 1
  }

  /** Python's float literal grammar on digits and dots:
      `digitpart`, `digitpart "." [digitpart]` or `"." digitpart`. */
  ghost predicate FloatLiteral(s: string) {
    (s != [] && AllDigits(s)) ||
    (|s| >= 2 && exists k :: 0 <= k < |s| && s[k] == '.' && AllDigits(s[..k]) && AllDigits(s[k + 1..]))
  }

  lemma {:induction false} CountNone(s: string, c: char)
    ensures Count(s, c) == 0 <==> c !in s
  {
    if s != [] {
      CountNone(s[1..], c);
      assert c in s <==> s[0] == c || c in s[1..];
    }
  }

  lemma {:induction false} CountSplit(s: string, k: nat, c: char)
    requires k <= |s|
    ensures Count(s, c) == Count(s[..k], c) + Count(s[k..], c)
  {
    if k > 0 {
      CountSplit(s[1..], k - 1, c);
      assert s[1..][..k - 1] == s[..k][1..];
      assert s[1..][k - 1..] == s[k..];
    }
  }

  lemma DigitPrefixHasNoDot(s: string, n: nat, j: nat)
    requires j < n <= |s| && AllDigits(s[..n])
    ensures s[j] != '.'
  {
    assert s[..n][j] == s[j];
  }

  /** On cleaned strings the digit-and-dot count test is exactly the float grammar. */
  lemma DecimalIsFloatLiteral(s: string)
    requires forall i :: 0 <= i < |s| ==> IsDigitOrDot(s[i])
    ensures IsDecimal(s) <==> FloatLiteral(s)
  {
    CountNone(s, '.');
    match IndexOf(s, '.')
    case None =>
      assert AllDigits(s);
      if s != [] { assert IsDigit(s[0]); }
    case Some(k) =>
      CountSplit(s, k, '.');
      CountNone(s[..k], '.');
      assert s[k..][1..] == s[k + 1..];
      CountNone(s[k + 1..], '.');
      assert AllDigits(s[..k]);
      if IsDecimal(s) {
        assert '.' !in s[k + 1..];
        assert AllDigits(s[k + 1..]);
        var i :| 0 <= i < |s| && IsDigit(s[i]);
        assert i != k;
      }
      if FloatLiteral(s) {
        assert !AllDigits(s);
        var k' :| 0 <= k' < |s| && s[k'] == '.' && AllDigits(s[..k']) && AllDigits(s[k' + 1..]);
        if k < k' {
          DigitPrefixHasNoDot(s, k', k);
          assert false;
        }
        assert '.' !in s[k + 1..];
        if k > 0 { assert IsDigit(s[0]); } else { assert IsDigit(s[1]); }
      }
  }

  /** The value recorded for the token just before an "ms" token: None for the
      timeout marker "*" and for tokens whose cleaned form float() rejects,
      otherwise the cleaned decimal string. */
  function RttOf(token: string): (r: Option<string>)
    ensures r.Some? ==> r.value == Clean(token) && r.value != []
  {
    if token == "*" then None
    else
      var cleaned := Clean(token);
      if IsDecimal(cleaned) then Some(cleaned) else None
  }

  /** An RTT is missing exactly when its token is "*" or its cleaned form is
      not a decimal literal float() accepts. */
  lemma RttOfMissing(token: string)
    ensures RttOf(token).None? <==> token == "*" || !FloatLiteral(Clean(token))
  {
    DecimalIsFloatLiteral(Clean(token));
  }

  /** The positions i < n, i > 0, that hold an "ms" token, in increasing order. */
  function MsIndices(tokens: seq<string>, n: nat): (ms: seq<nat>)
    requires n <= |tokens|
    ensures forall k :: 0 <= k < |ms| ==> 0 < ms[k] < n && tokens[ms[k]] == "ms"
    ensures forall a, b :: 0 <= a < b < |ms| ==> ms[a] < ms[b]
  {
    if n == 0 then []
    else MsIndices(tokens, n - 1) + (if n - 1 > 0 && tokens[n - 1] == "ms" then [n - 1] else [])
  }

  /** Every "ms" token after the first position below n is listed. */
  lemma {:induction false} MsIndicesComplete(tokens: seq<string>, n: nat)
    requires n <= |tokens|
    ensures forall i :: 0 < i < n && tokens[i] == "ms" ==> i in MsIndices(tokens, n)
  {
    if n > 0 {
      MsIndicesComplete(tokens, n - 1);
    }
  }

  /** The RTT values collected while scanning tokens[..n]: one per "ms" token
      that is not the first token, taken from the token before it. */
  function RawRtts(tokens: seq<string>, n: nat): (r: seq<Option<string>>)
    requires n <= |tokens|
    ensures |r| <= n
  {
    if n == 0 then []
    else RawRtts(tokens, n - 1) + (if n - 1 > 0 && tokens[n - 1] == "ms" then [RttOf(tokens[n - 2])] else [])
  }

  /** The k-th collected value belongs to the k-th "ms" token. */
  lemma {:induction false} RawRttsFollowMs(tokens: seq<string>, n: nat)
    requires n <= |tokens|
    ensures |RawRtts(tokens, n)| == |MsIndices(tokens, n)|
    ensures forall k :: 0 <= k < |RawRtts(tokens, n)| ==>
              RawRtts(tokens, n)[k] == RttOf(tokens[MsIndices(tokens, n)[k] - 1])
  {
    if n > 0 {
      RawRttsFollowMs(tokens, n - 1);
    }
  }

  /** Pad with None to length 3, then keep the first 3. */
  function Fit3<T>(xs: seq<Option<T>>): (r: seq<Option<T>>)
    ensures |r| == 3
    ensures forall k :: 0 <= k < 3 ==> r[k] == if k < |xs| then xs[k] else None
  {
    (xs + [None, None, None])[..3]
  }

  /** The RTT loop, the padding loop and the truncation of one hop line. */
  method CollectRtts(tokens: seq<string>) returns (rtts: seq<Option<string>>)
    ensures rtts == Fit3(RawRtts(tokens, |tokens|))
  {
    rtts := [];
    for i := 0 to |tokens|
      invariant rtts == RawRtts(tokens, i)
    {
      if tokens[i] == "ms" && i > 0 {
        var val := tokens[i - 1];
        if val == "*" {
          rtts := rtts + [None];
        } else {
          var cleaned := Clean(val);
          if IsDecimal(cleaned) {
            rtts := rtts + [Some(cleaned)];
          } else {
            rtts := rtts + [None];
          }
        }
      }
    }
    ghost var raw := rtts;
    while |rtts| < 3
      invariant |raw| <= |rtts| <= if |raw| < 3 then 3 else |raw|
      invariant rtts[..|raw|] == raw
      invariant forall k :: |raw| <= k < |rtts| ==> rtts[k] == None
      decreases 3 - |rtts|
    {
      rtts := rtts + [None];
    }
    rtts := rtts[..3];
  }

  // =====================================================================
  // The IPv4 shape: re.match(r'\d{1,3}(?:\.\d{1,3}){3}', s)
  // =====================================================================

  /** Length of the run of digits starting at position i. */
  function DigitRun(s: string, i: nat): (n: nat)
    requires i <= |s|
    ensures i + n <= |s|
    decreases |s| - i
  {
    if i < |s| && IsDigit(s[i]) then 1 + DigitRun(s, i + 1) else 0
  }

  /** The run is maximal: all digits, and no digit right after it. */
  lemma {:induction false} DigitRunIsMaximal(s: string, i: nat)
    requires i <= |s|
    ensures forall k :: i <= k < i + DigitRun(s, i) ==> IsDigit(s[k])
    ensures i + DigitRun(s, i) < |s| ==> !IsDigit(s[i + DigitRun(s, i)])
    decreases |s| - i
  {
    if i < |s| && IsDigit(s[i]) {
      DigitRunIsMaximal(s, i + 1);
    }
  }

  /** Scanning from i: a group of digits, then `dots` times a '.' and a group.
      Every group but the last is its whole digit run and is 1 to 3 long; the
      last needs only one digit, since the pattern is not anchored at the end. */
  predicate GroupsFrom(s: string, i: nat, dots: nat)
    requires i <= |s|
    decreases dots
  {
    var n := DigitRun(s, i);
    if dots == 0 then n >= 1
    else 1 <= n <= 3 && i + n < |s| && s[i + n] == '.' && GroupsFrom(s, i + n + 1, dots - 1)
  }

  /** Whether s begins with four dot-separated groups of 1 to 3 digits. */
  predicate MatchesIPv4Prefix(s: string)
    ensures MatchesIPv4Prefix(s) ==> |s| >= 7 && IsDigit(s[0])
  {
    GroupsFrom(s, 0, 3)
  }

  /** The regular expression read literally: `\d{1,3}` tries each repetition
      count 1, 2 or 3, followed by `dots` more repetitions of `\.\d{1,3}`. */
  ghost predicate PatternFrom(s: string, i: nat, dots: nat)
    decreases dots, 1
  {
    GroupThen(s, i, 1, dots) || GroupThen(s, i, 2, dots) || GroupThen(s, i, 3, dots)
  }

  ghost predicate GroupThen(s: string, i: nat, len: nat, dots: nat)
    decreases dots, 0
  {
    i + len <= |s| && (forall k :: i <= k < i + len ==> IsDigit(s[k])) &&
    (dots == 0 || (i + len < |s| && s[i + len] == '.' && PatternFrom(s, i + len + 1, dots - 1)))
  }

  lemma {:induction false} GroupsFromIsPattern(s: string, i: nat, dots: nat)
    requires i <= |s|
    ensures GroupsFrom(s, i, dots) <==> PatternFrom(s, i, dots)
    decreases dots
  {
    var n := DigitRun(s, i);
    DigitRunIsMaximal(s, i);
    if dots > 0 {
      if i + n < |s| && 1 <= n <= 3 {
        GroupsFromIsPattern(s, i + n + 1, dots - 1);
      }
      if PatternFrom(s, i, dots) {
        var len := if GroupThen(s, i, 1, dots) then 1 else if GroupThen(s, i, 2, dots) then 2 else 3;
        GroupThenIsRun(s, i, len, dots);
        GroupsFromIsPattern(s, i + n + 1, dots - 1);
      }
    } else {
      if n >= 1 { assert GroupThen(s, i, 1, 0); }
    }
  }

  /** A group followed by a '.' is the whole digit run. */
  lemma GroupThenIsRun(s: string, i: nat, len: nat, dots: nat)
    requires i <= |s| && dots > 0 && GroupThen(s, i, len, dots)
    ensures DigitRun(s, i) == len
  {
    DigitRunIsMaximal(s, i);
  }

  /** The scanning test and the regular expression accept the same strings. */
  lemma MatchesIPv4PrefixIsPattern(s: string)
    ensures MatchesIPv4Prefix(s) <==> PatternFrom(s, 0, 3)
  {
    GroupsFromIsPattern(s, 0, 3);
  }

  // =====================================================================
  // The identity span and the address/hostname scan
  // =====================================================================

  /** token.strip("()") */
  function StripParens(token: string): (r: string)
    ensures r == [] <==> forall i :: 0 <= i < |token| ==> token[i] in {'(', ')'}
    ensures r != [] ==> r[0] !in {'(', ')'} && r[|r| - 1] !in {'(', ')'}
  {
    StripSet(token, {'(', ')'})
  }

  /** A token whose paren-stripped form begins with an IPv4 shape. */
  predicate IsAddress(token: string)
    ensures IsAddress(token) ==> token != [] && StripParens(token) != [] && IsDigit(StripParens(token)[0])
  {
    MatchesIPv4Prefix(StripParens(token))
  }

  /** id_tokens: the tokens after the hop number up to, and not including, the
      token before the first "ms"; all of tokens[1:] when that "ms" sits at
      index 2 or lower or there is none. */
  function IdentitySpan(tokens: seq<string>): (span: seq<string>)
    requires tokens != []
    ensures "ms" !in tokens ==> span == tokens[1..]
    ensures forall k :: 0 <= k < |tokens| && tokens[k] == "ms" && "ms" !in tokens[..k] ==>
              span == if k >= 3 then tokens[1..k - 1] else tokens[1..]
  {
    var idEnd: int := match IndexOf(tokens, "ms")
      case Some(k) => k - 1
      case None => |tokens|;
    if idEnd > 1 then tokens[1..idEnd] else tokens[1..]
  }

  /** Position of the first address-shaped token at or after i. */
  function FirstAddressFrom(span: seq<string>, i: nat): (r: Option<nat>)
    requires i <= |span|
    ensures r.None? <==> forall j :: i <= j < |span| ==> !IsAddress(span[j])
    ensures r.Some? ==> i <= r.value < |span| && IsAddress(span[r.value]) &&
                        forall j :: i <= j < r.value ==> !IsAddress(span[j])
    decreases |span| - i
  {
    if i == |span| then None
    else if IsAddress(span[i]) then Some(i)
    else FirstAddressFrom(span, i + 1)
  }

  /** Position of the first address-shaped token. */
  function FirstAddress(span: seq<string>): Option<nat> {
    FirstAddressFrom(span, 0)
  }

  lemma FirstAddressAt(span: seq<string>, j: nat)
    requires j < |span| && IsAddress(span[j])
    requires forall i :: 0 <= i < j ==> !IsAddress(span[i])
    ensures FirstAddress(span) == Some(j)
  {
  }

  datatype Identity = Identity(ip: Option<string>, hostname: Option<string>)

  /** What the scan of the span finds: the stripped first address-shaped token
      as ip, and the raw token before it as hostname unless that one is
      address-shaped too. */
  function Identify(span: seq<string>): (id: Identity)
    ensures id.ip.None? <==> forall j :: 0 <= j < |span| ==> !IsAddress(span[j])
    ensures id.ip.None? ==> id.hostname.None?
  {
    match FirstAddress(span)
    case None => Identity(None, None)
    case Some(j) =>
      Identity(Some(StripParens(span[j])),
               if j > 0 && !IsAddress(span[j - 1]) then Some(span[j - 1]) else None)
  }

  /** When the first address of the span is at j, the scan reports it,
      stripped, as ip, and the raw token before it, if there is one, as
      hostname: that token precedes the first address, so the test that it
      is not address-shaped itself always passes. */
  lemma IdentifyAt(span: seq<string>, j: nat)
    requires j < |span| && IsAddress(span[j])
    requires forall i :: 0 <= i < j ==> !IsAddress(span[i])
    ensures Identify(span) == Identity(Some(StripParens(span[j])), if j > 0 then Some(span[j - 1]) else None)
  {
    FirstAddressAt(span, j);
  }

  /** The for/break loop over id_tokens. */
  method FindIdentity(span: seq<string>) returns (ip: Option<string>, hostname: Option<string>)
    ensures Identity(ip, hostname) == Identify(span)
  {
    ip, hostname := None, None;
    for j := 0 to |span|
      invariant ip.None? && hostname.None?
      invariant forall i :: 0 <= i < j ==> !IsAddress(span[i])
    {
      var candidate := StripParens(span[j]);
      if MatchesIPv4Prefix(candidate) {
        IdentifyAt(span, j);
        ip := Some(candidate);
        if j > 0 {
          var prev := StripParens(span[j - 1]);
          if !MatchesIPv4Prefix(prev) {
            hostname := Some(span[j - 1]);
          }
        }
        break;
      }
    }
  }

  /** The two clean-up steps after the scan: clear both fields of a timed-out
      hop, and drop a hostname that merely repeats the address. */
  function Reconcile(id: Identity, tokens: seq<string>): (r: Identity)
    ensures r.ip == id.ip
    ensures r.hostname == id.hostname || r.hostname.None?
    ensures id.ip.None? && "*" in tokens ==> r.hostname.None?
    ensures r.hostname.Some? && r.ip.Some? ==> StripParens(r.hostname.value) != r.ip.value
  {
    var id1 := if id.ip.None? && "*" in tokens then Identity(None, None) else id;
    if id1.hostname.Some? && id1.ip.Some? && StripParens(id1.hostname.value) == id1.ip.value
    then Identity(id1.ip, None)
    else id1
  }

  /** A hostname found by the scan never strips to the address, so neither
      clean-up step changes what the scan found. */
  lemma ReconcileChangesNothing(span: seq<string>, tokens: seq<string>)
    ensures Identify(span).hostname.Some? ==> StripParens(Identify(span).hostname.value) != Identify(span).ip.value
    ensures Reconcile(Identify(span), tokens) == Identify(span)
  {
    var j := FirstAddress(span);
    if j.Some? && Identify(span).hostname.Some? {
      assert IsAddress(span[j.value]);
      assert !IsAddress(span[j.value - 1]);
    }
  }
}
