/**
 * The traceroute text parser: one raw traceroute text block in, the ordered
 * list of hop records out.
 */
module Trace {
  import opened Wrappers
  import opened Text
  import opened Fields

  /** One parsed hop line: its number, the address and hostname found on it
      (None when absent), and exactly three round-trip times in milliseconds,
      each kept as its cleaned decimal string, None for a timeout. */
  datatype Hop = Hop(hop: int, ip: Option<string>, hostname: Option<string>, rtt: seq<Option<string>>)

  /** A line the parser turns into a record: not blank, and its first token is an integer. */
  predicate IsHopLine(line: string)
    ensures IsHopLine(line) ==> Tokens(line) != [] && (IsDigit(Tokens(line)[0][0]) || Tokens(line)[0][0] in {'+', '-'})
  {
    !IsBlank(line) && ParseInt(Tokens(line)[0]).Some?
  }

  /** The record built from the tokens of a non-blank line, or None when the
      first token is not an integer. */
  function TokensRecord(tokens: seq<string>): (r: Option<Hop>)
    requires tokens != []
    ensures r.Some? <==> ParseInt(tokens[0]).Some?
    ensures r.Some? ==> Some(r.value.hop) == ParseInt(tokens[0])
  {
    match ParseInt(tokens[0])
    case None => None
    case Some(hop) =>
      var id := Reconcile(Identify(IdentitySpan(tokens)), tokens);
      Some(Hop(hop, id.ip, id.hostname, Fit3(RawRtts(tokens, |tokens|))))
  }

  /** The record the loop body appends for one line after the header, or None
      where it takes a `continue`. */
  function LineRecord(line: string): (r: Option<Hop>)
    ensures r.Some? <==> IsHopLine(line)
  {
    if Strip(line) == [] then None else TokensRecord(Tokens(line))
  }

  /** The records of the lines of body, in line order. */
  function Records(body: seq<string>): (r: seq<Hop>)
    ensures |r| <= |body|
  {
    if body == [] then []
    else
      var last := body[|body| - 1];
      Records(body[..|body| - 1]) + (if IsHopLine(last) then [LineRecord(last).value] else [])
  }

  /** parse_traceroute: strip the text, split it into lines, drop the header
      line, and keep the records of the remaining lines. */
  function Parse(output: string): (r: seq<Hop>)
    ensures IsBlank(output) ==> r == []
    ensures r != [] ==> |r| < |SplitLines(Strip(output))|
  {
    var lines := SplitLines(Strip(output));
    if lines == [] then [] else Records(lines[1..])
  }

  // ---------------------------------------------------------------------
  // What one record holds
  // ---------------------------------------------------------------------

  /** The rtt field has exactly three entries: the values for the first three
      "ms" tokens, left to right, then None. */
  lemma RecordRtts(line: string)
    requires IsHopLine(line)
    ensures var tokens := Tokens(line);
            var ms := MsIndices(tokens, |tokens|);
            var h := LineRecord(line).value;
            |h.rtt| == 3 &&
            forall k :: 0 <= k < 3 ==> h.rtt[k] == if k < |ms| then RttOf(tokens[ms[k] - 1]) else None
  {
    var tokens := Tokens(line);
    RawRttsFollowMs(tokens, |tokens|);
  }

  /** The hop number is the integer value of the first token, the address
      and hostname are the ones the scan of the identity span finds, and the
      RTTs are the collected timings fitted to three. */
  lemma RecordIdentity(line: string)
    requires IsHopLine(line)
    ensures var tokens := Tokens(line);
            var h := LineRecord(line).value;
            Some(h.hop) == ParseInt(tokens[0]) &&
            Identity(h.ip, h.hostname) == Identify(IdentitySpan(tokens)) &&
            h.rtt == Fit3(RawRtts(tokens, |tokens|))
  {
    RecordParts(Tokens(line));
  }

  /** The record of a token list is put together from its hop number, the
      scan of its identity span and its collected timings; the later
      reconciliation steps change none of them. */
  lemma RecordParts(tokens: seq<string>)
    requires tokens != [] && ParseInt(tokens[0]).Some?
    ensures var id := Identify(IdentitySpan(tokens));
            TokensRecord(tokens) == Some(Hop(ParseInt(tokens[0]).value, id.ip, id.hostname, Fit3(RawRtts(tokens, |tokens|))))
  {
    ReconcileChangesNothing(IdentitySpan(tokens), tokens);
  }

  /** The invariants every record keeps: three RTT entries, no hostname
      without an address, an address that begins with an IPv4 shape, and a
      hostname that neither looks like an address nor strips to the address. */
  predicate WellFormed(h: Hop) {
    |h.rtt| == 3 &&
    (h.ip.None? ==> h.hostname.None?) &&
    (h.ip.Some? ==> MatchesIPv4Prefix(h.ip.value)) &&
    (h.hostname.Some? ==> !IsAddress(h.hostname.value) && StripParens(h.hostname.value) != h.ip.value)
  }

  lemma RecordWellFormed(line: string)
    requires IsHopLine(line)
    ensures WellFormed(LineRecord(line).value)
  {
    var tokens := Tokens(line);
    var span := IdentitySpan(tokens);
    RecordIdentity(line);
    ReconcileChangesNothing(span, tokens);
    var id := Identify(span);
    if id.ip.Some? {
      var j := FirstAddress(span).value;
      assert IsAddress(span[j]);
    }
  }

  // ---------------------------------------------------------------------
  // Which lines become records
  // ---------------------------------------------------------------------

  /** The positions below n of the hop lines of body, in increasing order. */
  function HopLines(body: seq<string>, n: nat): (idx: seq<nat>)
    requires n <= |body|
    ensures forall k :: 0 <= k < |idx| ==> idx[k] < n && IsHopLine(body[idx[k]])
    ensures forall a, b :: 0 <= a < b < |idx| ==> idx[a] < idx[b]
    ensures forall i :: 0 <= i < n && IsHopLine(body[i]) ==> i in idx
  {
    if n == 0 then []
    else HopLines(body, n - 1) + (if IsHopLine(body[n - 1]) then [n - 1] else [])
  }

  /** One record per hop line, in line order, and nothing else. */
  lemma {:induction false} RecordsFollowHopLines(body: seq<string>)
    ensures var idx := HopLines(body, |body|);
            |Records(body)| == |idx| &&
            forall k :: 0 <= k < |idx| ==> Records(body)[k] == LineRecord(body[idx[k]]).value
  {
    if body != [] {
      var n := |body| - 1;
      var init, last := body[..n], body[n];
      RecordsFollowHopLines(init);
      HopLinesPrefixOf(body, n);
      assert body == init + [last];
      RecordsSnoc(init, last);
      var idx, before := HopLines(body, |body|), HopLines(body, n);
      assert idx == before + (if IsHopLine(last) then [n] else []);
      forall k | 0 <= k < |idx|
        ensures Records(body)[k] == LineRecord(body[idx[k]]).value
      {
        if k < |before| {
          assert idx[k] == before[k];
          assert init[idx[k]] == body[idx[k]];
          assert Records(body)[k] == Records(init)[k];
        } else {
          assert idx[k] == n;
        }
      }
    }
  }

  lemma {:induction false} HopLinesPrefixOf(body: seq<string>, n: nat)
    requires n <= |body|
    ensures HopLines(body[..n], n) == HopLines(body, n)
    decreases n
  {
    if n > 0 {
      assert body[..n][..n - 1] == body[..n - 1];
      HopLinesPrefixOf(body, n - 1);
      HopLinesPrefixOf(body[..n], n - 1);
    }
  }

  // ---------------------------------------------------------------------
  // The whole text
  // ---------------------------------------------------------------------

  /** Empty or whitespace-only text gives no records. */
  lemma ParseBlank(output: string)
    requires IsBlank(output)
    ensures Parse(output) == []
  {
  }

  /** The first line is a header: a text with a single non-blank line gives
      no records, whatever that line says. */
  lemma HeaderNeverRecorded(output: string)
    requires '\n' !in Strip(output)
    ensures Parse(output) == []
  {
    var s := Strip(output);
    if s != [] {
      assert LineLength(s) == |s|;
    }
  }

  /** The records are the hop lines after the header, one each, in order;
      there are fewer records than lines. */
  lemma ParseFollowsHopLines(output: string)
    ensures var lines := SplitLines(Strip(output));
            var body := if lines == [] then [] else lines[1..];
            var idx := HopLines(body, |body|);
            |Parse(output)| == |idx| &&
            (lines != [] ==> |Parse(output)| <= |lines| - 1) &&
            forall k :: 0 <= k < |idx| ==> Parse(output)[k] == LineRecord(body[idx[k]]).value
  {
    var lines := SplitLines(Strip(output));
    var body := if lines == [] then [] else lines[1..];
    RecordsFollowHopLines(body);
  }

  /** Every record of every text is well formed. */
  lemma ParseWellFormed(output: string)
    ensures forall k :: 0 <= k < |Parse(output)| ==> WellFormed(Parse(output)[k])
  {
    var lines := SplitLines(Strip(output));
    var body := if lines == [] then [] else lines[1..];
    var idx := HopLines(body, |body|);
    RecordsFollowHopLines(body);
    forall k | 0 <= k < |Parse(output)|
      ensures WellFormed(Parse(output)[k])
    {
      RecordWellFormed(body[idx[k]]);
    }
  }

  /** A text of lines with no surrounding whitespace: the parser reads the
      records of every line after the first. */
  lemma ParseOfLines(output: string, lines: seq<string>)
    requires output == JoinLines(lines) && output != []
    requires !IsSpace(output[0]) && !IsSpace(output[|output| - 1])
    requires forall k :: 0 <= k < |lines| ==> '\n' !in lines[k]
    requires lines != [] && lines[|lines| - 1] != []
    ensures Parse(output) == Records(lines[1..])
  {
    StripSetUnchanged(output, Whitespace);
    SplitJoinLines(lines);
  }

  lemma RecordsSnoc(body: seq<string>, line: string)
    ensures Records(body + [line]) == Records(body) + (if IsHopLine(line) then [LineRecord(line).value] else [])
  {
    assert (body + [line])[..|body|] == body;
  }

  /** The body of the parser's loop for one line after the header: None
      where the source takes a `continue`, the appended record otherwise. */
  method ParseLine(line: string) returns (r: Option<Hop>)
    ensures r == LineRecord(line)
  {
    if Strip(line) == [] {
      return None;
    }
    var tokens := Tokens(line);
    var hop := ParseInt(tokens[0]);
    if hop.None? {
      return None;
    }
    var rtts := CollectRtts(tokens);
    var idEnd := if "ms" in tokens then IndexOf(tokens, "ms").value - 1 else |tokens|;
    var idTokens := if idEnd > 1 then tokens[1..idEnd] else tokens[1..];
    assert idTokens == IdentitySpan(tokens);
    var ip, hostname := FindIdentity(idTokens);
    if ip.None? {
      if "*" in tokens {
        ip := None;
        hostname := None;
      }
    }
    if hostname.Some? && ip.Some? {
      if StripParens(hostname.value) == ip.value {
        hostname := None;
      }
    }
    r := Some(Hop(hop.value, ip, hostname, rtts));
  }

  /** The parser's loop over the lines after the header. */
  method ParseTraceroute(output: string) returns (result: seq<Hop>)
    ensures result == Parse(output)
  {
    result := [];
    var lines := SplitLines(Strip(output));
    if lines == [] {
      return;
    }
    for i := 1 to |lines|
      invariant result == Records(lines[1..i])
    {
      var line := lines[i];
      assert lines[1..i + 1] == lines[1..i] + [line];
      RecordsSnoc(lines[1..i], line);
      var record := ParseLine(line);
      if record.None? {
        continue;
      }
      result := result + [record.value];
    }
    assert lines[1..|lines|] == lines[1..];
  }
}
