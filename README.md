# amazing_trace: the traceroute text parser

`amazing_trace.py` runs `traceroute` against a destination several times,
parses each run's text into hop records and plots how the round-trip times
change. This project models the parser, `parse_traceroute`, and proves
properties of it.

The parser reads one block of traceroute text. It strips the text, splits it
into lines and drops the first line, which is the column header. Each line
after that becomes one record when it is not blank and its first token is an
integer. A record holds:

- the hop number;
- three round-trip times, one for each of the first three `ms` tokens, each
  taken from the token just before that `ms`, and `None` for a `*` or a token
  whose digits and dots are not a float literal; a line with fewer than
  three `ms` tokens is padded with `None` to three;
- the address: the paren-stripped form of the first token in the identity
  span that begins with an IPv4 shape once stripped (`(10.0.0.1)` gives
  `10.0.0.1`). The identity span is the tokens after the hop
  number up to, not including, the token before the first `ms`. When that
  `ms` is at index 2 or lower, or there is none, the span is every token
  after the hop number;
- the hostname: the raw token just before the address, if there is one.

The project has five modules:

| file | module | contents | form |
|---|---|---|---|
| `wrappers.dfy` | `Wrappers` | `Option` | data |
| `text.dfy` | `Text` | the Python string built-ins the parser calls, on ASCII: `strip`, `split()`, `splitlines()`, `list.index`, `int()`, and `re.sub` with a character class | functions and lemmas |
| `fields.dfy` | `Fields` | one hop line's fields | reference functions, plus the RTT loop (`CollectRtts`) and the identity loop (`FindIdentity`) as methods with loops, proved equal to those functions |
| `trace.dfy` | `Trace` | the hop record, the line loop (`ParseTraceroute`), the loop body (`ParseLine`), and the properties of the whole parse | functions, lemmas and methods |
| `scenarios.dfy` | `Scenarios` | the documented kinds of hop line, worked out to their exact records | lemmas |

The source's four loops (lines 78, 88, 99 and 108), and the straight-line
code around them, are Dafny methods. Each method is proved equal to a
reference function:

- `ParseTraceroute`, the line loop (line 78), equals `Parse`;
- `ParseLine`, that loop's body, equals `LineRecord`;
- `CollectRtts`, the RTT loop and the padding loop (lines 88 and 99), equals
  `Fit3(RawRtts(..))`;
- `FindIdentity`, the address scan (line 108), equals `Identify`.

The properties are lemmas about those functions.

Points where the code's behaviour is easy to misread:

- **Identity span.** The span ends *before the token that precedes* the
  first `ms`, not at the `ms` itself. When that `ms` sits at index 2 or lower,
  the span falls back to every token after the hop number
  (`Fields.IdentitySpan`, `Scenarios.MixedTimingsHop`).
- **Hop numbers.** The hop number is not checked to be positive or
  increasing. Any token `int()` accepts counts, `0`, `-3` and `+5` included,
  and `+5` and `05` give the same number as `5` (`Text.ParseIntSigned`,
  `Text.ParseIntLeadingZero`).
  The records keep the order of their lines, whatever numbers those lines
  carry (`Trace.ParseFollowsHopLines`).
- **Hostname.** It is stored raw, parentheses included. Only the comparisons
  use the stripped form.
- **Clean-up steps.** The timeout step (lines 118-121) and the self-reference
  step (lines 123-125) never change a record. The scan already leaves both
  fields empty when there is no address. It never takes as hostname a token
  whose stripped form is an address (`Fields.ReconcileChangesNothing`).
- **Hostname test.** Line 114 skips a hostname that is address-shaped. The
  test never fails: the address is the first address-shaped token of the
  span, so the token before it is never address-shaped (`Fields.IdentifyAt`).
- **Timeout marker as hostname.** A `*` just before the address is recorded
  as the hostname (`Scenarios.TimeoutAsHostname`).

## Model

| member | source | states |
|---|---|---|
| Text.Keep | amazing_trace.py:94 | the filter keeps only accepted characters and never lengthens the text |
| Text.KeepRejected | amazing_trace.py:94 | a rejected character is dropped |
| Text.KeepNone | amazing_trace.py:94 | a text of rejected characters is filtered to the empty text |
| Text.KeepAccepted | amazing_trace.py:94 | a text of accepted characters passes the filter unchanged |
| Text.KeepAppend | amazing_trace.py:94 | filtering distributes over concatenation |
| Text.LeadCount | amazing_trace.py:109 | the counted prefix is the longest run of characters from the set |
| Text.TrailCount | amazing_trace.py:109 | the counted suffix is the longest run of characters from the set |
| Text.StripSet | amazing_trace.py:109 | `strip(chars)` is empty exactly when every character is in the set, and otherwise starts and ends outside it |
| Text.StripSetIsSlice | amazing_trace.py:109 | `strip(chars)` removes only a prefix and a suffix of characters in the set |
| Text.StripSetUnchanged | amazing_trace.py:74 | `strip` leaves unchanged a text whose two ends are outside the set |
| Text.Strip | amazing_trace.py:74-75 | `strip()` gives the empty text exactly when the text is all whitespace |
| Text.WordLength | amazing_trace.py:81 | a token runs up to the first whitespace character |
| Text.Tokens | amazing_trace.py:79-81 | `split()` gives non-empty tokens with no whitespace, and no tokens exactly when the line is blank |
| Text.TokensOfWord | amazing_trace.py:81 | a word followed by whitespace or the end of the text is the first token, and splitting goes on after it |
| Text.TokensSkipSpace | amazing_trace.py:81 | a whitespace character where a token could start is skipped |
| Text.TokensSkipBlank | amazing_trace.py:81 | a run of whitespace of any length where a token could start is skipped |
| Text.TokensSpellNonSpace | amazing_trace.py:81 | the tokens, concatenated, are the line with its whitespace removed: splitting loses nothing else |
| Text.LineLength | amazing_trace.py:74 | a line runs up to the first line break |
| Text.SplitLines | amazing_trace.py:74-76 | `splitlines()` gives no lines exactly for the empty text, and no line contains a break |
| Text.BreakAt | amazing_trace.py:74 | a text whose first break is at n is the line before it, the break, and the rest |
| Text.SplitLinesCons | amazing_trace.py:74 | a break-free line followed by a break is split off as the first line |
| Text.JoinSplitLines | amazing_trace.py:74 | joining the lines of a text that does not end in a break gives the text back |
| Text.SplitJoinLines | amazing_trace.py:74 | splitting break-free lines joined by breaks gives them back, provided the last line is not empty |
| Text.IndexOf | amazing_trace.py:103 | `index` returns the first position holding the value, and None exactly when the value does not occur |
| Text.ParseInt | amazing_trace.py:82-85 | `int()` succeeds exactly on a non-empty digit string, optionally after a sign |
| Text.DigitsValueLeadingZero | amazing_trace.py:83 | a leading zero does not change the value of a digit string |
| Text.ParseIntLeadingZero | amazing_trace.py:83 | `int("0" + s) == int(s)` for a non-empty digit string s |
| Text.ParseIntSigned | amazing_trace.py:83 | `int("+" + s) == int(s)` and `int("-" + s) == -int(s)` for a non-empty digit string s |
| Text.NatToString | amazing_trace.py:83 | a numeral is a non-empty digit string |
| Text.NatToStringValue | amazing_trace.py:83 | a numeral has the value it was written from |
| Text.ParseIntToString | amazing_trace.py:83 | `int(str(n)) == n` for every integer |
| Fields.Clean | amazing_trace.py:94 | the cleaned token holds only digits and dots |
| Fields.CleanAround | amazing_trace.py:94 | a run of digits and dots with only other characters before and after it cleans to exactly that run |
| Fields.IsDecimal | amazing_trace.py:95-98 | an accepted value is non-empty and not all dots |
| Fields.CountNone | amazing_trace.py:95-98 | a character occurs zero times exactly when it is absent |
| Fields.CountSplit | amazing_trace.py:95-98 | counting adds up over a split of the text |
| Fields.DecimalIsFloatLiteral | amazing_trace.py:95-98 | on digits and dots, "a digit and at most one point" is exactly the float literal grammar |
| Fields.RttOf | amazing_trace.py:90-98 | a recorded value is the non-empty cleaned token |
| Fields.RttOfMissing | amazing_trace.py:90-98 | an RTT is None exactly when its token is `*` or its cleaned form is not a float literal |
| Fields.MsIndices | amazing_trace.py:88-89 | the listed positions hold `ms`, are not the first token, and increase |
| Fields.MsIndicesComplete | amazing_trace.py:88-89 | every `ms` after the first token is listed |
| Fields.RawRtts | amazing_trace.py:88-98 | the first n tokens give at most n timings |
| Fields.RawRttsFollowMs | amazing_trace.py:88-98 | one value per `ms` after the first token, and the k-th value comes from the token before the k-th `ms` |
| Fields.Fit3 | amazing_trace.py:99-101 | padding then truncation gives exactly three entries: the first three values, then None |
| Fields.CollectRtts | amazing_trace.py:87-101 | the RTT loop, the padding loop and the slice compute the trimmed list of collected timings |
| Fields.DigitRun | amazing_trace.py:110 | a digit run stays within the text |
| Fields.DigitRunIsMaximal | amazing_trace.py:110 | a digit run is all digits and is not followed by a digit |
| Fields.GroupsFromIsPattern | amazing_trace.py:110 | the greedy group scan accepts exactly what the regular expression's repetition choices accept, from any position |
| Fields.GroupThenIsRun | amazing_trace.py:110 | a group followed by a dot is the whole digit run |
| Fields.MatchesIPv4Prefix | amazing_trace.py:110-114 | an accepted text is at least seven characters long and starts with a digit |
| Fields.MatchesIPv4PrefixIsPattern | amazing_trace.py:110 | `re.match(r'\d{1,3}(?:\.\d{1,3}){3}', s)` succeeds exactly when the scan accepts s |
| Fields.StripParens | amazing_trace.py:109-113 | `strip("()")` is empty exactly when every character is a parenthesis, and otherwise starts and ends with another character |
| Fields.IsAddress | amazing_trace.py:109-110 | an address-shaped token is non-empty and its stripped form starts with a digit |
| Fields.IdentitySpan | amazing_trace.py:103-104 | the span is all tokens after the hop number when there is no `ms`; otherwise it is tokens 1 to k-2 when the first `ms` is at k ≥ 3, and all tokens after the hop number when k < 3 |
| Fields.FirstAddressFrom | amazing_trace.py:108-111 | the first address-shaped token at or after a position, and None exactly when there is none |
| Fields.FirstAddressAt | amazing_trace.py:108-111 | a token that is address-shaped, with no address-shaped token before it, is the one found |
| Fields.Identify | amazing_trace.py:106-116 | no address exactly when no token in the span is address-shaped, and never a hostname without an address |
| Fields.IdentifyAt | amazing_trace.py:108-116 | with the first address at j, ip is that token stripped, and hostname is the raw token before it whenever j > 0 and None when j is 0 |
| Fields.FindIdentity | amazing_trace.py:106-116 | the for/break loop computes the scan's address and hostname |
| Fields.Reconcile | amazing_trace.py:118-125 | the clean-up keeps the address and either keeps or drops the hostname; it drops it when there is no address and a `*` token, and never leaves a hostname that strips to the address |
| Fields.ReconcileChangesNothing | amazing_trace.py:118-125 | a hostname from the scan never strips to the address, so the timeout step and the self-reference step leave the scan's result unchanged |
| Trace.IsHopLine | amazing_trace.py:79-85 | a hop line has a first token that starts with a digit or a sign |
| Trace.TokensRecord | amazing_trace.py:82-85 | a record exists exactly when the first token is an integer, and carries that integer |
| Trace.LineRecord | amazing_trace.py:79-85 | a line gives a record exactly when it is not blank and its first token is an integer |
| Trace.Records | amazing_trace.py:78-132 | no more records than lines |
| Trace.RecordRtts | amazing_trace.py:87-101 | every rtt has three entries: the values of the first three `ms` tokens in order, then None |
| Trace.RecordIdentity | amazing_trace.py:83-132 | a record holds the first token's integer, the scan's address and hostname, and the fitted timings |
| Trace.RecordParts | amazing_trace.py:82-132 | the record of a token list is assembled from its hop number, its scan and its timings |
| Trace.RecordWellFormed | amazing_trace.py:99-132 | every record has three RTTs, no hostname without an address, an address that begins with an IPv4 shape, and a hostname that is not address-shaped and does not strip to the address |
| Trace.HopLines | amazing_trace.py:78-85 | the listed positions are exactly the hop lines, in increasing order |
| Trace.RecordsFollowHopLines | amazing_trace.py:78-132 | one record per hop line, in line order, and nothing else |
| Trace.HopLinesPrefixOf | amazing_trace.py:78-85 | the hop lines below n depend only on the first n lines |
| Trace.RecordsSnoc | amazing_trace.py:78-132 | one more line adds its record, if any, at the end |
| Trace.Parse | amazing_trace.py:73-134 | blank text gives no records, and any records are fewer than the lines of the stripped text |
| Trace.ParseBlank | amazing_trace.py:73-76 | empty or whitespace-only text gives no records |
| Trace.HeaderNeverRecorded | amazing_trace.py:74-78 | a text with a single line gives no records, whatever that line says |
| Trace.ParseFollowsHopLines | amazing_trace.py:73-134 | the records are the records of the hop lines after the header, in order, with at most one fewer than the lines |
| Trace.ParseWellFormed | amazing_trace.py:73-134 | every record of every text is well formed |
| Trace.ParseOfLines | amazing_trace.py:73-78 | for a text of break-free lines with no surrounding whitespace, the result is the records of every line after the first |
| Trace.ParseLine | amazing_trace.py:79-132 | the loop body computes the record of one line, or None where the source continues |
| Trace.ParseTraceroute | amazing_trace.py:34-134 | the whole function computes `Parse` of its text |
| Scenarios.TokensOfLaid | amazing_trace.py:81 | words with any whitespace before, between and after them split into exactly those words |
| Scenarios.DottedQuadMatches | amazing_trace.py:110 | four groups of 1 to 3 digits joined by dots match the IPv4 pattern |
| Scenarios.GroupsFromShift | amazing_trace.py:110 | the pattern scan from a position depends only on the text from there on |
| Scenarios.GroupsFromDots | amazing_trace.py:110 | an IPv4 shape holds at least three dots |
| Scenarios.StripParensWrapped | amazing_trace.py:109 | `strip("()")` removes one pair of enclosing parentheses |
| Scenarios.NotAddress | amazing_trace.py:109-110 | a token starting with neither a digit nor a parenthesis is not address-shaped |
| Scenarios.QuadIsAddress | amazing_trace.py:109-111 | a bare dotted quad is address-shaped and strips to itself |
| Scenarios.WrappedQuadIsAddress | amazing_trace.py:109-111 | a parenthesised dotted quad is address-shaped and strips to the bare quad |
| Scenarios.PlainDecimalNotAddress | amazing_trace.py:109-110 | a timing value is never address-shaped |
| Scenarios.PlainDecimalKept | amazing_trace.py:94-96 | a plain decimal timing is recorded as written |
| Scenarios.AttachedUnitCleaned | amazing_trace.py:90-98 | `<1` is recorded as `1` and `1.2ms` as `1.2` |
| Scenarios.RawRttsSkip | amazing_trace.py:88-89 | tokens other than `ms` add no timing |
| Scenarios.RawRttsAtMs | amazing_trace.py:88-98 | an `ms` token adds the timing of the token before it |
| Scenarios.ThreeTimings | amazing_trace.py:88-98 | three value/`ms` pairs give the values of those three tokens |
| Scenarios.HopNumberToken | amazing_trace.py:83 | a printed hop number parses back to itself and is neither `ms` nor `*` |
| Scenarios.NamedAddress | amazing_trace.py:108-116 | in a span of a name and an address, the name is the hostname |
| Scenarios.AddressFirst | amazing_trace.py:108-116 | an address at the start of the span has no hostname |
| Scenarios.ResolvedHop | amazing_trace.py:51-56 | `n name (a.b.c.d) t1 ms t2 ms t3 ms` gives hop n, address a.b.c.d, hostname name and RTTs t1, t2, t3 |
| Scenarios.ResolvedHopLine | amazing_trace.py:51-56 | the same for every line that splits into those nine tokens |
| Scenarios.ResolvedHopText | amazing_trace.py:51-56 | the same for the text of such a line, with any whitespace before, between and after its tokens |
| Scenarios.ResolvedHopWords | amazing_trace.py:81 | each token printed on such a line is a word: non-empty and free of whitespace |
| Scenarios.BareAddressHop | amazing_trace.py:57-62 | `n a.b.c.d t1 ms t2 ms t3 ms` gives address a.b.c.d and no hostname |
| Scenarios.NumericHop | amazing_trace.py:108-116 | `n a.b.c.d (a.b.c.d) t1 ms t2 ms t3 ms` gives address a.b.c.d and no hostname |
| Scenarios.TimedOutHop | amazing_trace.py:63-68 | `n * * *` gives no address, no hostname and three missing RTTs |
| Scenarios.MixedTimingsHop | amazing_trace.py:88-125 | `n t1 ms * ms t3 ms` gives no address, no hostname and RTTs t1, None, t3 |
| Scenarios.TimeoutAsHostname | amazing_trace.py:108-116 | a `*` just before the address is taken as the hostname |

## Left out

- `execute_traceroute` (lines 14-31) is not part of this model. It runs an
  external process; the model takes the text it would return as the
  parameter `output`.
- `visualize_traceroute` and the script's main block are not part of this
  model. They handle sampling intervals, `time.sleep`, pandas tables,
  matplotlib charts and file output.
- Logging is left out, because it does not affect the parse.
- Bytes input is left out. `execute_traceroute` returns `bytes`, while the
  parser's docstring and the model take text (`str`).
- Floating point is left out. An RTT is modelled as its cleaned decimal
  string, the exact text `float()` would convert, so rounding is not modelled.
- `Text.Whitespace`: only ASCII whitespace is modelled. Python's `isspace`,
  `strip()` and `split()` also treat Unicode spaces such as U+0085 and U+00A0
  as whitespace.
- `Text.SplitLines`: only `\n` is modelled as a line boundary. `splitlines()`
  also splits at `\r`, `\r\n`, `\v`, `\f`, `\x1c`-`\x1e`, U+0085, U+2028
  and U+2029.
- `Fields.MatchesIPv4Prefix`: `\d` in the address pattern (lines 110 and
  114) matches only ASCII digits here. On a `str`, Python's `\d` matches
  every Unicode decimal digit.
- `Text.ParseInt`: underscores between digits (`1_0`) and non-ASCII digits
  are not accepted, although `int()` accepts both. The limit on numeral
  length is not modelled either: `int()` raises `ValueError` on a numeral
  longer than `sys.get_int_max_str_digits()`. The limit is 4300 digits by
  default in Python 3.11 and later, and in the 3.7-3.10 security releases
  from 3.7.14, 3.8.14, 3.9.14 and 3.10.7 on. The source then skips the line
  (lines 84-85); the model records it.
- `Fields.RawRtts`: its own contract gives only the bound of n timings. The
  exact count, one per `ms`, is the lemma `Fields.RawRttsFollowMs`.
- `Fields.RttOf`: its own contract says only that a kept value is the
  non-empty cleaned token. The exact condition for a missing value is the
  lemma `Fields.RttOfMissing`.
- Concurrency is left out. The parser has no shared state.
- Determinism (the same text parses to the same records) is not stated
  separately, because every Dafny function is deterministic.
- The scenario lemmas fix the shape of each line's tokens. Only
  `Scenarios.ResolvedHopText` starts from the text of a line. No lemma works
  out a whole multi-line text with its header. `Trace.ParseOfLines` and
  `Trace.ParseFollowsHopLines` reduce any such text to the records of its
  lines.
