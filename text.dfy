/**
 * The Python string built-ins the traceroute parser relies on, restricted to
 * ASCII: `str.isspace`, `str.strip`, `str.split()`, `str.splitlines()`,
 * `list.index`, `int()` on a token and `re.sub` with a character class.
 */
module Text {
  import opened Wrappers

  /** The ASCII characters for which Python's `str.isspace()` holds. */
  const Whitespace: set<char> :=
    {' ', '\t', '\n', '\r', '\U{B}', '\U{C}', '\U{1C}', '\U{1D}', '\U{1E}', '\U{1F}'}

  predicate IsSpace(c: char) {
    c in Whitespace
  }

  predicate IsNonSpace(c: char) {
    !IsSpace(c)
  }

  predicate IsBlank(s: string) {
    forall i :: 0 <= i < |s| ==> IsSpace(s[i])
  }

  predicate IsDigit(c: char) {
    '0' <= c <= '9'
  }

  predicate AllDigits(s: string) {
    forall i :: 0 <= i < |s| ==> IsDigit(s[i])
  }

  // ---------------------------------------------------------------------
  // re.sub(r'[^...]', '', s): keep exactly the characters satisfying p
  // ---------------------------------------------------------------------

  function Keep(s: string, p: char -> bool): (r: string)
    ensures |r| <= |s|
    ensures forall i :: 0 <= i < |r| ==> p(r[i])
  {
    if s == [] then []
    else (if p(s[0]) then [s[0]] else []) + Keep(s[1..], p)
  }

  /** Characters that p already accepts are all kept, in order. */
  lemma {:induction false} KeepAccepted(s: string, p: char -> bool)
    requires forall i :: 0 <= i < |s| ==> p(s[i])
    ensures Keep(s, p) == s
  {
    if s != [] {
      KeepAccepted(s[1..], p);
    }
  }

  /** A character that p rejects is dropped. */
  lemma KeepRejected(c: char, p: char -> bool)
    requires !p(c)
    ensures Keep([c], p) == []
  {
    assert [c][1..] == [];
  }

  /** A text of characters that p rejects is dropped entirely. */
  lemma {:induction false} KeepNone(s: string, p: char -> bool)
    requires forall i :: 0 <= i < |s| ==> !p(s[i])
    ensures Keep(s, p) == []
  {
    if s != [] {
      KeepNone(s[1..], p);
    }
  }

  /** Filtering distributes over concatenation, so it works character by character. */
  lemma {:induction false} KeepAppend(a: string, b: string, p: char -> bool)
    ensures Keep(a + b, p) == Keep(a, p) + Keep(b, p)
  {
    if a == [] {
      assert a + b == b;
    } else {
      assert (a + b)[1..] == a[1..] + b;
      KeepAppend(a[1..], b, p);
    }
  }

  // ---------------------------------------------------------------------
  // str.strip(chars)
  // ---------------------------------------------------------------------

  /** Length of the longest prefix made of characters in cs. */
  function LeadCount(s: string, cs: set<char>): (n: nat)
    ensures n <= |s|
    ensures forall i :: 0 <= i < n ==> s[i] in cs
    ensures n < |s| ==> s[n] !in cs
  {
    if s != [] && s[0] in cs then 1 + LeadCount(s[1..], cs) else 0
  }

  /** Length of the longest suffix made of characters in cs. */
  function TrailCount(s: string, cs: set<char>): (n: nat)
    ensures n <= |s|
    ensures forall i :: |s| - n <= i < |s| ==> s[i] in cs
    ensures n < |s| ==> s[|s| - 1 - n] !in cs
  {
    if s != [] && s[|s| - 1] in cs then 1 + TrailCount(s[..|s| - 1], cs) else 0
  }

  /** str.strip(chars): the slice of s left once both ends lose their characters in cs. */
  function StripSet(s: string, cs: set<char>): (r: string)
    ensures r == [] <==> forall i :: 0 <= i < |s| ==> s[i] in cs
    ensures r != [] ==> r[0] !in cs && r[|r| - 1] !in cs
  {
    var lo := LeadCount(s, cs);
    if lo == |s| then [] else s[lo..|s| - TrailCount(s, cs)]
  }

  /** What strip removes is a prefix and a suffix of characters in cs. */
  lemma StripSetIsSlice(s: string, cs: set<char>)
    ensures var r := StripSet(s, cs);
            exists lo :: 0 <= lo <= |s| - |r| && r == s[lo..][..|r|] &&
                         (forall i :: 0 <= i < lo ==> s[i] in cs) &&
                         (forall i :: lo + |r| <= i < |s| ==> s[i] in cs)
  {
    var lo := LeadCount(s, cs);
    if lo == |s| {
      assert s[lo..][..0] == [];
    } else {
      var hi := |s| - TrailCount(s, cs);
      assert s[lo..hi] == s[lo..][..hi - lo];
    }
  }

  /** strip leaves a text alone whose two ends are not in cs. */
  lemma StripSetUnchanged(s: string, cs: set<char>)
    requires s != [] && s[0] !in cs && s[|s| - 1] !in cs
    ensures StripSet(s, cs) == s
  {
    assert LeadCount(s, cs) == 0 && TrailCount(s, cs) == 0;
  }

  /** str.strip() with no argument. */
  function Strip(s: string): (r: string)
    ensures r == [] <==> IsBlank(s)
  {
    StripSet(s, Whitespace)
  }

  // ---------------------------------------------------------------------
  // str.split() with no argument
  // ---------------------------------------------------------------------

  /** Length of the leading run of non-whitespace characters. */
  function WordLength(s: string): (n: nat)
    ensures n <= |s|
    ensures forall i :: 0 <= i < n ==> !IsSpace(s[i])
    ensures n < |s| ==> IsSpace(s[n])
  {
    if s == [] || IsSpace(s[0]) then 0 else 1 + WordLength(s[1..])
  }

  /** The maximal runs of non-whitespace characters, left to right. */
  function Tokens(s: string): (r: seq<string>)
    ensures forall k :: 0 <= k < |r| ==> r[k] != [] && forall i :: 0 <= i < |r[k]| ==> !IsSpace(r[k][i])
    ensures r == [] <==> IsBlank(s)
    decreases |s|
  {
    if s == [] then []
    else if IsSpace(s[0]) then Tokens(s[1..])
    else
      var n := WordLength(s);
      [s[..n]] + Tokens(s[n..])
  }

  /** A non-empty run of non-whitespace characters. */
  predicate IsWord(w: string) {
    w != [] && forall i :: 0 <= i < |w| ==> !IsSpace(w[i])
  }

  lemma {:induction false} WordLengthOf(w: string, rest: string)
    requires forall i :: 0 <= i < |w| ==> !IsSpace(w[i])
    requires rest == [] || IsSpace(rest[0])
    ensures WordLength(w + rest) == |w|
  {
    if w != [] {
      assert (w + rest)[1..] == w[1..] + rest;
      WordLengthOf(w[1..], rest);
    } else {
      assert w + rest == rest;
    }
  }

  /** A word ended by whitespace or by the end of the text is the first
      token, and splitting goes on after it. */
  lemma TokensOfWord(w: string, rest: string)
    requires IsWord(w)
    requires rest == [] || IsSpace(rest[0])
    ensures Tokens(w + rest) == [w] + Tokens(rest)
  {
    WordLengthOf(w, rest);
    assert (w + rest)[..|w|] == w;
    assert (w + rest)[|w|..] == rest;
  }

  /** A whitespace character where a token could start is skipped. */
  lemma TokensSkipSpace(c: char, s: string)
    requires IsSpace(c)
    ensures Tokens([c] + s) == Tokens(s)
  {
    assert ([c] + s)[1..] == s;
  }

  /** A run of whitespace where a token could start is skipped, however long. */
  lemma {:induction false} TokensSkipBlank(b: string, s: string)
    requires IsBlank(b)
    ensures Tokens(b + s) == Tokens(s)
  {
    if b != [] {
      assert b + s == [b[0]] + (b[1..] + s);
      TokensSkipSpace(b[0], b[1..] + s);
      TokensSkipBlank(b[1..], s);
    } else {
      assert b + s == s;
    }
  }

  function Concat(ts: seq<string>): string {
    if ts == [] then [] else ts[0] + Concat(ts[1..])
  }

  /** Splitting loses only the whitespace: the tokens spell s with its whitespace removed. */
  lemma {:induction false} TokensSpellNonSpace(s: string)
    ensures Concat(Tokens(s)) == Keep(s, IsNonSpace)
    decreases |s|
  {
    if s == [] {
    } else if IsSpace(s[0]) {
      TokensSpellNonSpace(s[1..]);
    } else {
      var n := WordLength(s);
      var w := s[..n];
      TokensSpellNonSpace(s[n..]);
      assert s == w + s[n..];
      KeepAppend(w, s[n..], IsNonSpace);
      KeepAccepted(w, IsNonSpace);
      assert ([w] + Tokens(s[n..]))[1..] == Tokens(s[n..]);
    }
  }

  // ---------------------------------------------------------------------
  // str.splitlines() with '\n' as the only line boundary
  // ---------------------------------------------------------------------

  /** Index of the first '\n', or |s| when there is none. */
  function LineLength(s: string): (n: nat)
    ensures n <= |s|
    ensures forall i :: 0 <= i < n ==> s[i] != '\n'
    ensures n < |s| ==> s[n] == '\n'
  {
    if s == [] || s[0] == '\n' then 0 else 1 + LineLength(s[1..])
  }

  /** Lines without their terminators; a final '\n' does not open an empty last line. */
  function SplitLines(s: string): (r: seq<string>)
    ensures r == [] <==> s == []
    ensures forall k :: 0 <= k < |r| ==> '\n' !in r[k]
    decreases |s|
  {
    if s == [] then []
    else
      var n := LineLength(s);
      if n == |s| then [s] else [s[..n]] + SplitLines(s[n + 1..])
  }

  /** "\n".join(lines) */
  function JoinLines(ls: seq<string>): string {
    if ls == [] then [] else if |ls| == 1 then ls[0] else ls[0] + ("\n" + JoinLines(ls[1..]))
  }

  /** Joining the lines of a text that does not end in '\n' gives the text back. */
  lemma {:induction false} JoinSplitLines(s: string)
    requires s == [] || s[|s| - 1] != '\n'
    ensures JoinLines(SplitLines(s)) == s
    decreases |s|
  {
    if s != [] {
      var n := LineLength(s);
      if n < |s| {
        var l, rest := s[..n], s[n + 1..];
        BreakAt(s, n);
        assert rest != [] && rest[|rest| - 1] == s[|s| - 1] by {
          assert n != |s| - 1;
        }
        JoinSplitLines(rest);
        SplitLinesCons(l, rest);
        JoinCons(l, SplitLines(rest));
      }
    }
  }

  /** A text with a break is its first line, the break, and the rest. */
  lemma BreakAt(s: string, n: nat)
    requires n < |s| && s[n] == '\n'
    requires forall i :: 0 <= i < n ==> s[i] != '\n'
    ensures s == s[..n] + ("\n" + s[n + 1..])
    ensures '\n' !in s[..n]
  {
    assert s[n..] == "\n" + s[n + 1..];
    assert s == s[..n] + s[n..];
    assert forall i :: 0 <= i < n ==> s[..n][i] == s[i];
  }

  lemma JoinCons(l: string, ls: seq<string>)
    requires ls != []
    ensures JoinLines([l] + ls) == l + ("\n" + JoinLines(ls))
  {
    assert ([l] + ls)[1..] == ls;
  }

  /** Splitting joined lines gives them back, when no line holds a '\n' and the last is not empty. */
  lemma {:induction false} SplitJoinLines(ls: seq<string>)
    requires forall k :: 0 <= k < |ls| ==> '\n' !in ls[k]
    requires ls == [] || ls[|ls| - 1] != []
    ensures SplitLines(JoinLines(ls)) == ls
  {
    if ls != [] {
      var s := JoinLines(ls);
      var l := ls[0];
      if |ls| == 1 {
        assert LineLength(s) == |s| by { LineLengthOfFreeLine(l, ""); }
      } else {
        var rest := JoinLines(ls[1..]);
        JoinNotEmpty(ls[1..]);
        SplitLinesCons(l, rest);
        SplitJoinLines(ls[1..]);
        assert ls == [l] + ls[1..];
      }
    }
  }

  /** A line without a break, then a break: the line is the first one split off. */
  lemma SplitLinesCons(l: string, rest: string)
    requires '\n' !in l && rest != []
    ensures SplitLines(l + ("\n" + rest)) == [l] + SplitLines(rest)
  {
    var s := l + ("\n" + rest);
    LineLengthOfFreeLine(l, "\n" + rest);
    assert s[..|l|] == l;
    assert s[|l| + 1..] == rest;
  }

  lemma {:induction false} LineLengthOfFreeLine(l: string, t: string)
    requires '\n' !in l
    requires t == [] || t[0] == '\n'
    ensures LineLength(l + t) == |l|
  {
    if l != [] {
      assert (l + t)[1..] == l[1..] + t;
      LineLengthOfFreeLine(l[1..], t);
    } else {
      assert l + t == t;
    }
  }

  lemma {:induction false} JoinNotEmpty(ls: seq<string>)
    requires ls != [] && ls[|ls| - 1] != []
    ensures JoinLines(ls) != []
  {
    if |ls| > 1 {
      JoinNotEmpty(ls[1..]);
    }
  }

  // ---------------------------------------------------------------------
  // list.index(x), guarded by `x in list`
  // ---------------------------------------------------------------------

  /** Position of the first occurrence of x, or None when x does not occur. */
  function IndexOf<T(==)>(s: seq<T>, x: T): (r: Option<nat>)
    ensures r.None? <==> x !in s
    ensures r.Some? ==> r.value < |s| && s[r.value] == x && forall i :: 0 <= i < r.value ==> s[i] != x
  {
    if s == [] then None
    else if s[0] == x then Some(0)
    else match IndexOf(s[1..], x)
      case None => None
      case Some(i) => Some(i + 1)
  }

  // ---------------------------------------------------------------------
  // int(token): an optional sign followed by decimal digits
  // ---------------------------------------------------------------------

  function DigitValue(c: char): nat
    requires IsDigit(c)
  {
    c as int - '0' as int
  }

  /** The value of a numeral, most significant digit first. */
  function DigitsValue(s: string): nat
    requires AllDigits(s)
  {
    if s == [] then 0 else 10 * DigitsValue(s[..|s| - 1]) + DigitValue(s[|s| - 1])
  }

  /** int(s) for a token s (no surrounding whitespace); None where Python raises ValueError. */
  function ParseInt(s: string): (r: Option<int>)
    ensures r.Some? <==> (s != [] && AllDigits(s)) ||
                         (|s| >= 2 && (s[0] == '+' || s[0] == '-') && AllDigits(s[1..]))
  {
    if s == [] then None
    else if s[0] == '+' || s[0] == '-' then
      if |s| >= 2 && AllDigits(s[1..]) then
        var v: int := DigitsValue(s[1..]);
        Some(if s[0] == '-' then -v else v)
      else None
    else if AllDigits(s) then Some(DigitsValue(s))
    else None
  }

  lemma {:induction false} DigitsValueLeadingZero(s: string)
    requires AllDigits(s)
    ensures DigitsValue("0" + s) == DigitsValue(s)
    decreases |s|
  {
    var z := "0" + s;
    if s == [] {
      assert z[..0] == [];
    } else {
      assert z[..|z| - 1] == "0" + s[..|s| - 1];
      assert z[|z| - 1] == s[|s| - 1];
      DigitsValueLeadingZero(s[..|s| - 1]);
    }
  }

  /** int() ignores a leading zero: int("007") == int("7"). */
  lemma ParseIntLeadingZero(s: string)
    requires s != [] && AllDigits(s)
    ensures ParseInt("0" + s) == ParseInt(s)
  {
    DigitsValueLeadingZero(s);
    assert ("0" + s)[0] == '0';
  }

  /** int() ignores a plus sign and negates after a minus sign; int("-0") == 0. */
  lemma ParseIntSigned(s: string)
    requires s != [] && AllDigits(s)
    ensures ParseInt("+" + s) == ParseInt(s)
    ensures ParseInt("-" + s) == Some(-ParseInt(s).value)
  {
    assert ("+" + s)[1..] == s;
    assert ("-" + s)[1..] == s;
  }

  /** The shortest decimal numeral of n. */
  function NatToString(n: nat): (r: string)
    ensures r != [] && AllDigits(r)
  {
    var d := ['0' + (n % 10) as char];
    if n < 10 then d else NatToString(n / 10) + d
  }

  /** str(n) */
  function IntToString(n: int): string {
    if n < 0 then "-" + NatToString(-n) else NatToString(n)
  }

  lemma {:induction false} NatToStringValue(n: nat)
    ensures DigitsValue(NatToString(n)) == n
  {
    var d := ['0' + (n % 10) as char];
    if n >= 10 {
      NatToStringValue(n / 10);
      var s := NatToString(n / 10) + d;
      assert s[..|s| - 1] == NatToString(n / 10);
    }
  }

  /** int(str(n)) == n */
  lemma ParseIntToString(n: int)
    ensures ParseInt(IntToString(n)) == Some(n)
  {
    if n < 0 {
      NatToStringValue(-n);
      assert IntToString(n)[1..] == NatToString(-n);
    } else {
      NatToStringValue(n);
    }
  }
}
