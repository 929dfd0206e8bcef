/** Python `str` behaviour the parsers rely on, over `string` (= `seq<char>`):
    `isspace`, `strip`, `startswith`/`endswith`, `find`, `split(sep)`, `split()`,
    `replace(pat, "")`, `int(...)` and `str(int)`. */
module Text {
  import opened Wrappers

  /** Python's `str.isspace()` for one character. */
  predicate IsSpace(c: char) {
    || c == ' '
    || '\t' <= c <= '\r'
    || '\U{1C}' <= c <= '\U{1F}'
    || c == '\U{85}' || c == '\U{A0}' || c == '\U{1680}'
    || '\U{2000}' <= c <= '\U{200A}'
    || c == '\U{2028}' || c == '\U{2029}' || c == '\U{202F}' || c == '\U{205F}'
    || c == '\U{3000}'
  }

  predicate IsNonSpace(c: char) {
    !IsSpace(c)
  }

  /** ASCII decimal digit. */
  predicate IsDigit(c: char) {
    '0' <= c <= '9'
  }

  predicate AllDigits(s: string) {
    forall i :: 0 <= i < |s| ==> IsDigit(s[i])
  }

  predicate NoSpace(s: string) {
    forall i :: 0 <= i < |s| ==> !IsSpace(s[i])
  }

  predicate StartsWith(s: string, prefix: string) {
    |prefix| <= |s| && s[..|prefix|] == prefix
  }

  predicate EndsWith(s: string, suffix: string) {
    |suffix| <= |s| && s[|s| - |suffix|..] == suffix
  }

  /** `pat` occurs in `s` starting at index `i`. */
  predicate MatchAt(s: string, pat: string, i: nat) {
    i + |pat| <= |s| && s[i..i + |pat|] == pat
  }

  predicate Contains(s: string, pat: string) {
    exists i: nat :: i <= |s| && MatchAt(s, pat, i)
  }

  /** Length of the longest prefix of `s` whose characters all satisfy `p`. */
  function RunLength(s: string, p: char -> bool): (n: nat)
    ensures n <= |s|
    ensures forall i :: 0 <= i < n ==> p(s[i])
    ensures n == |s| || !p(s[n])
    decreases |s|
  {
    if |s| > 0 && p(s[0]) then 1 + RunLength(s[1..], p) else 0
  }

  /** `RunLength` is the one length whose prefix satisfies `p` and is not extended by it. */
  lemma {:induction false} RunLengthIs(s: string, p: char -> bool, k: nat)
    requires k <= |s|
    requires forall i :: 0 <= i < k ==> p(s[i])
    requires k == |s| || !p(s[k])
    ensures RunLength(s, p) == k
    decreases k
  {
    if k > 0 {
      RunLengthIs(s[1..], p, k - 1);
    }
  }

  /** Length of the longest suffix of `s` whose characters all satisfy `p`. */
  function TailRunLength(s: string, p: char -> bool): (n: nat)
    ensures n <= |s|
    ensures forall i :: |s| - n <= i < |s| ==> p(s[i])
    ensures n == |s| || !p(s[|s| - 1 - n])
    decreases |s|
  {
    if |s| > 0 && p(s[|s| - 1]) then 1 + TailRunLength(s[..|s| - 1], p) else 0
  }

  /** Python's `s.strip()`: drop leading and trailing whitespace. */
  function Strip(s: string): (r: string)
    ensures r == [] || (IsNonSpace(r[0]) && IsNonSpace(r[|r| - 1]))
    ensures RunLength(s, IsSpace) + |r| <= |s|
    ensures r == s[RunLength(s, IsSpace)..RunLength(s, IsSpace) + |r|]
    ensures forall i :: RunLength(s, IsSpace) + |r| <= i < |s| ==> IsSpace(s[i])
  {
    var a := s[RunLength(s, IsSpace)..];
    a[..|a| - TailRunLength(a, IsSpace)]
  }

  /** Every character is whitespace. */
  predicate Blank(s: string) {
    forall i :: 0 <= i < |s| ==> IsSpace(s[i])
  }

  /** `s.strip() == s`: empty, or no whitespace at either end. */
  predicate Stripped(s: string) {
    s == [] || (IsNonSpace(s[0]) && IsNonSpace(s[|s| - 1]))
  }

  /** `strip()` removes exactly the whitespace padding around a stripped text. */
  lemma StripPadded(lead: string, r: string, trail: string)
    requires Blank(lead) && Stripped(r) && Blank(trail)
    ensures Strip(lead + r + trail) == r
  {
    var s := lead + r + trail;
    var t := Strip(s);
    var n := RunLength(s, IsSpace);
    assert forall i :: 0 <= i < |t| ==> t[i] == s[n + i];
    if |r| > 0 {
      assert s[|lead|] == r[0];
      RunLengthIs(s, IsSpace, |lead|);
      assert IsNonSpace(s[|lead| + |r| - 1]);
      assert |t| >= |r|;
      assert forall i :: |lead| + |r| <= i < |s| ==> IsSpace(s[i]);
      assert |t| <= |r|;
      assert s[|lead|..|lead| + |r|] == r;
    } else {
      assert Blank(s);
      assert |t| == 0;
    }
  }

  /** A string without whitespace is its own `strip()`. */
  lemma StripNoSpace(s: string)
    requires NoSpace(s)
    ensures Strip(s) == s
  {
    if |s| > 0 {
      assert RunLength(s, IsSpace) == 0;
      assert TailRunLength(s, IsSpace) == 0;
    }
  }

  /** A word followed by one space strips to the word. */
  lemma StripTrailingSpace(s: string)
    requires |s| > 0 && NoSpace(s)
    ensures Strip(s + " ") == s
  {
    var a := s + " ";
    assert RunLength(a, IsSpace) == 0 by {
      assert a[0] == s[0];
    }
    assert a[..|a| - 1] == s;
    assert TailRunLength(s, IsSpace) == 0;
    assert TailRunLength(a, IsSpace) == 1;
    assert a[0..] == a;
  }

  /** The first index at or after `from` where `pat` occurs (`str.find`). */
  function FindFrom(s: string, pat: string, from: nat): (r: Option<nat>)
    ensures r.Some? ==> from <= r.value && MatchAt(s, pat, r.value)
    ensures r.Some? ==> forall j: nat :: from <= j < r.value ==> !MatchAt(s, pat, j)
    ensures r.None? ==> forall j: nat :: from <= j ==> !MatchAt(s, pat, j)
    decreases |s| - from
  {
    if from + |pat| > |s| then None
    else if MatchAt(s, pat, from) then Some(from)
    else FindFrom(s, pat, from + 1)
  }

  /** When `pat` occurs at `i` and nowhere before, `find` reports `i`. */
  lemma FindFirst(s: string, pat: string, from: nat, i: nat)
    requires from <= i && MatchAt(s, pat, i)
    requires forall j: nat :: from <= j < i ==> !MatchAt(s, pat, j)
    ensures FindFrom(s, pat, from) == Some(i)
  {
  }

  lemma NotContainsFind(s: string, pat: string)
    requires !Contains(s, pat)
    ensures FindFrom(s, pat, 0).None?
  {
  }

  /** Python's `s.split(sep)` for a non-empty separator: the pieces between
      the non-overlapping occurrences of `sep`, scanning left to right. */
  function Split(s: string, sep: string): (parts: seq<string>)
    requires |sep| > 0
    ensures |parts| >= 1
    ensures FindFrom(s, sep, 0).None? ==> parts == [s]
    ensures FindFrom(s, sep, 0).Some? ==>
              |parts| >= 2 && parts[0] == s[..FindFrom(s, sep, 0).value]
    decreases |s|
  {
    match FindFrom(s, sep, 0)
    case None => [s]
    case Some(i) => [s[..i]] + Split(s[i + |sep|..], sep)
  }

  /** The lines of a command's captured output, `output.strip().split('\n')`. */
  function Lines(output: string): (lines: seq<string>)
    ensures |lines| >= 1
  {
    Split(Strip(output), "\n")
  }

  /** The first line of `Lines(output)` starts with a non-whitespace character
      or is empty: stripping the output removed any indentation it had. */
  lemma FirstLineUnindented(output: string)
    ensures Lines(output)[0] == [] || IsNonSpace(Lines(output)[0][0])
  {
    var t := Strip(output);
    match FindFrom(t, "\n", 0)
    case None =>
    case Some(i) =>
      if i > 0 {
        assert Lines(output)[0][0] == t[0];
      }
  }

  /** Python's `sep.join(parts)`. */
  function Join(parts: seq<string>, sep: string): string
    decreases |parts|
  {
    if |parts| == 0 then ""
    else if |parts| == 1 then parts[0]
    else parts[0] + sep + Join(parts[1..], sep)
  }

  lemma JoinThree(a: string, b: string, c: string, sep: string)
    ensures Join([a, b, c], sep) == a + sep + b + sep + c
  {
    assert [a, b, c][1..] == [b, c];
    assert [b, c][1..] == [c];
    assert Join([c], sep) == c;
    assert Join([b, c], sep) == b + sep + c;
    assert Join([a, b, c], sep) == a + sep + (b + sep + c);
  }

  /** A property every character of the parts and of the separator has, every
      character of the join has. */
  lemma {:induction false} JoinChars(parts: seq<string>, sep: string, p: char -> bool)
    requires forall k, i :: 0 <= k < |parts| && 0 <= i < |parts[k]| ==> p(parts[k][i])
    requires forall i :: 0 <= i < |sep| ==> p(sep[i])
    ensures forall i :: 0 <= i < |Join(parts, sep)| ==> p(Join(parts, sep)[i])
    decreases |parts|
  {
    if |parts| > 1 {
      JoinChars(parts[1..], sep, p);
      var rest := Join(parts[1..], sep);
      var s := Join(parts, sep);
      assert s == parts[0] + sep + rest;
      forall i | 0 <= i < |s| ensures p(s[i]) {
        if i < |parts[0]| {
          assert s[i] == parts[0][i];
        } else if i < |parts[0]| + |sep| {
          assert s[i] == sep[i - |parts[0]|];
        } else {
          assert s[i] == rest[i - |parts[0]| - |sep|];
        }
      }
    } else if |parts| == 1 {
      assert Join(parts, sep) == parts[0];
    }
  }

  lemma MatchInPrefix(s: string, pat: string, i: nat, k: nat)
    requires k <= |s| && MatchAt(s[..k], pat, i)
    ensures MatchAt(s, pat, i)
  {
    assert s[..k][i..i + |pat|] == s[i..i + |pat|];
  }

  lemma MatchInSuffix(s: string, pat: string, i: nat, k: nat)
    requires k <= |s| && MatchAt(s[k..], pat, i)
    ensures MatchAt(s, pat, k + i)
  {
    assert s[k..][i..i + |pat|] == s[k + i..k + i + |pat|];
  }

  /** A match inside the slice `s[a..b]` is a match in `s`. */
  lemma MatchInSlice(s: string, pat: string, a: nat, b: nat, k: nat)
    requires a <= b <= |s|
    requires MatchAt(s[a..b], pat, k)
    ensures MatchAt(s, pat, a + k)
  {
    var n := |pat|;
    var w := s[a..b];
    forall t | 0 <= t < n
      ensures s[a + k + t] == pat[t]
    {
      assert w[k..k + n][t] == pat[t];
      assert w[k + t] == s[a + k + t];
    }
    assert s[a + k..a + k + n] == pat;
  }

  /** A slice of `s` in which `pat` never starts does not contain `pat`. */
  lemma NoMatchInSlice(s: string, pat: string, a: nat, b: nat)
    requires a <= b <= |s| && |pat| > 0
    requires forall j: nat :: a <= j < b ==> !MatchAt(s, pat, j)
    ensures !Contains(s[a..b], pat)
  {
    forall k: nat | k <= b - a && MatchAt(s[a..b], pat, k)
      ensures false
    {
      MatchInSlice(s, pat, a, b, k);
    }
  }

  /** Joining the pieces of a split with the same separator rebuilds the string. */
  lemma {:induction false} JoinSplit(s: string, sep: string)
    requires |sep| > 0
    ensures Join(Split(s, sep), sep) == s
    decreases |s|
  {
    match FindFrom(s, sep, 0)
    case None =>
    case Some(i) =>
      var rest := s[i + |sep|..];
      JoinSplit(rest, sep);
      assert Split(s, sep) == [s[..i]] + Split(rest, sep);
      assert s == s[..i] + sep + rest;
  }

  /** No piece of a split contains the separator. */
  lemma {:induction false} SplitPiecesFree(s: string, sep: string)
    requires |sep| > 0
    ensures forall k :: 0 <= k < |Split(s, sep)| ==> !Contains(Split(s, sep)[k], sep)
    decreases |s|
  {
    match FindFrom(s, sep, 0)
    case None =>
    case Some(i) =>
      var rest := s[i + |sep|..];
      SplitPiecesFree(rest, sep);
      assert Split(s, sep) == [s[..i]] + Split(rest, sep);
      forall j: nat | MatchAt(s[..i], sep, j)
        ensures false
      {
        MatchInPrefix(s, sep, j, i);
      }
  }

  /** Splitting a join gives the parts back when no part contains the
      separator's first character. */
  lemma {:induction false} SplitJoin(parts: seq<string>, sep: string)
    requires |parts| > 0 && |sep| > 0
    requires forall k, i :: 0 <= k < |parts| && 0 <= i < |parts[k]| ==> parts[k][i] != sep[0]
    ensures Split(Join(parts, sep), sep) == parts
    decreases |parts|
  {
    var s := Join(parts, sep);
    if |parts| == 1 {
      forall j: nat | j + |sep| <= |s|
        ensures !MatchAt(s, sep, j)
      {
        assert s[j..j + |sep|][0] == s[j];
      }
    } else {
      var p0 := parts[0];
      var rest := Join(parts[1..], sep);
      assert s == p0 + sep + rest;
      assert MatchAt(s, sep, |p0|) by {
        assert s[|p0|..|p0| + |sep|] == sep;
      }
      forall j: nat | j < |p0|
        ensures !MatchAt(s, sep, j)
      {
        assert s[j] == p0[j];
        if j + |sep| <= |s| {
          assert s[j..j + |sep|][0] == s[j];
        }
      }
      FindFirst(s, sep, 0, |p0|);
      assert s[|p0| + |sep|..] == rest;
      assert s[..|p0|] == p0;
      SplitJoin(parts[1..], sep);
      assert parts == [p0] + parts[1..];
    }
  }

  /** Python's `s.split()` with no argument: the maximal runs of non-whitespace. */
  function Tokens(s: string): (ts: seq<string>)
    ensures forall k :: 0 <= k < |ts| ==> |ts[k]| > 0 && NoSpace(ts[k])
    decreases |s|
  {
    var lead := RunLength(s, IsSpace);
    if lead == |s| then []
    else
      var rest := s[lead..];
      assert IsNonSpace(rest[0]);
      var n := RunLength(rest, IsNonSpace);
      var word := rest[..n];
      assert |word| > 0 && NoSpace(word);
      [word] + Tokens(rest[n..])
  }

  /** A word followed by whitespace (or nothing) is the first token. */
  lemma TokensWord(w: string, x: string)
    requires |w| > 0 && NoSpace(w)
    requires x == [] || IsSpace(x[0])
    ensures Tokens(w + x) == [w] + Tokens(x)
  {
    var s := w + x;
    RunLengthIs(s, IsSpace, 0);
    assert s[0..] == s;
    RunLengthIs(s, IsNonSpace, |w|);
    assert s[..|w|] == w && s[|w|..] == x;
  }

  /** Python's `s.replace(pat, "")`: occurrences removed left to right. */
  function RemoveAll(s: string, pat: string): (r: string)
    requires |pat| > 0
    ensures |r| <= |s|
    decreases |s|
  {
    if |s| == 0 then ""
    else if MatchAt(s, pat, 0) then RemoveAll(s[|pat|..], pat)
    else [s[0]] + RemoveAll(s[1..], pat)
  }

  /** Dropping the first character keeps a match-free prefix match-free. */
  lemma NoMatchInTail(s: string, pat: string, i: nat)
    requires 0 < i <= |s|
    requires forall j: nat :: j < i ==> !MatchAt(s, pat, j)
    ensures forall j: nat :: j < i - 1 ==> !MatchAt(s[1..], pat, j)
  {
    forall j: nat | j < i - 1
      ensures !MatchAt(s[1..], pat, j)
    {
      if MatchAt(s[1..], pat, j) {
        MatchInSuffix(s, pat, j, 1);
      }
    }
  }

  /** Before the first occurrence of `pat`, removal copies the text. */
  lemma {:induction false} RemoveAllUpTo(s: string, pat: string, i: nat)
    requires |pat| > 0 && i <= |s|
    requires forall j: nat :: j < i ==> !MatchAt(s, pat, j)
    ensures RemoveAll(s, pat) == s[..i] + RemoveAll(s[i..], pat)
    decreases i
  {
    if i > 0 {
      var t := s[1..];
      assert !MatchAt(s, pat, 0);
      assert RemoveAll(s, pat) == [s[0]] + RemoveAll(t, pat);
      NoMatchInTail(s, pat, i);
      RemoveAllUpTo(t, pat, i - 1);
      assert t[i - 1..] == s[i..];
      assert s[..i] == [s[0]] + t[..i - 1];
    }
  }

  /** `s.replace(pat, "")` is `"".join(s.split(pat))`: one left-to-right pass
      that drops each occurrence it finds. */
  lemma {:induction false} RemoveAllSplitJoin(s: string, pat: string)
    requires |pat| > 0
    ensures RemoveAll(s, pat) == Join(Split(s, pat), "")
    decreases |s|
  {
    match FindFrom(s, pat, 0)
    case None =>
      RemoveAllUpTo(s, pat, |s|);
      assert s[|s|..] == "" && s[..|s|] == s;
    case Some(i) =>
      var rest := s[i + |pat|..];
      RemoveAllUpTo(s, pat, i);
      assert s[i..][..|pat|] == pat;
      assert s[i..][|pat|..] == rest;
      RemoveAllSplitJoin(rest, pat);
      var parts := Split(s, pat);
      assert parts == [s[..i]] + Split(rest, pat);
      assert parts[1..] == Split(rest, pat);
  }

  /** Removing a pattern that does not occur changes nothing. */
  lemma {:induction false} RemoveAllAbsent(s: string, pat: string)
    requires |pat| > 0 && !Contains(s, pat)
    ensures RemoveAll(s, pat) == s
    decreases |s|
  {
    if |s| > 0 {
      assert !MatchAt(s, pat, 0);
      forall j: nat | MatchAt(s[1..], pat, j)
        ensures false
      {
        MatchInSuffix(s, pat, j, 1);
      }
      RemoveAllAbsent(s[1..], pat);
    }
  }

  /** Removing a single character distributes over concatenation. */
  lemma {:induction false} RemoveCharConcat(a: string, b: string, c: char)
    ensures RemoveAll(a + b, [c]) == RemoveAll(a, [c]) + RemoveAll(b, [c])
    decreases |a|
  {
    if |a| > 0 {
      assert (a + b)[1..] == a[1..] + b;
      assert MatchAt(a + b, [c], 0) <==> MatchAt(a, [c], 0) by {
        assert (a + b)[0..1] == [a[0]] && a[0..1] == [a[0]];
      }
      RemoveCharConcat(a[1..], b, c);
    } else {
      assert a + b == b;
    }
  }

  function DigitValue(c: char): nat
    requires IsDigit(c)
  {
    c as int - '0' as int
  }

  function DigitChar(n: nat): (c: char)
    requires n < 10
    ensures IsDigit(c) && DigitValue(c) == n
  {
    ('0' as int + n) as char
  }

  /** The value of a string of decimal digits. */
  function DigitsValue(d: string): nat
    requires AllDigits(d)
    decreases |d|
  {
    if |d| == 0 then 0 else 10 * DigitsValue(d[..|d| - 1]) + DigitValue(d[|d| - 1])
  }

  /** Python's `int(s)` for base 10: surrounding whitespace, an optional sign,
      then one or more ASCII digits; `None` where Python raises `ValueError`. */
  function ParseInt(s: string): Option<int>
  {
    var t := Strip(s);
    if |t| > 0 && (t[0] == '+' || t[0] == '-') then
      var d := t[1..];
      if |d| > 0 && AllDigits(d) then
        var v: int := DigitsValue(d);
        Some(if t[0] == '-' then -v else v)
      else None
    else if |t| > 0 && AllDigits(t) then Some(DigitsValue(t))
    else None
  }

  /** Python's `str(n)` for a natural number. */
  function ShowNat(n: nat): (s: string)
    ensures |s| > 0 && AllDigits(s)
    ensures |s| == 1 <==> n < 10
    ensures n < 100 ==> |s| <= 2
    decreases n
  {
    if n < 10 then [DigitChar(n)] else ShowNat(n / 10) + [DigitChar(n % 10)]
  }

  /** Python's `str(i)` for an integer. */
  function ShowInt(i: int): (s: string)
    ensures |s| > 0 && IsDigit(s[|s| - 1])
  {
    if i < 0 then "-" + ShowNat(-i) else ShowNat(i)
  }

  lemma {:induction false} ShowNatValue(n: nat)
    ensures DigitsValue(ShowNat(n)) == n
    decreases n
  {
    if n >= 10 {
      ShowNatValue(n / 10);
      var s := ShowNat(n);
      assert s[..|s| - 1] == ShowNat(n / 10);
    }
  }

  lemma ShowIntNoSpace(i: int)
    ensures NoSpace(ShowInt(i))
  {
    var s := ShowInt(i);
    forall k | 0 <= k < |s|
      ensures !IsSpace(s[k])
    {
      if i < 0 && k > 0 {
        assert s[k] == ShowNat(-i)[k - 1];
      }
    }
  }

  /** `int(str(i)) == i`: the decimal rendering of an integer parses back to it. */
  lemma ParseShowInt(i: int)
    ensures ParseInt(ShowInt(i)) == Some(i)
  {
    ShowIntNoSpace(i);
    StripNoSpace(ShowInt(i));
    if i < 0 {
      ShowNatValue(-i);
      assert ShowInt(i)[1..] == ShowNat(-i);
    } else {
      ShowNatValue(i);
    }
  }

  /** A two-digit field zero-padded as `%02d` writes it, `05` for five. */
  function Pad2(n: nat): (s: string)
    ensures |s| > 0 && AllDigits(s)
    ensures n < 100 ==> |s| == 2
  {
    if n < 10 then "0" + ShowNat(n) else ShowNat(n)
  }

  /** A leading zero does not change the value of a digit string. */
  lemma {:induction false} LeadingZero(d: string)
    requires AllDigits(d)
    ensures AllDigits("0" + d) && DigitsValue("0" + d) == DigitsValue(d)
    decreases |d|
  {
    if |d| > 0 {
      LeadingZero(d[..|d| - 1]);
      assert ("0" + d)[..|d|] == "0" + d[..|d| - 1];
    }
  }

  lemma Pad2Value(n: nat)
    ensures ParseInt(Pad2(n)) == Some(n)
  {
    var s := Pad2(n);
    assert NoSpace(s) by {
      forall k | 0 <= k < |s| ensures !IsSpace(s[k]) {
        assert IsDigit(s[k]);
      }
    }
    StripNoSpace(s);
    ShowNatValue(n);
    if n < 10 {
      LeadingZero(ShowNat(n));
    }
  }

  lemma Pad2Digits(n: nat)
    ensures DigitsValue(Pad2(n)) == n
  {
    ShowNatValue(n);
    if n < 10 {
      LeadingZero(ShowNat(n));
    }
  }
}
