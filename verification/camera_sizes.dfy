/** The parsing half of `util.get_camera_sizes()`: the captured output of
    `scrcpy --list-camera-sizes` read line by line into a table
    camera id -> resolution label -> frame rates. The loop's local variables
    (current camera, its fps list, the high-speed flag) are an explicit state. */
module CameraSizes {
  import opened Wrappers
  import opened Seqs
  import opened Text
  import opened OrderedDict

  /** resolution label -> fps labels, in insertion order */
  type Sizes = Dict<string, seq<string>>
  /** camera id -> its sizes, in order of first appearance */
  type Table = Dict<int, Sizes>

  const CameraIdPrefix := "--camera-id="
  const FpsOpen := "fps=["
  const HighSpeedHeader := "High speed capture (--camera-high-speed):"
  const HighSpeedOpen := " (fps=["
  const HighSpeedClose := "])"
  /** The suffix `[高速]` ("high speed") appended to a high-speed resolution. */
  const HighSpeedMarker := "[\U{9AD8}\U{901F}]"
  const FpsSep := ", "

  /** `camera`: `current_camera_id` (`None` until a camera line matched);
      `fps`: the `fps` local, bound once a camera line matched. */
  datatype ParserState = ParserState(
    table: Table,
    camera: Option<int>,
    fps: seq<string>,
    highSpeed: bool)

  const Start := ParserState([], None, [], false)

  /** The exceptions the loop can raise: a normal resolution line before any camera
      line reads the unbound `fps` (`UnboundLocalError`); a high-speed resolution line
      before any camera line indexes `camera_sizes[None]` (`KeyError`). */
  datatype CameraError = UnboundFps | MissingCamera

  predicate IsDash(c: char) {
    c == '-'
  }

  /** `fps=[` at `p` with a `]` somewhere after it. */
  predicate FpsListAt(s: string, p: nat) {
    MatchAt(s, FpsOpen, p) && FindFrom(s, "]", p + |FpsOpen|).Some?
  }

  /** The largest `p` in `[lo, hi)` with `FpsListAt(s, p)`. */
  function LastFpsList(s: string, lo: nat, hi: nat): (r: Option<nat>)
    ensures r.Some? ==> lo <= r.value < hi && FpsListAt(s, r.value)
    ensures r.Some? ==> forall q: nat :: r.value < q < hi ==> !FpsListAt(s, q)
    ensures r.None? ==> forall q: nat :: lo <= q < hi ==> !FpsListAt(s, q)
    decreases hi
  {
    if hi <= lo then None
    else if FpsListAt(s, hi - 1) then Some(hi - 1)
    else LastFpsList(s, lo, hi - 1)
  }

  /** The lazy group `fps=\[(.*?)]` after the greedy `.*`: the text between the
      last `fps=[` at or after `lo` that still has a `]` after it, and the first
      `]` that follows. */
  function FpsGroup(line: string, lo: nat): (r: Option<string>)
    ensures r.Some? ==> ']' !in r.value
    ensures r.None? <==> forall q: nat :: lo <= q ==> !FpsListAt(line, q)
  {
    match LastFpsList(line, lo, |line|)
    case None => None
    case Some(p) =>
      var close := FindFrom(line, "]", p + 5).value;
      var g := line[p + 5..close];
      assert ']' !in g by {
        forall i | 0 <= i < |g| ensures g[i] != ']' {
          assert !MatchAt(line, "]", p + 5 + i);
          assert line[p + 5 + i..p + 5 + i + 1] == [g[i]];
        }
      }
      Some(g)
  }

  /** The two groups of `re.match(r'--camera-id=(\d+).*fps=\[(.*?)]', line)`:
      the greedy `\d+` takes every leading digit, and the rest is `FpsGroup`.
      (Python's `.` stops at a newline, and lines hold none.) */
  function CameraIdMatch(line: string): (r: Option<(string, string)>)
    ensures r.None? <==>
      || !StartsWith(line, CameraIdPrefix)
      || RunLength(line[|CameraIdPrefix|..], IsDigit) == 0
      || FpsGroup(line, |CameraIdPrefix| + RunLength(line[|CameraIdPrefix|..], IsDigit)).None?
    ensures r.Some? ==>
      && |r.value.0| > 0 && AllDigits(r.value.0)
      && StartsWith(line, CameraIdPrefix + r.value.0)
      && FpsGroup(line, |CameraIdPrefix| + |r.value.0|) == Some(r.value.1)
    ensures r.Some? ==> |line| == |CameraIdPrefix| + |r.value.0| || !IsDigit(line[|CameraIdPrefix| + |r.value.0|])
  {
    if !StartsWith(line, CameraIdPrefix) then None
    else
      var rest := line[|CameraIdPrefix|..];
      var d := RunLength(rest, IsDigit);
      if d == 0 then None
      else match FpsGroup(line, |CameraIdPrefix| + d)
        case None => None
        case Some(g) =>
          IdDigits(line, d);
          assert |rest[..d]| == d;
          Some((rest[..d], g))
  }

  /** The digits after the prefix, and where they stop. */
  lemma IdDigits(line: string, d: nat)
    requires StartsWith(line, CameraIdPrefix)
    requires d <= |line| - |CameraIdPrefix|
    requires d == RunLength(line[|CameraIdPrefix|..], IsDigit)
    ensures AllDigits(line[|CameraIdPrefix|..][..d])
    ensures StartsWith(line, CameraIdPrefix + line[|CameraIdPrefix|..][..d])
    ensures |line| == |CameraIdPrefix| + d || !IsDigit(line[|CameraIdPrefix| + d])
  {
    var rest := line[|CameraIdPrefix|..];
    assert line[..|CameraIdPrefix| + d] == CameraIdPrefix + rest[..d];
    assert |CameraIdPrefix| + d == |line| || line[|CameraIdPrefix| + d] == rest[d];
  }

  /** A camera line's id and its fps list, split on `, `. */
  function CameraLine(line: string): Option<(int, seq<string>)>
  {
    match CameraIdMatch(line)
    case None => None
    case Some((digits, fps)) => Some((DigitsValue(digits), Split(fps, FpsSep)))
  }

  /** `LastFpsList` finds `p` when `p` qualifies and nothing after it does. */
  lemma LastFpsListIs(s: string, lo: nat, hi: nat, p: nat)
    requires lo <= p < hi && FpsListAt(s, p)
    requires forall q: nat :: p < q < hi ==> !FpsListAt(s, q)
    ensures LastFpsList(s, lo, hi) == Some(p)
  {
  }

  /** No bracket of either kind occurs in `s`. */
  predicate NoBrackets(s: string) {
    forall i :: 0 <= i < |s| ==> s[i] != '[' && s[i] != ']'
  }

  /** `fps=[` cannot start where its `[` would fall on a character that is not
      one. */
  lemma NoFpsOpenAt(line: string, q: nat)
    requires q + 4 < |line| ==> line[q + 4] != '['
    ensures !MatchAt(line, FpsOpen, q)
  {
    if q + 5 <= |line| {
      assert line[q..q + 5][4] == line[q + 4];
    }
  }

  /** The first `]` from `from` on is the one at `close`. */
  lemma CloseBracketAt(line: string, from: nat, close: nat)
    requires from <= close < |line| && line[close] == ']'
    requires forall j :: from <= j < close ==> line[j] != ']'
    ensures FindFrom(line, "]", from) == Some(close)
  {
    assert MatchAt(line, "]", close) by {
      assert line[close..close + 1] == [line[close]];
    }
    forall j: nat | from <= j < close
      ensures !MatchAt(line, "]", j)
    {
      assert line[j..j + 1] == [line[j]];
    }
    FindFirst(line, "]", from, close);
  }

  /** With no `[` past the one at `p + 4`, no fps list starts after `p`. */
  lemma NoFpsListAfter(line: string, p: nat)
    requires forall j :: p + 4 < j < |line| ==> line[j] != '['
    ensures forall q: nat :: p < q ==> !FpsListAt(line, q)
  {
    forall q: nat | p < q
      ensures !FpsListAt(line, q)
    {
      NoFpsOpenAt(line, q);
    }
  }

  /** When the `fps=[` at `p` is closed by the `]` at `close`, with no bracket
      in between and no `[` after it, the second group is the text in between. */
  lemma FpsGroupAt(line: string, p: nat, close: nat, lo: nat)
    requires lo <= p && p + 5 <= close < |line|
    requires MatchAt(line, FpsOpen, p) && line[close] == ']'
    requires forall j :: p + 5 <= j < close ==> line[j] != '[' && line[j] != ']'
    requires forall j :: close < j < |line| ==> line[j] != '['
    ensures FpsGroup(line, lo) == Some(line[p + 5..close])
  {
    CloseBracketAt(line, p + 5, close);
    NoFpsListAfter(line, p);
    LastFpsListIs(line, lo, |line|, p);
  }

  /** After the last `fps=[`, a list free of brackets closed by a `]` and
      followed by a tail free of brackets is the second group. */
  lemma FpsGroupAtEnd(pre: string, list: string, tail: string, lo: nat)
    requires lo <= |pre|
    requires NoBrackets(list) && NoBrackets(tail)
    ensures FpsGroup(pre + FpsOpen + list + "]" + tail, lo) == Some(list)
  {
    var line := pre + FpsOpen + list + "]" + tail;
    var p := |pre|;
    var close := p + 5 + |list|;
    assert line[p..p + 5] == FpsOpen;
    assert line[p + 5..close] == list;
    assert line[close + 1..] == tail;
    FpsGroupAt(line, p, close, lo);
  }

  /** The regex on a line built from its parts. */
  lemma CameraIdMatchOf(digits: string, mid: string, list: string, tail: string)
    requires |digits| > 0 && AllDigits(digits)
    requires |mid| == 0 || !IsDigit(mid[0])
    requires NoBrackets(list) && NoBrackets(tail)
    ensures CameraIdMatch(CameraIdPrefix + digits + mid + FpsOpen + list + "]" + tail) == Some((digits, list))
  {
    var pre := CameraIdPrefix + digits + mid;
    var after := mid + FpsOpen + list + "]" + tail;
    var line := pre + FpsOpen + list + "]" + tail;
    assert line == CameraIdPrefix + (digits + after);
    assert after[0] == (mid + FpsOpen)[0];
    DigitsThenOther(digits, after);
    FpsGroupAtEnd(pre, list, tail, |CameraIdPrefix| + |digits|);
    CameraIdMatchIs(CameraIdPrefix + (digits + after), digits, list);
  }

  /** The digit run of `digits + after` is `digits` when `after` does not
      start with a digit. */
  lemma DigitsThenOther(digits: string, after: string)
    requires AllDigits(digits) && (|after| == 0 || !IsDigit(after[0]))
    ensures RunLength(digits + after, IsDigit) == |digits|
    ensures (digits + after)[..|digits|] == digits
  {
    var rest := digits + after;
    assert |digits| == |rest| || rest[|digits|] == after[0];
    RunLengthIs(rest, IsDigit, |digits|);
  }

  /** `CameraIdMatch` on a line whose prefix, digit run and fps group are known. */
  lemma CameraIdMatchIs(line: string, digits: string, list: string)
    requires StartsWith(line, CameraIdPrefix) && |digits| > 0
    requires RunLength(line[|CameraIdPrefix|..], IsDigit) == |digits|
    requires line[|CameraIdPrefix|..][..|digits|] == digits
    requires FpsGroup(line, |CameraIdPrefix| + |digits|) == Some(list)
    ensures CameraIdMatch(line) == Some((digits, list))
  {
  }

  /** A line in the shape scrcpy prints a camera in, `--camera-id=N <anything not
      starting with a digit> fps=[r1, r2, ...]<tail>`, with rates made of digits
      and a tail such as `)` that holds no bracket, gives back N and the rates. */
  lemma CameraLineRoundTrip(n: nat, mid: string, rates: seq<string>, tail: string)
    requires |mid| == 0 || !IsDigit(mid[0])
    requires |rates| > 0 && forall k :: 0 <= k < |rates| ==> AllDigits(rates[k])
    requires NoBrackets(tail)
    ensures CameraLine(CameraIdPrefix + ShowNat(n) + mid + FpsOpen + Join(rates, FpsSep) + "]" + tail)
         == Some((n, rates))
  {
    var digits := ShowNat(n);
    var list := Join(rates, FpsSep);
    JoinChars(rates, FpsSep, c => c != '[' && c != ']');
    CameraIdMatchOf(digits, mid, list, tail);
    JoinCharsNoComma(rates);
    SplitJoin(rates, FpsSep);
    ShowNatValue(n);
  }

  /** Digit-only rates contain no `,`, the separator's first character. */
  lemma JoinCharsNoComma(rates: seq<string>)
    requires forall k :: 0 <= k < |rates| ==> AllDigits(rates[k])
    ensures forall k, i :: 0 <= k < |rates| && 0 <= i < |rates[k]| ==> rates[k][i] != FpsSep[0]
  {
    forall k, i | 0 <= k < |rates| && 0 <= i < |rates[k]|
      ensures rates[k][i] != FpsSep[0]
    {
      assert IsDigit(rates[k][i]);
    }
  }

  /** The two groups of `re.match(r'(.+?) \(fps=\[(.*?)]\)', resolution)`.
      The lazy first group stops at the first ` (fps=[` after the first character;
      the lazy second group at the first `])` after that. If that candidate has
      no `])` after it, no later one does either, so the match fails. */
  function HighSpeedMatch(res: string): (r: Option<(string, string)>)
    ensures r.Some? ==>
      && |r.value.0| >= 1
      && StartsWith(res, r.value.0 + HighSpeedOpen + r.value.1 + HighSpeedClose)
      && (forall j: nat :: 1 <= j < |r.value.0| ==> !MatchAt(res, HighSpeedOpen, j))
      && !Contains(r.value.1, HighSpeedClose)
    ensures r.None? ==>
      forall i: nat :: 1 <= i && MatchAt(res, HighSpeedOpen, i) ==>
        FindFrom(res, HighSpeedClose, i + |HighSpeedOpen|).None?
  {
    match FindFrom(res, HighSpeedOpen, 1)
    case None => None
    case Some(i) =>
      match FindFrom(res, HighSpeedClose, i + 7)
      case None =>
        assert forall k: nat :: i + 7 <= k ==> !MatchAt(res, HighSpeedClose, k);
        None
      case Some(j) =>
        var g1 := res[..i];
        var g2 := res[i + 7..j];
        assert res[..j + 2] == g1 + HighSpeedOpen + g2 + HighSpeedClose;
        NoMatchInSlice(res, HighSpeedClose, i + 7, j);
        Some((g1, g2))
  }

  /** A high-speed resolution line's base label and its fps list. */
  function HighSpeedLine(res: string): Option<(string, seq<string>)>
  {
    match HighSpeedMatch(res)
    case None => None
    case Some((base, fps)) => Some((Strip(base), Split(fps, FpsSep)))
  }

  /** The pattern on a line built from its parts. */
  lemma HighSpeedMatchOf(base: string, list: string, tail: string)
    requires |base| > 0 && forall i :: 0 <= i < |base| ==> base[i] != '('
    requires forall i :: 0 <= i < |list| ==> list[i] != ']'
    ensures HighSpeedMatch(base + HighSpeedOpen + list + HighSpeedClose + tail) == Some((base, list))
  {
    FirstOpenAt(base, list, tail);
    FirstCloseAt(base, list, tail);
    HighSpeedPieces(base, list, tail);
  }

  lemma HighSpeedPieces(base: string, list: string, tail: string)
    ensures var res := base + HighSpeedOpen + list + HighSpeedClose + tail;
      && res[..|base|] == base
      && res[|base| + 7..|base| + 7 + |list|] == list
  {
    var res := base + HighSpeedOpen + list + HighSpeedClose + tail;
    assert res == base + (HighSpeedOpen + list + HighSpeedClose + tail);
    assert res == (base + HighSpeedOpen) + list + (HighSpeedClose + tail);
  }

  /** The first ` (fps=[` after the first character is the one after `base`. */
  lemma FirstOpenAt(base: string, list: string, tail: string)
    requires |base| > 0 && forall i :: 0 <= i < |base| ==> base[i] != '('
    ensures FindFrom(base + HighSpeedOpen + list + HighSpeedClose + tail, HighSpeedOpen, 1) == Some(|base|)
  {
    var res := base + HighSpeedOpen + list + HighSpeedClose + tail;
    var i := |base|;
    assert MatchAt(res, HighSpeedOpen, i) by {
      assert res[i..i + 7] == HighSpeedOpen;
    }
    forall j: nat | 1 <= j < i
      ensures !MatchAt(res, HighSpeedOpen, j)
    {
      assert res[j..j + 7][1] == res[j + 1];
      if j + 1 < i {
        assert res[j + 1] == base[j + 1];
      }
    }
    FindFirst(res, HighSpeedOpen, 1, i);
  }

  /** The first `])` after the opening is the one after `list`. */
  lemma FirstCloseAt(base: string, list: string, tail: string)
    requires forall i :: 0 <= i < |list| ==> list[i] != ']'
    ensures FindFrom(base + HighSpeedOpen + list + HighSpeedClose + tail, HighSpeedClose, |base| + 7)
         == Some(|base| + 7 + |list|)
  {
    var res := base + HighSpeedOpen + list + HighSpeedClose + tail;
    var i := |base|;
    var close := i + 7 + |list|;
    assert MatchAt(res, HighSpeedClose, close) by {
      assert res[close..close + 2] == HighSpeedClose;
    }
    forall j: nat | i + 7 <= j < close
      ensures !MatchAt(res, HighSpeedClose, j)
    {
      assert res[j..j + 2][0] == res[j] == list[j - i - 7];
    }
    FindFirst(res, HighSpeedClose, i + 7, close);
  }

  /** A high-speed line in the shape scrcpy prints, `WxH (fps=[r1, r2, ...])`,
      with a label free of `(` and rates made of digits, gives back the
      trimmed label and the rates, whatever follows. */
  lemma HighSpeedLineRoundTrip(base: string, rates: seq<string>, tail: string)
    requires |base| > 0 && forall i :: 0 <= i < |base| ==> base[i] != '('
    requires |rates| > 0 && forall k :: 0 <= k < |rates| ==> AllDigits(rates[k])
    ensures HighSpeedLine(base + HighSpeedOpen + Join(rates, FpsSep) + HighSpeedClose + tail)
         == Some((Strip(base), rates))
  {
    var list := Join(rates, FpsSep);
    RatesListBack(rates);
    HighSpeedMatchOf(base, list, tail);
  }

  /** The joined rates hold no `]` and split back into the rates. */
  lemma RatesListBack(rates: seq<string>)
    requires |rates| > 0 && forall k :: 0 <= k < |rates| ==> AllDigits(rates[k])
    ensures forall i :: 0 <= i < |Join(rates, FpsSep)| ==> Join(rates, FpsSep)[i] != ']'
    ensures Split(Join(rates, FpsSep), FpsSep) == rates
  {
    JoinChars(rates, FpsSep, c => c != ']');
    JoinCharsNoComma(rates);
    SplitJoin(rates, FpsSep);
  }

  /** The keys after `d[k] = v`: unchanged when `k` is present, `k` last
      otherwise. */
  function PutKey(keys: seq<string>, k: string): seq<string> {
    if k in keys then keys else keys + [k]
  }

  /** The keys after the high-speed merge: `base` popped, then `base[高速]`
      kept in place when present and appended otherwise. */
  function MergedKeys(keys: seq<string>, base: string): seq<string> {
    PutKey(RemoveFirst(keys, base), base + HighSpeedMarker)
  }

  /** The sizes of the high-speed resolution `base` with `fps`: stored under
      `base[高速]`; an existing `base` entry is popped and its rates go first. */
  function MergeHighSpeed(sizes: Sizes, base: string, fps: seq<string>): Sizes
  {
    match Get(sizes, base)
    case Some(prev) => Put(Remove(sizes, base), base + HighSpeedMarker, prev + fps)
    case None => Put(sizes, base + HighSpeedMarker, fps)
  }

  /** The kinds of (stripped) lines the loop tells apart, in the order it tests them. */
  predicate IsCameraLine(raw: string) {
    StartsWith(Strip(raw), CameraIdPrefix)
  }

  predicate IsHeader(raw: string) {
    !IsCameraLine(raw) && Strip(raw) == HighSpeedHeader
  }

  predicate IsResolutionLine(raw: string) {
    !IsCameraLine(raw) && !IsHeader(raw) && StartsWith(Strip(raw), "-")
  }

  /** `line.lstrip('-').strip()` of the stripped line. */
  function ResolutionOf(raw: string): (res: string)
    ensures |res| == 0 || (!IsSpace(res[0]) && !IsSpace(res[|res| - 1]))
  {
    var line := Strip(raw);
    Strip(line[RunLength(line, IsDash)..])
  }

  /** A resolution line `<space>---<space>1920x1080<space>` gives back the
      resolution, whatever surrounds it, as long as the resolution itself is
      stripped and does not start with a dash. */
  lemma ResolutionOfLine(lead: string, dashes: string, gap: string, r: string, trail: string)
    requires Blank(lead) && Blank(gap) && Blank(trail)
    requires forall i :: 0 <= i < |dashes| ==> dashes[i] == '-'
    requires Stripped(r) && (r == [] || r[0] != '-')
    ensures ResolutionOf(lead + dashes + gap + r + trail) == r
  {
    if |dashes| == 0 {
      assert lead + dashes + gap + r + trail == lead + gap + r + trail;
      UndashedLine(lead, gap, r, trail);
    } else if |r| == 0 {
      BareDashLine(lead, dashes, gap, r, trail);
    } else {
      DashedLine(lead, dashes, gap, r, trail);
    }
  }

  /** The line case without dashes. */
  lemma UndashedLine(lead: string, gap: string, r: string, trail: string)
    requires Blank(lead) && Blank(gap) && Blank(trail)
    requires Stripped(r) && (r == [] || r[0] != '-')
    ensures ResolutionOf(lead + gap + r + trail) == r
  {
    StripUndashedLine(lead, gap, r, trail);
    assert [] + r == r;
    ResolutionOfStripped(lead + gap + r + trail, [], r);
    StripStripped(r);
  }

  /** A stripped text is its own `strip()`. */
  lemma StripStripped(r: string)
    requires Stripped(r)
    ensures Strip(r) == r
  {
    assert [] + r + [] == r;
    StripPadded([], r, []);
  }

  /** Whitespace on both sides of a stripped text is all that `strip()` removes. */
  lemma StripUndashedLine(lead: string, gap: string, r: string, trail: string)
    requires Blank(lead) && Blank(gap) && Blank(trail) && Stripped(r)
    ensures Strip(lead + gap + r + trail) == r
  {
    assert Blank(lead + gap) by {
      assert forall i :: 0 <= i < |lead + gap| ==>
        (lead + gap)[i] == if i < |lead| then lead[i] else gap[i - |lead|];
    }
    StripPadded(lead + gap, r, trail);
  }

  /** The line case with dashes and nothing after them. */
  lemma BareDashLine(lead: string, dashes: string, gap: string, r: string, trail: string)
    requires Blank(lead) && Blank(gap) && Blank(trail) && r == []
    requires |dashes| > 0 && forall i :: 0 <= i < |dashes| ==> dashes[i] == '-'
    ensures ResolutionOf(lead + dashes + gap + r + trail) == r
  {
    var raw := lead + dashes + gap + r + trail;
    assert raw == lead + dashes + (gap + trail);
    StripPadded(lead, dashes, gap + trail);
    assert Strip(raw) == dashes + [];
    ResolutionOfStripped(raw, dashes, []);
  }

  /** The line case with dashes and a resolution after them. */
  lemma DashedLine(lead: string, dashes: string, gap: string, r: string, trail: string)
    requires Blank(lead) && Blank(gap) && Blank(trail)
    requires |dashes| > 0 && forall i :: 0 <= i < |dashes| ==> dashes[i] == '-'
    requires |r| > 0 && Stripped(r) && r[0] != '-'
    ensures ResolutionOf(lead + dashes + gap + r + trail) == r
  {
    StripDashedLine(lead, dashes, gap, r, trail);
    GapThenResolution(gap, r);
    ResolutionOfStripped(lead + dashes + gap + r + trail, dashes, gap + r);
  }

  /** The stripped line runs from the first dash to the resolution's end. */
  lemma StripDashedLine(lead: string, dashes: string, gap: string, r: string, trail: string)
    requires Blank(lead) && Blank(trail)
    requires |dashes| > 0 && dashes[0] == '-'
    requires |r| > 0 && IsNonSpace(r[|r| - 1])
    ensures Strip(lead + dashes + gap + r + trail) == dashes + (gap + r)
  {
    var line := dashes + (gap + r);
    assert lead + dashes + gap + r + trail == lead + line + trail;
    assert line[|line| - 1] == r[|r| - 1];
    assert line[0] == '-';
    StripPadded(lead, line, trail);
  }

  /** Whitespace before a resolution that does not start with a dash is not
      a dash, and `strip()` removes it. */
  lemma GapThenResolution(gap: string, r: string)
    requires Blank(gap) && Stripped(r) && (r == [] || r[0] != '-')
    ensures gap + r == [] || (gap + r)[0] != '-'
    ensures Strip(gap + r) == r
  {
    assert gap + r == gap + r + [];
    StripPadded(gap, r, []);
  }

  /** When the stripped line is dashes followed by text that does not start
      with one, the resolution is that text, stripped. */
  lemma ResolutionOfStripped(raw: string, dashes: string, rest: string)
    requires Strip(raw) == dashes + rest
    requires forall i :: 0 <= i < |dashes| ==> dashes[i] == '-'
    requires rest == [] || rest[0] != '-'
    ensures ResolutionOf(raw) == Strip(rest)
  {
    var line := dashes + rest;
    assert |dashes| == |line| || line[|dashes|] == rest[0];
    RunLengthIs(line, IsDash, |dashes|);
    assert line[|dashes|..] == rest;
  }

  /** One iteration of the loop over the lines. */
  function Step(st: ParserState, raw: string): Result<ParserState, CameraError>
  {
    if IsCameraLine(raw) then CameraStep(st, CameraLine(Strip(raw)))
    else if IsHeader(raw) then Success(st.(highSpeed := true))
    else if IsResolutionLine(raw) then ResolutionStep(st, ResolutionOf(raw))
    else Success(st)
  }

  /** A camera line, once the regex has been tried on it. */
  function CameraStep(st: ParserState, matched: Option<(int, seq<string>)>): Result<ParserState, CameraError>
  {
    match matched
    case None => Success(st)
    case Some((id, fps)) =>
      Success(ParserState(AddCamera(st.table, id), Some(id), fps, false))
  }

  /** A resolution line, given its resolution text. */
  function ResolutionStep(st: ParserState, res: string): Result<ParserState, CameraError>
  {
    if st.highSpeed then
      match HighSpeedLine(res)
      case None => Success(st)
      case Some((base, fps)) =>
        if st.camera.None? then Failure(MissingCamera)
        else match Get(st.table, st.camera.value)
          case None => Failure(MissingCamera)
          case Some(sizes) =>
            Success(st.(table := Put(st.table, st.camera.value, MergeHighSpeed(sizes, base, fps))))
    else if st.camera.None? then Failure(UnboundFps)
    else match Get(st.table, st.camera.value)
      case None => Failure(MissingCamera)
      case Some(sizes) =>
        Success(st.(table := Put(st.table, st.camera.value, Put(sizes, res, st.fps))))
  }

  /** The loop: `Step` over the lines in order; an exception ends it. */
  function Scan(lines: seq<string>): Result<ParserState, CameraError>
    decreases |lines|
  {
    if |lines| == 0 then Success(Start)
    else
      var st :- Scan(lines[..|lines| - 1]);
      Step(st, Last(lines))
  }

  /** The final comprehension: cameras keep their order, each camera's
      resolutions are listed in reverse. */
  function Finish(table: Table): (r: Table)
    ensures Keys(r) == Keys(table)
    ensures forall c :: Get(r, c) == match Get(table, c)
                                     case None => None
                                     case Some(sizes) => Some(Reversed(sizes))
  {
    MapValues(table, Reversed)
  }

  /** `get_camera_sizes()` once the command's output is captured. */
  function ParseCameraSizes(output: string): Result<Table, CameraError>
  {
    var st :- Scan(Lines(output));
    Success(Finish(st.table))
  }

  // ---------------------------------------------------------------------------
  // Reference definitions over the lines

  /** The ids of the camera lines the regex accepts, in order. */
  function CameraIds(lines: seq<string>): seq<int>
    decreases |lines|
  {
    if |lines| == 0 then []
    else
      var l := Last(lines);
      CameraIds(lines[..|lines| - 1]) +
        (if IsCameraLine(l) && CameraLine(Strip(l)).Some? then [CameraLine(Strip(l)).value.0] else [])
  }

  /** Some line is the high-speed header. */
  function HeaderSeen(lines: seq<string>): bool
    decreases |lines|
  {
    |lines| > 0 && (HeaderSeen(lines[..|lines| - 1]) || IsHeader(Last(lines)))
  }

  /** The camera current after the lines: that of the last camera line the
      regex accepts. */
  function CurrentCamera(lines: seq<string>): Option<int>
    decreases |lines|
  {
    if |lines| == 0 then None
    else if MatchedId(Last(lines)).Some? then MatchedId(Last(lines))
    else CurrentCamera(lines[..|lines| - 1])
  }

  /** High-speed mode after the lines: the header came after the last camera
      line the regex accepts. */
  function HighSpeedAfter(lines: seq<string>): bool
    decreases |lines|
  {
    if |lines| == 0 then false
    else if MatchedId(Last(lines)).Some? then false
    else HighSpeedAfter(lines[..|lines| - 1]) || IsHeader(Last(lines))
  }

  /** The resolution keys of camera `c` after the lines, in insertion order:
      a dash line read while `c` is current adds its resolution in normal mode,
      and in high-speed mode, when it matches the pattern, moves or adds the
      `base[高速]` key. */
  function ResolutionKeys(lines: seq<string>, c: int): seq<string>
    decreases |lines|
  {
    if |lines| == 0 then []
    else
      var init := lines[..|lines| - 1];
      var l := Last(lines);
      var keys := ResolutionKeys(init, c);
      if !IsResolutionLine(l) || CurrentCamera(init) != Some(c) then keys
      else if !HighSpeedAfter(init) then PutKey(keys, ResolutionOf(l))
      else match HighSpeedLine(ResolutionOf(l))
        case None => keys
        case Some((base, _)) => MergedKeys(keys, base)
  }

  /** The resolution keys camera `c` has in the table; none without an entry. */
  function SizeKeys(table: Table, c: int): seq<string> {
    match Get(table, c)
    case None => []
    case Some(sizes) => Keys(sizes)
  }

  /** `line`, read after the lines `before`, raises: no camera line has
      matched before it, and it is a resolution line read in normal mode, or
      one that matches the high-speed pattern. */
  predicate FailsAfter(before: seq<string>, line: string) {
    && CameraIds(before) == []
    && IsResolutionLine(line)
    && (HeaderSeen(before) ==> HighSpeedLine(ResolutionOf(line)).Some?)
  }

  /** Some line of `lines`, read after the lines before it, raises. */
  predicate Blocked(lines: seq<string>) {
    SomeLineFails(lines, FailsAfter)
  }

  /** Some line of `lines` satisfies `fails` given the lines before it. */
  predicate SomeLineFails(lines: seq<string>, fails: (seq<string>, string) -> bool) {
    exists k: nat :: k < |lines| && fails(lines[..k], lines[k])
  }

  /** What the loop keeps true: cameras and resolutions are unique keys, the
      current camera has an entry, and nothing is stored before a camera line. */
  ghost predicate Inv(st: ParserState) {
    && Unique(Keys(st.table))
    && (forall c :: Get(st.table, c).Some? ==> Unique(Keys(Get(st.table, c).value)))
    && (st.camera.Some? ==> st.camera.value in Keys(st.table))
    && (st.camera.None? ==> st.table == [])
  }

  // ---------------------------------------------------------------------------
  // One line at a time

  /** A camera line the regex accepts makes its camera current (adding an empty
      entry the first time), takes its fps list and leaves high-speed mode. */
  lemma StepCamera(st: ParserState, raw: string, id: int, fps: seq<string>)
    requires Inv(st)
    requires IsCameraLine(raw) && CameraLine(Strip(raw)) == Some((id, fps))
    ensures Step(st, raw).Success?
    ensures var st' := Step(st, raw).value;
      && Inv(st')
      && st'.camera == Some(id) && st'.fps == fps && !st'.highSpeed
      && Get(st'.table, id) == (if id in Keys(st.table) then Get(st.table, id) else Some([]))
      && (forall c :: c != id ==> Get(st'.table, c) == Get(st.table, c))
  {
    var table := AddCamera(st.table, id);
    assert Step(st, raw) == Success(ParserState(table, Some(id), fps, false));
    AddCameraInv(st, id);
  }

  /** `camera_sizes[id] = {}` unless `id` is already a key. */
  function AddCamera(table: Table, id: int): Table
  {
    if id in Keys(table) then table else Put(table, id, [])
  }

  lemma AddCameraInv(st: ParserState, id: int)
    requires Inv(st)
    ensures var table := AddCamera(st.table, id);
      && Unique(Keys(table))
      && (forall c :: Get(table, c).Some? ==> Unique(Keys(Get(table, c).value)))
      && id in Keys(table)
      && Get(table, id) == (if id in Keys(st.table) then Get(st.table, id) else Some([]))
      && (forall c :: c != id ==> Get(table, c) == Get(st.table, c))
  {
    if id !in Keys(st.table) {
      var table := Put(st.table, id, []);
      PutUnique(st.table, id, []);
      forall c | Get(table, c).Some?
        ensures Unique(Keys(Get(table, c).value))
      {
        if c == id {
          assert Keys(Get(table, c).value) == [];
        } else {
          assert Get(table, c) == Get(st.table, c);
        }
      }
    }
  }

  /** A line that starts like a camera line but does not match changes nothing. */
  lemma StepUnmatchedCamera(st: ParserState, raw: string)
    requires IsCameraLine(raw) && CameraLine(Strip(raw)).None?
    ensures Step(st, raw) == Success(st)
  {
  }

  /** The header only switches to high-speed mode. */
  lemma StepHeader(st: ParserState, raw: string)
    requires IsHeader(raw)
    ensures Step(st, raw) == Success(st.(highSpeed := true))
  {
  }

  /** Any other line that does not start with `-` changes nothing. */
  lemma StepOther(st: ParserState, raw: string)
    requires !IsCameraLine(raw) && !IsHeader(raw) && !IsResolutionLine(raw)
    ensures Step(st, raw) == Success(st)
  {
  }

  /** In normal mode a resolution line stores the current fps list under that
      resolution of the current camera, replacing an earlier value. */
  lemma StepResolution(st: ParserState, raw: string)
    requires Inv(st) && st.camera.Some? && !st.highSpeed
    requires IsResolutionLine(raw)
    ensures Step(st, raw).Success?
    ensures var st' := Step(st, raw).value;
      var c := st.camera.value;
      && Inv(st')
      && st'.camera == st.camera && st'.fps == st.fps && st'.highSpeed == st.highSpeed
      && Keys(st'.table) == Keys(st.table)
      && Get(st'.table, c).Some?
      && Get(Get(st'.table, c).value, ResolutionOf(raw)) == Some(st.fps)
      && Keys(Get(st'.table, c).value) == PutKey(Keys(Get(st.table, c).value), ResolutionOf(raw))
      && (forall res :: res != ResolutionOf(raw) ==>
            Get(Get(st'.table, c).value, res) == Get(Get(st.table, c).value, res))
      && (forall c' :: c' != c ==> Get(st'.table, c') == Get(st.table, c'))
  {
    var c := st.camera.value;
    var sizes := Get(st.table, c).value;
    var sizes' := Put(sizes, ResolutionOf(raw), st.fps);
    assert Step(st, raw) == Success(st.(table := Put(st.table, c, sizes')));
    PutUnique(sizes, ResolutionOf(raw), st.fps);
    UpdateCamera(st, sizes');
  }

  /** In high-speed mode a matching line files its rates under `base[高速]`; an
      earlier entry for `base` is moved there, its rates first. */
  lemma StepHighSpeed(st: ParserState, raw: string, base: string, fps: seq<string>)
    requires Inv(st) && st.camera.Some? && st.highSpeed
    requires IsResolutionLine(raw) && HighSpeedLine(ResolutionOf(raw)) == Some((base, fps))
    ensures Step(st, raw).Success?
    ensures var st' := Step(st, raw).value;
      var c := st.camera.value;
      var before := Get(st.table, c).value;
      && Inv(st')
      && st'.camera == st.camera && st'.fps == st.fps && st'.highSpeed
      && Keys(st'.table) == Keys(st.table)
      && Get(st'.table, c).Some?
      && Get(Get(st'.table, c).value, base + HighSpeedMarker)
           == Some((match Get(before, base) case None => [] case Some(prev) => prev) + fps)
      && Get(Get(st'.table, c).value, base) == None
      && (forall res :: res != base && res != base + HighSpeedMarker ==>
            Get(Get(st'.table, c).value, res) == Get(before, res))
      && Keys(Get(st'.table, c).value) == MergedKeys(Keys(before), base)
      && (forall c' :: c' != c ==> Get(st'.table, c') == Get(st.table, c'))
  {
    var c := st.camera.value;
    var sizes := Get(st.table, c).value;
    var merged := MergeHighSpeed(sizes, base, fps);
    assert Step(st, raw) == Success(st.(table := Put(st.table, c, merged)));
    MergeHighSpeedGet(sizes, base, fps);
    UpdateCamera(st, merged);
  }

  /** Replacing the current camera's sizes by sizes with distinct keys keeps
      the invariant and the camera order, and touches no other camera. */
  lemma UpdateCamera(st: ParserState, sizes: Sizes)
    requires Inv(st) && st.camera.Some? && Unique(Keys(sizes))
    ensures var c := st.camera.value;
      var st' := st.(table := Put(st.table, c, sizes));
      && Inv(st')
      && Keys(st'.table) == Keys(st.table)
      && Get(st'.table, c) == Some(sizes)
      && (forall c' :: c' != c ==> Get(st'.table, c') == Get(st.table, c'))
  {
    PutUnique(st.table, st.camera.value, sizes);
  }

  /** What `MergeHighSpeed` does to the sizes of one camera. */
  lemma MergeHighSpeedGet(sizes: Sizes, base: string, fps: seq<string>)
    requires Unique(Keys(sizes))
    ensures var merged := MergeHighSpeed(sizes, base, fps);
      && Unique(Keys(merged))
      && Get(merged, base + HighSpeedMarker)
           == Some((match Get(sizes, base) case None => [] case Some(prev) => prev) + fps)
      && Get(merged, base) == None
      && (forall res :: res != base && res != base + HighSpeedMarker ==> Get(merged, res) == Get(sizes, res))
      && Keys(merged) == MergedKeys(Keys(sizes), base)
  {
    assert base != base + HighSpeedMarker by {
      assert |base + HighSpeedMarker| == |base| + 4;
    }
    match Get(sizes, base)
    case Some(prev) =>
      PutUnique(Remove(sizes, base), base + HighSpeedMarker, prev + fps);
    case None =>
      assert fps == [] + fps;
      PutUnique(sizes, base + HighSpeedMarker, fps);
  }

  /** In high-speed mode a resolution line the pattern rejects changes nothing. */
  lemma StepHighSpeedUnmatched(st: ParserState, raw: string)
    requires st.highSpeed && IsResolutionLine(raw) && HighSpeedLine(ResolutionOf(raw)).None?
    ensures Step(st, raw) == Success(st)
  {
  }

  // ---------------------------------------------------------------------------
  // The whole loop

  /** A step from a state that keeps the invariant: it fails exactly when no
      camera is current and the line is a resolution line that the current mode
      stores; otherwise the invariant survives. */
  lemma StepFailsIff(st: ParserState, raw: string)
    requires Inv(st)
    ensures Step(st, raw).Failure? <==>
      st.camera.None? && IsResolutionLine(raw) && (st.highSpeed ==> HighSpeedLine(ResolutionOf(raw)).Some?)
    ensures Step(st, raw).Failure? ==>
      Step(st, raw).error == if st.highSpeed then MissingCamera else UnboundFps
    ensures Step(st, raw).Success? ==> Inv(Step(st, raw).value)
  {
    if IsCameraLine(raw) {
      match CameraLine(Strip(raw))
      case None =>
      case Some((id, fps)) => StepCamera(st, raw, id, fps);
    } else if IsResolutionLine(raw) && st.camera.Some? {
      if st.highSpeed {
        match HighSpeedLine(ResolutionOf(raw))
        case None =>
        case Some((base, fps)) => StepHighSpeed(st, raw, base, fps);
      } else {
        StepResolution(st, raw);
      }
    }
  }

  /** The id a line makes current, if it is a camera line the regex accepts. */
  function MatchedId(raw: string): Option<int>
  {
    if IsCameraLine(raw) && CameraLine(Strip(raw)).Some? then Some(CameraLine(Strip(raw)).value.0) else None
  }

  /** What a successful step does to the cameras and the mode. */
  lemma StepControl(st: ParserState, raw: string)
    requires Inv(st) && Step(st, raw).Success?
    ensures var st' := Step(st, raw).value;
      && Inv(st')
      && st'.camera == (if MatchedId(raw).Some? then MatchedId(raw) else st.camera)
      && st'.highSpeed == (if MatchedId(raw).Some? then false else st.highSpeed || IsHeader(raw))
      && Keys(st'.table) == match MatchedId(raw)
                            case None => Keys(st.table)
                            case Some(id) => if id in Keys(st.table) then Keys(st.table) else Keys(st.table) + [id]
  {
    StepFailsIff(st, raw);
    if IsCameraLine(raw) {
      CameraLineControl(st, raw);
    } else if IsResolutionLine(raw) && st.camera.Some? {
      ResolutionLineControl(st, raw);
    }
  }

  /** A camera line the regex accepts makes its id current, leaves high-speed
      mode and adds the id to the cameras when new; one it rejects changes
      nothing. */
  lemma CameraLineControl(st: ParserState, raw: string)
    requires Inv(st) && IsCameraLine(raw)
    ensures Step(st, raw).Success?
    ensures var st' := Step(st, raw).value;
      match MatchedId(raw)
      case None => st' == st
      case Some(id) =>
        && st'.camera == Some(id) && !st'.highSpeed
        && Keys(st'.table) == if id in Keys(st.table) then Keys(st.table) else Keys(st.table) + [id]
  {
    match CameraLine(Strip(raw))
    case None => StepUnmatchedCamera(st, raw);
    case Some((id, fps)) =>
      StepCamera(st, raw, id, fps);
      assert Step(st, raw).value.table == AddCamera(st.table, id);
  }

  /** A dash line read while a camera is current keeps the camera, the mode and
      the cameras' order. */
  lemma ResolutionLineControl(st: ParserState, raw: string)
    requires Inv(st) && st.camera.Some? && IsResolutionLine(raw)
    ensures Step(st, raw).Success?
    ensures var st' := Step(st, raw).value;
      st'.camera == st.camera && st'.highSpeed == st.highSpeed && Keys(st'.table) == Keys(st.table)
  {
    if st.highSpeed {
      match HighSpeedLine(ResolutionOf(raw))
      case None => StepHighSpeedUnmatched(st, raw);
      case Some((base, fps)) => StepHighSpeed(st, raw, base, fps);
    } else {
      StepResolution(st, raw);
    }
  }

  /** What a successful step does to the resolution keys of camera `c`. */
  lemma StepKeys(st: ParserState, raw: string, c: int)
    requires Inv(st) && Step(st, raw).Success?
    ensures SizeKeys(Step(st, raw).value.table, c) ==
      if !IsResolutionLine(raw) || st.camera != Some(c) then SizeKeys(st.table, c)
      else if !st.highSpeed then PutKey(SizeKeys(st.table, c), ResolutionOf(raw))
      else match HighSpeedLine(ResolutionOf(raw))
        case None => SizeKeys(st.table, c)
        case Some((base, _)) => MergedKeys(SizeKeys(st.table, c), base)
  {
    if IsCameraLine(raw) {
      CameraLineKeys(st, raw, c);
    } else if IsResolutionLine(raw) {
      if st.camera.Some? {
        ResolutionLineKeys(st, raw, c);
      } else {
        StepFailsIff(st, raw);
        StepHighSpeedUnmatched(st, raw);
      }
    } else if IsHeader(raw) {
      StepHeader(st, raw);
    } else {
      StepOther(st, raw);
    }
  }

  /** Adding a camera with no sizes, or finding it already there, leaves
      every camera's resolution keys as they were. */
  lemma AddedCameraKeys(table: Table, table': Table, id: int, c: int)
    requires Get(table', id) == if id in Keys(table) then Get(table, id) else Some([])
    requires forall c' :: c' != id ==> Get(table', c') == Get(table, c')
    ensures SizeKeys(table', c) == SizeKeys(table, c)
  {
    if c == id && id !in Keys(table) {
      assert Get(table, c) == None;
    }
  }

  /** A camera line leaves every camera's resolution keys as they were. */
  lemma CameraLineKeys(st: ParserState, raw: string, c: int)
    requires Inv(st) && IsCameraLine(raw)
    ensures Step(st, raw).Success?
    ensures SizeKeys(Step(st, raw).value.table, c) == SizeKeys(st.table, c)
  {
    match CameraLine(Strip(raw))
    case None => StepUnmatchedCamera(st, raw);
    case Some((id, fps)) =>
      StepCamera(st, raw, id, fps);
      AddedCameraKeys(st.table, Step(st, raw).value.table, id, c);
  }

  /** A dash line read while a camera is current changes only that camera's
      resolution keys, as `PutKey` or `MergedKeys` says. */
  lemma ResolutionLineKeys(st: ParserState, raw: string, c: int)
    requires Inv(st) && st.camera.Some? && IsResolutionLine(raw)
    ensures Step(st, raw).Success?
    ensures SizeKeys(Step(st, raw).value.table, c) ==
      if st.camera != Some(c) then SizeKeys(st.table, c)
      else if !st.highSpeed then PutKey(SizeKeys(st.table, c), ResolutionOf(raw))
      else match HighSpeedLine(ResolutionOf(raw))
        case None => SizeKeys(st.table, c)
        case Some((base, _)) => MergedKeys(SizeKeys(st.table, c), base)
  {
    if st.highSpeed {
      match HighSpeedLine(ResolutionOf(raw))
      case None => StepHighSpeedUnmatched(st, raw);
      case Some((base, fps)) => HighSpeedKeys(st, raw, base, fps, c);
    } else {
      NormalKeys(st, raw, c);
    }
  }

  /** In normal mode only the current camera's keys change, by `PutKey`. */
  lemma NormalKeys(st: ParserState, raw: string, c: int)
    requires Inv(st) && st.camera.Some? && !st.highSpeed && IsResolutionLine(raw)
    ensures Step(st, raw).Success?
    ensures SizeKeys(Step(st, raw).value.table, c) ==
      if st.camera != Some(c) then SizeKeys(st.table, c)
      else PutKey(SizeKeys(st.table, c), ResolutionOf(raw))
  {
    StepResolution(st, raw);
  }

  /** A matching high-speed line changes only the current camera's keys, by
      `MergedKeys`. */
  lemma HighSpeedKeys(st: ParserState, raw: string, base: string, fps: seq<string>, c: int)
    requires Inv(st) && st.camera.Some? && st.highSpeed
    requires IsResolutionLine(raw) && HighSpeedLine(ResolutionOf(raw)) == Some((base, fps))
    ensures Step(st, raw).Success?
    ensures SizeKeys(Step(st, raw).value.table, c) ==
      if st.camera != Some(c) then SizeKeys(st.table, c)
      else MergedKeys(SizeKeys(st.table, c), base)
  {
    StepHighSpeed(st, raw, base, fps);
  }

  /** A successful loop keeps the invariant; its cameras are those of the camera
      lines, in order of first appearance; before the first camera line the mode
      records whether the header has been seen. */
  lemma {:induction false} ScanState(lines: seq<string>)
    requires Scan(lines).Success?
    ensures var st := Scan(lines).value;
      && Inv(st)
      && Keys(st.table) == Dedup(CameraIds(lines))
      && (st.camera.None? <==> CameraIds(lines) == [])
      && (st.camera.None? ==> st.highSpeed == HeaderSeen(lines))
    decreases |lines|
  {
    if |lines| > 0 {
      var init := lines[..|lines| - 1];
      var l := Last(lines);
      ScanState(init);
      var st := Scan(init).value;
      ScanStep(lines);
      StepControl(st, l);
      var ids := CameraIds(init);
      ReferencesStep(lines);
      match MatchedId(l)
      case Some(id) =>
        DedupSnoc(ids, id);
      case None =>
        assert ids + [] == ids;
    }
  }

  /** A successful loop leaves the current camera and the mode the reference
      definitions name, and each camera with the resolution keys
      `ResolutionKeys` lists, in that order. */
  lemma {:induction false} ScanOrder(lines: seq<string>)
    requires Scan(lines).Success?
    ensures var st := Scan(lines).value;
      && st.camera == CurrentCamera(lines)
      && st.highSpeed == HighSpeedAfter(lines)
      && forall c :: SizeKeys(st.table, c) == ResolutionKeys(lines, c)
    decreases |lines|
  {
    if |lines| > 0 {
      var init := lines[..|lines| - 1];
      var l := Last(lines);
      ScanOrder(init);
      ScanState(init);
      var st := Scan(init).value;
      ScanStep(lines);
      StepControl(st, l);
      forall c
        ensures SizeKeys(Scan(lines).value.table, c) == ResolutionKeys(lines, c)
      {
        StepKeys(st, l, c);
      }
    }
  }

  /** The loop after one more line. */
  lemma ScanStep(lines: seq<string>)
    requires |lines| > 0 && Scan(lines[..|lines| - 1]).Success?
    ensures Scan(lines) == Step(Scan(lines[..|lines| - 1]).value, Last(lines))
  {
  }

  /** The reference definitions after one more line. */
  lemma ReferencesStep(lines: seq<string>)
    requires |lines| > 0
    ensures var init := lines[..|lines| - 1];
      var l := Last(lines);
      && CameraIds(lines) == CameraIds(init) + (if MatchedId(l).Some? then [MatchedId(l).value] else [])
      && HeaderSeen(lines) == (HeaderSeen(init) || IsHeader(l))
  {
  }

  /** The loop raises exactly when some line fails before any camera line has
      matched. */
  lemma {:induction false} ScanFails(lines: seq<string>)
    ensures Scan(lines).Failure? <==> Blocked(lines)
    decreases |lines|
  {
    if |lines| == 0 {
      assert !Blocked(lines);
    } else {
      var init := lines[..|lines| - 1];
      ScanFails(init);
      SomeLineFailsStep(lines, FailsAfter);
      if Scan(init).Success? {
        ScanStep(lines);
        LastFails(lines);
      }
    }
  }

  /** A longer listing has a failing line when its prefix has one, or at its
      last line. */
  lemma SomeLineFailsStep(lines: seq<string>, fails: (seq<string>, string) -> bool)
    requires |lines| > 0
    ensures var init := lines[..|lines| - 1];
      SomeLineFails(lines, fails) <==> SomeLineFails(init, fails) || fails(init, Last(lines))
  {
    var init := lines[..|lines| - 1];
    if SomeLineFails(init, fails) {
      var k: nat :| k < |init| && fails(init[..k], init[k]);
      assert init[..k] == lines[..k];
    }
    if SomeLineFails(lines, fails) {
      var k: nat :| k < |lines| && fails(lines[..k], lines[k]);
      if k < |init| {
        assert init[..k] == lines[..k];
      }
    }
    assert lines[..|init|] == init;
  }

  /** After a successful loop over all but the last line, the last line raises
      exactly when it fails in the sense of `FailsAfter`. */
  lemma LastFails(lines: seq<string>)
    requires |lines| > 0 && Scan(lines[..|lines| - 1]).Success?
    ensures Step(Scan(lines[..|lines| - 1]).value, Last(lines)).Failure? <==> FailsAfter(lines[..|lines| - 1], Last(lines))
  {
    var init := lines[..|lines| - 1];
    ScanState(init);
    StepFailsIff(Scan(init).value, Last(lines));
    assert lines[..|init|] == init;
  }

  /** `get_camera_sizes()`: it raises exactly when some line fails before any
      camera line has matched; otherwise it lists each accepted camera once, in
      order of first appearance, with that camera's resolutions in reverse
      insertion order and their rates as the loop left them. */
  lemma ParseCameraSizesSpec(output: string)
    ensures ParseCameraSizes(output).Failure? <==> Blocked(Lines(output))
    ensures ParseCameraSizes(output).Success? ==>
      var t := ParseCameraSizes(output).value;
      var table := Scan(Lines(output)).value.table;
      && Keys(t) == Dedup(CameraIds(Lines(output)))
      && forall c :: Get(table, c).Some? ==>
           && Get(t, c).Some?
           && Keys(Get(t, c).value) == Reverse(ResolutionKeys(Lines(output), c))
           && forall res :: Get(Get(t, c).value, res) == Get(Get(table, c).value, res)
  {
    ScanFails(Lines(output));
    if Scan(Lines(output)).Success? {
      ScanState(Lines(output));
      ScanOrder(Lines(output));
    }
  }
}
