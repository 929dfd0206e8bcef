/** The parsing half of `util.get_display_ids()`: the display ids listed in the
    captured output of `scrcpy --list-displays`, one per indented `--display-id=` line. */
module DisplayIds {
  import opened Wrappers
  import opened Seqs
  import opened Text

  const DisplayPrefix := "    --display-id="

  /** What Python raises while reading one id: `split()[0]` of an empty or blank
      segment is an `IndexError`; `int` of a non-integer token is a `ValueError`. */
  datatype DisplayError = IndexError | ValueError

  predicate IsDisplayLine(line: string) {
    StartsWith(line, DisplayPrefix)
  }

  /** The prefix's only `=` is its last character, so `line.split('=')`
      cuts there first. */
  lemma DisplayLineSplit(line: string)
    requires IsDisplayLine(line)
    ensures FindFrom(line, "=", 0) == Some(16)
    ensures Split(line, "=") == [line[..16]] + Split(line[17..], "=")
  {
    assert line[16..17] == DisplayPrefix[16..17];
    HeadHasNoEquals(line);
    FindFirst(line, "=", 0, 16);
  }

  /** No `=` among the first sixteen characters of a display line. */
  lemma HeadHasNoEquals(line: string)
    requires IsDisplayLine(line)
    ensures forall j: nat :: j < 16 ==> !MatchAt(line, "=", j)
  {
    var head := DisplayPrefix[..16];
    assert head == "    --display-id";
    forall j: nat | j < 16
      ensures !MatchAt(line, "=", j)
    {
      assert line[j..j + 1] == [head[j]];
    }
  }


  /** `int(line.split('=')[1].split()[0])` */
  function DisplayIdOf(line: string): Result<int, DisplayError>
    requires IsDisplayLine(line)
  {
    DisplayLineSplit(line);
    var words := Tokens(Split(line, "=")[1]);
    if |words| == 0 then Failure(IndexError)
    else match ParseInt(words[0])
      case None => Failure(ValueError)
      case Some(n) => Success(n)
  }

  /** The loop over the lines: each matching line appends its id; an id that
      cannot be read aborts the whole call. */
  function ScanDisplays(lines: seq<string>): Result<seq<int>, DisplayError>
    decreases |lines|
  {
    if |lines| == 0 then Success([])
    else
      var ids :- ScanDisplays(lines[..|lines| - 1]);
      if IsDisplayLine(Last(lines)) then
        var id :- DisplayIdOf(Last(lines));
        Success(ids + [id])
      else Success(ids)
  }

  /** `get_display_ids()` once the command's output is captured. */
  function ParseDisplayIds(output: string): Result<seq<int>, DisplayError>
  {
    ScanDisplays(Lines(output))
  }

  /** One step of the loop, spelled out. */
  lemma ScanDisplaysStep(lines: seq<string>)
    requires |lines| > 0
    ensures var init := ScanDisplays(lines[..|lines| - 1]);
      ScanDisplays(lines) ==
        if init.Failure? then init
        else if !IsDisplayLine(Last(lines)) then init
        else match DisplayIdOf(Last(lines))
          case Failure(e) => Failure(e)
          case Success(id) => Success(init.value + [id])
  {
  }

  /** The display lines, in order. */
  function DisplayLines(lines: seq<string>): seq<string>
  {
    Filter(lines, IsDisplayLine)
  }

  /** The parse succeeds exactly when every display line yields an id. */
  lemma {:induction false} ScanDisplaysSucceeds(lines: seq<string>)
    ensures ScanDisplays(lines).Success?
        <==> forall k :: 0 <= k < |DisplayLines(lines)| ==> DisplayIdOf(DisplayLines(lines)[k]).Success?
    decreases |lines|
  {
    if |lines| > 0 {
      var init := lines[..|lines| - 1];
      ScanDisplaysSucceeds(init);
      ScanDisplaysStep(lines);
      var d0 := DisplayLines(init);
      var d := DisplayLines(lines);
      if IsDisplayLine(Last(lines)) {
        assert d == d0 + [Last(lines)];
        assert d[|d0|] == Last(lines);
        assert forall k :: 0 <= k < |d0| ==> d[k] == d0[k];
        if ScanDisplays(init).Failure? {
          var k :| 0 <= k < |d0| && !DisplayIdOf(d0[k]).Success?;
          assert !DisplayIdOf(d[k]).Success?;
        } else if DisplayIdOf(Last(lines)).Failure? {
          assert ScanDisplays(lines).Failure?;
          assert !DisplayIdOf(d[|d0|]).Success?;
        } else {
          forall k | 0 <= k < |d|
            ensures DisplayIdOf(d[k]).Success?
          {
            if k < |d0| {
              assert d[k] == d0[k];
            }
          }
        }
      } else {
        assert d == d0;
      }
    }
  }

  /** A successful parse returns one id per display line, in the order of the lines. */
  lemma {:induction false} ScanDisplaysValues(lines: seq<string>)
    requires ScanDisplays(lines).Success?
    ensures |ScanDisplays(lines).value| == |DisplayLines(lines)|
    ensures forall k :: 0 <= k < |DisplayLines(lines)| ==>
              DisplayIdOf(DisplayLines(lines)[k]) == Success(ScanDisplays(lines).value[k])
    decreases |lines|
  {
    if |lines| > 0 {
      var init := lines[..|lines| - 1];
      ScanDisplaysStep(lines);
      ScanDisplaysValues(init);
      var d0 := DisplayLines(init);
      var d := DisplayLines(lines);
      if IsDisplayLine(Last(lines)) {
        assert d == d0 + [Last(lines)];
      } else {
        assert d == d0;
      }
    }
  }

  /** The first line never counts: stripping the output removed its indentation. */
  lemma FirstLineNeverCounted(output: string)
    ensures !IsDisplayLine(Lines(output)[0])
  {
    FirstLineUnindented(output);
  }

  /** A run of digits followed by whitespace or by nothing is the first word
      of the text before the next `=`. */
  lemma FirstWordOfSegment(digits: string, tail: string)
    requires |digits| > 0 && AllDigits(digits)
    requires tail == [] || IsSpace(tail[0])
    ensures |Tokens(Split(digits + tail, "=")[0])| > 0
    ensures Tokens(Split(digits + tail, "=")[0])[0] == digits
  {
    var x := digits + tail;
    var piece := Split(x, "=")[0];
    var cut := SegmentRest(digits, tail);
    assert piece == digits + cut;
    assert NoSpace(digits);
    TokensWord(digits, cut);
  }

  /** What follows the digits in the text before the next `=`. */
  function SegmentRest(digits: string, tail: string): (cut: string)
    requires AllDigits(digits)
    requires tail == [] || IsSpace(tail[0])
    ensures cut == [] || IsSpace(cut[0])
    ensures Split(digits + tail, "=")[0] == digits + cut
  {
    var x := digits + tail;
    assert forall j: nat :: j < |digits| ==> !MatchAt(x, "=", j) by {
      forall j: nat | j < |digits|
        ensures !MatchAt(x, "=", j)
      {
        assert x[j..j + 1] == [digits[j]];
      }
    }
    match FindFrom(x, "=", 0)
    case None => tail
    case Some(j) =>
      assert x[..j] == digits + tail[..j - |digits|];
      tail[..j - |digits|]
  }

  /** A display line `    --display-id=<n>` followed by whitespace or by nothing
      reads back as `n`, whatever else the line holds. */
  lemma DisplayIdRoundTrip(n: nat, tail: string)
    requires tail == [] || IsSpace(tail[0])
    ensures IsDisplayLine(DisplayPrefix + ShowNat(n) + tail)
    ensures DisplayIdOf(DisplayPrefix + ShowNat(n) + tail) == Success(n)
  {
    var digits := ShowNat(n);
    assert DisplayPrefix + digits + tail == DisplayPrefix + (digits + tail);
    PrefixedSegment(digits + tail);
    FirstWordOfSegment(digits, tail);
    assert ShowInt(n) == digits;
    ParseShowInt(n);
  }

  /** On a line made of the prefix and `rest`, the id is read from the text
      of `rest` before its first `=`. */
  lemma PrefixedSegment(rest: string)
    ensures IsDisplayLine(DisplayPrefix + rest)
    ensures |Split(DisplayPrefix + rest, "=")| > 1
    ensures Split(DisplayPrefix + rest, "=")[1] == Split(rest, "=")[0]
  {
    var line := DisplayPrefix + rest;
    assert line[..17] == DisplayPrefix;
    DisplayLineSplit(line);
    assert line[17..] == rest;
  }

  /** A listing of display lines `    --display-id=<n> ...`, one per id. */
  function Listing(ids: seq<nat>, tails: seq<string>): (lines: seq<string>)
    requires |tails| == |ids|
    ensures |lines| == |ids|
  {
    seq(|ids|, k requires 0 <= k < |ids| => DisplayPrefix + ShowNat(ids[k]) + tails[k])
  }

  /** A listing of N display lines yields its N ids, in order. */
  lemma {:induction false} ListingRoundTrip(ids: seq<nat>, tails: seq<string>)
    requires |tails| == |ids|
    requires forall k :: 0 <= k < |tails| ==> tails[k] == [] || IsSpace(tails[k][0])
    ensures ScanDisplays(Listing(ids, tails)) == Success(ids)
    decreases |ids|
  {
    var lines := Listing(ids, tails);
    if |ids| > 0 {
      var n := |ids| - 1;
      assert lines[..n] == Listing(ids[..n], tails[..n]);
      ListingRoundTrip(ids[..n], tails[..n]);
      DisplayIdRoundTrip(ids[n], tails[n]);
      ScanDisplaysStep(lines);
      assert ids[..n] + [ids[n]] == ids;
    }
  }
}
