/** The two scalar helpers of `util.py`: `time_to_seconds` and `check_args`. */
module Scalars {
  import opened Wrappers
  import opened Seqs
  import opened Text

  // ---------------------------------------------------------------------------
  // time_to_seconds

  /** `time_to_seconds(time_str)`: the text split on `:` must give exactly three
      pieces, each accepted by `int()`; the result is `h * 3600 + m * 60 + s`.
      `None` stands for the `ValueError` the function raises otherwise (a wrong
      number of pieces or a piece `int()` rejects). */
  function TimeToSeconds(t: string): (r: Option<int>)
    ensures r.Some? <==>
      var parts := Split(t, ":");
      |parts| == 3 && ParseInt(parts[0]).Some? && ParseInt(parts[1]).Some? && ParseInt(parts[2]).Some?
  {
    var parts := Split(t, ":");
    if |parts| == 3 then CombineFields(ParseInt(parts[0]), ParseInt(parts[1]), ParseInt(parts[2]))
    else None
  }

  /** Hours, minutes and seconds as `int()` read them, to seconds. */
  function CombineFields(h: Option<int>, m: Option<int>, s: Option<int>): Option<int>
  {
    if h.Some? && m.Some? && s.Some? then Some(h.value * 3600 + m.value * 60 + s.value) else None
  }

  lemma CombineRead(ph: Option<int>, pm: Option<int>, ps: Option<int>, h: int, m: int, s: int)
    requires ph == Some(h) && pm == Some(m) && ps == Some(s)
    ensures CombineFields(ph, pm, ps) == Some(h * 3600 + m * 60 + s)
  {
  }

  /** Three colon-free pieces joined by colons: the time is read from them. */
  lemma TimeOfPieces(a: string, b: string, c: string)
    requires forall k :: 0 <= k < |a| ==> a[k] != ':'
    requires forall k :: 0 <= k < |b| ==> b[k] != ':'
    requires forall k :: 0 <= k < |c| ==> c[k] != ':'
    ensures TimeToSeconds(a + ":" + b + ":" + c) == CombineFields(ParseInt(a), ParseInt(b), ParseInt(c))
  {
    SplitThree(a, b, c);
  }

  lemma SplitThree(a: string, b: string, c: string)
    requires forall k :: 0 <= k < |a| ==> a[k] != ':'
    requires forall k :: 0 <= k < |b| ==> b[k] != ':'
    requires forall k :: 0 <= k < |c| ==> c[k] != ':'
    ensures Split(a + ":" + b + ":" + c, ":") == [a, b, c]
  {
    var parts := [a, b, c];
    JoinThree(a, b, c, ":");
    forall k, i | 0 <= k < |parts| && 0 <= i < |parts[k]|
      ensures parts[k][i] != ":"[0]
    {
    }
    SplitJoin(parts, ":");
  }

  /** No character of `str(i)` is a colon. */
  lemma ShowIntNoColon(i: int)
    ensures forall k :: 0 <= k < |ShowInt(i)| ==> ShowInt(i)[k] != ':'
  {
    var d := ShowNat(if i < 0 then -i else i);
    var s := ShowInt(i);
    forall k | 0 <= k < |s| ensures s[k] != ':' {
      if i < 0 {
        assert s == "-" + d;
        if k > 0 {
          assert s[k] == d[k - 1];
          assert IsDigit(d[k - 1]);
        }
      } else {
        assert IsDigit(d[k]);
      }
    }
  }

  /** Three integers written with `str()` and joined by colons read back as
      `h * 3600 + m * 60 + s`, whatever their signs and ranges. */
  lemma TimeOfShownParts(h: int, m: int, s: int)
    ensures TimeToSeconds(ShowInt(h) + ":" + ShowInt(m) + ":" + ShowInt(s)) == Some(h * 3600 + m * 60 + s)
  {
    ShowIntNoColon(h);
    ShowIntNoColon(m);
    ShowIntNoColon(s);
    TimeOfPieces(ShowInt(h), ShowInt(m), ShowInt(s));
    ParseShowInt(h);
    ParseShowInt(m);
    ParseShowInt(s);
    CombineRead(ParseInt(ShowInt(h)), ParseInt(ShowInt(m)), ParseInt(ShowInt(s)), h, m, s);
  }

  lemma Pad2NoColon(n: nat)
    ensures forall k :: 0 <= k < |Pad2(n)| ==> Pad2(n)[k] != ':'
  {
    var s := Pad2(n);
    forall k | 0 <= k < |s| ensures s[k] != ':' {
      assert IsDigit(s[k]);
    }
  }

  /** `HH:MM:SS` for a duration in seconds, hours unbounded. */
  function FormatTime(n: nat): string
  {
    Pad2(n / 3600) + ":" + Pad2(n / 60 % 60) + ":" + Pad2(n % 60)
  }

  /** Reading a duration written as `HH:MM:SS` gives the duration back. */
  lemma TimeRoundTrip(n: nat)
    ensures TimeToSeconds(FormatTime(n)) == Some(n)
  {
    var t := TimeToSeconds(FormatTime(n));
    TimeOfPads(n / 3600, n / 60 % 60, n % 60);
    HoursMinutesSeconds(n);
    assert t.value == n;
  }

  /** Three zero-padded fields joined by colons read back as their seconds. */
  lemma TimeOfPads(h: nat, m: nat, sec: nat)
    ensures TimeToSeconds(Pad2(h) + ":" + Pad2(m) + ":" + Pad2(sec)) == Some(h * 3600 + m * 60 + sec)
  {
    Pad2NoColon(h);
    Pad2NoColon(m);
    Pad2NoColon(sec);
    TimeOfPieces(Pad2(h), Pad2(m), Pad2(sec));
    Pad2Value(h);
    Pad2Value(m);
    Pad2Value(sec);
    CombineRead(ParseInt(Pad2(h)), ParseInt(Pad2(m)), ParseInt(Pad2(sec)), h, m, sec);
  }

  lemma HoursMinutesSeconds(n: nat)
    ensures (n / 3600) * 3600 + (n / 60 % 60) * 60 + n % 60 == n
  {
    assert n == (n / 60) * 60 + n % 60;
    assert n / 60 == (n / 60 / 60) * 60 + n / 60 % 60;
    assert n / 60 / 60 == n / 3600;
  }

  // ---------------------------------------------------------------------------
  // check_args

  predicate EndsWithEquals(arg: string) {
    EndsWith(arg, "=")
  }

  predicate NotEndsWithEquals(arg: string) {
    !EndsWithEquals(arg)
  }

  /** `check_args(args)`: the arguments that end in `=` (an option whose value
      came out empty) are invalid; the valid ones are those that are not among
      the invalid ones; both keep their order. */
  function CheckArgs(args: seq<string>): (r: (seq<string>, seq<string>))
    ensures forall i :: 0 <= i < |r.1| ==> r.1[i] in args && EndsWithEquals(r.1[i])
    ensures forall i :: 0 <= i < |args| && EndsWithEquals(args[i]) ==> args[i] in r.1
    ensures forall i :: 0 <= i < |r.0| ==> r.0[i] in args && !EndsWithEquals(r.0[i])
  {
    var invalid := Filter(args, EndsWithEquals);
    (Filter(args, a => a !in invalid), invalid)
  }

  /** The valid arguments are exactly those not ending in `=`, in order. */
  lemma CheckArgsValid(args: seq<string>)
    ensures CheckArgs(args).0 == Filter(args, NotEndsWithEquals)
  {
    var invalid := Filter(args, EndsWithEquals);
    var notInvalid := a => a !in invalid;
    forall i | 0 <= i < |args|
      ensures notInvalid(args[i]) == NotEndsWithEquals(args[i])
    {
      if EndsWithEquals(args[i]) {
        assert args[i] in invalid;
      }
    }
    FilterAgree(args, notInvalid, NotEndsWithEquals);
  }

  /** Together the valid and the invalid arguments are a rearrangement of the
      input: nothing is lost or duplicated. */
  lemma CheckArgsPartition(args: seq<string>)
    ensures multiset(CheckArgs(args).0) + multiset(CheckArgs(args).1) == multiset(args)
  {
    CheckArgsValid(args);
    FilterPartition(args, EndsWithEquals, NotEndsWithEquals);
  }
}
