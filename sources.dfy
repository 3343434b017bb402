/** The revision time of a source checkout (src/source.rs): the newest
    modification time printed by `find -printf %T@` for a copied directory,
    or the commit time printed by `git log -1 --format=%ct` for a clone.
    Running `cp`, `find` and `git` is left to the caller: each function here
    takes the captured standard output as text. */
module Sources {
  import opened Common

  /** Characters with the Unicode White_Space property, which `str::trim`
      strips from both ends. */
  predicate IsWhiteSpace(c: char)
  {
    ('\U{9}' <= c <= '\U{D}') || c == '\U{20}' || c == '\U{85}' || c == '\U{A0}' ||
    c == '\U{1680}' || ('\U{2000}' <= c <= '\U{200A}') || c == '\U{2028}' || c == '\U{2029}' ||
    c == '\U{202F}' || c == '\U{205F}' || c == '\U{3000}'
  }

  /** `str::trim_start`: the suffix left after dropping leading white space. */
  function TrimStart(s: string): (r: string)
    ensures |r| <= |s| && r == s[|s| - |r|..]
    ensures r != [] ==> !IsWhiteSpace(r[0])
    ensures forall i :: 0 <= i < |s| - |r| ==> IsWhiteSpace(s[i])
  {
    if s != [] && IsWhiteSpace(s[0]) then TrimStart(s[1..]) else s
  }

  /** `str::trim_end`: the prefix left after dropping trailing white space. */
  function TrimEnd(s: string): (r: string)
    ensures |r| <= |s| && r == s[..|r|]
    ensures r != [] ==> !IsWhiteSpace(r[|r| - 1])
    ensures forall i :: |r| <= i < |s| ==> IsWhiteSpace(s[i])
  {
    if s != [] && IsWhiteSpace(s[|s| - 1]) then TrimEnd(s[..|s| - 1]) else s
  }

  /** `str::trim`. */
  function Trim(s: string): string
  {
    TrimEnd(TrimStart(s))
  }

  /** `s[i..j]` is what is left of `s` after cutting white space off
      both ends. */
  predicate CutAt(s: string, i: int, j: int)
  {
    && 0 <= i <= j <= |s|
    && (forall k :: 0 <= k < i ==> IsWhiteSpace(s[k]))
    && (forall k :: j <= k < |s| ==> IsWhiteSpace(s[k]))
  }

  /** `trim` keeps a contiguous piece of its input, cut only at white space,
      and never starts or ends with white space. */
  lemma TrimSlice(s: string)
    ensures exists i, j :: CutAt(s, i, j) && Trim(s) == s[i..j]
    ensures Trim(s) != [] ==> !IsWhiteSpace(Trim(s)[0]) && !IsWhiteSpace(Trim(s)[|Trim(s)| - 1])
  {
    var start := TrimStart(s);
    var i := |s| - |start|;
    var t := TrimEnd(start);
    var j := i + |t|;
    assert Trim(s) == s[i..j] by {
      assert start == s[i..];
      assert t == start[..|t|];
    }
    assert CutAt(s, i, j) by {
      forall k | j <= k < |s|
        ensures IsWhiteSpace(s[k])
      {
        assert s[k] == start[k - i];
      }
    }
    if t != [] {
      assert t[0] == start[0];
    }
  }

  /** `str::split(c)`: the pieces between occurrences of `c`; always at
      least one. */
  function Split(s: string, c: char): (parts: seq<string>)
    ensures |parts| >= 1
  {
    if s == [] then [[]]
    else
      var rest := Split(s[1..], c);
      if s[0] == c then [[]] + rest else [[s[0]] + rest[0]] + rest[1..]
  }

  function Join(parts: seq<string>, c: char): string
    requires |parts| >= 1
  {
    if |parts| == 1 then parts[0] else parts[0] + [c] + Join(parts[1..], c)
  }

  /** Splitting loses nothing: joining the pieces with `c` gives the text
      back, and no piece contains `c`. */
  lemma {:induction false} SplitJoin(s: string, c: char)
    ensures Join(Split(s, c), c) == s
    ensures forall i :: 0 <= i < |Split(s, c)| ==> c !in Split(s, c)[i]
  {
    if s != [] {
      SplitJoin(s[1..], c);
      var rest := Split(s[1..], c);
      if s[0] != c {
        if |rest| == 1 {
          assert Split(s, c) == [[s[0]] + rest[0]];
        } else {
          assert Split(s, c)[1..] == rest[1..];
        }
      } else {
        assert Split(s, c)[1..] == rest;
      }
    }
  }

  /** The first piece of a split is everything before the first `c`. */
  lemma {:induction false} SplitFirst(x: string, c: char, y: string)
    requires c !in x
    ensures Split(x, c)[0] == x
    ensures Split(x + [c] + y, c)[0] == x
  {
    if x != [] {
      SplitFirst(x[1..], c, y);
      assert (x + [c] + y)[1..] == x[1..] + [c] + y;
    } else {
      assert (x + [c] + y) == [c] + y;
    }
  }

  /** `ParseIntError`'s kinds for an unsigned type. */
  datatype ParseIntError = Empty | InvalidDigit | PosOverflow

  /** The `Display` text of a `ParseIntError`. */
  function Describe(e: ParseIntError): string
  {
    match e
    case Empty => "cannot parse integer from empty string"
    case InvalidDigit => "invalid digit found in string"
    case PosOverflow => "number too large to fit in target type"
  }

  predicate IsDigit(c: char)
  {
    '0' <= c <= '9'
  }

  function DigitValue(c: char): nat
    requires IsDigit(c)
  {
    c as int - '0' as int
  }

  predicate AllDigits(s: string)
  {
    forall i :: 0 <= i < |s| ==> IsDigit(s[i])
  }

  function Pow10(n: nat): (r: nat)
    ensures r >= 1
  {
    if n == 0 then 1 else 10 * Pow10(n - 1)
  }

  /** The number a string of decimal digits denotes. */
  function DecimalValue(s: string): nat
    requires AllDigits(s)
  {
    if s == [] then 0 else DigitValue(s[0]) * Pow10(|s| - 1) + DecimalValue(s[1..])
  }

  /** The digit loop of `u64::from_str`: left to right, failing on the first
      character that is not a digit, or as soon as the value passes
      `u64::MAX`. */
  function ParseDigits(s: string, acc: U64): Result<U64, ParseIntError>
  {
    if s == [] then Ok(acc)
    else if !IsDigit(s[0]) then Err(InvalidDigit)
    else
      var next := acc * 10 + DigitValue(s[0]);
      if next >= U64_LIMIT then Err(PosOverflow) else ParseDigits(s[1..], next)
  }

  /** The digits after an optional leading '+'. */
  function Unsigned(s: string): string
  {
    if s != [] && s[0] == '+' then s[1..] else s
  }

  /** `str::parse::<u64>`. */
  function ParseU64(s: string): Result<U64, ParseIntError>
  {
    if s == [] then Err(Empty)
    else if |s| == 1 && (s[0] == '+' || s[0] == '-') then Err(InvalidDigit)
    else ParseDigits(Unsigned(s), 0)
  }

  /** Moving one digit from the text into the accumulator keeps the total. */
  lemma ShiftDigit(acc: nat, d: nat, p: nat, rest: nat)
    ensures acc * (10 * p) + (d * p + rest) == (acc * 10 + d) * p + rest
  {
  }

  lemma AtLeastOnce(n: nat, p: nat)
    requires p >= 1
    ensures n * p >= n
  {
  }

  lemma {:induction false} ParseDigitsOfDigits(s: string, acc: U64)
    requires AllDigits(s)
    ensures ParseDigits(s, acc) ==
      if acc * Pow10(|s|) + DecimalValue(s) < U64_LIMIT then Ok(acc * Pow10(|s|) + DecimalValue(s))
      else Err(PosOverflow)
  {
    if s != [] {
      var d := DigitValue(s[0]);
      var next := acc * 10 + d;
      var n := |s| - 1;
      var p := Pow10(n);
      var rest := DecimalValue(s[1..]);
      assert Pow10(|s|) == 10 * p;
      assert DecimalValue(s) == d * p + rest;
      ShiftDigit(acc, d, p, rest);
      if next < U64_LIMIT {
        ParseDigitsOfDigits(s[1..], next);
      } else {
        AtLeastOnce(next, p);
      }
    }
  }

  lemma {:induction false} ParseDigitsStopsAt(s: string, acc: U64, k: nat)
    requires k < |s| && AllDigits(s[..k]) && !IsDigit(s[k])
    requires acc * Pow10(k) + DecimalValue(s[..k]) < U64_LIMIT
    ensures ParseDigits(s, acc) == Err(InvalidDigit)
  {
    if k > 0 {
      var tail := s[1..];
      var d := DigitValue(s[0]);
      var next := acc * 10 + d;
      var p := Pow10(k - 1);
      var rest := DecimalValue(tail[..k - 1]);
      assert s[..k][0] == s[0] && s[..k][1..] == tail[..k - 1];
      assert AllDigits(tail[..k - 1]) && !IsDigit(tail[k - 1]);
      assert next * p + rest < U64_LIMIT by {
        assert Pow10(k) == 10 * p;
        assert DecimalValue(s[..k]) == d * p + rest;
        ShiftDigit(acc, d, p, rest);
      }
      AtLeastOnce(next, p);
      assert ParseDigits(s, acc) == ParseDigits(tail, next);
      ParseDigitsStopsAt(tail, next, k - 1);
    }
  }

  /** `parse::<u64>` accepts exactly an optional '+' followed by one or more
      decimal digits whose value fits in 64 bits, and then yields that
      value; digits that do not fit give PosOverflow, the empty string
      gives Empty. */
  lemma ParseU64Accepts(s: string)
    ensures ParseU64(s).Ok? <==>
      Unsigned(s) != [] && AllDigits(Unsigned(s)) && DecimalValue(Unsigned(s)) < U64_LIMIT
    ensures ParseU64(s).Ok? ==> ParseU64(s).value == DecimalValue(Unsigned(s))
    ensures Unsigned(s) != [] && AllDigits(Unsigned(s)) && DecimalValue(Unsigned(s)) >= U64_LIMIT ==>
      ParseU64(s) == Err(PosOverflow)
    ensures s == [] ==> ParseU64(s) == Err(Empty)
  {
    var u := Unsigned(s);
    if AllDigits(u) {
      ParseDigitsOfDigits(u, 0);
    } else if s != [] && !(|s| == 1 && (s[0] == '+' || s[0] == '-')) {
      var k :| 0 <= k < |u| && !IsDigit(u[k]);
      var j := FirstNonDigit(u, k);
      PrefixOfDigitsFits(u, j);
    }
  }

  /** The first position at or before `k` holding a non-digit. */
  function FirstNonDigit(s: string, k: nat): (j: nat)
    requires k < |s| && !IsDigit(s[k])
    ensures j <= k && !IsDigit(s[j]) && AllDigits(s[..j])
  {
    if exists i :: 0 <= i < k && !IsDigit(s[i]) then
      var i :| 0 <= i < k && !IsDigit(s[i]);
      FirstNonDigit(s, i)
    else k
  }

  /** Whatever the digits before position `j`, the digit loop fails there or
      earlier. */
  lemma PrefixOfDigitsFits(s: string, j: nat)
    requires j < |s| && AllDigits(s[..j]) && !IsDigit(s[j])
    ensures ParseDigits(s, 0).Err?
  {
    if DecimalValue(s[..j]) < U64_LIMIT {
      ParseDigitsStopsAt(s, 0, j);
    } else {
      OverflowBeforeEnd(s, 0, j);
    }
  }

  lemma {:induction false} OverflowBeforeEnd(s: string, acc: U64, j: nat)
    requires j <= |s| && AllDigits(s[..j])
    requires acc * Pow10(j) + DecimalValue(s[..j]) >= U64_LIMIT
    ensures ParseDigits(s, acc) == Err(PosOverflow)
  {
    if j > 0 {
      var d := DigitValue(s[0]);
      var next := acc * 10 + d;
      var p := Pow10(j - 1);
      var rest := DecimalValue(s[1..][..j - 1]);
      assert s[..j][0] == s[0] && s[..j][1..] == s[1..][..j - 1];
      assert Pow10(j) == 10 * p;
      assert DecimalValue(s[..j]) == d * p + rest;
      ShiftDigit(acc, d, p, rest);
      if next < U64_LIMIT {
        OverflowBeforeEnd(s[1..], next, j - 1);
      }
    }
  }

  /** The first non-digit stops the parse with InvalidDigit, provided the
      digits before it still fit in 64 bits. */
  lemma ParseU64RejectsNonDigit(s: string, k: nat)
    requires k < |Unsigned(s)| && AllDigits(Unsigned(s)[..k]) && !IsDigit(Unsigned(s)[k])
    requires DecimalValue(Unsigned(s)[..k]) < U64_LIMIT
    ensures ParseU64(s) == Err(InvalidDigit)
  {
    if !(|s| == 1 && (s[0] == '+' || s[0] == '-')) {
      ParseDigitsStopsAt(Unsigned(s), 0, k);
    }
  }

  /** The decimal digits of `n`, without leading zeros. */
  function ToDecimal(n: nat): (s: string)
    ensures s != [] && AllDigits(s)
  {
    if n < 10 then ['0' + n as char] else ToDecimal(n / 10) + ['0' + (n % 10) as char]
  }

  lemma {:induction false} DecimalValueAppend(s: string, c: char)
    requires AllDigits(s) && IsDigit(c)
    ensures AllDigits(s + [c]) && DecimalValue(s + [c]) == DecimalValue(s) * 10 + DigitValue(c)
  {
    if s != [] {
      var d := DigitValue(s[0]);
      var p := Pow10(|s| - 1);
      var rest := DecimalValue(s[1..]);
      assert (s + [c])[1..] == s[1..] + [c];
      DecimalValueAppend(s[1..], c);
      assert Pow10(|s|) == 10 * p;
      assert DecimalValue(s + [c]) == d * (10 * p) + (rest * 10 + DigitValue(c));
      Distribute(d, p, rest, DigitValue(c));
    }
  }

  lemma Distribute(d: nat, p: nat, rest: nat, last: nat)
    ensures d * (10 * p) + (rest * 10 + last) == (d * p + rest) * 10 + last
  {
  }

  lemma {:induction false} DecimalValueOfToDecimal(n: nat)
    ensures DecimalValue(ToDecimal(n)) == n
  {
    if n >= 10 {
      DecimalValueOfToDecimal(n / 10);
      DecimalValueAppend(ToDecimal(n / 10), '0' + (n % 10) as char);
    }
  }

  /** Every `u64` printed in decimal parses back to itself. */
  lemma ParseU64RoundTrip(n: U64)
    ensures ParseU64(ToDecimal(n)) == Ok(n)
  {
    DecimalValueOfToDecimal(n);
    ParseU64Accepts(ToDecimal(n));
  }

  const FIND_NOT_FOUND: string := "Find time not found"
  const FIND_NOT_A_NUMBER: string := "Find time not a number: "
  const GIT_NOT_A_NUMBER: string := "Git log time not a number: "
  const UNKNOWN_KIND: string := "Unknown source kind: "

  /** `stdout.trim().lines()`, each line trimmed again. The `\r` that
      `lines()` drops before a `\n` is white space, so the per-line trim
      removes it in any case. */
  function FindLines(stdout: string): seq<string>
  {
    if Trim(stdout) == [] then []
    else
      var pieces := Split(Trim(stdout), '\n');
      seq(|pieces|, i requires 0 <= i < |pieces| => Trim(pieces[i]))
  }

  /** The seconds of one `%T@` line: the text before the first '.',
      parsed as a `u64`. */
  function LineSeconds(line: string): Result<U64, ParseIntError>
  {
    ParseU64(Split(line, '.')[0])
  }

  /** The running maximum over `lines`, or the first parse error. */
  function MaxSeconds(lines: seq<string>): Result<Option<U64>, ParseIntError>
  {
    if lines == [] then Ok(None)
    else
      match MaxSeconds(lines[..|lines| - 1])
      case Err(e) => Err(e)
      case Ok(latest) =>
        match LineSeconds(lines[|lines| - 1])
        case Err(e) => Err(e)
        case Ok(time) => Ok(Some(Later(latest, time)))
  }

  function Later(latest: Option<U64>, time: U64): U64
  {
    match latest
    case None => time
    case Some(earlier) => if time > earlier then time else earlier
  }

  /** The newest time over `lines`, or the message for the first line
      that does not parse, or for there being no line at all. */
  function TimeOfLines(lines: seq<string>): Result<U64, string>
  {
    match MaxSeconds(lines)
    case Err(e) => Err(FIND_NOT_A_NUMBER + Describe(e))
    case Ok(None) => Err(FIND_NOT_FOUND)
    case Ok(Some(time)) => Ok(time)
  }

  /** The `dir` branch of `Source::download` after `find` has run. */
  function FindTimeOf(stdout: string): Result<U64, string>
  {
    TimeOfLines(FindLines(stdout))
  }

  lemma {:induction false} MaxSecondsStops(lines: seq<string>, k: nat)
    requires k <= |lines| && MaxSeconds(lines[..k]).Err?
    ensures MaxSeconds(lines) == MaxSeconds(lines[..k])
    decreases |lines| - k
  {
    if k < |lines| {
      var init := lines[..|lines| - 1];
      assert init[..k] == lines[..k];
      MaxSecondsStops(init, k);
    } else {
      assert lines[..k] == lines;
    }
  }

  /** One more line of the fold. */
  lemma MaxSecondsExtend(lines: seq<string>, i: nat)
    requires i < |lines| && MaxSeconds(lines[..i]).Ok?
    ensures MaxSeconds(lines[..i + 1]) ==
      match LineSeconds(lines[i])
      case Err(e) => Err(e)
      case Ok(time) => Ok(Some(Later(MaxSeconds(lines[..i]).value, time)))
  {
    assert lines[..i + 1][..i] == lines[..i];
  }

  /** `Source::download` for kind `dir`, from the output of `find`: the loop
      keeping the newest time seen so far. */
  method FindTime(stdout: string) returns (r: Result<U64, string>)
    ensures r == FindTimeOf(stdout)
  {
    r := NewestTime(FindLines(stdout));
  }

  /** The loop of the `dir` branch over the lines of the output. */
  method NewestTime(lines: seq<string>) returns (r: Result<U64, string>)
    ensures r == TimeOfLines(lines)
  {
    var timeOpt: Option<U64> := None;
    for i := 0 to |lines|
      invariant MaxSeconds(lines[..i]) == Ok(timeOpt)
    {
      var timeStr := Split(lines[i], '.')[0];
      var time := ParseU64(timeStr);
      MaxSecondsExtend(lines, i);
      if time.Err? {
        MaxSecondsStops(lines, i + 1);
        return Err(FIND_NOT_A_NUMBER + Describe(time.error));
      }
      match timeOpt {
        case Some(oldTime) =>
          if time.value > oldTime {
            timeOpt := Some(time.value);
          } else {
            timeOpt := Some(oldTime);
          }
        case None =>
          timeOpt := Some(time.value);
      }
    }
    assert lines[..|lines|] == lines;
    match timeOpt {
      case Some(time) => r := Ok(time);
      case None => r := Err(FIND_NOT_FOUND);
    }
  }

  /** `time` is at least the seconds of every line of `lines`, all of
      which parse. */
  predicate Bounds(lines: seq<string>, time: U64)
  {
    forall i :: 0 <= i < |lines| ==> LineSeconds(lines[i]).Ok? && LineSeconds(lines[i]).value <= time
  }

  /** `time` is the largest of the seconds of `lines`, all of which parse. */
  predicate IsNewest(lines: seq<string>, time: U64)
  {
    Bounds(lines, time) && exists i :: 0 <= i < |lines| && LineSeconds(lines[i]) == Ok(time)
  }

  lemma {:induction false} MaxSecondsBounds(lines: seq<string>)
    requires MaxSeconds(lines).Ok?
    ensures MaxSeconds(lines).value.Some? <==> lines != []
    ensures lines != [] ==> Bounds(lines, MaxSeconds(lines).value.value)
  {
    if lines != [] {
      var last := |lines| - 1;
      var init := lines[..last];
      MaxSecondsBounds(init);
      var latest := MaxSeconds(init).value;
      var t := LineSeconds(lines[last]).value;
      var result := Later(latest, t);
      assert MaxSeconds(lines) == Ok(Some(result));
      forall i | 0 <= i < |lines|
        ensures LineSeconds(lines[i]).Ok? && LineSeconds(lines[i]).value <= result
      {
        if i < last {
          assert init[i] == lines[i];
          assert Bounds(init, latest.value);
        }
      }
    }
  }

  lemma {:induction false} MaxSecondsAttained(lines: seq<string>)
    requires MaxSeconds(lines).Ok? && lines != []
    ensures exists i :: 0 <= i < |lines| && LineSeconds(lines[i]) == Ok(MaxSeconds(lines).value.value)
  {
    var last := |lines| - 1;
    var init := lines[..last];
    var latest := MaxSeconds(init).value;
    var t := LineSeconds(lines[last]).value;
    var result := Later(latest, t);
    assert MaxSeconds(lines) == Ok(Some(result));
    if latest.Some? && t <= latest.value {
      MaxSecondsBounds(init);
      MaxSecondsAttained(init);
      var i :| 0 <= i < |init| && LineSeconds(init[i]) == Ok(latest.value);
      assert lines[i] == init[i];
    } else {
      assert LineSeconds(lines[last]) == Ok(result);
    }
  }

  lemma MaxSecondsIsMax(lines: seq<string>)
    requires MaxSeconds(lines).Ok?
    ensures MaxSeconds(lines).value.Some? <==> lines != []
    ensures lines != [] ==> IsNewest(lines, MaxSeconds(lines).value.value)
  {
    MaxSecondsBounds(lines);
    if lines != [] {
      MaxSecondsAttained(lines);
    }
  }

  lemma {:induction false} MaxSecondsSucceeds(lines: seq<string>)
    ensures MaxSeconds(lines).Ok? <==> forall i :: 0 <= i < |lines| ==> LineSeconds(lines[i]).Ok?
  {
    if lines != [] {
      var init := lines[..|lines| - 1];
      assert forall i :: 0 <= i < |init| ==> init[i] == lines[i];
      MaxSecondsSucceeds(init);
    }
  }

  lemma {:induction false} MaxSecondsFirstError(lines: seq<string>, k: nat)
    requires k < |lines| && LineSeconds(lines[k]).Err?
    requires forall i :: 0 <= i < k ==> LineSeconds(lines[i]).Ok?
    ensures MaxSeconds(lines) == Err(LineSeconds(lines[k]).error)
  {
    var init := lines[..|lines| - 1];
    assert forall i :: 0 <= i < |init| ==> init[i] == lines[i];
    if k < |lines| - 1 {
      MaxSecondsFirstError(init, k);
    } else {
      MaxSecondsSucceeds(init);
    }
  }

  /** For a `dir` source the time is the largest whole-seconds value over
      the lines of the trimmed output, and succeeds exactly when there is
      at least one line and every line's seconds parse. */
  lemma FindTimeIsNewest(stdout: string)
    ensures FindTimeOf(stdout).Ok? <==>
      FindLines(stdout) != [] && forall i :: 0 <= i < |FindLines(stdout)| ==> LineSeconds(FindLines(stdout)[i]).Ok?
    ensures FindTimeOf(stdout).Ok? ==> IsNewest(FindLines(stdout), FindTimeOf(stdout).value)
  {
    MaxSecondsSucceeds(FindLines(stdout));
    if MaxSeconds(FindLines(stdout)).Ok? {
      MaxSecondsIsMax(FindLines(stdout));
    }
  }

  /** Output that is empty after trimming has no lines: "Find time not
      found". */
  lemma FindTimeNotFound(stdout: string)
    ensures FindTimeOf(stdout) == Err(FIND_NOT_FOUND) <==> Trim(stdout) == []
  {
    if Trim(stdout) != [] {
      var lines := FindLines(stdout);
      assert lines != [];
      if MaxSeconds(lines).Ok? {
        MaxSecondsIsMax(lines);
      } else {
        assert FindTimeOf(stdout) == Err(FIND_NOT_A_NUMBER + Describe(MaxSeconds(lines).error));
        assert |FindTimeOf(stdout).error| >= |FIND_NOT_A_NUMBER| > |FIND_NOT_FOUND|;
      }
    }
  }

  /** The first line whose seconds do not parse decides the error. */
  lemma FindTimeFirstError(stdout: string, k: nat)
    requires k < |FindLines(stdout)| && LineSeconds(FindLines(stdout)[k]).Err?
    requires forall i :: 0 <= i < k ==> LineSeconds(FindLines(stdout)[i]).Ok?
    ensures FindTimeOf(stdout) == Err(FIND_NOT_A_NUMBER + Describe(LineSeconds(FindLines(stdout)[k]).error))
  {
    MaxSecondsFirstError(FindLines(stdout), k);
  }

  /** Only the part before the first '.' counts: the fraction `%T@` prints
      is ignored, whatever it holds. */
  lemma FractionIgnored(seconds: string, fraction: string)
    requires '.' !in seconds
    ensures LineSeconds(seconds + "." + fraction) == ParseU64(seconds)
  {
    SplitFirst(seconds, '.', fraction);
  }

  /** The `git` branch of `Source::download` after `git log` has run: the
      whole trimmed output is the time. */
  function GitTime(stdout: string): (r: Result<U64, string>)
  {
    match ParseU64(Trim(stdout))
    case Ok(time) => Ok(time)
    case Err(e) => Err(GIT_NOT_A_NUMBER + Describe(e))
  }

  /** A commit time printed in decimal, with any surrounding white space,
      reads back as itself. */
  lemma GitTimeRoundTrip(time: U64, before: string, after: string)
    requires forall i :: 0 <= i < |before| ==> IsWhiteSpace(before[i])
    requires forall i :: 0 <= i < |after| ==> IsWhiteSpace(after[i])
    ensures GitTime(before + ToDecimal(time) + after) == Ok(time)
  {
    var digits := ToDecimal(time);
    TrimAround(before, digits, after);
    ParseU64RoundTrip(time);
  }

  /** White space around a word that neither starts nor ends with white
      space is exactly what `trim` removes. */
  lemma {:induction false} TrimAround(before: string, word: string, after: string)
    requires forall i :: 0 <= i < |before| ==> IsWhiteSpace(before[i])
    requires forall i :: 0 <= i < |after| ==> IsWhiteSpace(after[i])
    requires word != [] && !IsWhiteSpace(word[0]) && !IsWhiteSpace(word[|word| - 1])
    ensures Trim(before + word + after) == word
  {
    var rest := word + after;
    var s := before + rest;
    assert before + word + after == s;
    assert TrimStart(s) == rest by {
      assert s[|before|] == word[0];
      assert forall i :: 0 <= i < |before| ==> s[i] == before[i];
      TrimStartAt(s, |before|);
    }
    assert TrimEnd(rest) == word by {
      assert rest[|word| - 1] == word[|word| - 1];
      assert forall i :: |word| <= i < |rest| ==> rest[i] == after[i - |word|];
      TrimEndAt(rest, |word|);
      assert rest[..|word|] == word;
    }
  }

  lemma {:induction false} TrimStartAt(s: string, k: nat)
    requires k < |s| && !IsWhiteSpace(s[k])
    requires forall i :: 0 <= i < k ==> IsWhiteSpace(s[i])
    ensures TrimStart(s) == s[k..]
  {
    if k > 0 {
      TrimStartAt(s[1..], k - 1);
      assert s[1..][k - 1..] == s[k..];
    }
  }

  lemma {:induction false} TrimEndAt(s: string, k: nat)
    requires 0 < k <= |s| && !IsWhiteSpace(s[k - 1])
    requires forall i :: k <= i < |s| ==> IsWhiteSpace(s[i])
    ensures TrimEnd(s) == s[..k]
  {
    if k < |s| {
      TrimEndAt(s[..|s| - 1], k);
      assert s[..|s| - 1][..k] == s[..k];
    }
  }

  /** How `parse::<u64>` treats signs and blanks: a '+' is allowed, a '-'
      or a lone sign is an invalid digit, and inner white space is not
      trimmed. */
  lemma ParseU64Examples()
    ensures ParseU64("+42") == Ok(42)
    ensures ParseU64("-42") == Err(InvalidDigit)
    ensures ParseU64("+") == Err(InvalidDigit)
    ensures ParseU64("") == Err(Empty)
    ensures ParseU64("4 2") == Err(InvalidDigit)
  {
    assert Unsigned("+42") == "42";
    assert "42"[1..] == "2" && "2"[1..] == "";
    assert ParseDigits("2", 4) == Ok(42);
    assert "4 2"[1..] == " 2";
  }

  /** `Source::download` after its commands have run: the output of `find`
      for kind "dir", of `git log` for kind "git"; any other kind is an
      error before anything runs. */
  method RevisionTime(kind: string, stdout: string) returns (r: Result<U64, string>)
    ensures kind == "dir" ==> r == FindTimeOf(stdout)
    ensures kind == "git" ==> r == GitTime(stdout)
    ensures kind != "dir" && kind != "git" ==> r == Err(UNKNOWN_KIND + kind)
  {
    if kind == "dir" {
      r := FindTime(stdout);
    } else if kind == "git" {
      r := GitTime(stdout);
    } else {
      r := Err(UNKNOWN_KIND + kind);
    }
  }
}
