/** Scaled 64-bit numbers as text and back (src/IscDbc/Value.cpp, `convert` and `convertToQuad`). The divisor is a real
    number here; as a double it is exact up to ten to the 22nd. */
module DecimalText {

  const LIMIT: int := 0x8000_0000_0000_0000

  // ---------------------------------------------------------------- digits

  function DigitChar(n: int): (c: char)
    requires 0 <= n < 10
  {
    ('0' as int + n) as char
  }

  /** `n` without its `k` last digits. */
  function Dropped(n: nat, k: nat): (r: nat)
    ensures r <= n
  {
    if k == 0 then n else Dropped(n, k - 1) / 10
  }

  /** The `k` last digits of `n`, with leading zeros where it has fewer. */
  function LastDigits(n: nat, k: nat): (s: string)
    ensures |s| == k
  {
    if k == 0 then "" else LastDigits(n / 10, k - 1) + [DigitChar(n % 10)]
  }

  /** How many digits `n` has; zero has none. */
  function DigitCount(n: nat): nat {
    if n == 0 then 0 else 1 + DigitCount(n / 10)
  }

  function AllDigits(n: nat): string {
    LastDigits(n, DigitCount(n))
  }

  /** A number with `scale` decimals: the sign, the whole part without leading zeros, the point, exactly `scale` digits.
      Scales below zero are ignored, and those below -18 are not shown at all. */
  function Shown(v: int, scale: int): string {
    var n := if v < 0 then -v else v;
    if v == 0 then "0"
    else if scale < -18 then "***"
    else (if v < 0 then "-" else "") + Unsigned(n, scale)
  }

  function Unsigned(n: nat, scale: int): string {
    if scale <= 0 then AllDigits(n)
    else AllDigits(Dropped(n, scale)) + "." + LastDigits(n, scale)
  }

  // ---------------------------------------------------------------- writing

  /** What has been written, in the order in which it will be read, after `j` digits. */
  function Body(n: nat, scale: int, j: nat): string {
    if scale > 0 && j > scale then LastDigits(Dropped(n, scale), j - scale) + "." + LastDigits(n, scale)
    else LastDigits(n, j)
  }

  lemma {:induction false} DroppedShift(n: nat, k: nat)
    ensures Dropped(n / 10, k) == Dropped(n, k + 1)
  {
    if k > 0 {
      DroppedShift(n, k - 1);
    }
  }

  lemma {:induction false} DroppedTwice(n: nat, k: nat, m: nat)
    ensures Dropped(Dropped(n, k), m) == Dropped(n, k + m)
  {
    if m > 0 {
      DroppedTwice(n, k, m - 1);
    }
  }

  /** One more digit goes in front. */
  lemma {:induction false} DigitInFront(n: nat, k: nat)
    ensures LastDigits(n, k + 1) == [DigitChar(Dropped(n, k) % 10)] + LastDigits(n, k)
  {
    hide DigitChar;
    if k > 0 {
      DigitInFront(n / 10, k - 1);
      DroppedShift(n, k - 1);
    }
  }

  lemma BodyGrows(n: nat, scale: int, j: nat)
    ensures Body(n, scale, j + 1) ==
              [DigitChar(Dropped(n, j) % 10)] + (if scale > 0 && scale == j then "." else "") + Body(n, scale, j)
  {
    hide DigitChar, LastDigits, Dropped;
    if scale > 0 && j >= scale {
      DigitInFront(Dropped(n, scale), j - scale);
      DroppedTwice(n, scale, j - scale);
      if j == scale {
        NoDigits(Dropped(n, scale));
      }
    } else {
      DigitInFront(n, j);
    }
  }

  lemma NoDigits(n: nat)
    ensures LastDigits(n, 0) == ""
  {
  }

  /** The digits run out exactly when all of them have been written. */
  lemma {:induction false} RunsOut(n: nat, j: nat)
    ensures Dropped(n, j) == 0 <==> DigitCount(n) <= j
  {
    if n > 0 {
      if j > 0 {
        DroppedShift(n, j - 1);
        RunsOut(n / 10, j - 1);
      }
    } else {
      DroppedZero(j);
    }
  }

  lemma {:induction false} DroppedZero(j: nat)
    ensures Dropped(0, j) == 0
  {
    if j > 0 {
      DroppedZero(j - 1);
    }
  }

  /** Zeros in front of a number that has run out. */
  lemma ZeroInFront(n: nat, k: nat)
    requires Dropped(n, k) == 0
    ensures LastDigits(n, k + 1) == "0" + LastDigits(n, k) && Dropped(n, k + 1) == 0
  {
    DigitInFront(n, k);
  }

  /** What is written backwards is read forwards. */
  ghost predicate Backwards(written: string, text: string) {
    |written| == |text| && forall k :: 0 <= k < |text| ==> written[k] == text[|text| - 1 - k]
  }

  lemma BackwardsGrows(written: string, text: string, c: char)
    requires Backwards(written, text)
    ensures Backwards(written + [c], [c] + text)
  {
  }

  /** The loop over the digits, last digit first; a point comes before digit `scale`. */
  method WriteDigits(n: nat, scale: int) returns (temp: string, digits: int)
    requires n > 0
    ensures Backwards(temp, Body(n, scale, DigitCount(n)))
    ensures scale != 0 ==> digits == DigitCount(n)
  {
    hide Body, Backwards, DigitChar, Dropped, DigitCount;
    temp, digits := "", 0;
    var number := n;
    ghost var j := 0;
    StartDigits(n, scale);
    RunsOut(n, 0);
    while number > 0
      invariant number == Dropped(n, j) && j <= DigitCount(n)
      invariant scale != 0 ==> digits == j
      invariant Backwards(temp, Body(n, scale, j))
      decreases number
    {
      RunsOut(n, j);
      BodyGrows(n, scale, j);
      ghost var body := Body(n, scale, j);
      if scale != 0 {
        if scale == digits {
          BackwardsGrows(temp, body, '.');
          body := "." + body;
          temp := temp + ['.'];
        }
        digits := digits + 1;
      }
      BackwardsGrows(temp, body, DigitChar(number % 10));
      temp := temp + [DigitChar(number % 10)];
      assert Body(n, scale, j + 1) == [DigitChar(number % 10)] + body;
      DroppedNext(n, j);
      number := number / 10;
      j := j + 1;
    }
    RunsOut(n, j);
  }

  lemma StartDigits(n: nat, scale: int)
    ensures Dropped(n, 0) == n && Body(n, scale, 0) == "" && Backwards("", "")
  {
  }

  lemma DroppedNext(n: nat, j: nat)
    ensures Dropped(n, j + 1) == Dropped(n, j) / 10
  {
  }

  /** A number with too few digits gets zeros, and then the point. */
  method WriteZeros(n: nat, scale: nat, temp0: string, digits0: nat) returns (temp: string)
    requires 0 < scale && digits0 == DigitCount(n) <= scale && Backwards(temp0, LastDigits(n, digits0))
    ensures Backwards(temp, "." + LastDigits(n, scale))
  {
    hide Backwards, LastDigits, Dropped, DigitCount;
    temp := temp0;
    var digits := digits0;
    RunsOut(n, digits);
    while digits < scale
      invariant digits <= scale && Backwards(temp, LastDigits(n, digits)) && Dropped(n, digits) == 0
    {
      ZeroInFront(n, digits);
      BackwardsGrows(temp, LastDigits(n, digits), '0');
      temp := temp + ['0'];
      assert "0" == ['0'];
      digits := digits + 1;
    }
    BackwardsGrows(temp, LastDigits(n, scale), '.');
    temp := temp + ['.'];
    assert "." == ['.'];
  }

  /** The body with the zeros is the number as it is to be shown. */
  lemma BodyIsShown(n: nat, scale: int)
    requires n > 0
    ensures scale > 0 && DigitCount(n) <= scale ==> Unsigned(n, scale) == "." + LastDigits(n, scale)
    ensures scale > 0 && DigitCount(n) <= scale ==> Body(n, scale, DigitCount(n)) == LastDigits(n, DigitCount(n))
    ensures !(scale > 0 && DigitCount(n) <= scale) ==> Unsigned(n, scale) == Body(n, scale, DigitCount(n))
  {
    hide LastDigits, Dropped, DigitCount;
    if scale > 0 {
      RunsOut(n, scale);
      CountWithout(n, scale);
      NoDigits(Dropped(n, scale));
    }
  }

  lemma {:induction false} CountWithout(n: nat, k: nat)
    ensures DigitCount(Dropped(n, k)) == if DigitCount(n) <= k then 0 else DigitCount(n) - k
  {
    if k > 0 {
      CountWithout(n, k - 1);
      RunsOut(n, k - 1);
    }
  }

  /** 64-bit arithmetic. */
  function Wrap(n: int): int {
    (n + LIMIT) % (2 * LIMIT) - LIMIT
  }

  /** The same bits as an unsigned number. */
  function AsUnsigned(n: int): (r: nat)
    requires -LIMIT <= n < LIMIT
  {
    if n < 0 then n + 2 * LIMIT else n
  }

  /** The most negative value, negated, is itself; unsigned it is what it should be. */
  lemma NegatedBits(v: int)
    requires -LIMIT <= v < 0
    ensures -LIMIT <= Wrap(-v) < LIMIT && AsUnsigned(Wrap(-v)) == -v
  {
  }

  /** The number as text, and the length that is returned: for scales below -18 it counts the closing null too. */
  method Convert(value: int, scale: int) returns (text: string, length: int)
    requires -LIMIT <= value < LIMIT
    ensures text == Shown(value, scale)
    ensures length == if value != 0 && scale < -18 then |text| + 1 else |text|
  {
    hide Backwards, Unsigned, Body, LastDigits, DigitCount;
    if value == 0 {
      return "0", 1;
    }
    if scale < -18 {
      return "***", 4;
    }
    var negative := value < 0;
    if negative {
      NegatedBits(value);
    }
    var number := if negative then AsUnsigned(Wrap(-value)) else value;
    BodyIsShown(number, scale);
    var temp, digits := WriteDigits(number, scale);
    if scale != 0 && digits <= scale {
      temp := WriteZeros(number, scale, temp, digits);
    }
    text := Reversed(temp, Unsigned(number, scale), if negative then "-" else "");
    length := |text|;
  }

  method Reversed(temp: string, ghost body: string, sign: string) returns (text: string)
    requires Backwards(temp, body)
    ensures text == sign + body
  {
    text := sign;
    var p := |temp|;
    while p > 0
      invariant 0 <= p <= |temp| && text == sign + body[..|temp| - p]
    {
      p := p - 1;
      text := text + [temp[p]];
      assert body[..|temp| - p] == body[..|temp| - p - 1] + [temp[p]];
    }
    assert body[..|temp|] == body;
  }

  // ---------------------------------------------------------------- reading

  datatype Reading = Number(number: int, divisor: real) | Refused

  /** What has been read so far. */
  datatype Progress = Progress(number: int, divisor: real, decimal: bool, negative: bool) | Failed

  function Step(p: Progress, c: char): Progress {
    if p.Failed? then Failed
    else if '0' <= c <= '9' then
      p.(number := Wrap(p.number * 10 + (c as int - '0' as int)), divisor := if p.decimal then p.divisor * 10.0
          else p.divisor)
    else if c == '-' then p.(negative := true)
    else if c == '+' || c == ',' then p
    else if c == '.' then p.(decimal := true)
    else if c == ' ' || c == '\t' || c == '\n' then p
    else Failed
  }

  function After(p: Progress, text: string): Progress {
    if text == "" then p else Step(After(p, text[..|text| - 1]), text[|text| - 1])
  }

  const START := Progress(0, 1.0, false, false)

  function Read(text: string): Reading {
    var p := After(START, text);
    if p.Failed? then Refused else Number(if p.negative then Wrap(-p.number) else p.number, p.divisor)
  }

  method ConvertToQuad(text: string) returns (r: Reading)
    ensures r == Read(text)
  {
    hide Wrap;
    var number, divisor, decimal, negative := 0, 1.0, false, false;
    var p := 0;
    assert text[..|text|] == text;
    while p < |text|
      invariant p <= |text| && After(START, text[..p]) == Progress(number, divisor, decimal, negative)
    {
      var c := text[p];
      AfterNext(START, text, p);
      p := p + 1;
      if '0' <= c <= '9' {
        number := Wrap(number * 10 + (c as int - '0' as int));
        if decimal {
          divisor := divisor * 10.0;
        }
      } else if c == '-' {
        negative := true;
      } else if c == '+' || c == ',' {
      } else if c == '.' {
        decimal := true;
      } else if c != ' ' && c != '\t' && c != '\n' {
        StaysFailed(START, text, p);
        return Refused;
      }
    }
    return Number(if negative then Wrap(-number) else number, divisor);
  }

  lemma AfterNext(p: Progress, text: string, i: nat)
    requires i < |text|
    ensures After(p, text[..i + 1]) == Step(After(p, text[..i]), text[i])
  {
    hide Step;
    assert text[..i + 1][..i] == text[..i];
  }

  lemma {:induction false} StaysFailed(p: Progress, text: string, i: nat)
    requires i <= |text| && After(p, text[..i]).Failed?
    ensures After(p, text).Failed?
    decreases |text| - i
  {
    hide After;
    if i < |text| {
      AfterNext(p, text, i);
      StaysFailed(p, text, i + 1);
    } else {
      assert text[..i] == text;
    }
  }

  lemma {:induction false} AfterJoin(p: Progress, a: string, b: string)
    ensures After(p, a + b) == After(After(p, a), b)
  {
    hide Step;
    if b == "" {
      assert a + b == a;
    } else {
      AfterJoin(p, a, b[..|b| - 1]);
      assert (a + b)[..|a + b| - 1] == a + b[..|b| - 1];
    }
  }

  /** The characters that do not stop the reading. */
  predicate Readable(c: char) {
    '0' <= c <= '9' || c in {'-', '+', ',', '.', ' ', '\t', '\n'}
  }

  lemma {:induction false} FailsOnForeign(p: Progress, text: string)
    requires p.Progress?
    ensures After(p, text).Failed? <==> exists i :: 0 <= i < |text| && !Readable(text[i])
  {
    hide Wrap;
    if text == "" {
    } else {
      var before := text[..|text| - 1];
      FailsOnForeign(p, before);
      if i :| 0 <= i < |before| && !Readable(before[i]) {
        assert text[i] == before[i];
      }
    }
  }

  /** A text is refused exactly when one of its characters has no place in a number. */
  lemma RefusedExactlyWhen(text: string)
    ensures Read(text).Refused? <==> exists i :: 0 <= i < |text| && !Readable(text[i])
  {
    hide After, Wrap, Readable;
    FailsOnForeign(START, text);
  }

  // ---------------------------------------------------------------- what a text says

  predicate IsDigit(c: char) {
    '0' <= c <= '9'
  }

  /** The digits of a text, without what stands between them. */
  function OnlyDigits(text: string): string {
    if text == "" then ""
    else (if IsDigit(text[0]) then [text[0]] else "") + OnlyDigits(text[1..])
  }

  /** The number that a row of digits is. */
  function Value(digits: string): int {
    if digits == "" then 0
    else Value(digits[..|digits| - 1]) * 10 + (digits[|digits| - 1] as int - '0' as int)
  }

  /** What stands behind the first decimal point. */
  function BehindPoint(text: string): string {
    if text == "" then "" else if text[0] == '.' then text[1..] else BehindPoint(text[1..])
  }

  function Power(k: nat): real {
    if k == 0 then 1.0 else Power(k - 1) * 10.0
  }

  lemma SmallIsItself(n: int)
    ensures -LIMIT <= n < LIMIT ==> Wrap(n) == n
  {
  }

  lemma WrapAround(n: int, turns: int)
    ensures Wrap(n + 2 * LIMIT * turns) == Wrap(n)
  {
    var q := (n + LIMIT) / (2 * LIMIT);
    var r := (n + LIMIT) % (2 * LIMIT);
    assert n + 2 * LIMIT * turns + LIMIT == 2 * LIMIT * (q + turns) + r;
  }

  /** Wrapping around on the way or at the end is the same. */
  lemma WrapStep(n: int, d: int)
    ensures Wrap(Wrap(n) * 10 + d) == Wrap(n * 10 + d) && Wrap(-Wrap(n)) == Wrap(-n)
  {
    var turns := (n + LIMIT) / (2 * LIMIT);
    assert Wrap(n) == n - 2 * LIMIT * turns;
    WrapAround(n * 10 + d, -10 * turns);
    WrapAround(-n, turns);
  }

  lemma {:induction false} DigitsGrow(text: string, c: char)
    ensures OnlyDigits(text + [c]) == OnlyDigits(text) + if IsDigit(c) then [c] else ""
  {
    if text == "" {
      assert (text + [c])[1..] == "";
    } else {
      DigitsGrow(text[1..], c);
      assert (text + [c])[1..] == text[1..] + [c];
    }
  }

  lemma {:induction false} PointGrows(text: string, c: char)
    ensures BehindPoint(text + [c]) == if '.' in text then BehindPoint(text) + [c] else ""
    ensures '.' !in text ==> BehindPoint(text) == ""
  {
    if text == "" {
      assert (text + [c])[1..] == "";
    } else {
      PointGrows(text[1..], c);
      assert (text + [c])[1..] == text[1..] + [c];
      assert text == [text[0]] + text[1..];
    }
  }

  lemma ValueGrows(digits: string, c: char)
    ensures Value(digits + [c]) == Value(digits) * 10 + (c as int - '0' as int)
  {
    assert (digits + [c])[..|digits|] == digits;
  }

  predicate AllReadable(text: string) {
    forall i :: 0 <= i < |text| ==> Readable(text[i])
  }

  /** What a text comes to: the sign and the point count wherever they stand, a second of either changes nothing, and
      plus signs, separators and white space change nothing at all. */
  ghost function Said(text: string): Progress {
    Progress(Wrap(Value(OnlyDigits(text))), Power(|OnlyDigits(BehindPoint(text))|), '.' in text, '-' in text)
  }

  lemma SaidNext(text: string, c: char)
    requires Readable(c)
    ensures Step(Said(text), c) == Said(text + [c])
  {
    hide Wrap, Value, OnlyDigits, BehindPoint;
    DigitsGrow(text, c);
    PointGrows(text, c);
    DigitsGrow(BehindPoint(text), c);
    if IsDigit(c) {
      ValueGrows(OnlyDigits(text), c);
      WrapStep(Value(OnlyDigits(text)), c as int - '0' as int);
    } else {
      assert OnlyDigits(text) + "" == OnlyDigits(text);
      assert OnlyDigits(BehindPoint(text)) + "" == OnlyDigits(BehindPoint(text));
    }
    NoDigitsInNothing();
  }

  lemma NoDigitsInNothing()
    ensures OnlyDigits("") == "" && Value("") == 0 && BehindPoint("") == ""
  {
  }

  lemma {:induction false} AfterIsSaid(text: string)
    requires AllReadable(text)
    ensures After(START, text) == Said(text)
  {
    hide Step, Said, Readable;
    if text == "" {
      NothingSaid();
    } else {
      var before := text[..|text| - 1];
      AfterIsSaid(before);
      SaidNext(before, text[|text| - 1]);
      assert before + [text[|text| - 1]] == text;
    }
  }

  lemma NothingSaid()
    ensures Said("") == START
  {
    SmallIsItself(0);
  }

  /** The number read is that of the digits, with a sign if there is a minus; the divisor is ten to the number of digits
      behind the first point. */
  lemma MeaningOfText(text: string)
    requires AllReadable(text)
    ensures var n := Value(OnlyDigits(text));
            Read(text) == Number(Wrap(if '-' in text then -n else n), Power(|OnlyDigits(BehindPoint(text))|))
  {
    hide After, Wrap, Value, OnlyDigits, BehindPoint, Power, Readable;
    AfterIsSaid(text);
    WrapStep(Value(OnlyDigits(text)), 0);
  }

  /** A plus sign, a separator or white space may stand anywhere and changes nothing. */
  lemma IgnoredAnywhere(a: string, c: char, b: string)
    requires c in {'+', ',', ' ', '\t', '\n'}
    ensures Read(a + [c] + b) == Read(a + b)
  {
    hide Step;
    AfterJoin(START, a + [c], b);
    AfterJoin(START, a, b);
    OneMoreAfter(START, a, c);
    StepIgnores(After(START, a), c);
  }

  lemma StepIgnores(p: Progress, c: char)
    requires c in {'+', ',', ' ', '\t', '\n'}
    ensures Step(p, c) == p
  {
  }

  /** The separator between thousands is no decimal point. */
  lemma SeparatorIsNoPoint()
    ensures Read("1,234") == Read("1234")
  {
    hide Read;
    IgnoredAnywhere("1", ',', "234");
    assert "1" + [','] + "234" == "1,234" && "1" + "234" == "1234";
  }

  // ---------------------------------------------------------------- the shape of what is written

  lemma {:induction false} LastDigitsAre(n: nat, k: nat)
    ensures forall i :: 0 <= i < k ==> IsDigit(LastDigits(n, k)[i])
  {
    if k == 0 {
    } else {
      LastDigitsAre(n / 10, k - 1);
    }
  }

  lemma {:induction false} LeadingDigit(n: nat)
    requires n > 0
    ensures DigitCount(n) > 0 && AllDigits(n)[0] != '0'
  {
    if n / 10 == 0 {
      assert LastDigits(n, 1) == LastDigits(n / 10, 0) + [DigitChar(n % 10)];
    } else {
      LeadingDigit(n / 10);
    }
  }

  /** With decimals: a point with exactly `scale` digits behind it, and in front of it no zero to begin with, or
      nothing. */
  lemma ShownWithPoint(v: int, scale: nat)
    requires v != 0 && scale > 0
    ensures var text := Shown(v, scale);
            var sign, point := if v < 0 then 1 else 0, |text| - 1 - scale;
            && sign <= point && text[point] == '.' && (v < 0 ==> text[0] == '-')
            && (forall i :: sign <= i < |text| && i != point ==> IsDigit(text[i]))
            && (sign < point ==> text[sign] != '0')
  {
    hide LastDigits, DigitCount, Dropped, IsDigit;
    var n: nat := if v < 0 then -v else v;
    var whole := Dropped(n, scale);
    LastDigitsAre(whole, DigitCount(whole));
    LastDigitsAre(n, scale);
    if whole > 0 {
      LeadingDigit(whole);
    } else {
      NoDigitsOfZero();
    }
  }

  lemma NoDigitsOfZero()
    ensures DigitCount(0) == 0
  {
  }

  /** Without: the sign and the digits, with no zero to begin with. */
  lemma ShownWhole(v: int, scale: int)
    requires v != 0 && -18 <= scale <= 0
    ensures var text := Shown(v, scale);
            var sign := if v < 0 then 1 else 0;
            && sign < |text| && (v < 0 ==> text[0] == '-') && text[sign] != '0'
            && forall i :: sign <= i < |text| ==> IsDigit(text[i])
  {
    hide LastDigits, DigitCount, IsDigit;
    var n: nat := if v < 0 then -v else v;
    LastDigitsAre(n, DigitCount(n));
    LeadingDigit(n);
  }

  // ---------------------------------------------------------------- there and back

  lemma StepDigit(p: Progress, n: nat)
    requires p.Progress? && p.number == n / 10 && n <= LIMIT
    ensures Step(p, DigitChar(n % 10)) ==
              p.(number := Wrap(n), divisor := if p.decimal then p.divisor * 10.0 else p.divisor)
  {
  }

  /** Reading the last digits of a number after the others completes it. */
  lemma {:induction false} ReadDigits(p: Progress, n: nat, k: nat)
    requires p.Progress? && p.number == Wrap(Dropped(n, k)) && n <= LIMIT && (p.decimal ==> p.divisor == 1.0)
    ensures After(p, LastDigits(n, k)) == p.(number := Wrap(n), divisor := if p.decimal then Power(k) else p.divisor)
  {
    hide Step, Wrap, DigitChar, After;
    if k == 0 {
      NothingAfter(p);
    } else {
      DroppedShift(n, k - 1);
      ReadDigits(p, n / 10, k - 1);
      SmallIsItself(n / 10);
      OneMoreAfter(p, LastDigits(n / 10, k - 1), DigitChar(n % 10));
      StepDigit(After(p, LastDigits(n / 10, k - 1)), n);
    }
  }

  lemma NothingAfter(p: Progress)
    ensures After(p, "") == p
  {
  }

  lemma OneMoreAfter(p: Progress, text: string, c: char)
    ensures After(p, text + [c]) == Step(After(p, text), c)
  {
    hide Step;
    assert (text + [c])[..|text|] == text;
  }

  lemma ReadUnsigned(p: Progress, n: nat, scale: int)
    requires p.Progress? && p.number == 0 && p.divisor == 1.0 && !p.decimal && n <= LIMIT
    ensures After(p, Unsigned(n, scale)) ==
              p.(number := Wrap(n), divisor := if scale > 0 then Power(scale) else 1.0, decimal := scale > 0)
  {
    hide Step, Wrap, LastDigits, Dropped, DigitCount, Power;
    var whole := if scale > 0 then Dropped(n, scale) else n;
    RunsOut(whole, DigitCount(whole));
    SmallIsItself(0);
    ReadDigits(p, whole, DigitCount(whole));
    if scale > 0 {
      var q := p.(number := Wrap(whole));
      PointNext(q);
      AfterJoin(p, AllDigits(whole), ".");
      AfterJoin(p, AllDigits(whole) + ".", LastDigits(n, scale));
      ReadDigits(q.(decimal := true), n, scale);
    }
  }

  lemma PointNext(p: Progress)
    requires p.Progress?
    ensures After(p, ".") == p.(decimal := true) && After(p, "-") == p.(negative := true) && After(p, "") == p
  {
    assert "."[..0] == "" && "-"[..0] == "";
  }

  /** Reading what was shown gives the number back, and ten to the scale for its divisor; a zero has the divisor one,
      scales below zero are lost, and below -18 the text is refused. */
  lemma RoundTrip(v: int, scale: int)
    requires -LIMIT <= v < LIMIT
    ensures Read(Shown(v, scale)) ==
              if v == 0 then Number(0, 1.0)
              else if scale < -18 then Refused
              else Number(v, if scale > 0 then Power(scale) else 1.0)
  {
    hide Unsigned, Step, After, Power;
    if v == 0 {
      ReadsZero();
    } else if scale < -18 {
      StarsAreRefused();
    } else if v < 0 {
      PointNext(START);
      AfterJoin(START, "-", Unsigned(-v, scale));
      ReadUnsigned(START.(negative := true), -v, scale);
      SmallIsItself(v);
      SmallIsItself(-v);
    } else {
      assert "" + Unsigned(v, scale) == Unsigned(v, scale);
      ReadUnsigned(START, v, scale);
      SmallIsItself(v);
    }
  }

  lemma ReadsZero()
    ensures Read("0") == Number(0, 1.0)
  {
    assert "0"[..0] == "";
    assert After(START, "") == START;
  }

  lemma StarsAreRefused()
    ensures Read("***") == Refused
  {
    AfterNext(START, "***", 0);
    StaysFailed(START, "***", 1);
  }
}
