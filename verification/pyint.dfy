/**
 * Python's `int(text)` on a string in base 10, which `params_to_ids`
 * applies to every comma-separated piece, and `str(n)` for integers,
 * which is how a client writes the ids it sends.
 */
module PyInt {
  import opened Wrappers
  import opened Text

  predicate IsDigit(c: char) {
    '0' <= c <= '9'
  }

  predicate AllDigits(s: string) {
    forall k :: 0 <= k < |s| ==> IsDigit(s[k])
  }

  /**
   * The magnitude part `int()` accepts: ASCII digits, where a single
   * underscore may separate two digits (`1_000`).
   */
  predicate IsDigitRun(b: string) {
    && |b| > 0
    && IsDigit(b[0])
    && IsDigit(b[|b| - 1])
    && (forall k :: 0 <= k < |b| ==> IsDigit(b[k]) || b[k] == '_')
    && (forall k :: 0 <= k < |b| - 1 ==> b[k] == '_' ==> b[k + 1] != '_')
  }

  /** The digits of a digit run with the separating underscores removed. */
  function DropUnderscores(b: string): (r: string)
    ensures |r| <= |b|
    ensures (forall k :: 0 <= k < |b| ==> IsDigit(b[k]) || b[k] == '_') ==> AllDigits(r)
    ensures AllDigits(b) ==> r == b
  {
    if |b| == 0 then ""
    else (if b[0] == '_' then "" else [b[0]]) + DropUnderscores(b[1..])
  }

  /** The value of a string of decimal digits, most significant first. */
  function DigitsValue(ds: string): nat
    requires AllDigits(ds)
  {
    if |ds| == 0 then 0
    else 10 * DigitsValue(ds[..|ds| - 1]) + (ds[|ds| - 1] as int - '0' as int)
  }

  /**
   * CPython's default for `sys.get_int_max_str_digits()`: `int()` refuses
   * a decimal literal with more digits, and `str()` an integer with more.
   */
  const MaxStrDigits: nat := 4300

  /** A digit run `int()` converts: at most `MaxStrDigits` digits, underscores not counted. */
  predicate WithinDigitLimit(body: string) {
    |DropUnderscores(body)| <= MaxStrDigits
  }

  /**
   * The two `ValueError`s `int()` raises. The payload records which text
   * raised; Python's own messages are not modelled.
   */
  datatype ParseError =
    | NotAnInteger(text: string)  // "invalid literal for int() with base 10"
    | TooManyDigits(text: string) // "Exceeds the limit (4300 digits) for integer string conversion"

  /**
   * The white space `int()` skips around a number: the ASCII space, tab,
   * line feed, vertical tab, form feed and carriage return, and every
   * non-ASCII character `str.isspace()` accepts. The ASCII separators
   * U+001C to U+001F pass `str.isspace()` but are not skipped.
   */
  predicate IsIntSpace(c: char) {
    IsSpace(c) && !('\U{1C}' <= c <= '\U{1F}')
  }

  /** Drops the leading white space `int()` skips. */
  function IntStripStart(s: string): (r: string)
    ensures |r| <= |s| && r == s[|s| - |r|..]
    ensures |r| > 0 ==> !IsIntSpace(r[0])
    ensures forall k :: 0 <= k < |s| - |r| ==> IsIntSpace(s[k])
  {
    if |s| > 0 && IsIntSpace(s[0]) then
      var r := IntStripStart(s[1..]);
      assert s[1..][|s| - 1 - |r|..] == s[|s| - |r|..];
      assert forall k :: 1 <= k < |s| - |r| ==> s[k] == s[1..][k - 1];
      r
    else s
  }

  /** Drops the trailing white space `int()` skips. */
  function IntStripEnd(s: string): (r: string)
    ensures |r| <= |s| && r == s[..|r|]
    ensures |r| > 0 ==> !IsIntSpace(r[|r| - 1])
    ensures forall k :: |r| <= k < |s| ==> IsIntSpace(s[k])
  {
    if |s| > 0 && IsIntSpace(s[|s| - 1]) then IntStripEnd(s[..|s| - 1]) else s
  }

  /** The text `int()` reads, without the white space around it. */
  function IntStrip(s: string): (r: string)
    ensures |r| <= |s|
    ensures |r| > 0 ==> !IsIntSpace(r[0]) && !IsIntSpace(r[|r| - 1])
  {
    IntStripEnd(IntStripStart(s))
  }

  /** `t` is an optional sign followed by a digit run: the shape `int()` accepts. */
  predicate SignedRun(t: string, sign: string, body: string) {
    && t == sign + body
    && (sign == "" || sign == "+" || sign == "-")
    && IsDigitRun(body)
  }

  /** The value of a signed digit run. */
  function RunValue(sign: string, body: string): int
    requires IsDigitRun(body)
  {
    var magnitude: int := DigitsValue(DropUnderscores(body));
    if sign == "-" then -magnitude else magnitude
  }

  /**
   * A non-empty text splits into a sign and the rest in one way only: the
   * sign is its first character when that is `+` or `-`, and empty otherwise.
   */
  lemma SignSplitUnique(t: string, sign: string, body: string)
    requires |t| > 0
    requires sign == (if t[0] == '-' || t[0] == '+' then t[..1] else "")
    requires body == (if t[0] == '-' || t[0] == '+' then t[1..] else t)
    ensures t == sign + body
    ensures forall sg, bd :: SignedRun(t, sg, bd) ==> sg == sign && bd == body
    ensures IsDigitRun(body) ==> SignedRun(t, sign, body)
  {
    forall sg, bd | SignedRun(t, sg, bd)
      ensures sg == sign && bd == body
    {
      if sg == "" {
        assert sg + bd == bd;
        assert IsDigit(t[0]);
      } else {
        assert t[0] == sg[0];
        assert t[1..] == bd;
        assert t[..1] == sg;
      }
    }
  }

  /**
   * Python's `int(s)`: it succeeds exactly when the text, without the white
   * space around it, is an optional sign followed by a digit run of at most
   * `MaxStrDigits` digits, and then gives the signed value of the digits.
   * A longer run raises the digit-limit error; any other text raises the
   * invalid-literal error. Both name the whole text.
   */
  function ParseInt(s: string): (r: Result<int, ParseError>)
    ensures r.Success? <==> exists sign, body :: SignedRun(IntStrip(s), sign, body) && WithinDigitLimit(body)
    ensures forall sign, body :: SignedRun(IntStrip(s), sign, body) ==>
      r == if WithinDigitLimit(body) then Success(RunValue(sign, body)) else Failure(TooManyDigits(s))
    ensures (forall sign, body :: !SignedRun(IntStrip(s), sign, body)) ==> r == Failure(NotAnInteger(s))
    ensures r.Failure? ==> r.error.text == s
  {
    var t := IntStrip(s);
    if |t| == 0 then
      assert forall sign: string, body: string :: SignedRun(t, sign, body) ==> |body| <= |t|;
      Failure(NotAnInteger(s))
    else
      var signed := t[0] == '-' || t[0] == '+';
      var sign := if signed then t[..1] else "";
      var body := if signed then t[1..] else t;
      SignSplitUnique(t, sign, body);
      if !IsDigitRun(body) then Failure(NotAnInteger(s))
      else if !WithinDigitLimit(body) then Failure(TooManyDigits(s))
      else Success(RunValue(sign, body))
  }

  function DigitChar(d: nat): (c: char)
    requires d < 10
    ensures IsDigit(c) && c as int - '0' as int == d
  {
    ('0' as int + d) as char
  }

  /** Python's `str(n)` for a natural number: no sign, no leading zero. */
  function ShowNat(n: nat): (s: string)
    ensures |s| > 0 && AllDigits(s)
    ensures n > 0 ==> s[0] != '0'
  {
    if n < 10 then [DigitChar(n)] else ShowNat(n / 10) + [DigitChar(n % 10)]
  }

  /**
   * Python's `str(n)` for an integer. Interpreters that enforce the digit
   * limit refuse to write more than `MaxStrDigits` digits; this writes them all.
   */
  function ShowInt(n: int): (s: string)
    ensures |s| > 0 && IsDigit(s[|s| - 1])
    ensures n < 0 <==> s[0] == '-'
    ensures forall k :: 0 <= k < |s| ==> IsDigit(s[k]) || s[k] == '-'
    ensures n < 0 ==> AllDigits(s[1..])
    ensures n >= 0 ==> AllDigits(s)
  {
    if n < 0 then "-" + ShowNat(-n) else ShowNat(n)
  }

  lemma {:induction false} DigitsValueShowNat(n: nat)
    ensures DigitsValue(ShowNat(n)) == n
    decreases n
  {
    if n >= 10 {
      var s := ShowNat(n);
      assert s[..|s| - 1] == ShowNat(n / 10);
      DigitsValueShowNat(n / 10);
    }
  }

  lemma DigitsAreDigitRun(s: string)
    requires |s| > 0 && AllDigits(s)
    ensures IsDigitRun(s)
  {
  }

  /** A text that starts and ends outside `int()`'s white space is read whole. */
  lemma IntStripKeepsTrimmed(s: string)
    requires |s| > 0 ==> !IsIntSpace(s[0]) && !IsIntSpace(s[|s| - 1])
    ensures IntStrip(s) == s
  {
  }

  /**
   * An unsigned digit string with no surrounding space reads as its value,
   * unless it is longer than the digit limit.
   */
  lemma ParseDigits(s: string)
    requires |s| > 0 && AllDigits(s)
    ensures ParseInt(s) == if |s| <= MaxStrDigits then Success(DigitsValue(s)) else Failure(TooManyDigits(s))
  {
    assert IsDigit(s[0]) && IsDigit(s[|s| - 1]);
    IntStripKeepsTrimmed(s);
    DigitsAreDigitRun(s);
    assert SignedRun(s, "", s) by {
      assert "" + s == s;
    }
    ParseSignedRun(s, "", s);
    assert DropUnderscores(s) == s;
  }

  /** The same, after a minus sign, for a run within the digit limit. */
  lemma ParseNegativeDigits(s: string)
    requires |s| > 0 && AllDigits(s) && |s| <= MaxStrDigits
    ensures ParseInt("-" + s) == Success(-(DigitsValue(s) as int))
  {
    var t := "-" + s;
    ParseMinusDigits(t, s);
    NegativeRunValue(ParseInt(t), t, s);
  }

  lemma NegativeRunValue(r: Result<int, ParseError>, t: string, s: string)
    requires |s| > 0 && AllDigits(s) && |s| <= MaxStrDigits
    requires r == if WithinDigitLimit(s) then Success(RunValue("-", s)) else Failure(TooManyDigits(t))
    ensures r == Success(-(DigitsValue(s) as int))
  {
    var v := RunValue("-", s);
    DigitsRunValue(s);
    assert r == Success(v);
  }

  /** A minus sign does not count as a digit: a longer run still exceeds the limit. */
  lemma ParseNegativeTooLong(s: string)
    requires |s| > 0 && AllDigits(s) && |s| > MaxStrDigits
    ensures ParseInt("-" + s) == Failure(TooManyDigits("-" + s))
  {
    var t := "-" + s;
    ParseMinusDigits(t, s);
    DigitsRunValue(s);
  }

  lemma ParseMinusDigits(t: string, s: string)
    requires |s| > 0 && AllDigits(s)
    requires |t| == |s| + 1 && t[0] == '-' && t[1..] == s
    ensures ParseInt(t) ==
      if WithinDigitLimit(s) then Success(RunValue("-", s)) else Failure(TooManyDigits(t))
  {
    MinusRun(t, s);
    ParseSignedRun(t, "-", s);
  }

  /** A plain digit string is a run with no underscore to drop. */
  lemma DigitsRunValue(s: string)
    requires |s| > 0 && AllDigits(s)
    ensures IsDigitRun(s)
    ensures WithinDigitLimit(s) <==> |s| <= MaxStrDigits
    ensures RunValue("", s) == DigitsValue(s) && RunValue("-", s) == -(DigitsValue(s) as int)
  {
    DigitsAreDigitRun(s);
    assert DropUnderscores(s) == s;
  }

  lemma MinusRun(t: string, s: string)
    requires |s| > 0 && AllDigits(s)
    requires |t| == |s| + 1 && t[0] == '-' && t[1..] == s
    ensures SignedRun(IntStrip(t), "-", s)
  {
    assert IsDigit(t[|t| - 1]) by {
      assert t[|t| - 1] == s[|s| - 1];
    }
    IntStripKeepsTrimmed(t);
    DigitsAreDigitRun(s);
    assert t == [t[0]] + t[1..];
  }

  /** The magnitude of `n`. */
  function Abs(n: int): nat {
    if n < 0 then -n else n
  }

  /** `str(n)` writes at most `MaxStrDigits` digits, not counting the sign. */
  predicate ShowsWithinLimit(n: int) {
    |ShowNat(Abs(n))| <= MaxStrDigits
  }

  /**
   * Reading back what `str(n)` writes gives `n`, `int(str(n)) == n`, for
   * every integer of at most `MaxStrDigits` digits; the digits of a larger
   * one exceed the limit `int()` enforces.
   */
  lemma {:induction false} ParseShowInt(n: int)
    ensures ParseInt(ShowInt(n)) ==
      if ShowsWithinLimit(n) then Success(n) else Failure(TooManyDigits(ShowInt(n)))
  {
    if n < 0 {
      ParseShowNegative(-n, ShowNat(-n));
      assert ShowInt(n) == "-" + ShowNat(-n);
    } else {
      DigitsValueShowNat(n);
      ParseDigits(ShowNat(n));
      assert ShowInt(n) == ShowNat(n);
    }
  }

  lemma ParseShowNegative(m: nat, s: string)
    requires s == ShowNat(m)
    ensures ParseInt("-" + s) == if |s| <= MaxStrDigits then Success(-(m as int)) else Failure(TooManyDigits("-" + s))
  {
    var t := "-" + s;
    ParseMinusDigits(t, s);
    NegativeShowValue(ParseInt(t), t, m, s);
  }

  lemma NegativeShowValue(r: Result<int, ParseError>, t: string, m: nat, s: string)
    requires s == ShowNat(m)
    requires r == if WithinDigitLimit(s) then Success(RunValue("-", s)) else Failure(TooManyDigits(t))
    ensures r == if |s| <= MaxStrDigits then Success(-(m as int)) else Failure(TooManyDigits(t))
  {
    DigitsRunValue(s);
    DigitsValueShowNat(m);
    var v := RunValue("-", s);
    if |s| <= MaxStrDigits {
      assert r == Success(v);
    }
  }

  /** An empty piece, such as the middle of `"1,,2"`, is not an integer. */
  lemma ParseIntEmpty()
    ensures ParseInt("") == Failure(NotAnInteger(""))
  {
    assert forall sign: string, body: string :: SignedRun("", sign, body) ==> |body| == 0;
  }

  /**
   * A character other than a digit, a sign or an underscore anywhere inside
   * the text `int()` reads makes it fail.
   */
  lemma ParseIntRejectsForeignChar(s: string, k: nat)
    requires k < |IntStrip(s)|
    requires var c := IntStrip(s)[k]; !IsDigit(c) && c != '_' && c != '+' && c != '-'
    ensures ParseInt(s) == Failure(NotAnInteger(s))
  {
    NoRunWithForeignChar(IntStrip(s), k);
  }

  lemma NoRunWithForeignChar(t: string, k: nat)
    requires k < |t| && !IsDigit(t[k]) && t[k] != '_' && t[k] != '+' && t[k] != '-'
    ensures forall sign, body :: !SignedRun(t, sign, body)
  {
    forall sign: string, body: string | t == sign + body && (sign == "" || sign == "+" || sign == "-")
      ensures !IsDigitRun(body)
    {
      if |sign| <= k {
        assert body[k - |sign|] == t[k];
      }
    }
  }

  /** Two underscores in a row inside the text `int()` reads make it fail. */
  lemma ParseIntRejectsDoubleUnderscore(s: string, k: nat)
    requires k + 1 < |IntStrip(s)|
    requires IntStrip(s)[k] == '_' && IntStrip(s)[k + 1] == '_'
    ensures ParseInt(s) == Failure(NotAnInteger(s))
  {
    NoRunWithDoubleUnderscore(IntStrip(s), k);
  }

  lemma NoRunWithDoubleUnderscore(t: string, k: nat)
    requires k + 1 < |t| && t[k] == '_' && t[k + 1] == '_'
    ensures forall sign, body :: !SignedRun(t, sign, body)
  {
    forall sign: string, body: string | t == sign + body && (sign == "" || sign == "+" || sign == "-")
      ensures !IsDigitRun(body)
    {
      if |sign| <= k {
        assert body[k - |sign|] == '_' && body[k - |sign| + 1] == '_';
      }
    }
  }

  /**
   * Once the text `int()` reads is known to be a signed digit run, its value
   * is the run's, or the digit-limit error when the run is too long.
   */
  lemma ParseSignedRun(s: string, sign: string, body: string)
    requires SignedRun(IntStrip(s), sign, body)
    ensures ParseInt(s) == if WithinDigitLimit(body) then Success(RunValue(sign, body)) else Failure(TooManyDigits(s))
  {
  }

  /**
   * `int()` reads through the white space it skips: padding an optional
   * sign and a digit run with it on either side still gives their value.
   */
  lemma ParsePadded(lead: string, core: string, trail: string, sign: string, body: string)
    requires forall k :: 0 <= k < |lead| ==> IsIntSpace(lead[k])
    requires forall k :: 0 <= k < |trail| ==> IsIntSpace(trail[k])
    requires SignedRun(core, sign, body)
    ensures ParseInt(lead + core + trail) ==
      if WithinDigitLimit(body) then Success(RunValue(sign, body)) else Failure(TooManyDigits(lead + core + trail))
  {
    assert core[0] == (if |sign| > 0 then sign[0] else body[0]);
    assert core[|core| - 1] == body[|body| - 1];
    IntStripPadded(lead, core, trail);
    ParseSignedRun(lead + core + trail, sign, body);
  }

  /** Skipping the padding around a core that starts and ends outside it leaves the core. */
  lemma IntStripPadded(lead: string, core: string, trail: string)
    requires forall k :: 0 <= k < |lead| ==> IsIntSpace(lead[k])
    requires forall k :: 0 <= k < |trail| ==> IsIntSpace(trail[k])
    requires |core| > 0 && !IsIntSpace(core[0]) && !IsIntSpace(core[|core| - 1])
    ensures IntStrip(lead + core + trail) == core
  {
    AppendAssoc(lead, core, trail);
    IntStripStartPadded(lead, core + trail);
    IntStripEndPadded(core, trail);
  }

  lemma {:induction false} IntStripStartPadded(lead: string, x: string)
    requires forall k :: 0 <= k < |lead| ==> IsIntSpace(lead[k])
    requires |x| > 0 && !IsIntSpace(x[0])
    ensures IntStripStart(lead + x) == x
    decreases |lead|
  {
    if |lead| == 0 {
      assert lead + x == x;
    } else {
      HeadOfConcat(lead, x);
      IntStripStartPadded(lead[1..], x);
    }
  }

  lemma {:induction false} IntStripEndPadded(x: string, trail: string)
    requires forall k :: 0 <= k < |trail| ==> IsIntSpace(trail[k])
    requires |x| > 0 && !IsIntSpace(x[|x| - 1])
    ensures IntStripEnd(x + trail) == x
    decreases |trail|
  {
    if |trail| == 0 {
      assert x + trail == x;
    } else {
      var xt := x + trail;
      assert xt[|xt| - 1] == trail[|trail| - 1];
      assert xt[..|xt| - 1] == x + trail[..|trail| - 1];
      IntStripEndPadded(x, trail[..|trail| - 1]);
    }
  }

  /**
   * `int(" 7 ")` is 7: white space around the number is skipped.
   * The literals are parameters pinned by `requires`: written inline they would be unfolded at every use, which makes the proof far more expensive.
   */
  lemma ParseIntSkipsSpace(pad: string, seven: string)
    requires pad == " " && seven == "7"
    ensures ParseInt(pad + seven + pad) == Success(7)
  {
    assert SignedRun(seven, "", seven) by {
      assert "" + seven == seven;
    }
    ParsePadded(pad, seven, pad, "", seven);
    SevenValue(seven);
  }

  /** The value of the one-digit run `7`; a parameter for the reason given above. */
  lemma SevenValue(seven: string)
    requires seven == "7"
    ensures IsDigitRun(seven) && WithinDigitLimit(seven) && RunValue("", seven) == 7 && RunValue("+", seven) == 7
  {
    assert DropUnderscores(seven) == seven;
    DigitsValueStep(seven, "", 0);
  }

  /** The value of digits `ds` whose last digit follows the prefix `init` of value `v`. */
  lemma DigitsValueStep(ds: string, init: string, v: nat)
    requires |ds| > 0 && AllDigits(ds)
    requires init == ds[..|ds| - 1] && DigitsValue(init) == v
    ensures DigitsValue(ds) == 10 * v + (ds[|ds| - 1] as int - '0' as int)
  {
  }

  /**
   * `int("+7")` is 7: a plus sign is allowed.
   * The literals are parameters pinned by `requires`: written inline they would be unfolded at every use, which makes the proof far more expensive.
   */
  lemma ParseIntPlusSign(s: string, seven: string)
    requires s == "+7" && seven == "7"
    ensures ParseInt(s) == Success(7)
  {
    assert s[0] == '+' && s[1] == '7';
    IntStripKeepsTrimmed(s);
    assert SignedRun(s, "+", seven) by {
      assert s == "+" + seven;
    }
    ParseSignedRun(s, "+", seven);
    SevenValue(seven);
  }

  /**
   * `int("007")` is 7: leading zeros are allowed.
   * The literal is a parameter pinned by `requires`: written inline it would be unfolded at every use, which makes the proof far more expensive.
   */
  lemma ParseIntLeadingZeros(s: string)
    requires s == "007"
    ensures ParseInt(s) == Success(7)
  {
    LeadingZerosValue(s);
    ParseDigits(s);
  }

  /** `007` is a digit run of value 7, built one digit at a time. */
  lemma LeadingZerosValue(s: string)
    requires s == "007"
    ensures |s| > 0 && AllDigits(s) && DigitsValue(s) == 7
  {
    DigitsValueStep(s[..1], "", 0);
    DigitsValueStep(s[..2], s[..1], 0);
    DigitsValueStep(s, s[..2], 0);
  }

  /**
   * `int("1_000")` is 1000: a single underscore may separate digits.
   * The literal is a parameter pinned by `requires`: written inline it would be unfolded at every use, which makes the proof far more expensive.
   */
  lemma ParseIntUnderscore(s: string)
    requires s == "1_000"
    ensures ParseInt(s) == Success(1000)
  {
    assert s[0] == '1' && s[4] == '0';
    IntStripKeepsTrimmed(s);
    assert SignedRun(s, "", s) by {
      assert "" + s == s;
      UnderscoreRun(s);
    }
    ParseSignedRun(s, "", s);
    UnderscoreValue(s, "1000");
  }

  /** `1_000` is a well-formed digit run. */
  lemma UnderscoreRun(s: string)
    requires s == "1_000"
    ensures IsDigitRun(s)
  {
  }

  /** `1_000` drops its underscore to `1000` and has that value. */
  lemma UnderscoreValue(s: string, digits: string)
    requires s == "1_000" && digits == "1000"
    ensures IsDigitRun(s) && WithinDigitLimit(s) && RunValue("", s) == 1000
  {
    UnderscoreRun(s);
    assert DropUnderscores(s) == digits by {
      assert s[1..] == "_000" && "_000"[1..] == "000";
      assert DropUnderscores("000") == "000";
    }
    DigitsValueStep(digits[..1], "", 0);
    DigitsValueStep(digits[..2], digits[..1], 1);
    DigitsValueStep(digits[..3], digits[..2], 10);
    DigitsValueStep(digits, digits[..3], 100);
  }

  /**
   * `int("\x1c7")` raises: U+001C passes `str.isspace()` but `int()` does
   * not skip it.
   * The literal is a parameter pinned by `requires`: written inline it would be unfolded at every use, which makes the proof far more expensive.
   */
  lemma ParseIntKeepsFileSeparator(s: string)
    requires s == "\U{1C}7"
    ensures ParseInt(s) == Failure(NotAnInteger(s))
  {
    assert !IsIntSpace(s[0]) && !IsIntSpace(s[1]);
    IntStripKeepsTrimmed(s);
    ParseIntRejectsForeignChar(s, 0);
  }
}
