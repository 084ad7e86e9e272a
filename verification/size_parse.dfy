/** `parse_size`: a human-readable byte count such as "128M", "2g", "512KB"
    or "4096" turned into a number of bytes. */
module SizeParse {
  import opened Results
  import opened Ascii

  /** Why `parse_size` raises: indexing `s[-1]` of an empty string, or
      `int()` refusing the text that is left once the unit is removed. */
  datatype ParseError = EmptySize | NotAnInteger(text: string)

  /** The unit letters `parse_size` knows, with their binary multipliers. */
  datatype Unit = Bytes | Kilo | Mega | Giga

  function Multiplier(u: Unit): nat {
    match u
    case Bytes => 1
    case Kilo => 1024
    case Mega => 1024 * 1024
    case Giga => 1024 * 1024 * 1024
  }

  function Letter(u: Unit): string {
    match u
    case Bytes => ""
    case Kilo => "K"
    case Mega => "M"
    case Giga => "G"
  }

  predicate IsDigit(c: char) {
    '0' <= c <= '9'
  }

  /** The strings `int()` accepts in this model: one or more decimal digits. */
  predicate IsDecimal(s: string) {
    |s| > 0 && forall i :: 0 <= i < |s| ==> IsDigit(s[i])
  }

  function DigitValue(c: char): nat
    requires IsDigit(c)
  {
    c as int - '0' as int
  }

  function DecimalValue(s: string): nat
    requires forall i :: 0 <= i < |s| ==> IsDigit(s[i])
  {
    if |s| == 0 then 0
    else
      assert IsDigit(s[|s| - 1]);
      DecimalValue(s[..|s| - 1]) * 10 + DigitValue(s[|s| - 1])
  }

  /** `int(s)` */
  function ParseInt(s: string): (r: Result<nat, ParseError>)
    ensures r.Success? <==> IsDecimal(s)
    ensures r.Failure? ==> r.error == NotAnInteger(s)
  {
    if IsDecimal(s) then Success(DecimalValue(s)) else Failure(NotAnInteger(s))
  }

  function Scaled(r: Result<nat, ParseError>, factor: nat): Result<nat, ParseError> {
    match r
    case Success(n) => Success(n * factor)
    case Failure(e) => Failure(e)
  }

  /** `parse_size(s)`: upper-case, drop one trailing 'B', then read the
      unit letter and the integer in front of it. */
  function ParseSize(s: string): Result<nat, ParseError> {
    var u := ToUpper(s);
    if |u| == 0 then Failure(EmptySize)
    else ParseUnit(if u[|u| - 1] == 'B' then u[..|u| - 1] else u)
  }

  /** The rest of `parse_size` once an optional 'B' is gone: an optional
      K/M/G unit letter and the integer in front of it. */
  function ParseUnit(t: string): Result<nat, ParseError> {
    if |t| == 0 then Failure(EmptySize)
    else if t[|t| - 1] == 'K' then Scaled(ParseInt(t[..|t| - 1]), 1024)
    else if t[|t| - 1] == 'M' then Scaled(ParseInt(t[..|t| - 1]), 1024 * 1024)
    else if t[|t| - 1] == 'G' then Scaled(ParseInt(t[..|t| - 1]), 1024 * 1024 * 1024)
    else ParseInt(t)
  }

  /** The sizes `parse_size` accepts, written out: digits, an optional unit
      letter, an optional 'B' (all in upper case). */
  function Render(digits: string, u: Unit, withB: bool): string {
    digits + Letter(u) + (if withB then "B" else "")
  }

  lemma RenderIsUpper(d: string, u: Unit, withB: bool)
    requires IsDecimal(d)
    ensures ToUpper(Render(d, u, withB)) == Render(d, u, withB)
  {
    var s := Render(d, u, withB);
    forall i | 0 <= i < |s| ensures UpperChar(s[i]) == s[i] {
      if i < |d| { assert s[i] == d[i]; }
    }
  }

  lemma ParseUnitOf(d: string, u: Unit)
    requires IsDecimal(d)
    ensures ParseUnit(d + Letter(u)) == Success(DecimalValue(d) * Multiplier(u))
  {
    var t := d + Letter(u);
    if u == Bytes {
      assert t == d;
      assert IsDigit(d[|d| - 1]);
    } else {
      assert t[|t| - 1] == Letter(u)[0];
      assert t[..|t| - 1] == d;
    }
  }

  /** Every rendered size reads back as its digits times its unit's
      multiplier: a unit letter multiplies by 1024, 1024^2 or 1024^3, and
      the trailing 'B' changes nothing. */
  lemma ParseSizeRender(d: string, u: Unit, withB: bool)
    requires IsDecimal(d)
    ensures ParseSize(Render(d, u, withB)) == Success(DecimalValue(d) * Multiplier(u))
  {
    var s := Render(d, u, withB);
    var t := d + Letter(u);
    RenderIsUpper(d, u, withB);
    ParseUnitOf(d, u);
    if withB {
      assert s == t + "B";
      assert s[..|s| - 1] == t;
    } else {
      assert s == t;
      assert IsDigit(d[|d| - 1]);
      assert s[|s| - 1] != 'B' by {
        if u == Bytes { assert s[|s| - 1] == d[|d| - 1]; }
      }
    }
  }

  /** `parse_size` ignores letter case. */
  lemma ParseSizeIgnoresCase(s: string, s': string)
    requires ToUpper(s) == ToUpper(s')
    ensures ParseSize(s) == ParseSize(s')
  {
  }

  lemma ParseSizeOfUpper(s: string)
    ensures ParseSize(ToUpper(s)) == ParseSize(s)
  {
    ToUpperIdempotent(s);
  }

  /** Anything `parse_size` accepts is, up to case, a rendered size, and the
      result is the rendered size's value. */
  lemma ParseSizeSound(s: string, n: nat)
    requires ParseSize(s) == Success(n)
    ensures exists d, u, withB :: IsDecimal(d) && ToUpper(s) == Render(d, u, withB)
                                  && n == DecimalValue(d) * Multiplier(u)
  {
    var up := ToUpper(s);
    var withB := up[|up| - 1] == 'B';
    var t := if withB then up[..|up| - 1] else up;
    var last := t[|t| - 1];
    var u := if last == 'K' then Kilo else if last == 'M' then Mega
             else if last == 'G' then Giga else Bytes;
    var d := if u == Bytes then t else t[..|t| - 1];
    assert t == d + Letter(u);
    assert up == Render(d, u, withB);
  }

  /** `parse_size` succeeds exactly on the rendered sizes, in any case. */
  lemma ParseSizeSucceedsIff(s: string)
    ensures ParseSize(s).Success? <==>
            exists d, u, withB :: IsDecimal(d) && ToUpper(s) == Render(d, u, withB)
  {
    if ParseSize(s).Success? {
      ParseSizeSound(s, ParseSize(s).value);
    }
    if exists d, u, withB :: IsDecimal(d) && ToUpper(s) == Render(d, u, withB) {
      var d, u, withB :| IsDecimal(d) && ToUpper(s) == Render(d, u, withB);
      ParseSizeRender(d, u, withB);
      ParseSizeOfUpper(s);
    }
  }

  /** `s[-1]` fails on exactly three inputs: "", "B" and "b". */
  lemma ParseSizeEmptyIff(s: string)
    ensures ParseSize(s) == Failure(EmptySize) <==> s == "" || s == "B" || s == "b"
  {
    if |s| == 1 {
      UpperCharIs(s[0], 'B');
      assert ToUpper(s) == [UpperChar(s[0])];
    }
  }

  lemma DecimalExamples()
    ensures IsDecimal("128") && DecimalValue("128") == 128
    ensures IsDecimal("512") && DecimalValue("512") == 512
    ensures IsDecimal("2") && DecimalValue("2") == 2
  {
    assert "128"[..2] == "12" && "12"[..1] == "1" && "1"[..0] == "";
    assert "512"[..2] == "51" && "51"[..1] == "5" && "5"[..0] == "";
    assert "2"[..0] == "";
  }

  /** Worked instances: "128mb", "128MB" and "128M" agree, and "512" and
      "512B" both give 512. */
  lemma ParseSizeSuffixExamples()
    ensures ParseSize("128mb") == ParseSize("128MB") == ParseSize("128M") == Success(128 * 1024 * 1024)
    ensures ParseSize("512") == ParseSize("512B") == Success(512)
  {
    DecimalExamples();
    ParseSizeRender("128", Mega, true);
    ParseSizeRender("128", Mega, false);
    assert Render("128", Mega, true) == "128MB";
    assert Render("128", Mega, false) == "128M";
    assert ToUpper("128mb") == "128MB";
    ParseSizeIgnoresCase("128mb", "128MB");
    ParseSizeRender("512", Bytes, false);
    ParseSizeRender("512", Bytes, true);
    assert Render("512", Bytes, false) == "512";
    assert Render("512", Bytes, true) == "512B";
  }

  /** Worked instances: "2g" is two gibibytes, "512KB" is 512 kibibytes. */
  lemma ParseSizeUnitExamples()
    ensures ParseSize("2g") == Success(2 * 1024 * 1024 * 1024)
    ensures ParseSize("512KB") == Success(512 * 1024)
  {
    DecimalExamples();
    ParseSizeRender("2", Giga, false);
    assert Render("2", Giga, false) == "2G";
    assert ToUpper("2g") == "2G";
    ParseSizeIgnoresCase("2g", "2G");
    ParseSizeRender("512", Kilo, true);
    assert Render("512", Kilo, true) == "512KB";
  }

  /** Worked instances of `int()` refusing what is left: "KB" leaves "",
      "1.5G" leaves "1.5". */
  lemma ParseSizeValueErrorExamples()
    ensures ParseSize("KB") == Failure(NotAnInteger(""))
    ensures ParseSize("1.5G") == Failure(NotAnInteger("1.5"))
  {
    assert ToUpper("KB") == "KB";
    assert "KB"[..1] == "K" && "K"[..0] == "";
    assert ToUpper("1.5G") == "1.5G";
    assert "1.5G"[..3] == "1.5";
    assert !IsDigit("1.5"[1]);
  }
}
