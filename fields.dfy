/** The validated fields of a contact: Name, Phone and Birthday. Each validator is a pure
    function from the assigned value to the value that is stored or to the ValueError raised;
    the Field class is the value holder whose setter validates before it stores. */
module Fields {
  import opened Wrappers
  import opened Text

  /** A value handed to a setter: a Python str, or any other object, carried by the text that
      str() gives for it (Birthday coerces its argument with str() before parsing it). */
  datatype Input = Str(s: string) | NonStr(text: string)

  /** str(x). */
  function StrOf(x: Input): string {
    match x
    case Str(s) => s
    case NonStr(r) => r
  }

  const NAME_ERROR: string := "Name must be a string"
  const PHONE_ERROR: string := "Phone must be a string of numbers"
  const BIRTHDAY_ERROR: string := "Input date format YYYY-MM-DD"

  /** Name.valid_name: any str, and nothing else, is accepted as it is. */
  function ValidName(x: Input): (r: Result<string>)
    ensures r.Ok? <==> x.Str?
    ensures r.Ok? ==> r.value == x.s
    ensures r.Err? ==> r.msg == NAME_ERROR
  {
    if x.Str? then Ok(x.s) else Err(NAME_ERROR)
  }

  /** Phone.valid_phone: a str for which isdigit() holds is accepted as it is. */
  function ValidPhone(x: Input): (r: Result<string>)
    ensures r.Ok? <==> x.Str? && |x.s| > 0 && forall i :: 0 <= i < |x.s| ==> '0' <= x.s[i] <= '9'
    ensures r.Ok? ==> r.value == x.s
    ensures r.Err? ==> r.msg == PHONE_ERROR
  {
    if !x.Str? then Err(PHONE_ERROR)
    else if !IsDigitString(x.s) then Err(PHONE_ERROR)
    else Ok(x.s)
  }

  // ---------------------------------------------------------------------------------------
  // Birthday: datetime.strptime(str(x), '%Y-%m-%d').date() and str() of the resulting date.

  /** A proleptic Gregorian calendar date as datetime.date holds it. */
  datatype Date = Date(year: int, month: int, day: int)

  predicate IsLeap(y: int) {
    y % 4 == 0 && (y % 100 != 0 || y % 400 == 0)
  }

  function DaysInMonth(y: int, m: int): int
    requires 1 <= m <= 12
  {
    if m == 2 then (if IsLeap(y) then 29 else 28)
    else if m == 4 || m == 6 || m == 9 || m == 11 then 30
    else 31
  }

  /** What datetime.date(year, month, day) accepts: MINYEAR = 1, MAXYEAR = 9999. */
  predicate ValidDate(d: Date) {
    1 <= d.year <= 9999 && 1 <= d.month <= 12 && 1 <= d.day <= DaysInMonth(d.year, d.month)
  }

  function DigitValue(c: char): int
    requires IsDigit(c)
  {
    c as int - '0' as int
  }

  function DigitChar(n: int): (c: char)
    requires 0 <= n <= 9
    ensures IsDigit(c) && DigitValue(c) == n
  {
    ('0' as int + n) as char
  }

  /** The %Y directive: exactly four digits. */
  predicate YearToken(t: string) {
    |t| == 4 && IsDigit(t[0]) && IsDigit(t[1]) && IsDigit(t[2]) && IsDigit(t[3])
  }

  function YearValue(t: string): int
    requires YearToken(t)
  {
    1000 * DigitValue(t[0]) + 100 * DigitValue(t[1]) + 10 * DigitValue(t[2]) + DigitValue(t[3])
  }

  /** The %m directive, whose pattern is 1[0-2]|0[1-9]|[1-9]. */
  predicate MonthToken(t: string) {
    || (|t| == 2 && t[0] == '1' && '0' <= t[1] <= '2')
    || (|t| == 2 && t[0] == '0' && '1' <= t[1] <= '9')
    || (|t| == 1 && '1' <= t[0] <= '9')
  }

  /** The %d directive, whose pattern is 3[01]|[12]\d|0[1-9]|[1-9]| [1-9] (a space may stand
      for the leading zero). */
  predicate DayToken(t: string) {
    || (|t| == 2 && t[0] == '3' && '0' <= t[1] <= '1')
    || (|t| == 2 && '1' <= t[0] <= '2' && IsDigit(t[1]))
    || (|t| == 2 && t[0] == '0' && '1' <= t[1] <= '9')
    || (|t| == 1 && '1' <= t[0] <= '9')
    || (|t| == 2 && t[0] == ' ' && '1' <= t[1] <= '9')
  }

  /** int() of a month or day token; a leading space counts as nothing. */
  function TokenValue(t: string): int
    requires MonthToken(t) || DayToken(t)
  {
    if |t| == 1 then DigitValue(t[0])
    else if t[0] == ' ' then DigitValue(t[1])
    else 10 * DigitValue(t[0]) + DigitValue(t[1])
  }

  /** Index of the first '-' in s, or |s| when there is none. */
  function FirstDash(s: string): (k: nat)
    ensures k <= |s|
    ensures k < |s| ==> s[k] == '-'
    ensures forall j :: 0 <= j < k ==> s[j] != '-'
    decreases |s|
  {
    if s == [] then 0
    else if s[0] == '-' then 0
    else 1 + FirstDash(s[1..])
  }

  lemma {:induction false} FirstDashAt(s: string, k: nat)
    requires k < |s| && s[k] == '-'
    requires forall j :: 0 <= j < k ==> s[j] != '-'
    ensures FirstDash(s) == k
    decreases k
  {
    if k > 0 {
      FirstDashAt(s[1..], k - 1);
    }
  }

  /** strptime(s, '%Y-%m-%d'): the whole of s must match year, '-', month, '-', day (the
      directives contain no '-', so the month is what lies between the first two dashes and
      the day is all that follows), and the three numbers must name a real date. */
  function ParseDate(s: string): (r: Option<Date>)
    ensures r.Some? ==> ValidDate(r.value)
  {
    if |s| < 5 || s[4] != '-' || !YearToken(s[..4]) then None
    else
      var rest := s[5..];
      var k := FirstDash(rest);
      if k == |rest| then None
      else
        var m := rest[..k];
        var d := rest[k + 1..];
        if !MonthToken(m) || !DayToken(d) then None
        else
          var date := Date(YearValue(s[..4]), TokenValue(m), TokenValue(d));
          if ValidDate(date) then Some(date) else None
  }

  function Pad2(n: int): (s: string)
    requires 0 <= n <= 99
    ensures |s| == 2
  {
    [DigitChar(n / 10), DigitChar(n % 10)]
  }

  function Pad4(n: int): (s: string)
    requires 0 <= n <= 9999
    ensures |s| == 4
  {
    Pad2(n / 100) + Pad2(n % 100)
  }

  /** str(date): the ISO form YYYY-MM-DD with zero padding. */
  function RenderDate(d: Date): (s: string)
    requires ValidDate(d)
    ensures |s| == 10 && s[4] == '-' && s[7] == '-'
    ensures forall i :: 0 <= i < 10 && i != 4 && i != 7 ==> IsDigit(s[i])
  {
    Pad4(d.year) + "-" + Pad2(d.month) + "-" + Pad2(d.day)
  }

  /** Birthday.valid_birthday: the value stored for an accepted input is the canonical
      rendering of the date it denotes, never the input text itself. */
  function ValidBirthday(x: Input): (r: Result<string>)
    ensures r.Ok? <==> ParseDate(StrOf(x)).Some?
    ensures r.Ok? ==> r.value == RenderDate(ParseDate(StrOf(x)).value)
    ensures r.Err? ==> r.msg == BIRTHDAY_ERROR
  {
    match ParseDate(StrOf(x))
    case Some(d) => Ok(RenderDate(d))
    case None => Err(BIRTHDAY_ERROR)
  }

  /** A stored birthday: the rendering of some calendar-valid date. */
  ghost predicate IsIsoDate(v: string) {
    exists d :: ValidDate(d) && RenderDate(d) == v
  }

  lemma YearRoundTrip(y: int)
    requires 0 <= y <= 9999
    ensures YearToken(Pad4(y)) && YearValue(Pad4(y)) == y
  {
    var p := Pad4(y);
    var hi, lo := y / 100, y % 100;
    assert y == 100 * hi + lo;
    assert hi == 10 * (hi / 10) + hi % 10;
    assert lo == 10 * (lo / 10) + lo % 10;
    assert DigitValue(p[0]) == hi / 10 && DigitValue(p[1]) == hi % 10;
    assert DigitValue(p[2]) == lo / 10 && DigitValue(p[3]) == lo % 10;
  }

  /** Rendering a valid date and parsing the text back gives the same date. */
  lemma ParseRender(d: Date)
    requires ValidDate(d)
    ensures ParseDate(RenderDate(d)) == Some(d)
  {
    var s := RenderDate(d);
    YearRoundTrip(d.year);
    assert s[..4] == Pad4(d.year);
    var rest := s[5..];
    assert rest == Pad2(d.month) + "-" + Pad2(d.day);
    FirstDashAt(rest, 2);
    assert rest[..2] == Pad2(d.month);
    assert rest[3..] == Pad2(d.day);
  }

  /** Every accepted birthday is stored as a ten-character YYYY-MM-DD text of a valid date. */
  lemma BirthdayStoresIsoDate(x: Input)
    requires ValidBirthday(x).Ok?
    ensures IsIsoDate(ValidBirthday(x).value)
    ensures |ValidBirthday(x).value| == 10
  {
    var d := ParseDate(StrOf(x)).value;
    assert ValidDate(d) && RenderDate(d) == ValidBirthday(x).value;
  }

  /** A canonical date text is accepted and stored unchanged. */
  lemma IsoDateStoredUnchanged(v: string)
    requires IsIsoDate(v)
    ensures ValidBirthday(Str(v)) == Ok(v)
  {
    var d :| ValidDate(d) && RenderDate(d) == v;
    ParseRender(d);
  }

  /** Birthday validation is idempotent: validating the stored value yields it again. */
  lemma BirthdayIdempotent(x: Input)
    requires ValidBirthday(x).Ok?
    ensures ValidBirthday(Str(ValidBirthday(x).value)) == ValidBirthday(x)
  {
    BirthdayStoresIsoDate(x);
    IsoDateStoredUnchanged(ValidBirthday(x).value);
  }

  /** Any text shaped year-month-day by the three directives and naming a real date is
      accepted, short forms included, and stored in canonical form. */
  lemma BirthdayAccepts(y: string, m: string, d: string)
    requires YearToken(y) && MonthToken(m) && DayToken(d)
    requires ValidDate(Date(YearValue(y), TokenValue(m), TokenValue(d)))
    ensures ValidBirthday(Str(y + "-" + m + "-" + d)) ==
            Ok(RenderDate(Date(YearValue(y), TokenValue(m), TokenValue(d))))
  {
    var s := y + "-" + m + "-" + d;
    assert s[..4] == y;
    var rest := s[5..];
    assert rest == m + "-" + d;
    FirstDashAt(rest, |m|);
    assert rest[..|m|] == m;
    assert rest[|m| + 1..] == d;
  }

  /** Tokens of the three directives that name no real date are rejected. This is the case of
      a month 13 that is a token (none is), an April 31 or a February 29 outside a leap year. */
  lemma BirthdayRejects(y: string, m: string, d: string)
    requires YearToken(y) && MonthToken(m) && DayToken(d)
    requires !ValidDate(Date(YearValue(y), TokenValue(m), TokenValue(d)))
    ensures ValidBirthday(Str(y + "-" + m + "-" + d)) == Err(BIRTHDAY_ERROR)
  {
    var s := y + "-" + m + "-" + d;
    assert s[..4] == y;
    var rest := s[5..];
    assert rest == m + "-" + d;
    FirstDashAt(rest, |m|);
    assert rest[..|m|] == m;
    assert rest[|m| + 1..] == d;
  }

  /** Conversely, a text strptime accepts is a year, month and day token joined by dashes, and
      the date parsed is the one those tokens name. */
  lemma ParseDateShape(s: string)
    requires ParseDate(s).Some?
    ensures exists y, m, d :: YearToken(y) && MonthToken(m) && DayToken(d) && s == y + "-" + m + "-" + d &&
                              ParseDate(s).value == Date(YearValue(y), TokenValue(m), TokenValue(d))
  {
    var rest := s[5..];
    var k := FirstDash(rest);
    var y, m, d := s[..4], rest[..k], rest[k + 1..];
    assert rest == m + "-" + d;
    assert s == y + "-" + m + "-" + d;
  }

  /** A single-digit month and day are accepted and zero-padded. */
  lemma BirthdayShortForm()
    ensures ValidBirthday(Str("2000-8-9")) == Ok("2000-08-09")
  {
    BirthdayAccepts("2000", "8", "9");
    assert "2000" + "-" + "8" + "-" + "9" == "2000-8-9";
    assert RenderDate(Date(2000, 8, 9)) == "2000-08-09";
  }

  /** A space may stand for the leading zero of the day. */
  lemma BirthdaySpacedDay()
    ensures ValidBirthday(Str("2000-08- 9")) == Ok("2000-08-09")
  {
    BirthdayAccepts("2000", "08", " 9");
    assert "2000" + "-" + "08" + "-" + " 9" == "2000-08- 9";
    assert RenderDate(Date(2000, 8, 9)) == "2000-08-09";
  }

  /** February 29 of the leap year 2000 is kept as it is. */
  lemma BirthdayLeapDay()
    ensures ValidBirthday(Str("2000-02-29")) == Ok("2000-02-29")
  {
    ParseRender(Date(2000, 2, 29));
    assert RenderDate(Date(2000, 2, 29)) == "2000-02-29";
  }

  /** February 29 is rejected in a year not divisible by 4 ... */
  lemma BirthdayNoLeapDay()
    ensures ValidBirthday(Str("2021-02-29")).Err?
  {
    var s := "2021-02-29";
    assert s[..4] == "2021" && YearValue("2021") == 2021;
    assert s[5..] == "02-29";
    FirstDashAt(s[5..], 2);
    assert s[5..][..2] == "02" && s[5..][3..] == "29";
    assert TokenValue("02") == 2 && TokenValue("29") == 29;
    assert !ValidDate(Date(2021, 2, 29));
    assert ParseDate(s).None?;
  }

  /** ... and in a century not divisible by 400. */
  lemma BirthdayNoCenturyLeapDay()
    ensures ValidBirthday(Str("1900-02-29")).Err?
  {
    var t := "1900-02-29";
    assert t[..4] == "1900" && YearValue("1900") == 1900;
    assert t[5..] == "02-29";
    FirstDashAt(t[5..], 2);
    assert t[5..][..2] == "02" && t[5..][3..] == "29";
    assert TokenValue("02") == 2 && TokenValue("29") == 29;
    assert !ValidDate(Date(1900, 2, 29)) by {
      assert !IsLeap(1900);
    }
    assert ParseDate(t).None?;
  }

  /** Month 13 does not match the month directive. */
  lemma BirthdayNoMonth13()
    ensures ValidBirthday(Str("2021-13-01")).Err?
  {
    var a := "2021-13-01";
    assert a[5..] == "13-01";
    FirstDashAt(a[5..], 2);
    assert a[5..][..2] == "13";
    assert ParseDate(a).None?;
  }

  /** April has thirty days. */
  lemma BirthdayNoApril31()
    ensures ValidBirthday(Str("2021-04-31")).Err?
  {
    var b := "2021-04-31";
    assert b[5..] == "04-31";
    FirstDashAt(b[5..], 2);
    assert b[5..][..2] == "04" && b[5..][3..] == "31";
    assert TokenValue("04") == 4 && TokenValue("31") == 31;
    assert !ValidDate(Date(2021, 4, 31));
    assert ParseDate(b).None?;
  }

  /** The year 0 is out of range. */
  lemma BirthdayNoYear0()
    ensures ValidBirthday(Str("0000-01-01")).Err?
  {
    var c := "0000-01-01";
    assert c[..4] == "0000";
  }

  /** A three-digit month does not match the pattern. */
  lemma BirthdayLongMonth()
    ensures ValidBirthday(Str("2000-001-01")).Err?
  {
    var a := "2000-001-01";
    assert a[5..] == "001-01";
    FirstDashAt(a[5..], 3);
    assert a[5..][..3] == "001";
    assert ParseDate(a).None?;
  }

  /** Text left over after the day does not match in full. */
  lemma BirthdayLongDay()
    ensures ValidBirthday(Str("2000-01-123")).Err?
  {
    var b := "2000-01-123";
    assert b[5..] == "01-123";
    FirstDashAt(b[5..], 2);
    assert b[5..][3..] == "123";
    assert ParseDate(b).None?;
  }

  /** A text without a four-digit year, and a value that is not a str (str(None) is "None"),
      are rejected. */
  lemma BirthdayNotADate()
    ensures ValidBirthday(Str("not-a-date")).Err?
    ensures ValidBirthday(NonStr("None")).Err?
  {
    var c := "not-a-date";
    assert !YearToken(c[..4]);
  }

  // ---------------------------------------------------------------------------------------
  // The value holder.

  datatype Kind = NameKind | PhoneKind | BirthdayKind

  /** The validator bound to each field class. */
  function Validate(kind: Kind, x: Input): Result<string> {
    match kind
    case NameKind => ValidName(x)
    case PhoneKind => ValidPhone(x)
    case BirthdayKind => ValidBirthday(x)
  }

  /** An accepted value is one its own validator accepts again unchanged. */
  lemma ValidateIdempotent(kind: Kind, x: Input)
    requires Validate(kind, x).Ok?
    ensures Validate(kind, Str(Validate(kind, x).value)) == Validate(kind, x)
  {
    if kind == BirthdayKind {
      BirthdayIdempotent(x);
    }
  }

  /** Field with the value property of Name, Phone or Birthday. */
  class Field {
    const kind: Kind
    var value: string

    /** The stored value is one the field's validator accepts unchanged. */
    ghost predicate Valid()
      reads this
    {
      Validate(kind, Str(value)) == Ok(value)
    }

    constructor (kind: Kind, v: string)
      requires Validate(kind, Str(v)) == Ok(v)
      ensures this.kind == kind && value == v && Valid()
    {
      this.kind := kind;
      value := v;
    }

    /** Name(x), Phone(x), Birthday(x): construction runs the setter, so it raises instead of
        producing a field when x is rejected. */
    static method New(kind: Kind, x: Input) returns (f: Field?, status: Status)
      ensures status == (if Validate(kind, x).Ok? then Completed else Raised(Validate(kind, x).msg))
      ensures f == null <==> status.Raised?
      ensures f != null ==> fresh(f) && f.kind == kind && f.value == Validate(kind, x).value && f.Valid()
    {
      match Validate(kind, x)
      case Ok(v) =>
        ValidateIdempotent(kind, x);
        f := new Field(kind, v);
        status := Completed;
      case Err(e) =>
        f := null;
        status := Raised(e);
    }

    /** The value setter: validate first, then store; on rejection it raises and the stored
        value stays what it was. */
    method Set(x: Input) returns (status: Status)
      requires Valid()
      modifies this`value
      ensures Valid()
      ensures Validate(kind, x).Ok? ==> status == Completed && value == Validate(kind, x).value
      ensures Validate(kind, x).Err? ==> status == Raised(Validate(kind, x).msg) && value == old(value)
    {
      match Validate(kind, x)
      case Ok(v) =>
        ValidateIdempotent(kind, x);
        value := v;
        status := Completed;
      case Err(e) =>
        status := Raised(e);
    }

    /** Field.__str__. */
    function ToString(): (s: string)
      reads this
      requires Valid()
      ensures kind == PhoneKind ==> IsDigitString(s)
      ensures kind == BirthdayKind ==> |s| == 10 && IsIsoDate(s)
    {
      if kind == BirthdayKind then
        ValidateIdempotent(kind, Str(value));
        BirthdayStoresIsoDate(Str(value));
        value
      else value
    }
  }
}
