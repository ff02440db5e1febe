/**
 Durations (duration.c): their text in the manner of ISO 8601, written into a buffer
 sized beforehand and read back by searching for the unit letters; and their relation
 to times in seconds.
 */
module Duration {
  import opened Common
  import opened Decimal

  /** The fields of a duration. */
  datatype Fields = Fields(years: int, months: int, weeks: int, days: int, hours: int, minutes: int, seconds: int)

  const Zero := Fields(0, 0, 0, 0, 0, 0, 0)

  /** The cast to uint32_t, and to a 32-bit int. */
  function U32(x: int): nat { x % 0x1_0000_0000 }
  function I32(x: int): int { if U32(x) < 0x8000_0000 then U32(x) else U32(x) - 0x1_0000_0000 }

  // ----- the text of a duration -----

  /** The numbers a text gives, in the order of their units, each as its digits; `time`
      says whether there is a T. */
  datatype Text = Text(years: Option<string>, months: Option<string>, weeks: Option<string>, days: Option<string>,
                       time: bool, hours: Option<string>, minutes: Option<string>, seconds: Option<string>)

  predicate IsNumber(o: Option<string>) {
    o.Some? ==> (forall c | c in o.value :: IsDigit(c)) && Val(o.value) < 0x8000_0000
  }

  predicate IsText(x: Text) {
    && IsNumber(x.years) && IsNumber(x.months) && IsNumber(x.weeks) && IsNumber(x.days)
    && IsNumber(x.hours) && IsNumber(x.minutes) && IsNumber(x.seconds)
    && (!x.time ==> x.hours.None? && x.minutes.None? && x.seconds.None?)
  }

  function Part(o: Option<string>, unit: char): string {
    if o.None? then "" else o.value + [unit]
  }

  function TimePart(x: Text): string {
    if x.time then "T" + (Part(x.hours, 'H') + (Part(x.minutes, 'M') + Part(x.seconds, 'S'))) else ""
  }

  function Render(x: Text): string {
    "P" + (Part(x.years, 'Y') + (Part(x.months, 'M') + (Part(x.weeks, 'W') + (Part(x.days, 'D') + TimePart(x)))))
  }

  /** A field that is printed gives its digits, as an unsigned 32-bit number. */
  function Shown(shown: bool, value: int): Option<string> {
    if shown then Some(Digits(U32(value))) else None
  }

  predicate HasDate(d: Fields) { d.years > 0 || d.months > 0 || d.weeks > 0 || d.days > 0 }

  predicate ShowsSeconds(d: Fields) {
    d.seconds > 0 || (!HasDate(d) && d.hours == 0 && d.minutes == 0)
  }

  predicate HasTime(d: Fields) { d.hours > 0 || d.minutes > 0 || ShowsSeconds(d) }

  function TextOf(d: Fields): Text {
    Text(Shown(d.years > 0, d.years), Shown(d.months > 0, d.months), Shown(d.weeks > 0, d.weeks),
         Shown(d.days > 0, d.days), HasTime(d), Shown(d.hours > 0, d.hours),
         Shown(d.minutes > 0, d.minutes), Shown(ShowsSeconds(d), d.seconds))
  }

  /** What duration2string prints. */
  function Print(d: Fields): string { Render(TextOf(d)) }

  /** There is a number in the text. */
  predicate HasNumber(s: string) {
    exists c | c in s :: IsDigit(c)
  }

  lemma NumberInConcat(s: string, t: string)
    ensures HasNumber(s + t) <==> HasNumber(s) || HasNumber(t)
  {
    if c :| c in s && IsDigit(c) {
      assert c in s + t;
    }
    if c :| c in t && IsDigit(c) {
      assert c in s + t;
    }
  }

  lemma NumberInPart(shown: bool, value: int, unit: char, rest: string)
    requires !IsDigit(unit)
    ensures HasNumber(Part(Shown(shown, value), unit) + rest) <==> shown || HasNumber(rest)
  {
    NumberInConcat(Part(Shown(shown, value), unit), rest);
    if shown {
      var c := Digits(U32(value))[0];
      assert c in Digits(U32(value)) && c in Part(Shown(shown, value), unit);
    }
  }

  /** A number is printed, except for durations without a field above zero and with hours or
      minutes below zero, which print as a mere "P". */
  lemma PrintsNumber(d: Fields)
    ensures HasNumber(Print(d)) <==>
      HasDate(d) || d.hours > 0 || d.minutes > 0 || d.seconds > 0 || d.hours == d.minutes == 0
    ensures !HasNumber(Print(d)) <==> Print(d) == "P"
  {
    var x := TextOf(d);
    var r6 := Part(x.seconds, 'S');
    var r5 := Part(x.minutes, 'M') + r6;
    var r4 := Part(x.hours, 'H') + r5;
    var r3 := Part(x.days, 'D') + TimePart(x);
    var r2 := Part(x.weeks, 'W') + r3;
    var r1 := Part(x.months, 'M') + r2;
    NumberInPart(d.years > 0, d.years, 'Y', r1);
    NumberInPart(d.months > 0, d.months, 'M', r2);
    NumberInPart(d.weeks > 0, d.weeks, 'W', r3);
    NumberInPart(d.days > 0, d.days, 'D', TimePart(x));
    NumberInConcat("T", r4);
    NumberInPart(d.hours > 0, d.hours, 'H', r5);
    NumberInPart(d.minutes > 0, d.minutes, 'M', r6);
    NumberInPart(ShowsSeconds(d), d.seconds, 'S', "");
    assert r6 + "" == r6;
    NumberInConcat("P", Part(x.years, 'Y') + r1);
  }

  /** Some durations as they are printed, the zero one among them. */
  lemma Printed()
    ensures Print(Zero) == "PT0S"
    ensures Print(Fields(1, 2, 0, 3, 4, 5, 6)) == "P1Y2M3DT4H5M6S"
    ensures Print(Zero.(weeks := 7)) == "P7W"
  {
    PrintedZero();
    PrintedFields();
    PrintedWeeks();
  }

  lemma PrintedWeeks()
    ensures Print(Zero.(weeks := 7)) == "P7W"
  {
    OneDigit(7);
    assert Print(Zero.(weeks := 7)) == "P" + ("" + ("" + ("7W" + ("" + ""))));
  }

  lemma OneDigit(n: nat)
    requires 0 <= n < 10
    ensures Digits(U32(n)) == [Digit(n)]
    ensures Digit(0) == '0' && Digit(1) == '1' && Digit(2) == '2' && Digit(3) == '3'
    ensures Digit(4) == '4' && Digit(5) == '5' && Digit(6) == '6' && Digit(7) == '7'
  {
    assert U32(n) == n;
  }

  lemma PrintedZero()
    ensures Print(Zero) == "PT0S"
  {
    OneDigit(0);
    assert TimePart(TextOf(Zero)) == "T" + ("" + ("" + "0S"));
    assert Print(Zero) == "P" + ("" + ("" + ("" + ("" + "T0S"))));
  }

  lemma PrintedFields()
    ensures Print(Fields(1, 2, 0, 3, 4, 5, 6)) == "P1Y2M3DT4H5M6S"
  {
    OneDigit(1);
    OneDigit(2);
    OneDigit(3);
    OneDigit(4);
    OneDigit(5);
    OneDigit(6);
    var x := TextOf(Fields(1, 2, 0, 3, 4, 5, 6));
    assert x == Text(Some("1"), Some("2"), None, Some("3"), true, Some("4"), Some("5"), Some("6"));
    Rendered(x);
  }

  lemma Rendered(x: Text)
    requires x == Text(Some("1"), Some("2"), None, Some("3"), true, Some("4"), Some("5"), Some("6"))
    ensures Render(x) == "P1Y2M3DT4H5M6S"
  {
    assert TimePart(x) == "T" + ("4H" + ("5M" + "6S")) == "T4H5M6S";
    assert Render(x) == "P" + ("1Y" + ("2M" + ("" + ("3D" + "T4H5M6S"))));
  }

  // ----- the library functions of the parser -----

  /** strchr: a pointer into a string is the suffix it points at. */
  function Strchr(s: string, c: char): Option<string> {
    if s == "" then None
    else if s[0] == c then Some(s)
    else Strchr(s[1..], c)
  }

  function Strrchr(s: string, c: char): Option<string> {
    if s == "" then None
    else if Strrchr(s[1..], c).Some? then Strrchr(s[1..], c)
    else if s[0] == c then Some(s)
    else None
  }

  function Value(c: char): nat
    requires IsDigit(c)
  {
    c as int - '0' as int
  }

  /** The number formed by digits. */
  function Val(s: string): nat
    requires forall c | c in s :: IsDigit(c)
  {
    if s == "" then 0 else 10 * Val(s[..|s| - 1]) + Value(s[|s| - 1])
  }

  function LeadingDigits(s: string): (r: string)
    ensures forall c | c in r :: IsDigit(c)
  {
    if s == "" || !IsDigit(s[0]) then "" else [s[0]] + LeadingDigits(s[1..])
  }

  predicate IsSpace(c: char) { c == ' ' || '\t' as int <= c as int <= '\r' as int }

  function SkipSpace(s: string): string {
    if s != "" && IsSpace(s[0]) then SkipSpace(s[1..]) else s
  }

  function Clamp(n: int): int {
    if n > 0x7fff_ffff_ffff_ffff then 0x7fff_ffff_ffff_ffff
    else if n < -0x8000_0000_0000_0000 then -0x8000_0000_0000_0000
    else n
  }

  /** atoi: the number in front; beyond an int, a saturated long cut to 32 bits. */
  function Atoi(s: string): int {
    var t := SkipSpace(s);
    if t != "" && t[0] == '-' then I32(Clamp(0 - Val(LeadingDigits(t[1..]))))
    else if t != "" && t[0] == '+' then I32(Clamp(Val(LeadingDigits(t[1..]))))
    else I32(Clamp(Val(LeadingDigits(t))))
  }

  /** The pointer difference x - p, cast to size_t: a negative one wraps around. */
  function Distance(x: string, p: string): int {
    if |x| <= |p| then |p| - |x| else 0x1_0000_0000_0000_0000 + |p| - |x|
  }

  // ----- the parser -----

  /** Where the parser stands, what it has set, and whether anything but weeks was seen. */
  datatype Scan = Scan(str: string, fields: Fields, notWeeks: bool)

  function Field(str: string): int {
    if str == "" then 0 else Atoi(str[1..])
  }

  function Years(s: Scan): Scan {
    var x := Strchr(s.str, 'Y');
    if x.Some? then Scan(x.value, s.fields.(years := Field(s.str)), true) else s
  }

  function Months(s: Scan, p: string, t: Option<string>): Scan {
    var x := Strchr(s.str, 'M');
    if x.Some? && (t.None? || Distance(x.value, p) < Distance(t.value, p))
    then Scan(x.value, s.fields.(months := Field(s.str)), true) else s
  }

  function Days(s: Scan): Scan {
    var x := Strchr(s.str, 'D');
    if x.Some? then Scan(x.value, s.fields.(days := Field(s.str)), true) else s
  }

  function Time(s: Scan, t: Option<string>): Scan {
    if t.Some? then Scan(t.value, s.fields, true) else s
  }

  function Hours(s: Scan, t: Option<string>): Scan {
    var x := Strchr(s.str, 'H');
    if x.Some? && t.Some? then Scan(x.value, s.fields.(hours := Field(s.str)), true) else s
  }

  function Minutes(s: Scan, p: string, t: Option<string>): Scan {
    var x := Strrchr(s.str, 'M');
    if x.Some? && t.Some? && Distance(x.value, p) > Distance(t.value, p)
    then Scan(x.value, s.fields.(minutes := Field(s.str)), true) else s
  }

  function Seconds(s: Scan, t: Option<string>): Scan {
    var x := Strchr(s.str, 'S');
    if x.Some? && t.Some? then Scan(x.value, s.fields.(seconds := Field(s.str)), true) else s
  }

  function Weeks(s: Scan): Option<Fields> {
    if Strchr(s.str, 'W').None? then Some(s.fields)
    else if s.notWeeks then None
    else Some(s.fields.(weeks := Field(s.str)))
  }

  function DateScan(str: string, p: string, t: Option<string>): Scan {
    Days(Months(Years(Scan(str, Zero, false)), p, t))
  }

  function TimeScan(s: Scan, p: string, t: Option<string>): Scan {
    Seconds(Minutes(Hours(Time(s, t), t), p, t), t)
  }

  /** What duration_create_from_string makes of a string; None is its NULL. */
  function Parse(str: string): Option<Fields> {
    var p := Strchr(str, 'P');
    if p.None? then None
    else
      var t := Strchr(str, 'T');
      Weeks(TimeScan(DateScan(str, p.value, t), p.value, t))
  }

  // ----- what the parser makes of a well-formed text -----

  function Num(o: Option<string>): nat
    requires IsNumber(o)
  {
    if o.None? then 0 else Val(o.value)
  }

  /** What a well-formed text is taken to mean.  Weeks beside days are read as the days,
      weeks beside a T are dropped, and weeks beside years or months alone are refused. */
  function Meaning(x: Text): Option<Fields>
    requires IsText(x)
  {
    var d := Fields(Num(x.years), Num(x.months), 0, Num(x.days), Num(x.hours), Num(x.minutes), Num(x.seconds));
    if x.weeks.None? then Some(d)
    else if x.days.Some? then Some(d.(days := Num(x.weeks)))
    else if x.time then Some(d)
    else if x.years.Some? || x.months.Some? then None
    else Some(d.(weeks := Num(x.weeks)))
  }

  // ----- reading numbers -----

  predicate IsUnit(c: char) { c in "YMWDTHS" }

  lemma {:induction false} LeadingOf(num: string, rest: string)
    requires forall c | c in num :: IsDigit(c)
    requires rest == "" || !IsDigit(rest[0])
    ensures LeadingDigits(num + rest) == num
  {
    if num == "" {
      assert num + rest == rest;
    } else {
      LeadingOf(num[1..], rest);
      assert (num + rest)[1..] == num[1..] + rest;
      assert num == [num[0]] + num[1..];
    }
  }

  lemma AtoiNumber(num: string, rest: string)
    requires (forall c | c in num :: IsDigit(c)) && Val(num) < 0x8000_0000
    requires rest != "" && IsUnit(rest[0])
    ensures Atoi(num + rest) == Val(num)
  {
    LeadingOf(num, rest);
    assert (num + rest)[0] == if num == "" then rest[0] else num[0];
    assert num != "" ==> num[0] in num;
    assert SkipSpace(num + rest) == num + rest;
  }

  lemma {:induction false} ValDigits(n: nat)
    ensures Val(Digits(n)) == n
  {
    if n >= 10 {
      ValDigits(n / 10);
      assert Digits(n)[..|Digits(n)| - 1] == Digits(n / 10);
    } else {
      assert Digits(n)[..0] == "";
    }
  }

  // ----- finding units -----

  lemma {:induction false} StrchrSkip(u: string, v: string, c: char)
    requires c !in u
    ensures Strchr(u + v, c) == Strchr(v, c)
  {
    if u == "" {
      assert u + v == v;
    } else {
      StrchrSkip(u[1..], v, c);
      assert (u + v)[1..] == u[1..] + v;
    }
  }

  lemma {:induction false} Nowhere(s: string, c: char)
    requires c !in s
    ensures Strchr(s, c) == None && Strrchr(s, c) == None
  {
    if s != "" {
      Nowhere(s[1..], c);
    }
  }

  lemma {:induction false} StrrchrSkip(u: string, v: string, c: char)
    requires c !in v
    ensures Strrchr(u + ([c] + v), c) == Some([c] + v)
  {
    var s := u + ([c] + v);
    if u == "" {
      assert s == [c] + v && s[1..] == v;
      Nowhere(v, c);
    } else {
      StrrchrSkip(u[1..], v, c);
      assert s[1..] == u[1..] + ([c] + v);
    }
  }

  lemma PartLetters(o: Option<string>, unit: char, c: char)
    requires IsNumber(o) && !IsDigit(c)
    ensures c in Part(o, unit) <==> o.Some? && c == unit
  {
  }

  lemma TimeLetters(x: Text, c: char)
    requires IsText(x) && !IsDigit(c)
    ensures c in TimePart(x) <==>
      x.time && (c == 'T' || (c == 'H' && x.hours.Some?) || (c == 'M' && x.minutes.Some?) || (c == 'S' && x.seconds.Some?))
  {
    PartLetters(x.hours, 'H', c);
    PartLetters(x.minutes, 'M', c);
    PartLetters(x.seconds, 'S', c);
  }

  /** Behind a letter and a number the search finds the unit of the number; where there
      is no number it goes on behind. */
  lemma Found(l: char, o: Option<string>, unit: char, rest: string)
    requires IsNumber(o) && IsUnit(unit) && l != unit
    ensures var str := [l] + (Part(o, unit) + rest);
            if o.Some? then Strchr(str, unit) == Some([unit] + rest) && Field(str) == Val(o.value)
            else str == [l] + rest && Strchr(str, unit) == Strchr(rest, unit)
  {
    if o.Some? {
      var num := o.value;
      assert [l] + (Part(o, unit) + rest) == ([l] + num) + ([unit] + rest);
      StrchrSkip([l] + num, [unit] + rest, unit);
      AtoiNumber(num, [unit] + rest);
      assert ([l] + (Part(o, unit) + rest))[1..] == num + ([unit] + rest);
    } else {
      assert Part(o, unit) + rest == rest;
      StrchrSkip([l], rest, unit);
    }
  }

  function After(l: char, o: Option<string>, unit: char): char {
    if o.Some? then unit else l
  }

  // ----- the steps of the parser on a well-formed text -----

  /** The text behind the years, the months and the weeks. */
  function Rest3(x: Text): string { Part(x.days, 'D') + TimePart(x) }
  function Rest2(x: Text): string { Part(x.weeks, 'W') + Rest3(x) }
  function Rest1(x: Text): string { Part(x.months, 'M') + Rest2(x) }

  /** The pointer at T. */
  function AtT(x: Text): Option<string> {
    if x.time then Some(TimePart(x)) else None
  }

  function DateFields(x: Text): Fields
    requires IsText(x)
  {
    Fields(Num(x.years), Num(x.months), 0,
           if x.days.None? then 0 else if x.weeks.Some? then Num(x.weeks) else Num(x.days), 0, 0, 0)
  }

  lemma FindsT(x: Text)
    requires IsText(x)
    ensures Strchr(Render(x), 'T') == AtT(x)
  {
    var a, b, c, d := Part(x.years, 'Y'), Part(x.months, 'M'), Part(x.weeks, 'W'), Part(x.days, 'D');
    PartLetters(x.years, 'Y', 'T');
    PartLetters(x.months, 'M', 'T');
    PartLetters(x.weeks, 'W', 'T');
    PartLetters(x.days, 'D', 'T');
    StrchrSkip("P", a + (b + (c + (d + TimePart(x)))), 'T');
    StrchrSkip(a, b + (c + (d + TimePart(x))), 'T');
    StrchrSkip(b, c + (d + TimePart(x)), 'T');
    StrchrSkip(c, d + TimePart(x), 'T');
    StrchrSkip(d, TimePart(x), 'T');
  }

  lemma YearsRead(x: Text)
    requires IsText(x)
    ensures Years(Scan(Render(x), Zero, false))
         == Scan([After('P', x.years, 'Y')] + Rest1(x), Zero.(years := Num(x.years)), x.years.Some?)
  {
    PartLetters(x.months, 'M', 'Y');
    PartLetters(x.weeks, 'W', 'Y');
    PartLetters(x.days, 'D', 'Y');
    TimeLetters(x, 'Y');
    Nowhere(Rest1(x), 'Y');
    Found('P', x.years, 'Y', Rest1(x));
  }

  lemma Nearer(x: string, t: string, p: string)
    requires |t| <= |p| && |x| <= |p|
    ensures Distance(x, p) < Distance(t, p) <==> |t| < |x|
  {
  }

  lemma Lengths(x: Text)
    ensures |TimePart(x)| <= |Rest3(x)| <= |Rest2(x)| <= |Rest1(x)| < |Render(x)|
  {
  }

  /** An M behind the T is not taken for the months. */
  lemma MonthsRead(x: Text, l: char, f: Fields, seen: bool)
    requires IsText(x) && (l == 'P' || l == 'Y') && f.months == 0
    ensures Months(Scan([l] + Rest1(x), f, seen), Render(x), AtT(x))
         == Scan([After(l, x.months, 'M')] + Rest2(x), f.(months := Num(x.months)), seen || x.months.Some?)
  {
    Lengths(x);
    Found(l, x.months, 'M', Rest2(x));
    if x.months.Some? {
      assert |['M'] + Rest2(x)| <= |Rest1(x)|;
      Nearer(['M'] + Rest2(x), TimePart(x), Render(x));
    } else {
      NoMonths(x);
      var r := Strchr(Rest2(x), 'M');
      if r.Some? {
        Nearer(r.value, TimePart(x), Render(x));
      }
    }
  }

  lemma NoMonths(x: Text)
    requires IsText(x)
    ensures var r := Strchr(Rest2(x), 'M'); r.Some? ==> x.time && |r.value| < |TimePart(x)|
  {
    var front := Part(x.weeks, 'W') + Part(x.days, 'D');
    PartLetters(x.weeks, 'W', 'M');
    PartLetters(x.days, 'D', 'M');
    assert Rest2(x) == front + TimePart(x);
    StrchrSkip(front, TimePart(x), 'M');
    LateM(x);
  }

  lemma LateM(x: Text)
    requires IsText(x)
    ensures var r := Strchr(TimePart(x), 'M'); r.Some? ==> x.time && |r.value| < |TimePart(x)|
  {
    if x.time {
      var rest := Part(x.hours, 'H') + (Part(x.minutes, 'M') + Part(x.seconds, 'S'));
      StrchrSkip("T", rest, 'M');
      StrchrShorter(rest, 'M');
    }
  }

  lemma {:induction false} StrchrShorter(s: string, c: char)
    ensures Strchr(s, c).Some? ==> |Strchr(s, c).value| <= |s|
  {
    if s != "" {
      StrchrShorter(s[1..], c);
    }
  }

  /** Weeks in front of days are read in their place. */
  lemma DaysRead(x: Text, l: char, f: Fields, seen: bool)
    requires IsText(x) && (l == 'P' || l == 'Y' || l == 'M') && f.days == 0
    ensures Days(Scan([l] + Rest2(x), f, seen))
         == if x.days.Some? then Scan("D" + TimePart(x), f.(days := DateFields(x).days), true)
            else Scan([l] + (Part(x.weeks, 'W') + TimePart(x)), f, seen)
  {
    TimeLetters(x, 'D');
    Nowhere(TimePart(x), 'D');
    PartLetters(x.weeks, 'W', 'D');
    StrchrSkip([l] + Part(x.weeks, 'W'), Rest3(x), 'D');
    assert [l] + Rest2(x) == [l] + Part(x.weeks, 'W') + Rest3(x);
    Found(l, x.weeks, 'W', Rest3(x));
    Found('W', x.days, 'D', TimePart(x));
    Found(l, x.days, 'D', TimePart(x));
    StrchrSkip("W", Rest3(x), 'D');
    assert Part(x.days, 'D') == "" ==> Rest3(x) == TimePart(x);
  }

  function DateEnd(x: Text): string {
    if x.days.Some? then "D" + TimePart(x)
    else [After(After('P', x.years, 'Y'), x.months, 'M')] + (Part(x.weeks, 'W') + TimePart(x))
  }

  lemma DateRead(x: Text)
    requires IsText(x)
    ensures DateScan(Render(x), Render(x), AtT(x))
         == Scan(DateEnd(x), DateFields(x), x.years.Some? || x.months.Some? || x.days.Some?)
  {
    YearsRead(x);
    var l := After('P', x.years, 'Y');
    MonthsRead(x, l, Zero.(years := Num(x.years)), x.years.Some?);
    DaysRead(x, After(l, x.months, 'M'), Zero.(years := Num(x.years), months := Num(x.months)),
             x.years.Some? || x.months.Some?);
  }

  // ----- behind the T -----

  function Late2(x: Text): string { Part(x.seconds, 'S') }
  function Late1(x: Text): string { Part(x.minutes, 'M') + Late2(x) }

  lemma HoursRead(x: Text, f: Fields)
    requires IsText(x) && x.time && f.hours == 0
    ensures Hours(Scan(TimePart(x), f, true), AtT(x))
         == Scan([After('T', x.hours, 'H')] + Late1(x), f.(hours := Num(x.hours)), true)
  {
    PartLetters(x.minutes, 'M', 'H');
    PartLetters(x.seconds, 'S', 'H');
    Nowhere(Late1(x), 'H');
    Found('T', x.hours, 'H', Late1(x));
  }

  lemma MinutesRead(x: Text, l: char, f: Fields)
    requires IsText(x) && x.time && (l == 'T' || l == 'H') && f.minutes == 0
    ensures Minutes(Scan([l] + Late1(x), f, true), Render(x), AtT(x))
         == Scan([After(l, x.minutes, 'M')] + Late2(x), f.(minutes := Num(x.minutes)), true)
  {
    Found(l, x.minutes, 'M', Late2(x));
    PartLetters(x.seconds, 'S', 'M');
    if x.minutes.Some? {
      assert [l] + Late1(x) == [l] + x.minutes.value + (['M'] + Late2(x));
      StrrchrSkip([l] + x.minutes.value, Late2(x), 'M');
      assert |['M'] + Late2(x)| < |TimePart(x)| <= |Render(x)|;
    } else {
      Nowhere([l] + Late1(x), 'M');
    }
  }

  lemma SecondsRead(x: Text, l: char, f: Fields)
    requires IsText(x) && x.time && l != 'S' && f.seconds == 0
    ensures Seconds(Scan([l] + Late2(x), f, true), AtT(x))
         == Scan([After(l, x.seconds, 'S')], f.(seconds := Num(x.seconds)), true)
  {
    assert Late2(x) == Part(x.seconds, 'S') + "";
    Found(l, x.seconds, 'S', "");
    assert ['S'] + "" == ['S'] && [l] + "" == [l];
  }

  lemma TimeRead(x: Text, s: Scan)
    requires IsText(x) && x.time && s.fields.hours == s.fields.minutes == s.fields.seconds == 0
    ensures var r := TimeScan(s, Render(x), AtT(x));
            && r.fields == s.fields.(hours := Num(x.hours), minutes := Num(x.minutes), seconds := Num(x.seconds))
            && Strchr(r.str, 'W') == None
  {
    var f1 := s.fields.(hours := Num(x.hours));
    var f2 := f1.(minutes := Num(x.minutes));
    HoursRead(x, s.fields);
    var l := After('T', x.hours, 'H');
    MinutesRead(x, l, f1);
    SecondsRead(x, After(l, x.minutes, 'M'), f2);
    Nowhere([After(After(l, x.minutes, 'M'), x.seconds, 'S')], 'W');
  }

  /** The parser gives every well-formed text its meaning. */
  lemma ParseText(x: Text)
    requires IsText(x)
    ensures Parse(Render(x)) == Meaning(x)
  {
    assert Strchr(Render(x), 'P') == Some(Render(x));
    FindsT(x);
    DateRead(x);
    var s := DateScan(Render(x), Render(x), AtT(x));
    if x.time {
      TimeRead(x, s);
    } else {
      WeeksRead(x, s);
    }
  }

  lemma WeeksRead(x: Text, s: Scan)
    requires IsText(x) && !x.time
    requires s == Scan(DateEnd(x), DateFields(x), x.years.Some? || x.months.Some? || x.days.Some?)
    ensures Weeks(TimeScan(s, Render(x), None)) == Meaning(x)
  {
    assert TimeScan(s, Render(x), None) == s;
    if x.days.Some? {
      Nowhere("D" + TimePart(x), 'W');
    } else {
      var l := After(After('P', x.years, 'Y'), x.months, 'M');
      Found(l, x.weeks, 'W', "");
      Nowhere("", 'W');
      assert Part(x.weeks, 'W') + TimePart(x) == Part(x.weeks, 'W') + "";
    }
  }

  // ----- printing and parsing -----

  predicate Small(n: int) { 0 <= n < 0x8000_0000 }

  /** Every field is a non-negative int. */
  predicate InRange(d: Fields) {
    && Small(d.years) && Small(d.months) && Small(d.weeks) && Small(d.days)
    && Small(d.hours) && Small(d.minutes) && Small(d.seconds)
  }

  lemma ShownNumber(n: int, shown: bool)
    requires Small(n) && (n > 0 ==> shown)
    ensures IsNumber(Shown(shown, n)) && Num(Shown(shown, n)) == n
  {
    SmallU32(n);
    ValDigits(n);
  }

  lemma SmallU32(n: int)
    requires Small(n)
    ensures U32(n) == n
  {
  }

  lemma TextMeans(d: Fields)
    requires InRange(d)
    ensures IsText(TextOf(d))
    ensures var m := Meaning(TextOf(d));
      if d.weeks == 0 then m == Some(d)
      else if d.days > 0 then m == Some(d.(weeks := 0, days := d.weeks))
      else if d.hours > 0 || d.minutes > 0 || d.seconds > 0 then m == Some(d.(weeks := 0))
      else if d.years > 0 || d.months > 0 then m == None
      else m == Some(d)
  {
    ShownNumber(d.years, d.years > 0);
    ShownNumber(d.months, d.months > 0);
    ShownNumber(d.weeks, d.weeks > 0);
    ShownNumber(d.days, d.days > 0);
    ShownNumber(d.hours, d.hours > 0);
    ShownNumber(d.minutes, d.minutes > 0);
    ShownNumber(d.seconds, ShowsSeconds(d));
  }

  /** A printed duration reads back as itself exactly when it has no weeks, or nothing
      but weeks. */
  lemma RoundTrip(d: Fields)
    requires InRange(d)
    ensures Parse(Print(d)) == Some(d) <==> d.weeks == 0 || d == Zero.(weeks := d.weeks)
  {
    TextMeans(d);
    ParseText(TextOf(d));
  }

  /** What becomes of weeks beside other fields: refused beside years and months only;
      read as the days when there are days; else lost. */
  lemma MixedWeeks(d: Fields)
    requires InRange(d) && d.weeks > 0 && d != Zero.(weeks := d.weeks)
    ensures Parse(Print(d)) ==
      if d.days > 0 then Some(d.(weeks := 0, days := d.weeks))
      else if d.hours > 0 || d.minutes > 0 || d.seconds > 0 then Some(d.(weeks := 0))
      else None
  {
    TextMeans(d);
    ParseText(TextOf(d));
  }

  // ----- times -----

  /** The division of C, which rounds toward zero. */
  function Div(t: int, unit: int): int
    requires unit > 0
  {
    if t >= 0 then t / unit else -(-t / unit)
  }

  const YEAR := 86400 * 365
  const MONTH := 86400 * 31
  const WEEK := 86400 * 7

  /** duration2time */
  function ToTime(d: Fields): int {
    d.seconds + d.minutes * 60 + d.hours * 3600 + d.days * 86400 + d.weeks * WEEK + d.months * MONTH + d.years * YEAR
  }

  function Rem(t: int, unit: int): int
    requires unit > 0
  {
    t - Div(t, unit) * unit
  }

  /** duration_set_time */
  function OfTime(t: int): Fields {
    var t1 := Rem(t, YEAR);
    var t2 := Rem(t1, MONTH);
    var t3 := Rem(t2, 86400);
    var t4 := Rem(t3, 3600);
    Fields(Div(t, YEAR), Div(t1, MONTH), 0, Div(t2, 86400), Div(t3, 3600), Div(t4, 60), Rem(t4, 60))
  }

  /** The time of a duration set from a time is that time. */
  lemma TimeInverse(t: int)
    ensures ToTime(OfTime(t)) == t
  {
  }

  /** n lies between 0 and t. */
  predicate Within(n: int, t: int) { 0 <= n <= t || t <= n <= 0 }

  lemma DivSign(t: int, unit: int)
    requires unit > 0
    ensures t >= 0 ==> Div(t, unit) >= 0 && 0 <= Rem(t, unit) < unit
    ensures t <= 0 ==> Div(t, unit) <= 0 && -unit < Rem(t, unit) <= 0
    ensures t == Div(t, unit) * unit + Rem(t, unit)
  {
    if t >= 0 {
      DivRem(t, unit);
    } else {
      DivRem(-t, unit);
      assert Div(t, unit) * unit == -(-t / unit * unit);
    }
  }

  lemma DivRem(u: nat, unit: int)
    requires unit > 0
    ensures u / unit >= 0 && 0 <= u - u / unit * unit < unit
  {
    assert u == unit * (u / unit) + u % unit;
  }

  lemma Grows(q: int, unit: int)
    requires unit > 0
    ensures q >= 0 ==> q * unit >= q
    ensures q <= 0 ==> q * unit <= q
    ensures q >= 1 ==> q * unit >= unit
  {
  }

  lemma DivWithin(t: int, unit: int, all: int)
    requires unit > 0 && Within(t, all)
    ensures Within(Div(t, unit), all) && Within(Rem(t, unit), all) && Within(Div(t, unit) * unit, all)
  {
    DivSign(t, unit);
    Grows(Div(t, unit), unit);
  }

  /** The fields, and all that duration2time adds up, stay between 0 and the time. */
  predicate NeverPast(d: Fields, t: int) {
    && Within(d.years, t) && Within(d.months, t) && Within(d.days, t)
    && Within(d.hours, t) && Within(d.minutes, t) && Within(d.seconds, t)
    && Within(d.minutes * 60, t) && Within(d.hours * 3600, t) && Within(d.days * 86400, t)
    && Within(d.months * MONTH, t) && Within(d.years * YEAR, t)
    && Within(d.seconds + d.minutes * 60, t)
    && Within(d.seconds + d.minutes * 60 + d.hours * 3600, t)
    && Within(d.seconds + d.minutes * 60 + d.hours * 3600 + d.days * 86400, t)
    && Within(d.seconds + d.minutes * 60 + d.hours * 3600 + d.days * 86400 + d.months * MONTH, t)
  }

  lemma NeverPastBy(d: Fields, t1: int, t2: int, t3: int, t4: int, t: int)
    requires Within(d.years, t) && Within(d.months, t) && Within(d.days, t)
    requires Within(d.hours, t) && Within(d.minutes, t) && Within(d.seconds, t)
    requires Within(d.minutes * 60, t) && Within(d.hours * 3600, t) && Within(d.days * 86400, t)
    requires Within(d.months * MONTH, t) && Within(d.years * YEAR, t)
    requires Within(t1, t) && Within(t2, t) && Within(t3, t) && Within(t4, t)
    requires d.seconds == t4 - d.minutes * 60 && t4 == t3 - d.hours * 3600 && t3 == t2 - d.days * 86400
    requires t2 == t1 - d.months * MONTH
    ensures NeverPast(d, t)
  {
  }

  /** Converting a time to a duration and back never leaves the range of time_t. */
  lemma NoOverflow(t: int)
    ensures NeverPast(OfTime(t), t)
  {
    var t1 := Rem(t, YEAR);
    var t2 := Rem(t1, MONTH);
    var t3 := Rem(t2, 86400);
    var t4 := Rem(t3, 3600);
    DivWithin(t, YEAR, t);
    DivWithin(t1, MONTH, t);
    DivWithin(t2, 86400, t);
    DivWithin(t3, 3600, t);
    DivWithin(t4, 60, t);
    NeverPastBy(OfTime(t), t1, t2, t3, t4, t);
  }

  /** The lengths of the units. */
  lemma TimeUnits(n: int)
    ensures ToTime(Zero.(years := n)) == n * 31536000 && ToTime(Zero.(months := n)) == n * 2678400
    ensures ToTime(Zero.(weeks := n)) == n * 604800 && ToTime(Zero.(days := n)) == n * 86400
    ensures ToTime(Zero.(hours := n)) == n * 3600 && ToTime(Zero.(minutes := n)) == n * 60
    ensures ToTime(Zero.(seconds := n)) == n
  {
  }

  // ----- comparing -----

  function Sign(n: int): int { if n < 0 then -1 else if n == 0 then 0 else 1 }

  /** duration_compare, with None for NULL; a difference is cut to an int. */
  function CompareDurations(a: Option<Fields>, b: Option<Fields>): int {
    if a.None? && b.None? then 0
    else if a.None? || b.None? then (if a.Some? then -1 else 1)
    else
      var d, e := a.value, b.value;
      if d.years != e.years then I32(d.years - e.years)
      else if d.months != e.months then I32(d.months - e.months)
      else if d.weeks != e.weeks then I32(d.weeks - e.weeks)
      else if d.days != e.days then I32(d.days - e.days)
      else if d.hours != e.hours then I32(d.hours - e.hours)
      else if d.minutes != e.minutes then I32(d.minutes - e.minutes)
      else if d.seconds != e.seconds then I32(d.seconds - e.seconds)
      else 0
  }

  /** A lesser time has a lesser quotient, or the same and a lesser remainder. */
  lemma DivOrder(t: int, u: int, unit: int)
    requires unit > 0 && t < u
    ensures Div(t, unit) < Div(u, unit) || (Div(t, unit) == Div(u, unit) && Rem(t, unit) < Rem(u, unit))
  {
    var q, p, r, v := Div(t, unit), Div(u, unit), Rem(t, unit), Rem(u, unit);
    DivSign(t, unit);
    DivSign(u, unit);
    Grows(q - p, unit);
    assert (q - p) * unit == q * unit - p * unit;
  }

  /** The first field in which two durations differ, years first. */
  predicate Less(d: Fields, e: Fields) {
    || d.years < e.years
    || (d.years == e.years && (d.months < e.months
    || (d.months == e.months && (d.days < e.days
    || (d.days == e.days && (d.hours < e.hours
    || (d.hours == e.hours && (d.minutes < e.minutes
    || (d.minutes == e.minutes && d.seconds < e.seconds)))))))))
  }

  lemma LessTime(t: int, u: int)
    requires t < u
    ensures Less(OfTime(t), OfTime(u))
  {
    DivOrder(t, u, YEAR);
    var t1, u1 := Rem(t, YEAR), Rem(u, YEAR);
    if t1 < u1 { DivOrder(t1, u1, MONTH); }
    var t2, u2 := Rem(t1, MONTH), Rem(u1, MONTH);
    if t2 < u2 { DivOrder(t2, u2, 86400); }
    var t3, u3 := Rem(t2, 86400), Rem(u2, 86400);
    if t3 < u3 { DivOrder(t3, u3, 3600); }
    var t4, u4 := Rem(t3, 3600), Rem(u3, 3600);
    if t4 < u4 { DivOrder(t4, u4, 60); }
  }

  /** But for the years, the fields of a time are too small for their difference to be
      cut. */
  lemma SmallFields(t: int)
    ensures var d := OfTime(t);
      -12 < d.months < 12 && -32 < d.days < 32 && -24 < d.hours < 24 && -60 < d.minutes < 60 && -60 < d.seconds < 60
  {
    var t1 := Rem(t, YEAR);
    var t2 := Rem(t1, MONTH);
    var t3 := Rem(t2, 86400);
    var t4 := Rem(t3, 3600);
    DivSign(t, YEAR);
    DivBound(t1, MONTH, 12);
    DivBound(t2, 86400, 31);
    DivBound(t3, 3600, 24);
    DivBound(t4, 60, 60);
  }

  lemma DivBound(t: int, unit: int, k: int)
    requires unit > 0 && -(k * unit) < t < k * unit
    ensures -k < Div(t, unit) < k && -unit < Rem(t, unit) < unit
  {
    var q := Div(t, unit);
    DivSign(t, unit);
    Grows(q - k, unit);
    Grows(-q - k, unit);
    assert (q - k) * unit == q * unit - k * unit;
    assert (-q - k) * unit == -(q * unit) - k * unit;
  }

  lemma SmallDifference(n: int)
    requires -0x8000_0000 <= n < 0x8000_0000
    ensures I32(n) == n
  {
    if n < 0 {
      assert U32(n) == n + 0x1_0000_0000;
    }
  }

  /** The fields behind the years are too close for their difference to be cut. */
  predicate Close(d: Fields, e: Fields) {
    && d.weeks == e.weeks && Near(d.months, e.months) && Near(d.days, e.days) && Near(d.hours, e.hours)
    && Near(d.minutes, e.minutes) && Near(d.seconds, e.seconds)
  }

  predicate Near(m: int, n: int) { I32(m - n) == m - n && I32(n - m) == n - m }

  lemma CompareLess(d: Fields, e: Fields)
    requires Less(d, e) && Close(d, e)
    ensures Sign(CompareDurations(Some(d), Some(e))) == if d.years == e.years then -1 else Sign(I32(d.years - e.years))
    ensures Sign(CompareDurations(Some(e), Some(d))) == if d.years == e.years then 1 else Sign(I32(e.years - d.years))
  {
  }

  lemma TimesClose(t: int, u: int)
    ensures Close(OfTime(t), OfTime(u))
  {
    var d, e := OfTime(t), OfTime(u);
    SmallFields(t);
    SmallFields(u);
    SmallDifference(d.months - e.months);
    SmallDifference(e.months - d.months);
    SmallDifference(d.days - e.days);
    SmallDifference(e.days - d.days);
    SmallDifference(d.hours - e.hours);
    SmallDifference(e.hours - d.hours);
    SmallDifference(d.minutes - e.minutes);
    SmallDifference(e.minutes - d.minutes);
    SmallDifference(d.seconds - e.seconds);
    SmallDifference(e.seconds - d.seconds);
  }

  /** Comparing the durations of two times is comparing the times, exactly when their
      years are the same or their difference keeps its sign as an int. */
  lemma CompareTimes(t: int, u: int)
    ensures var y := OfTime(t).years - OfTime(u).years;
      Sign(CompareDurations(Some(OfTime(t)), Some(OfTime(u)))) == Sign(t - u) <==> Sign(I32(y)) == Sign(y)
  {
    TimesClose(t, u);
    TimesClose(u, t);
    if t < u {
      LessTime(t, u);
      CompareLess(OfTime(t), OfTime(u));
    } else if u < t {
      LessTime(u, t);
      CompareLess(OfTime(u), OfTime(t));
    }
  }

  /** It does not from 2^31 years on: such a time compares as less than zero. */
  lemma CompareCut()
    ensures CompareDurations(Some(OfTime(0x8000_0000 * YEAR)), Some(OfTime(0))) < 0
  {
    YearsOf(0x8000_0000);
    YearsOf(0);
    CutBelowZero(OfTime(0x8000_0000 * YEAR), OfTime(0));
  }

  lemma YearsOf(n: nat)
    ensures OfTime(n * YEAR).years == n
  {
    DivExact(n, YEAR);
    YearsAre(n * YEAR);
  }

  lemma YearsAre(t: int)
    ensures OfTime(t).years == Div(t, YEAR)
  {
  }

  lemma DivExact(n: nat, unit: int)
    requires unit > 0
    ensures Div(n * unit, unit) == n
  {
    var t := n * unit;
    var q := Div(t, unit);
    assert t >= 0;
    DivSign(t, unit);
    Grows(n - q, unit);
    Grows(q - n, unit);
    assert (n - q) * unit == n * unit - q * unit && (q - n) * unit == q * unit - n * unit;
  }

  lemma CutBelowZero(d: Fields, e: Fields)
    requires d.years - e.years == 0x8000_0000
    ensures CompareDurations(Some(d), Some(e)) < 0
  {
  }

  /** Which is so for times from zero up, with years that fit an int. */
  lemma CompareIntYears(t: int, u: int)
    requires t >= 0 && u >= 0 && OfTime(t).years < 0x8000_0000 && OfTime(u).years < 0x8000_0000
    ensures Sign(CompareDurations(Some(OfTime(t)), Some(OfTime(u)))) == Sign(t - u)
  {
    CompareTimes(t, u);
    DivSign(t, YEAR);
    DivSign(u, YEAR);
    var y := OfTime(t).years - OfTime(u).years;
    assert OfTime(t).years == Div(t, YEAR) && OfTime(u).years == Div(u, YEAR);
    SmallDifference(y);
    assert Sign(I32(y)) == Sign(y);
  }

  /** The fields in the order in which they are compared. */
  function InOrder(d: Fields): seq<int> {
    [d.years, d.months, d.weeks, d.days, d.hours, d.minutes, d.seconds]
  }

  /** For any durations: the first field in which they differ decides, weeks included, by its
      difference cut to an int; equal ones give 0, and NULL comes last. */
  lemma CompareFirst(d: Fields, e: Fields, k: nat)
    ensures k < 7 && InOrder(d)[..k] == InOrder(e)[..k] && InOrder(d)[k] != InOrder(e)[k] ==>
      CompareDurations(Some(d), Some(e)) == I32(InOrder(d)[k] - InOrder(e)[k])
    ensures d == e ==> CompareDurations(Some(d), Some(e)) == 0
    ensures CompareDurations(Some(d), None) < 0 < CompareDurations(None, Some(e)) && CompareDurations(None, None) == 0
  {
    var s, t := InOrder(d), InOrder(e);
    if k < 7 && s[..k] == t[..k] {
      forall i | 0 <= i < k
        ensures s[i] == t[i]
      {
        assert s[i] == s[..k][i] && t[i] == t[..k][i];
      }
      assert k > 0 ==> d.years == s[0] == t[0] == e.years;
      assert k > 1 ==> d.months == s[1] == t[1] == e.months;
      assert k > 2 ==> d.weeks == s[2] == t[2] == e.weeks;
      assert k > 3 ==> d.days == s[3] == t[3] == e.days;
      assert k > 4 ==> d.hours == s[4] == t[4] == e.hours;
      assert k > 5 ==> d.minutes == s[5] == t[5] == e.minutes;
    }
  }

  // ----- sizes -----

  /** digits_in_number */
  method DigitsInNumber(duration: int) returns (count: nat)
    ensures count == |Digits(U32(duration))|
  {
    var period: nat := U32(duration);
    count := 0;
    if period == 0 {
      assert Digits(0) == [Digit(0)];
      return 1;
    }
    while period > 0
      invariant period > 0 ==> count + |Digits(period)| == |Digits(U32(duration))|
      invariant period == 0 ==> count == |Digits(U32(duration))|
    {
      count := count + 1;
      period := period / 10;
    }
  }

  const NUL := 0 as char

  /** The buffer holds this text as a C string. */
  ghost predicate Holds(buffer: array<char>, text: string)
    reads buffer
  {
    |text| < buffer.Length && buffer[..|text|] == text && buffer[|text|] == NUL && NUL !in text
  }

  /** strncat, of a string no longer than its limit */
  method Concatenate(buffer: array<char>, ghost text: string, num: string)
    requires Holds(buffer, text) && NUL !in num && |text| + |num| < buffer.Length
    modifies buffer
    ensures Holds(buffer, text + num)
  {
    var end := 0;
    forall k | 0 <= k < |text|
      ensures buffer[k] != NUL
    {
      assert buffer[..|text|][k] in text;
    }
    while buffer[end] != NUL
      invariant end <= |text|
      decreases |text| - end
    {
      end := end + 1;
    }
    var i := 0;
    while i < |num|
      invariant 0 <= i <= |num|
      invariant buffer[..|text| + i] == text + num[..i]
    {
      buffer[end + i] := num[i];
      i := i + 1;
    }
    assert num[..i] == num;
    buffer[end + i] := NUL;
    assert buffer[..|text + num|] == text + num;
  }

  lemma Full(buffer: array<char>, text: string)
    requires Holds(buffer, text) && buffer.Length == |text| + 1
    ensures buffer[..] == text + [NUL]
  {
    assert buffer[..] == buffer[..|text|] + [buffer[|text|]];
  }

  lemma ShownPlain(shown: bool, value: int, unit: char)
    requires IsUnit(unit)
    ensures NUL !in Part(Shown(shown, value), unit)
  {
    if shown {
      assert forall c | c in Digits(U32(value)) :: IsDigit(c);
    }
  }

  /** One field with its unit: the number is printed into a buffer of its own, which it
      fills up to the final NUL, and then appended. */
  method AppendField(buffer: array<char>, ghost text: string, shown: bool, value: int, unit: char)
    requires Holds(buffer, text) && IsUnit(unit)
    requires |text| + |Part(Shown(shown, value), unit)| < buffer.Length
    modifies buffer
    ensures Holds(buffer, text + Part(Shown(shown, value), unit))
  {
    ShownPlain(shown, value, unit);
    if shown {
      var count := DigitsInNumber(value);
      var num := Digits(U32(value)) + [unit];
      assert |num| + 1 == count + 2;
      Concatenate(buffer, text, num);
    } else {
      assert text + "" == text;
    }
  }

  /** The room a field takes in the first pass. */
  method CountField(shown: bool, value: int, unit: char) returns (count: nat)
    ensures count == |Part(Shown(shown, value), unit)|
  {
    count := 0;
    if shown {
      var digits := DigitsInNumber(value);
      count := 1 + digits;
    }
  }

  class Duration {
    var years: int
    var months: int
    var weeks: int
    var days: int
    var hours: int
    var minutes: int
    var seconds: int

    function Value(): Fields
      reads this
    {
      Fields(years, months, weeks, days, hours, minutes, seconds)
    }

    /** duration_create */
    constructor ()
      ensures Value() == Zero
    {
      years, months, weeks, days, hours, minutes, seconds := 0, 0, 0, 0, 0, 0, 0;
    }

    /** duration_set_time */
    method SetTime(t: int)
      modifies this
      ensures Value() == OfTime(t)
    {
      var time := t;
      years := Div(time, YEAR);
      time := time - years * 86400 * 365;
      assert time == Rem(t, YEAR);
      months := Div(time, MONTH);
      time := time - months * 86400 * 31;
      assert time == Rem(Rem(t, YEAR), MONTH);
      days := Div(time, 86400);
      time := time - days * 86400;
      hours := Div(time, 3600);
      time := time - hours * 3600;
      minutes := Div(time, 60);
      time := time - minutes * 60;
      seconds := time;
      weeks := 0;
    }

    /** The first pass of duration2string: the size of the buffer, and whether there
        is a date and a time. */
    method Count() returns (count: nat, t: bool)
      ensures t == HasTime(Value())
      ensures count == |Print(Value())| + 1
    {
      PrintLength(Value());
      var date, date' := CountDate();
      var time;
      time, t := CountTime(date');
      count := 2 + date + time;
      if t {
        count := count + 1;
      }
    }

    method CountDate() returns (count: nat, d: bool)
      ensures d == HasDate(Value())
      ensures count == DateLength(TextOf(Value()))
    {
      d := years > 0 || months > 0 || weeks > 0 || days > 0;
      count := CountField(years > 0, years, 'Y');
      var n := CountField(months > 0, months, 'M');
      count := count + n;
      n := CountField(weeks > 0, weeks, 'W');
      count := count + n;
      n := CountField(days > 0, days, 'D');
      count := count + n;
    }

    method CountTime(d: bool) returns (count: nat, t: bool)
      requires d == HasDate(Value())
      ensures t == HasTime(Value())
      ensures count == TimeLength(TextOf(Value()))
    {
      t := hours > 0 || minutes > 0;
      count := CountField(hours > 0, hours, 'H');
      var n := CountField(minutes > 0, minutes, 'M');
      count := count + n;
      if seconds > 0 || (!d && hours == 0 && minutes == 0) {
        n := CountField(true, seconds, 'S');
        count := count + n;
        t := true;
      }
    }

    /** duration2string: the text fills its buffer exactly, whatever the fields. */
    method ToString() returns (str: array<char>)
      ensures fresh(str)
      ensures str.Length == |Print(Value())| + 1
      ensures str[..] == Print(Value()) + [NUL]
    {
      var count, t := Count();
      str := new char[count](_ => NUL);
      str[0] := 'P';
      str[1] := NUL;
      ghost var text := DateText(Value());
      PrintText(Value());
      WriteDate(str);
      if t {
        Concatenate(str, text, "T");
        WriteTime(str, text + "T");
      }
      Full(str, Print(Value()));
    }

    method WriteDate(str: array<char>)
      requires Holds(str, "P") && |DateText(Value())| < str.Length
      modifies str
      ensures Holds(str, DateText(Value()))
    {
      ghost var x := TextOf(Value());
      ghost var y := "P" + Part(x.years, 'Y');
      ghost var m := y + Part(x.months, 'M');
      ghost var w := m + Part(x.weeks, 'W');
      AppendField(str, "P", years > 0, years, 'Y');
      AppendField(str, y, months > 0, months, 'M');
      AppendField(str, m, weeks > 0, weeks, 'W');
      AppendField(str, w, days > 0, days, 'D');
    }

    method WriteTime(str: array<char>, ghost text: string)
      requires Holds(str, text) && |TimeText(text, Value())| < str.Length
      modifies str
      ensures Holds(str, TimeText(text, Value()))
    {
      ghost var x := TextOf(Value());
      ghost var h := text + Part(x.hours, 'H');
      ghost var m := h + Part(x.minutes, 'M');
      AppendField(str, text, hours > 0, hours, 'H');
      AppendField(str, h, minutes > 0, minutes, 'M');
      var date := years > 0 || months > 0 || weeks > 0 || days > 0;
      AppendField(str, m, seconds > 0 || (!date && hours == 0 && minutes == 0), seconds, 'S');
    }

    /** duration_create_from_string */
    static method FromString(str: Option<string>) returns (duration: Duration?)
      ensures duration != null ==> fresh(duration)
      ensures str.None? ==> duration != null && duration.Value() == Zero
      ensures str.Some? ==>
        if duration == null then Parse(str.value) == None else Parse(str.value) == Some(duration.Value())
    {
      duration := new Duration();
      if str.None? {
        return;
      }
      var s := str.value;
      var p := Strchr(s, 'P');
      if p.None? {
        return null;
      }
      var t := Strchr(s, 'T');
      var str', seen := duration.ScanDate(s, p.value, t);
      str', seen := duration.ScanTime(str', seen, p.value, t);
      var w := Strchr(str', 'W');
      if w.Some? {
        if seen {
          return null;
        }
        duration.weeks := Field(str');
      }
    }

    /** The years, months and days; str is left where the search went on from. */
    method ScanDate(from: string, p: string, t: Option<string>) returns (str: string, seen: bool)
      requires Value() == Zero
      modifies this
      ensures Scan(str, Value(), seen) == DateScan(from, p, t)
    {
      str, seen := from, false;
      var x := Strchr(str, 'Y');
      if x.Some? {
        years := Field(str);
        str := x.value;
        seen := true;
      }
      ghost var s1 := Scan(str, Value(), seen);
      assert s1 == Years(Scan(from, Zero, false));
      x := Strchr(str, 'M');
      if x.Some? && (t.None? || Distance(x.value, p) < Distance(t.value, p)) {
        months := Field(str);
        str := x.value;
        seen := true;
      }
      ghost var s2 := Scan(str, Value(), seen);
      assert s2 == Months(s1, p, t);
      x := Strchr(str, 'D');
      if x.Some? {
        days := Field(str);
        str := x.value;
        seen := true;
      }
      assert Scan(str, Value(), seen) == Days(s2);
    }

    /** The T, and the hours, minutes and seconds behind it. */
    method ScanTime(from: string, seen: bool, p: string, t: Option<string>) returns (str: string, seen': bool)
      modifies this
      ensures Scan(str, Value(), seen') == TimeScan(Scan(from, old(Value()), seen), p, t)
    {
      str, seen' := from, seen;
      if t.Some? {
        str := t.value;
        seen' := true;
      }
      ghost var s1 := Scan(str, Value(), seen');
      assert s1 == Time(Scan(from, old(Value()), seen), t);
      var x := Strchr(str, 'H');
      if x.Some? && t.Some? {
        hours := Field(str);
        str := x.value;
        seen' := true;
      }
      ghost var s2 := Scan(str, Value(), seen');
      assert s2 == Hours(s1, t);
      x := Strrchr(str, 'M');
      if x.Some? && t.Some? && Distance(x.value, p) > Distance(t.value, p) {
        minutes := Field(str);
        str := x.value;
        seen' := true;
      }
      ghost var s3 := Scan(str, Value(), seen');
      assert s3 == Minutes(s2, p, t);
      x := Strchr(str, 'S');
      if x.Some? && t.Some? {
        seconds := Field(str);
        str := x.value;
        seen' := true;
      }
      assert Scan(str, Value(), seen') == Seconds(s3, t);
    }
  }

  function DateLength(x: Text): nat {
    |Part(x.years, 'Y')| + |Part(x.months, 'M')| + |Part(x.weeks, 'W')| + |Part(x.days, 'D')|
  }

  function TimeLength(x: Text): nat {
    |Part(x.hours, 'H')| + |Part(x.minutes, 'M')| + |Part(x.seconds, 'S')|
  }

  lemma PrintLength(d: Fields)
    ensures |Print(d)| == 1 + DateLength(TextOf(d)) + (if HasTime(d) then 1 else 0) + TimeLength(TextOf(d))
  {
  }

  /** The text as it grows. */
  function DateText(d: Fields): string {
    var x := TextOf(d);
    "P" + Part(x.years, 'Y') + Part(x.months, 'M') + Part(x.weeks, 'W') + Part(x.days, 'D')
  }

  function TimeText(text: string, d: Fields): string {
    var x := TextOf(d);
    text + Part(x.hours, 'H') + Part(x.minutes, 'M') + Part(x.seconds, 'S')
  }

  lemma PrintText(d: Fields)
    ensures Print(d) == if HasTime(d) then TimeText(DateText(d) + "T", d) else DateText(d)
    ensures |DateText(d)| + (if HasTime(d) then 1 else 0) <= |Print(d)|
  {
    var x := TextOf(d);
    var a, b, c, e := Part(x.years, 'Y'), Part(x.months, 'M'), Part(x.weeks, 'W'), Part(x.days, 'D');
    var h, m, s := Part(x.hours, 'H'), Part(x.minutes, 'M'), Part(x.seconds, 'S');
    Chained("P", a, b, c, e, TimePart(x));
    if x.time {
      Chained(DateText(d), "T", h, m, s, "");
    } else {
      assert DateText(d) + "" == DateText(d);
    }
  }

  lemma Chained(a: string, b: string, c: string, d: string, e: string, f: string)
    ensures a + (b + (c + (d + (e + f)))) == a + b + c + d + e + f
    ensures f == "" ==> e + f == e && a + b + c + d + e + f == a + b + c + d + e
  {
  }
}
