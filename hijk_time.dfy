/** The time-token normaliser of the HIJK spreadsheet ingestion
    (`ingestCSVhijk.handle_time_inputs`), with `datetime.strptime(s, '%H:%M')`
    and `str(time)` written out. */
module HijkTime {
  import opened Common
  import opened SheetText

  /** A time of day as `datetime.time` holds it after an `%H:%M` parse. */
  datatype ClockTime = ClockTime(hour: nat, minute: nat)

  predicate ValidTime(t: ClockTime) {
    t.hour < 24 && t.minute < 60
  }

  /** The ValueError `strptime` raises, carrying the string it was given. */
  datatype TimeError = Unparsable(token: string)

  predicate IsDigit(c: char) {
    '0' <= c <= '9'
  }

  function DigitValue(c: char): (n: nat)
    requires IsDigit(c)
    ensures n < 10
  {
    (c as int - '0' as int) as nat
  }

  /** `%02d` of a number below one hundred. */
  function TwoDigits(n: nat): (r: string)
    requires n < 100
    ensures |r| == 2 && IsDigit(r[0]) && IsDigit(r[1])
    ensures DigitValue(r[0]) * 10 + DigitValue(r[1]) == n
  {
    [('0' as int + n / 10) as char, ('0' as int + n % 10) as char]
  }

  /** The shape `str(time)` produces: "HH:MM:SS" with an hour below 24, a
      minute below 60 and seconds "00". */
  predicate IsTimeOfDay(s: string) {
    |s| == 8 && IsDigit(s[0]) && IsDigit(s[1]) && s[2] == ':' &&
    IsDigit(s[3]) && IsDigit(s[4]) && s[5] == ':' && s[6] == '0' && s[7] == '0' &&
    DigitValue(s[0]) * 10 + DigitValue(s[1]) < 24 &&
    DigitValue(s[3]) * 10 + DigitValue(s[4]) < 60
  }

  /** "HH:MM", the form a canonical token takes. */
  function FormatHM(t: ClockTime): (r: string)
    requires ValidTime(t)
    ensures |r| == 5 && r[2] == ':'
  {
    TwoDigits(t.hour) + ":" + TwoDigits(t.minute)
  }

  /** `str(t)` for a time with zero seconds. */
  function Render(t: ClockTime): (r: string)
    requires ValidTime(t)
    ensures IsTimeOfDay(r)
    ensures r == FormatHM(t) + ":00"
  {
    FormatHM(t) + ":00"
  }

  /** What `%H` accepts: one digit, or two digits forming 00 to 23. */
  function HourField(h: string): (r: Option<nat>)
    ensures r.Some? ==> r.value < 24
  {
    if |h| == 1 && IsDigit(h[0]) then Some(DigitValue(h[0]))
    else if |h| == 2 && IsDigit(h[0]) && IsDigit(h[1]) && (h[0] <= '1' || (h[0] == '2' && h[1] <= '3'))
    then Some(DigitValue(h[0]) * 10 + DigitValue(h[1]))
    else None
  }

  /** What `%M` accepts: one digit, or two digits forming 00 to 59. */
  function MinuteField(m: string): (r: Option<nat>)
    ensures r.Some? ==> r.value < 60
  {
    if |m| == 1 && IsDigit(m[0]) then Some(DigitValue(m[0]))
    else if |m| == 2 && IsDigit(m[0]) && IsDigit(m[1]) && m[0] <= '5'
    then Some(DigitValue(m[0]) * 10 + DigitValue(m[1]))
    else None
  }

  /** `datetime.strptime(s, '%H:%M').time()`: the whole string must be an
      hour field, a colon and a minute field, with nothing left over. */
  function ParseHM(s: string): (r: Result<ClockTime, TimeError>)
    ensures r.Ok? ==> ValidTime(r.value) && ':' in s
    ensures r.Err? ==> r.error == Unparsable(s)
  {
    var colon := if |s| >= 2 && s[1] == ':' then 1 else if |s| >= 3 && s[2] == ':' then 2 else 0;
    if colon == 0 then Err(Unparsable(s))
    else
      match (HourField(s[..colon]), MinuteField(s[colon + 1..]))
      case (Some(h), Some(m)) => Ok(ClockTime(h, m))
      case _ => Err(Unparsable(s))
  }

  /** The digit that spells a number below ten. */
  function DigitChar(n: nat): (c: char)
    requires n < 10
    ensures IsDigit(c) && DigitValue(c) == n
  {
    ('0' as int + n) as char
  }

  /** The ways `%H` and `%M` spell a number: with two digits, and with one
      digit when it is below ten. */
  function FieldSpellings(n: nat): (r: set<string>)
    requires n < 100
    ensures TwoDigits(n) in r
    ensures forall x :: x in r ==> 1 <= |x| <= 2 && forall i :: 0 <= i < |x| ==> IsDigit(x[i])
  {
    if n < 10 then {TwoDigits(n), [DigitChar(n)]} else {TwoDigits(n)}
  }

  /** Every text `strptime(.., '%H:%M')` reads as the time `t`. */
  function Spellings(t: ClockTime): set<string>
    requires ValidTime(t)
  {
    set h, m | h in FieldSpellings(t.hour) && m in FieldSpellings(t.minute) :: h + ":" + m
  }

  /** `%H` reads `x` as the hour `n` exactly when `x` spells `n`. */
  lemma HourFieldSpells(x: string, n: nat)
    ensures HourField(x) == Some(n) <==> n < 24 && x in FieldSpellings(n)
  {
    if HourField(x) == Some(n) {
      if |x| == 1 {
        assert x == [DigitChar(n)];
      } else {
        assert x == TwoDigits(n);
      }
    }
    if n < 24 && x in FieldSpellings(n) {
      if |x| == 2 {
        assert x == TwoDigits(n);
      }
    }
  }

  /** `%M` reads `x` as the minute `n` exactly when `x` spells `n`. */
  lemma MinuteFieldSpells(x: string, n: nat)
    ensures MinuteField(x) == Some(n) <==> n < 60 && x in FieldSpellings(n)
  {
    if MinuteField(x) == Some(n) {
      if |x| == 1 {
        assert x == [DigitChar(n)];
      } else {
        assert x == TwoDigits(n);
      }
    }
    if n < 60 && x in FieldSpellings(n) {
      if |x| == 2 {
        assert x == TwoDigits(n);
      }
    }
  }

  /** The parse reads `s` as `t` exactly when `s` is one of the spellings
      of the valid time `t`: an hour of one or two digits, ':', and a
      minute of one or two digits, with nothing else. */
  lemma ParseHMSpellings(s: string, t: ClockTime)
    ensures ParseHM(s) == Ok(t) <==> ValidTime(t) && s in Spellings(t)
  {
    if ParseHM(s) == Ok(t) {
      var k := if s[1] == ':' then 1 else 2;
      var h, m := s[..k], s[k + 1..];
      HourFieldSpells(h, t.hour);
      MinuteFieldSpells(m, t.minute);
      assert s == h + ":" + m;
    }
    if ValidTime(t) && s in Spellings(t) {
      var h, m :| h in FieldSpellings(t.hour) && m in FieldSpellings(t.minute) && s == h + ":" + m;
      var k := |h|;
      assert s[k] == ':';
      assert k == 2 ==> s[1] == h[1] && IsDigit(h[1]);
      assert s[..k] == h && s[k + 1..] == m;
      HourFieldSpells(h, t.hour);
      MinuteFieldSpells(m, t.minute);
    }
  }

  /** A spelling of a time holds only digits and one ':'. */
  lemma SpellingChars(s: string, t: ClockTime)
    requires ValidTime(t) && s in Spellings(t)
    ensures ':' in s && 'o' !in s && '.' !in s
  {
    var h, m :| h in FieldSpellings(t.hour) && m in FieldSpellings(t.minute) && s == h + ":" + m;
    assert s[|h|] == ':';
    forall i | 0 <= i < |s| ensures s[i] != 'o' && s[i] != '.' {
      if i < |h| { assert s[i] == h[i]; } else if i > |h| { assert s[i] == m[i - |h| - 1]; }
    }
  }

  /** Parsing the "HH:MM" rendering of a time gives that time back. */
  lemma ParseFormatted(t: ClockTime)
    requires ValidTime(t)
    ensures ParseHM(FormatHM(t)) == Ok(t)
  {
    var s := FormatHM(t);
    assert s[..2] == TwoDigits(t.hour);
    assert s[3..] == TwoDigits(t.minute);
  }

  /** Parses with `strptime` and renders with `str`, as each branch of
      `handle_time_inputs` does. */
  function ParseAndRender(s: string): (r: Result<Option<string>, TimeError>)
    ensures r.Ok? ==> r.value.Some? && IsTimeOfDay(r.value.value)
    ensures r.Err? ==> r.error == Unparsable(s)
  {
    match ParseHM(s)
    case Ok(t) => Ok(Some(Render(t)))
    case Err(e) => Err(e)
  }

  /** The repairs made to a token that has a ':' before it is parsed:
      "oo" becomes "00" if it occurs; otherwise every '.' is deleted. */
  function Repaired(s: string): (r: string)
    ensures !HasOO(s) && '.' !in s ==> r == s
  {
    if HasOO(s) then ReplaceOO(s)
    else if '.' in s then RemoveChar(s, '.')
    else s
  }

  /** `handle_time_inputs`: "24:00" is midnight; a token without ':' is
      absent (checked before the "oo" and "." repairs); otherwise the
      repaired token is parsed as H:M, and a token that does not parse
      raises. */
  function HandleTimeInputs(token: Cell): (r: Result<Option<string>, TimeError>)
    ensures r.Ok? && r.value.Some? ==> IsTimeOfDay(r.value.value)
    ensures token == Text("24:00") ==> r == Ok(Some("00:00:00"))
    ensures ':' !in Show(token) <==> r == Ok(None)
  {
    if token == Text("24:00") then
      MidnightRenders();
      ParseAndRender("00:00")
    else
      var s := Show(token);
      if ':' !in s then Ok(None)
      else ParseAndRender(Repaired(s))
  }

  /** Other than "24:00", a token with a ':' raises exactly when its
      repaired text does not parse, and otherwise gives the time that text
      parses to. */
  lemma HandleTimeInputsParsesRepaired(token: Cell)
    requires token != Text("24:00") && ':' in Show(token)
    ensures var r, p := HandleTimeInputs(token), ParseHM(Repaired(Show(token)));
      && (r.Err? <==> p.Err?)
      && (r.Err? ==> r.error == Unparsable(Repaired(Show(token))))
      && (p.Ok? ==> r == Ok(Some(Render(p.value))))
  {
  }

  /** A token that spells a time is read as that time: "8:30", "08:30",
      "8:3" and "08:03" all give the time they spell. */
  lemma SpelledTokenIsRead(s: string, t: ClockTime)
    requires ValidTime(t) && s in Spellings(t)
    ensures HandleTimeInputs(Text(s)) == Ok(Some(Render(t)))
  {
    SpellingChars(s, t);
    NoOOWithoutO(s);
    ParseHMSpellings(s, t);
    assert s != "24:00" by {
      assert ParseHM("24:00").Err? by { assert "24:00"[..2] == "24"; }
    }
    HandleTimeInputsParsesRepaired(Text(s));
  }

  /** A token with a ':' and nothing to repair that spells no time raises
      with that token: "25:00", "8:3x" and "12:60" are not read. */
  lemma UnspelledTokenRaises(s: string)
    requires ':' in s && s != "24:00" && !HasOO(s) && '.' !in s
    requires forall t :: ValidTime(t) ==> s !in Spellings(t)
    ensures HandleTimeInputs(Text(s)) == Err(Unparsable(s))
  {
    if ParseHM(s).Ok? {
      ParseHMSpellings(s, ParseHM(s).value);
    }
    HandleTimeInputsParsesRepaired(Text(s));
  }

  /** "8:30" is read as half past eight. */
  lemma HalfPastEightIsRead()
    ensures HandleTimeInputs(Text("8:30")) == Ok(Some("08:30:00"))
  {
    var s := "8:30";
    assert s[..1] == "8" && s[2..] == "30" && s[1] == ':';
    assert HourField("8") == Some(8) && MinuteField("30") == Some(30);
    assert ParseHM(s) == Ok(ClockTime(8, 30));
    assert 'o' !in s && '.' !in s;
    NoOOWithoutO(s);
    assert Repaired(s) == s;
    assert TwoDigits(8) == "08" && TwoDigits(30) == "30";
    assert Render(ClockTime(8, 30)) == "08:30:00";
    assert s != "24:00" && ':' in s;
  }

  /** "25:00" names no hour and raises. */
  lemma HourTwentyFiveRaises()
    ensures HandleTimeInputs(Text("25:00")) == Err(Unparsable("25:00"))
  {
    var s := "25:00";
    assert s[..2] == "25" && s[1] != ':';
    assert ParseHM(s).Err?;
    assert 'o' !in s && '.' !in s;
    NoOOWithoutO(s);
  }

  /** `str(strptime('00:00', '%H:%M').time())` is "00:00:00". */
  lemma MidnightRenders()
    ensures ParseAndRender("00:00") == Ok(Some("00:00:00"))
  {
    var t := ClockTime(0, 0);
    assert HourField("00") == Some(0) && MinuteField("00") == Some(0);
    assert "00:00"[..2] == "00" && "00:00"[3..] == "00";
    assert ParseHM("00:00") == Ok(t);
    assert TwoDigits(0) == "00";
    assert FormatHM(t) == "00:00";
    assert Render(t) == "00:00:00";
  }

  /** The API's canonical time pattern `^(?:[01]\d|2[0-3]):[0-5]\d$`. */
  predicate IsCanonicalHM(s: string) {
    |s| == 5 && IsDigit(s[0]) && IsDigit(s[1]) && s[2] == ':' && IsDigit(s[3]) && IsDigit(s[4]) &&
    (s[0] <= '1' || (s[0] == '2' && s[1] <= '3')) && s[3] <= '5'
  }

  /** Every canonical "HH:MM" token is the rendering of one valid time. */
  lemma CanonicalIsFormatted(s: string) returns (t: ClockTime)
    requires IsCanonicalHM(s)
    ensures ValidTime(t) && FormatHM(t) == s
  {
    t := ClockTime(DigitValue(s[0]) * 10 + DigitValue(s[1]), DigitValue(s[3]) * 10 + DigitValue(s[4]));
    var f := FormatHM(t);
    assert f[0] == s[0] && f[1] == s[1] && f[3] == s[3] && f[4] == s[4];
  }

  /** A canonical token parses and renders to itself with ":00" seconds. */
  lemma CanonicalParses(s: string)
    requires IsCanonicalHM(s)
    ensures ParseAndRender(s) == Ok(Some(s + ":00"))
  {
    var t := CanonicalIsFormatted(s);
    ParseFormatted(t);
  }

  /** A canonical token normalises to itself with ":00" seconds appended. */
  lemma CanonicalTokenNormalises(s: string)
    requires IsCanonicalHM(s)
    ensures HandleTimeInputs(Text(s)) == Ok(Some(s + ":00"))
  {
    CanonicalParses(s);
    assert ':' in s by { assert s[2] == ':'; }
    assert 'o' !in s;
    NoOOWithoutO(s);
    assert '.' !in s;
  }

  /** A stray '.' anywhere in a canonical token is dropped before parsing:
      the token still normalises to the canonical time. */
  lemma DottedTokenNormalises(s: string, k: nat)
    requires IsCanonicalHM(s) && k <= |s|
    ensures HandleTimeInputs(Text(s[..k] + "." + s[k..])) == Ok(Some(s + ":00"))
  {
    var a, b := s[..k], s[k..];
    assert a + b == s;
    CanonicalChars(s);
    InsertedDot(a, b);
    var d := a + "." + b;
    assert d != "24:00" by { assert |d| == 6; }
    CanonicalParses(s);
  }

  /** A canonical token holds a ':' and neither '.' nor 'o'. */
  lemma CanonicalChars(s: string)
    requires IsCanonicalHM(s)
    ensures ':' in s && '.' !in s && 'o' !in s
  {
    assert s[2] == ':';
  }

  /** A '.' put into a dot-free, 'o'-free token with a ':' leaves a token
      that has a ':' and a '.', no "oo", and loses the '.' again on
      deletion. */
  lemma InsertedDot(a: string, b: string)
    requires ':' in a + b && '.' !in a + b && 'o' !in a + b
    ensures var d := a + "." + b;
      ':' in d && '.' in d && !HasOO(d) && RemoveChar(d, '.') == a + b
  {
    var d := a + "." + b;
    assert forall c :: c in a || c in b ==> c in a + b;
    assert forall c :: c in a + b ==> c in a || c in b;
    assert forall c :: c in d ==> c in a || c in b || c == '.';
    assert ':' in d by { assert ':' in a || ':' in b; }
    assert d[|a|] == '.';
    NoOOWithoutO(d);
    RemoveInsertedChar(a, b, '.');
  }

  /** Minutes typed as "oo" are read as "00". */
  lemma OOMinutesNormalise(t: ClockTime)
    requires ValidTime(t) && t.minute == 0
    ensures HandleTimeInputs(Text(TwoDigits(t.hour) + ":oo")) == Ok(Some(Render(t)))
  {
    var s := TwoDigits(t.hour) + ":oo";
    assert HasOO(s) by { assert OOAt(s, 3); }
    assert ':' in s by { assert s[2] == ':'; }
    assert ReplaceOO(s) == FormatHM(t) by {
      var p := TwoDigits(t.hour) + ":";
      assert s == p + "oo";
      ReplaceOOSkipsPrefix(p, "oo");
      assert ReplaceOO("oo") == "00";
      assert FormatHM(t) == p + "00" by { assert TwoDigits(0) == "00"; }
    }
    ParseFormatted(t);
  }

  /** The priority of the rules on the tokens the source comments on:
      "8oo" and "14.30" have no ':' and so are absent, "8:oo" is eight
      o'clock. */
  lemma ColonRuleComesFirst()
    ensures HandleTimeInputs(Text("8oo")) == Ok(None)
    ensures HandleTimeInputs(Text("14.30")) == Ok(None)
    ensures HandleTimeInputs(Text("8:oo")) == Ok(Some("08:00:00"))
    ensures HandleTimeInputs(Missing) == Ok(None)
  {
    NoColonTokens();
    EightOClockRepaired();
  }

  /** "8oo" and "14.30" hold no ':'. */
  lemma NoColonTokens()
    ensures ':' !in "8oo" && ':' !in "14.30"
  {
    var a, b := "8oo", "14.30";
    assert forall i :: 0 <= i < |a| ==> a[i] != ':';
    assert forall i :: 0 <= i < |b| ==> b[i] != ':';
  }

  /** "8:oo" is repaired to "8:00" and read as eight o'clock. */
  lemma EightOClockRepaired()
    ensures HandleTimeInputs(Text("8:oo")) == Ok(Some("08:00:00"))
  {
    EightOORepair();
    EightParses();
    assert "8:oo"[1] == ':';
  }

  /** "8:oo" holds "oo", which the repair turns into "8:00". */
  lemma EightOORepair()
    ensures HasOO("8:oo") && ReplaceOO("8:oo") == "8:00"
  {
    assert OOAt("8:oo", 2);
    ReplaceOOSkipsPrefix("8:", "oo");
    assert "8:oo" == "8:" + "oo";
    assert ReplaceOO("oo") == "00";
  }

  /** "8:00" parses as eight o'clock and prints as "08:00:00". */
  lemma EightParses()
    ensures ParseAndRender("8:00") == Ok(Some("08:00:00"))
  {
    assert "8:00"[..1] == "8" && "8:00"[2..] == "00";
    assert HourField("8") == Some(8) && MinuteField("00") == Some(0);
    assert ParseHM("8:00") == Ok(ClockTime(8, 0));
    assert TwoDigits(8) == "08" && TwoDigits(0) == "00";
    assert Render(ClockTime(8, 0)) == "08:00:00";
  }
}
