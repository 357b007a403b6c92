/** The capture-date cascade of `load_photos`: a `YYYY-MM-DD` string, or "Unknown",
    from three sources tried in order: the device's property columns, an `IMG_`/`VID_`
    filename, and a `YYYYMM...` parent-folder name. */
module CaptureDate {
  import opened Options
  import opened Text
  import opened Calendar
  import opened Strptime

  /** The date string of an item for which no source produced a date. */
  const Unknown := "Unknown"

  /** What the cascade looks at: the device's property columns for the item (index
      `c` holds what the shell reports for column `c`; columns past the end are empty),
      the filename, and the name of the parent folder on the device. */
  datatype Evidence = Evidence(columns: seq<string>, filename: string, folderName: string)

  /** One row of the catalogue `load_photos` builds: the filename, the date string the
      cascade produced, and whether the device folder that holds the item is known
      (the back-writer is only called when it is). */
  datatype MediaItem = MediaItem(filename: string, date: string, hasParentFolder: bool)

  /** Columns 0 to 30 are read. */
  const ColumnCount := 31

  function Column(columns: seq<string>, c: nat): string {
    if c < |columns| then columns[c] else ""
  }

  /** The formats `load_photos` tries, in its order. */
  const ColumnFormats: seq<string> := [
    "%m/%d/%Y %I:%M %p", "%m/%d/%Y %I:%M:%S %p",
    "%d/%m/%Y %H:%M", "%d/%m/%Y %H:%M:%S",
    "%Y-%m-%d %H:%M:%S", "%Y/%m/%d %H:%M:%S",
    "%m/%d/%Y", "%d/%m/%Y", "%Y/%m/%d", "%Y-%m-%d",
    "%d-%m-%Y", "%m-%d-%Y", "%Y%m%d",
    "%-m/%-d/%Y %-I:%M %p", "%-m/%-d/%Y"
  ]

  /** A format with a space is cut to its first word before use, so every time part
      is dropped: `fmt.split()[0] if ' ' in fmt else fmt`. */
  function TrimFormat(fmt: string): string {
    if ' ' in fmt then FirstWord(fmt) else fmt
  }

  /** What the formats become once cut: three of them (`%Y-%m-%d`, `%m/%d/%Y`,
      `%d/%m/%Y`) twice over, and the two `%-` formats, which Python rejects. */
  const TrimmedColumnFormats: seq<string> := [
    MonthFirstFormat, MonthFirstFormat, DayFirstFormat, DayFirstFormat, IsoFormat, "%Y/%m/%d",
    "%m/%d/%Y", "%d/%m/%Y", "%Y/%m/%d", "%Y-%m-%d",
    "%d-%m-%Y", "%m-%d-%Y", "%Y%m%d",
    "%-m/%-d/%Y", "%-m/%-d/%Y"
  ]

  /** Cutting each format leaves its date part only. */
  lemma TrimmedFormats()
    ensures |TrimmedColumnFormats| == |ColumnFormats|
    ensures forall i :: 0 <= i < |ColumnFormats| ==> TrimFormat(ColumnFormats[i]) == TrimmedColumnFormats[i]
    ensures Compile(TrimmedColumnFormats[13]).None? && Compile(TrimmedColumnFormats[14]).None?
    ensures forall s :: Parse(s, TrimmedColumnFormats[13]).None? && Parse(s, TrimmedColumnFormats[14]).None?
  {
    assert TrimmedColumnFormats[13] == TrimmedColumnFormats[14] == "%-m/%-d/%Y";
    assert DirectiveField('-').None?;
    forall i | 0 <= i < |ColumnFormats| ensures TrimFormat(ColumnFormats[i]) == TrimmedColumnFormats[i] {
      TrimmedFormatAt(i);
    }
  }

  lemma TrimmedFormatAt(i: nat)
    requires i < |ColumnFormats|
    ensures TrimFormat(ColumnFormats[i]) == TrimmedColumnFormats[i]
  {
    if i <= 5 || i == 13 {
      TimedFormatAt(i);
    } else {
      UntimedFormatAt(i);
    }
  }

  /** The formats with a time part lose it. */
  lemma TimedFormatAt(i: nat)
    requires i <= 5 || i == 13
    ensures TrimFormat(ColumnFormats[i]) == TrimmedColumnFormats[i]
  {
    var f := ColumnFormats[i];
    if i == 0 {
      TrimAtSpace(f, "%m/%d/%Y", "%I:%M %p");
    } else if i == 1 {
      TrimAtSpace(f, "%m/%d/%Y", "%I:%M:%S %p");
    } else if i == 2 {
      TrimAtSpace(f, "%d/%m/%Y", "%H:%M");
    } else if i == 3 {
      TrimAtSpace(f, "%d/%m/%Y", "%H:%M:%S");
    } else if i == 4 {
      TrimAtSpace(f, "%Y-%m-%d", "%H:%M:%S");
    } else if i == 5 {
      TrimAtSpace(f, "%Y/%m/%d", "%H:%M:%S");
    } else {
      TrimAtSpace(f, "%-m/%-d/%Y", "%-I:%M %p");
    }
  }

  /** The formats without a space are used as they stand. */
  lemma UntimedFormatAt(i: nat)
    requires 6 <= i < |ColumnFormats| && i != 13
    ensures TrimFormat(ColumnFormats[i]) == TrimmedColumnFormats[i]
  {
    assert ' ' !in ColumnFormats[i];
  }

  lemma TrimAtSpace(f: string, a: string, b: string)
    requires f == a + " " + b
    requires |a| >= 1 && forall i :: 0 <= i < |a| ==> IsGraphic(a[i])
    ensures TrimFormat(f) == a
  {
    assert f[|a|] == ' ';
    FirstWordOfWord(a, b);
  }

  /** A stripped column value is parsed only when it has a `/`, `-` or `:` and a digit. */
  predicate LooksLikeDate(v: string) {
    ('/' in v || '-' in v || ':' in v) && HasDigit(v)
  }

  /** The text handed to `strptime`: the first word when the value has both a space
      and a colon, the whole value otherwise. */
  function DatePart(v: string): string {
    if ' ' in v && ':' in v then FirstWord(v) else v
  }

  /** The date of the first format of `fmts` that parses `part`; the cascade hands it
      the formats already cut to their date parts (see `TrimmedFormats`). */
  function FirstParse(part: string, fmts: seq<string>): (r: Option<Date>)
    ensures r.Some? ==> IsValid(r.value)
    decreases |fmts|
  {
    if |fmts| == 0 then None
    else
      var d := Parse(part, fmts[0]);
      if d.Some? then d else FirstParse(part, fmts[1..])
  }

  /** The date one property column yields, if any. */
  function ColumnValueDate(raw: string): (r: Option<Date>)
    ensures r.Some? ==> IsValid(r.value)
    ensures r.Some? ==> Strip(raw) != "" && LooksLikeDate(Strip(raw))
  {
    var v := Strip(raw);
    if v != "" && LooksLikeDate(v) then FirstParse(DatePart(v), TrimmedColumnFormats) else None
  }

  /** The date found is that of the first format that parses. */
  lemma {:induction false} FirstParseIsFirst(part: string, fmts: seq<string>, k: nat)
    requires k < |fmts| && Parse(part, fmts[k]).Some?
    requires forall j :: 0 <= j < k ==> Parse(part, fmts[j]).None?
    ensures FirstParse(part, fmts) == Parse(part, fmts[k])
    decreases k
  {
    if k > 0 {
      assert Parse(part, fmts[0]).None?;
      assert forall j :: 0 <= j < k - 1 ==> fmts[1..][j] == fmts[j + 1];
      FirstParseIsFirst(part, fmts[1..], k - 1);
    }
  }

  /** Nothing is found exactly when every format fails. */
  lemma {:induction false} FirstParseMisses(part: string, fmts: seq<string>)
    ensures FirstParse(part, fmts).None? <==> forall k :: 0 <= k < |fmts| ==> Parse(part, fmts[k]).None?
    decreases |fmts|
  {
    if |fmts| > 0 {
      FirstParseMisses(part, fmts[1..]);
      assert forall k :: 1 <= k < |fmts| ==> fmts[k] == fmts[1..][k - 1];
    }
  }

  /** A value with a time after its first word is read by that word alone:
      "01/02/2024 10:30 AM" is parsed as "01/02/2024". */
  lemma TimedValueParsesDatePart(raw: string, w: string, t: string)
    requires Strip(raw) == w + " " + t && ':' in t
    requires |w| >= 1 && forall i :: 0 <= i < |w| ==> IsGraphic(w[i])
    requires LooksLikeDate(Strip(raw))
    ensures ColumnValueDate(raw) == FirstParse(w, TrimmedColumnFormats)
  {
    DatePartOfTimed(w, t);
  }

  /** The date part of a word, a space and a time is the word. */
  lemma DatePartOfTimed(w: string, t: string)
    requires ':' in t
    requires |w| >= 1 && forall i :: 0 <= i < |w| ==> IsGraphic(w[i])
    ensures DatePart(w + " " + t) == w
  {
    var v := w + " " + t;
    assert v[|w|] == ' ';
    var i :| 0 <= i < |t| && t[i] == ':';
    assert v[|w| + 1 + i] == ':';
    FirstWordOfWord(w, t);
  }

  /** A column showing `NN/NN/NNNN`, a space and a time is read by its date, month
      first: "01/02/2024 10:30 AM" is the 2nd of January 2024. */
  lemma TimedSlashValue(w: string, t: string)
    requires TwoTwoFour(w, '/') && IsValid(MonthFirstDate(w))
    requires ':' in t && !IsSpace(t[|t| - 1])
    ensures ColumnValueDate(w + " " + t) == Some(MonthFirstDate(w))
  {
    var v := w + " " + t;
    SlashWordIsGraphic(w);
    assert v[0] == w[0] && v[|v| - 1] == t[|t| - 1];
    StripUnpadded(v);
    assert HasDigit(v) by { assert IsDigit(v[0]); }
    assert '/' in v by { assert v[2] == '/'; }
    TimedValueParsesDatePart(v, w, t);
    ParseMonthFirst(w);
    SlashFormatsComeFirst(w);
  }

  /** `NN/NN/NNNN` is a word of printable characters that starts with a digit. */
  lemma SlashWordIsGraphic(w: string)
    requires TwoTwoFour(w, '/')
    ensures |w| == 10 && IsDigit(w[0]) && forall i :: 0 <= i < |w| ==> IsGraphic(w[i])
  {
    forall k | 0 <= k < |w| ensures IsGraphic(w[k]) {
      if k < 2 {
        assert w[..2][k] == w[k];
      } else if 2 < k < 5 {
        assert w[3..5][k - 3] == w[k];
      } else if k > 5 {
        assert w[6..][k - 6] == w[k];
      }
    }
    assert w[..2][0] == w[0];
  }

  /** The round trip with the stored form: a column that shows a date as `%Y-%m-%d`,
      the way the mover writes dates, is read back as that date. The two slash formats
      fail on its leading year, and `%Y-%m-%d`, the fifth format, reads it. */
  lemma StoredDateReadsBack(d: Date)
    requires IsValid(d)
    ensures ColumnValueDate(DayText(d)) == Some(d)
  {
    var s := DayText(d);
    DayTextIsPlain(d);
    SlashFormatsNeedSlash(s);
    IsoRoundTrip(d);
    IsoFormatComesFifth(s);
  }

  /** A stored date is a plain column value that opens with three digits. */
  lemma DayTextIsPlain(d: Date)
    requires IsValid(d)
    ensures var s := DayText(d);
      && |s| >= 3 && IsDigit(s[0]) && IsDigit(s[1]) && IsDigit(s[2])
      && ColumnValueDate(s) == FirstParse(s, TrimmedColumnFormats)
  {
    DigitsOfDateRoundTrip(d);
    YearFirstTextPlain(DigitsOfDate(d), '-');
    PlainColumnValue(DayText(d));
  }

  /** Eight digits laid out with a dash or a slash have no whitespace, open with the
      four digits of the year, end with a digit, and look like a date to the column
      filter. */
  lemma YearFirstTextPlain(d8: string, sep: char)
    requires |d8| == 8 && AllDigits(d8) && (sep == '-' || sep == '/')
    ensures var s := YearFirstText(d8, sep);
      && |s| == 10 && IsDigit(s[0]) && IsDigit(s[1]) && IsDigit(s[2]) && AllDigits(s[..4])
      && !IsSpace(s[0]) && !IsSpace(s[9]) && ' ' !in s && LooksLikeDate(s)
  {
    var s := YearFirstText(d8, sep);
    YearFirstTextChars(d8, sep);
    assert ' ' !in s by {
      forall k | 0 <= k < |s| ensures s[k] != ' ' {
        if k != 4 && k != 7 {
          assert IsDigit(s[k]);
        }
      }
    }
    assert AllDigits(s[..4]) by {
      forall k | 0 <= k < 4 ensures IsDigit(s[..4][k]) {
        assert s[..4][k] == s[k];
      }
    }
    assert IsDigit(s[9]) && s[4] == sep;
  }

  /** The first five formats tried are month first twice, day first twice, then
      `%Y-%m-%d`. */
  lemma LeadingColumnFormats()
    ensures |TrimmedColumnFormats| > 4
    ensures TrimmedColumnFormats[0] == MonthFirstFormat && TrimmedColumnFormats[1] == MonthFirstFormat
    ensures TrimmedColumnFormats[2] == DayFirstFormat && TrimmedColumnFormats[3] == DayFirstFormat
    ensures TrimmedColumnFormats[4] == IsoFormat
  {
  }

  /** Text both slash formats reject and `%Y-%m-%d` reads is read with `%Y-%m-%d`. */
  lemma IsoFormatComesFifth(part: string)
    requires Parse(part, MonthFirstFormat).None? && Parse(part, DayFirstFormat).None?
    requires Parse(part, IsoFormat).Some?
    ensures FirstParse(part, TrimmedColumnFormats) == Parse(part, IsoFormat)
  {
    LeadingColumnFormats();
    FirstParseAtFifth(part, TrimmedColumnFormats);
  }

  lemma FirstParseAtFifth(part: string, fmts: seq<string>)
    requires |fmts| > 4 && Parse(part, fmts[4]).Some?
    requires Parse(part, fmts[0]).None? && Parse(part, fmts[1]).None?
    requires Parse(part, fmts[2]).None? && Parse(part, fmts[3]).None?
    ensures FirstParse(part, fmts) == Parse(part, fmts[4])
  {
    FirstParseIsFirst(part, fmts, 4);
  }

  /** The characters of eight digits laid out with a separator. */
  lemma YearFirstTextChars(d8: string, sep: char)
    requires |d8| == 8 && AllDigits(d8)
    ensures var s := YearFirstText(d8, sep);
      && |s| == 10 && s[4] == sep && s[7] == sep
      && forall k :: 0 <= k < 10 && k != 4 && k != 7 ==> IsDigit(s[k])
  {
    var s := YearFirstText(d8, sep);
    forall k | 0 <= k < 10 && k != 4 && k != 7 ensures IsDigit(s[k]) {
      if k < 4 {
        assert s[k] == d8[k];
      } else if k < 7 {
        assert s[k] == d8[k - 1];
      } else {
        assert s[k] == d8[k - 2];
      }
    }
  }

  /** A column showing a real date as `YYYY/MM/DD` is read as that date: both slash
      formats fail on its leading year, `%Y-%m-%d` fails on its slash, and `%Y/%m/%d`,
      the sixth format, reads it. */
  lemma YearSlashValueReads(d8: string)
    requires |d8| == 8 && AllDigits(d8) && IsValid(DateOfDigits(d8))
    ensures ColumnValueDate(YearFirstText(d8, '/')) == Some(DateOfDigits(d8))
  {
    var s := YearFirstText(d8, '/');
    YearFirstTextPlain(d8, '/');
    PlainColumnValue(s);
    SlashFormatsNeedSlash(s);
    CompileIso();
    YearFirstWrongSeparator(s, '-', IsoFormat);
    ParseYearSlash(d8);
    YearSlashFormatComesSixth(s);
  }

  /** Text that the slash formats and `%Y-%m-%d` reject and `%Y/%m/%d` reads is read
      with `%Y/%m/%d`. */
  lemma YearSlashFormatComesSixth(part: string)
    requires Parse(part, MonthFirstFormat).None? && Parse(part, DayFirstFormat).None?
    requires Parse(part, IsoFormat).None? && Parse(part, YearSlashFormat).Some?
    ensures FirstParse(part, TrimmedColumnFormats) == Parse(part, YearSlashFormat)
  {
    EarlierThanYearSlash();
    FirstParseAfterThree(part, TrimmedColumnFormats, 5, MonthFirstFormat, DayFirstFormat, IsoFormat);
  }

  /** The first match comes at `k` when each format before it is one of three that the
      text fails. */
  lemma FirstParseAfterThree(part: string, fmts: seq<string>, k: nat, a: string, b: string, c: string)
    requires k < |fmts| && Parse(part, fmts[k]).Some?
    requires forall j :: 0 <= j < k ==> fmts[j] in {a, b, c}
    requires Parse(part, a).None? && Parse(part, b).None? && Parse(part, c).None?
    ensures FirstParse(part, fmts) == Parse(part, fmts[k])
  {
    FirstParseIsFirst(part, fmts, k);
  }

  /** Every format before the first `%Y/%m/%d` is a slash format or `%Y-%m-%d`. */
  lemma EarlierThanYearSlash()
    ensures |TrimmedColumnFormats| > 5 && TrimmedColumnFormats[5] == YearSlashFormat
    ensures forall j :: 0 <= j < 5 ==>
      TrimmedColumnFormats[j] in {MonthFirstFormat, DayFirstFormat, IsoFormat}
  {
  }

  /** Bare digits never reach the formats: with no `/`, `-` or `:`, the column filter
      turns "20240102" away, although `%Y%m%d` would read it. */
  lemma BareDigitsAreNoDate(raw: string)
    requires AllDigits(Strip(raw))
    ensures ColumnValueDate(raw) == None
  {
    var v := Strip(raw);
    assert '/' !in v && '-' !in v && ':' !in v by {
      forall k | 0 <= k < |v| ensures v[k] != '/' && v[k] != '-' && v[k] != ':' {
        assert IsDigit(v[k]);
      }
    }
  }

  /** A column showing eight digits `YYYYMMDD` of a real date, a space and a time is
      read by its date part under `%Y%m%d`, the thirteenth format, since every earlier
      format fails on eight bare digits: "20240102 10:30" is the 2nd of January 2024. */
  lemma TimedCompactValue(d8: string, t: string)
    requires |d8| == 8 && AllDigits(d8) && IsValid(DateOfDigits(d8))
    requires ':' in t && !IsSpace(t[|t| - 1])
    ensures ColumnValueDate(d8 + " " + t) == Some(DateOfDigits(d8))
  {
    var v := d8 + " " + t;
    assert forall i :: 0 <= i < |d8| ==> IsGraphic(d8[i]) by {
      forall i | 0 <= i < |d8| ensures IsGraphic(d8[i]) {
        assert IsDigit(d8[i]);
      }
    }
    assert v[0] == d8[0] && v[|v| - 1] == t[|t| - 1];
    assert IsDigit(v[0]);
    StripUnpadded(v);
    assert ':' in v by {
      var i :| 0 <= i < |t| && t[i] == ':';
      assert v[9 + i] == ':';
    }
    TimedValueParsesDatePart(v, d8, t);
    CompactDigitsRead(d8);
  }

  /** Eight digits of a real date: every format before `%Y%m%d` fails on them, and
      `%Y%m%d` reads them. */
  lemma CompactDigitsRead(d8: string)
    requires |d8| == 8 && AllDigits(d8) && IsValid(DateOfDigits(d8))
    ensures FirstParse(d8, TrimmedColumnFormats) == Some(DateOfDigits(d8))
  {
    assert IsDigit(d8[0]) && IsDigit(d8[1]) && IsDigit(d8[2]) && IsDigit(d8[4]);
    assert AllDigits(d8[..4]) by {
      forall k | 0 <= k < 4 ensures IsDigit(d8[..4][k]) {
        assert d8[..4][k] == d8[k];
      }
    }
    SlashFormatsNeedSlash(d8);
    YearFirstFormatsNeedSeparator(d8);
    DashFormatsNeedDash(d8);
    ParseCompact(d8);
    CompactFormatComesThirteenth(d8);
  }

  /** Text that every format before `%Y%m%d` rejects and `%Y%m%d` reads is read with
      `%Y%m%d`. */
  lemma CompactFormatComesThirteenth(part: string)
    requires Parse(part, MonthFirstFormat).None? && Parse(part, DayFirstFormat).None?
    requires Parse(part, IsoFormat).None? && Parse(part, YearSlashFormat).None?
    requires Parse(part, DayFirstDashFormat).None? && Parse(part, MonthFirstDashFormat).None?
    requires Parse(part, CompactFormat).Some?
    ensures FirstParse(part, TrimmedColumnFormats) == Parse(part, CompactFormat)
  {
    EarlierThanCompact();
    FirstParseAfterSix(part, TrimmedColumnFormats, 12,
      MonthFirstFormat, DayFirstFormat, IsoFormat, YearSlashFormat, DayFirstDashFormat, MonthFirstDashFormat);
  }

  /** The first match comes at `k` when each format before it is one of six that the
      text fails. */
  lemma FirstParseAfterSix(part: string, fmts: seq<string>, k: nat, a: string, b: string, c: string, d: string, e: string, g: string)
    requires k < |fmts| && Parse(part, fmts[k]).Some?
    requires forall j :: 0 <= j < k ==> fmts[j] in {a, b, c, d, e, g}
    requires Parse(part, a).None? && Parse(part, b).None? && Parse(part, c).None?
    requires Parse(part, d).None? && Parse(part, e).None? && Parse(part, g).None?
    ensures FirstParse(part, fmts) == Parse(part, fmts[k])
  {
    FirstParseIsFirst(part, fmts, k);
  }

  /** Every format before `%Y%m%d` is a slash, year-first or dashed format. */
  lemma EarlierThanCompact()
    ensures |TrimmedColumnFormats| > 12 && TrimmedColumnFormats[12] == CompactFormat
    ensures forall j :: 0 <= j < 12 ==>
      TrimmedColumnFormats[j] in {MonthFirstFormat, DayFirstFormat, IsoFormat, YearSlashFormat, DayFirstDashFormat, MonthFirstDashFormat}
  {
  }

  /** A column showing `NN/NN/NNNN` is read month first whenever that is a real date,
      and day first only when it is not: "01/02/2024" is the 2nd of January, while
      "13/02/2024" is the 13th of February. */
  lemma SlashDateIsMonthFirst(raw: string)
    requires TwoTwoFour(raw, '/')
    ensures IsValid(MonthFirstDate(raw)) ==> ColumnValueDate(raw) == Some(MonthFirstDate(raw))
    ensures !IsValid(MonthFirstDate(raw)) && IsValid(DayFirstDate(raw)) ==> ColumnValueDate(raw) == Some(DayFirstDate(raw))
  {
    assert IsDigit(raw[0]) by { assert raw[..2][0] == raw[0]; }
    assert IsDigit(raw[9]) by { assert raw[6..][3] == raw[9]; }
    assert ' ' !in raw by {
      forall k | 0 <= k < |raw| ensures raw[k] != ' ' {
        if k < 2 {
          assert raw[..2][k] == raw[k];
        } else if 2 < k < 5 {
          assert raw[3..5][k - 3] == raw[k];
        } else if k > 5 {
          assert raw[6..][k - 6] == raw[k];
        }
      }
    }
    PlainColumnValue(raw);
    ParseMonthFirst(raw);
    ParseDayFirst(raw);
    SlashFormatsComeFirst(raw);
  }

  /** A column showing `NN-NN-NNNN` is read day first whenever that is a real date, and
      month first only when it is not, the reverse of the slash rule: "01-02-2024" is the
      1st of February, while "01-13-2024" is the 13th of January. The slash formats fail
      on its dash and the year-first formats on its third character, and `%d-%m-%Y` comes
      before `%m-%d-%Y`. */
  lemma DashedDateIsDayFirst(raw: string)
    requires TwoTwoFour(raw, '-')
    ensures IsValid(DayFirstDate(raw)) ==> ColumnValueDate(raw) == Some(DayFirstDate(raw))
    ensures !IsValid(DayFirstDate(raw)) && IsValid(MonthFirstDate(raw)) ==> ColumnValueDate(raw) == Some(MonthFirstDate(raw))
  {
    TwoTwoFourPlain(raw, '-');
    PlainColumnValue(raw);
    SlashFormatsNeedSlash(raw);
    YearFirstFormatsNeedYear(raw);
    ParseDayFirstDash(raw);
    ParseMonthFirstDash(raw);
    DashFormatsComeNext(raw);
  }

  /** `NN?NN?NNNN` with a slash or a dash is a plain column value that looks like a date. */
  lemma TwoTwoFourPlain(s: string, sep: char)
    requires TwoTwoFour(s, sep) && (sep == '/' || sep == '-')
    ensures IsDigit(s[0]) && IsDigit(s[1]) && !IsSpace(s[0]) && !IsSpace(s[9]) && ' ' !in s && LooksLikeDate(s)
  {
    assert IsDigit(s[0]) && IsDigit(s[1]) by { assert s[..2][0] == s[0] && s[..2][1] == s[1]; }
    assert IsDigit(s[9]) by { assert s[6..][3] == s[9]; }
    assert ' ' !in s by {
      forall k | 0 <= k < |s| ensures s[k] != ' ' {
        if k < 2 {
          assert s[..2][k] == s[k];
        } else if 2 < k < 5 {
          assert s[3..5][k - 3] == s[k];
        } else if k > 5 {
          assert s[6..][k - 6] == s[k];
        }
      }
    }
  }

  /** After the slash and year-first formats fail, the dashed day-first format is tried,
      then the dashed month-first one. */
  lemma DashFormatsComeNext(part: string)
    requires Parse(part, MonthFirstFormat).None? && Parse(part, DayFirstFormat).None?
    requires Parse(part, IsoFormat).None? && Parse(part, YearSlashFormat).None?
    ensures Parse(part, DayFirstDashFormat).Some? ==> FirstParse(part, TrimmedColumnFormats) == Parse(part, DayFirstDashFormat)
    ensures Parse(part, DayFirstDashFormat).None? && Parse(part, MonthFirstDashFormat).Some?
      ==> FirstParse(part, TrimmedColumnFormats) == Parse(part, MonthFirstDashFormat)
  {
    EarlierThanDashed();
    FirstParseSkipsFour(part, TrimmedColumnFormats, 10, MonthFirstFormat, DayFirstFormat, IsoFormat, YearSlashFormat);
    FirstParseOfTwo(part, TrimmedColumnFormats[10..]);
  }

  /** Every format before the dashed ones is a slash format or a year-first one. */
  lemma EarlierThanDashed()
    ensures |TrimmedColumnFormats| > 11
    ensures TrimmedColumnFormats[10..][0] == DayFirstDashFormat && TrimmedColumnFormats[10..][1] == MonthFirstDashFormat
    ensures forall j :: 0 <= j < 10 ==>
      TrimmedColumnFormats[j] in {MonthFirstFormat, DayFirstFormat, IsoFormat, YearSlashFormat}
  {
  }

  /** Formats that each fail can be dropped from the front of the list. */
  lemma {:induction false} FirstParseSkips(part: string, fmts: seq<string>, k: nat)
    requires k <= |fmts|
    requires forall j :: 0 <= j < k ==> Parse(part, fmts[j]).None?
    ensures FirstParse(part, fmts) == FirstParse(part, fmts[k..])
    decreases k
  {
    if k > 0 {
      assert Parse(part, fmts[0]).None?;
      assert fmts[1..][k - 1..] == fmts[k..];
      assert forall j :: 0 <= j < k - 1 ==> fmts[1..][j] == fmts[j + 1];
      FirstParseSkips(part, fmts[1..], k - 1);
    }
  }

  /** The formats before `k`, each one of four the text fails, can be dropped. */
  lemma FirstParseSkipsFour(part: string, fmts: seq<string>, k: nat, a: string, b: string, c: string, d: string)
    requires k <= |fmts|
    requires forall j :: 0 <= j < k ==> fmts[j] in {a, b, c, d}
    requires Parse(part, a).None? && Parse(part, b).None? && Parse(part, c).None? && Parse(part, d).None?
    ensures FirstParse(part, fmts) == FirstParse(part, fmts[k..])
  {
    FirstParseSkips(part, fmts, k);
  }

  /** The first of two formats wins when it parses; the second when only it parses. */
  lemma FirstParseOfTwo(part: string, fs: seq<string>)
    requires |fs| >= 2
    ensures Parse(part, fs[0]).Some? ==> FirstParse(part, fs) == Parse(part, fs[0])
    ensures Parse(part, fs[0]).None? && Parse(part, fs[1]).Some? ==> FirstParse(part, fs) == Parse(part, fs[1])
  {
    assert fs[1..][0] == fs[1];
  }

  /** The first formats tried are month first and then day first. */
  lemma SlashFormatsComeFirst(part: string)
    ensures Parse(part, MonthFirstFormat).Some? ==> FirstParse(part, TrimmedColumnFormats) == Parse(part, MonthFirstFormat)
    ensures Parse(part, MonthFirstFormat).None? && Parse(part, DayFirstFormat).Some?
      ==> FirstParse(part, TrimmedColumnFormats) == Parse(part, DayFirstFormat)
  {
    var fmts := TrimmedColumnFormats;
    var m, d := Parse(part, MonthFirstFormat), Parse(part, DayFirstFormat);
    assert fmts[0] == MonthFirstFormat && fmts[1..][0] == MonthFirstFormat;
    assert fmts[1..][1..] == fmts[2..] && fmts[2..][0] == DayFirstFormat;
    assert FirstParse(part, fmts[2..]) == if d.Some? then d else FirstParse(part, fmts[3..]);
    assert FirstParse(part, fmts[1..]) == if m.Some? then m else FirstParse(part, fmts[2..]);
    assert FirstParse(part, fmts) == if m.Some? then m else FirstParse(part, fmts[1..]);
  }

  /** A value with no space and no whitespace at either end is parsed as it stands. */
  lemma PlainColumnValue(raw: string)
    requires |raw| >= 1 && !IsSpace(raw[0]) && !IsSpace(raw[|raw| - 1]) && ' ' !in raw
    requires LooksLikeDate(raw)
    ensures ColumnValueDate(raw) == FirstParse(raw, TrimmedColumnFormats)
  {
    StripUnpadded(raw);
  }

  /** The date column `k` of the item yields, if any. */
  function ColumnYield(columns: seq<string>): nat -> Option<Date> {
    (k: nat) => ColumnValueDate(Column(columns, k))
  }

  /** Source 1: the date of the first of columns 0 to 30 that yields one. */
  function ColumnDate(columns: seq<string>): (r: Option<Date>)
    ensures r.Some? ==> IsValid(r.value)
  {
    FirstPresent(ColumnYield(columns), 0, ColumnCount)
  }

  /** The column source finds a date exactly when one of columns 0 to 30 yields one, and
      then it is the date of the first such column. */
  lemma ColumnDateIsFirstHit(columns: seq<string>, k: nat)
    requires k < ColumnCount && ColumnValueDate(Column(columns, k)).Some?
    requires forall j :: 0 <= j < k ==> ColumnValueDate(Column(columns, j)).None?
    ensures ColumnDate(columns) == ColumnValueDate(Column(columns, k))
  {
    FirstPresentIsFirst(ColumnYield(columns), 0, ColumnCount, k);
  }

  /** The column source finds nothing exactly when none of columns 0 to 30 yields a
      date. */
  lemma ColumnDateMisses(columns: seq<string>)
    ensures ColumnDate(columns).None? <==> forall k :: 0 <= k < ColumnCount ==> ColumnValueDate(Column(columns, k)).None?
  {
    var f := ColumnYield(columns);
    assert forall k :: 0 <= k < ColumnCount ==> f(k) == ColumnValueDate(Column(columns, k));
  }

  /** Only columns 0 to 30 matter: two items whose first 31 columns agree get the same
      column date, whatever follows. */
  lemma ColumnsPastThirtyIgnored(a: seq<string>, b: seq<string>)
    requires forall k :: 0 <= k < ColumnCount ==> Column(a, k) == Column(b, k)
    ensures ColumnDate(a) == ColumnDate(b)
  {
    FirstPresentAgree(ColumnYield(a), ColumnYield(b), 0, ColumnCount);
  }

  /** The filename source applies to names that start with `IMG_` or `VID_`. */
  predicate HasCapturePrefix(name: string) {
    |name| >= 4 && (name[..4] == "IMG_" || name[..4] == "VID_")
  }

  /** Source 2: the second `_`-separated field of an `IMG_`/`VID_` name with every `E`
      deleted; when it begins with eight digits they are laid out as `YYYY-MM-DD`,
      without any range check. */
  function FilenameDate(name: string): (r: Option<string>)
    ensures r.Some? ==> HasCapturePrefix(name)
    ensures r.Some? ==> exists d8 :: |d8| == 8 && AllDigits(d8) && r.value == DashedDigits(d8)
  {
    if !HasCapturePrefix(name) then None
    else
      var parts := Split(name, '_');
      if |parts| < 2 then None
      else
        var digits := RemoveAll(parts[1], 'E');
        if |digits| >= 8 && AllDigits(digits[..8]) then Some(DashedDigits(digits[..8])) else None
  }

  /** What the filename source reads: the text after the prefix up to the next `_`,
      with every `E` deleted; its first eight characters, when they are digits. */
  lemma FilenameDateReads(name: string)
    requires HasCapturePrefix(name)
    ensures var g := RemoveAll(LeadingField(name[4..], '_'), 'E');
      FilenameDate(name) == if |g| >= 8 && AllDigits(g[..8]) then Some(DashedDigits(g[..8])) else None
  {
    assert name == name[..3] + ['_'] + name[4..];
    assert '_' !in name[..3];
    SplitAfterField(name[..3], '_', name[4..]);
  }

  /** A name the camera writes, `IMG_` or `VID_`, any number of `E`s (an edited copy),
      eight digits and then anything, gives those digits as the date. */
  lemma StampedName(prefix: string, es: string, d8: string, tail: string)
    requires prefix == "IMG_" || prefix == "VID_"
    requires forall i :: 0 <= i < |es| ==> es[i] == 'E'
    requires |d8| == 8 && AllDigits(d8)
    ensures FilenameDate(prefix + es + d8 + tail) == Some(DashedDigits(d8))
  {
    var name := prefix + es + d8 + tail;
    assert name[..4] == prefix;
    assert name[4..] == es + d8 + tail;
    StampedField(es, d8, tail);
    FilenameDateReads(name);
  }

  /** The field after the prefix, without its `E`s, starts with the eight digits. */
  lemma StampedField(es: string, d8: string, tail: string)
    requires forall i :: 0 <= i < |es| ==> es[i] == 'E'
    requires |d8| == 8 && AllDigits(d8)
    ensures var g := RemoveAll(LeadingField(es + d8 + tail, '_'), 'E');
      |g| >= 8 && g[..8] == d8
  {
    assert '_' !in es + d8 by {
      forall i | 0 <= i < |es + d8| ensures (es + d8)[i] != '_' {
        if i >= |es| {
          assert IsDigit(d8[i - |es|]);
        }
      }
    }
    assert 'E' !in d8 by {
      forall i | 0 <= i < |d8| ensures d8[i] != 'E' {
        assert IsDigit(d8[i]);
      }
    }
    LeadingFieldOfFree(es + d8, '_', tail);
    var lf := LeadingField(tail, '_');
    RemoveAllAppend(es + d8, lf, 'E');
    RemoveAllAppend(es, d8, 'E');
    RemoveAllOfOnly(es, 'E');
    RemoveAllAbsent(d8, 'E');
    assert [] + d8 == d8;
    var g := RemoveAll(LeadingField(es + d8 + tail, '_'), 'E');
    assert g == d8 + RemoveAll(lf, 'E');
  }

  /** The eight digits a `YYYYMM` folder prefix stands for: day `01` of that month. */
  function MonthStartDigits(d6: string): (d8: string)
    requires |d6| == 6 && AllDigits(d6)
    ensures |d8| == 8 && AllDigits(d8) && d8[..6] == d6 && d8[6..] == "01"
  {
    d6 + "01"
  }

  /** Source 3: a folder name whose first six characters are digits gives the first
      day of that month, again without a range check. */
  function FolderDate(folder: string): (r: Option<string>)
    ensures r.Some? <==> |folder| >= 6 && AllDigits(folder[..6])
    ensures r.Some? ==> |folder| >= 6 && AllDigits(folder[..6]) && r.value == DashedDigits(MonthStartDigits(folder[..6]))
  {
    if |folder| >= 6 && AllDigits(folder[..6]) then
      var d8 := MonthStartDigits(folder[..6]);
      assert folder[..4] + "-" + folder[4..6] + "-01" == DashedDigits(d8);
      Some(folder[..4] + "-" + folder[4..6] + "-01")
    else
      None
  }

  /** The digits a folder date stands for spell day 1 of the year and month the
      folder's name starts with, whatever those numbers are: `202413` stands for the
      impossible 2024-13-01. */
  lemma FolderDateIsFirstOfMonth(folder: string)
    requires |folder| >= 6 && AllDigits(folder[..6])
    ensures FolderDate(folder).Some?
    ensures DateOfDigits(MonthStartDigits(folder[..6])) == FolderMonthStart(folder)
  {
    var d8 := MonthStartDigits(folder[..6]);
    assert d8[..4] == folder[..4] && d8[4..6] == folder[4..6] && d8[6..8] == "01";
    assert DecimalValue("01") == 1 by {
      assert "01"[..1] == "0" && "0"[..0] == "";
    }
  }

  /** Day 1 of the year and month a folder name's first six digits spell. */
  function FolderMonthStart(folder: string): (d: Date)
    requires |folder| >= 6 && AllDigits(folder[..6])
    ensures d.day == 1
  {
    assert folder[..4] == folder[..6][..4] && folder[4..6] == folder[..6][4..];
    Date(DecimalValue(folder[..4]), DecimalValue(folder[4..6]), 1)
  }

  /** `202410_x` is read as the first of October 2024. */
  lemma FolderDateExample()
    ensures FolderDate("202410_x") == Some("2024-10-01")
  {
    var folder := "202410_x";
    assert folder[..6] == "202410" && AllDigits(folder[..6]);
    assert MonthStartDigits("202410") == "20241001";
    assert DashedDigits("20241001") == "2024-10-01";
  }

  /** The date string `load_photos` stores for an item: the first source that
      produces one wins, and "Unknown" when none does. */
  function CaptureDateText(ev: Evidence): (r: string)
    ensures r == Unknown <==> ColumnDate(ev.columns).None? && FilenameDate(ev.filename).None? && FolderDate(ev.folderName).None?
    ensures r != Unknown ==> |r| == 10 && Count(r, '-') == 2
  {
    match ColumnDate(ev.columns)
    case Some(d) =>
      DigitsOfDateRoundTrip(d);
      DashedShape(DigitsOfDate(d));
      DayText(d)
    case None =>
      match FilenameDate(ev.filename)
      case Some(t) =>
        var d8 :| |d8| == 8 && AllDigits(d8) && t == DashedDigits(d8);
        DashedShape(d8);
        t
      case None =>
        match FolderDate(ev.folderName)
        case Some(t) =>
          DashedShape(MonthStartDigits(ev.folderName[..6]));
          t
        case None => Unknown
  }

  /** The sources are consulted in order: once one produces a date, the later ones
      cannot change the result. */
  lemma LaterSourcesIgnored(ev: Evidence, otherName: string, otherFolder: string)
    ensures ColumnDate(ev.columns).Some? ==>
      CaptureDateText(ev) == CaptureDateText(ev.(filename := otherName, folderName := otherFolder))
    ensures FilenameDate(ev.filename).Some? ==>
      CaptureDateText(ev) == CaptureDateText(ev.(folderName := otherFolder))
  {
  }

  /** A date from the columns is the column date rendered with `%Y-%m-%d`; one from the
      filename or folder is the name's digits with dashes between them. */
  lemma CaptureDateSource(ev: Evidence)
    ensures ColumnDate(ev.columns).Some? ==> CaptureDateText(ev) == DayText(ColumnDate(ev.columns).value)
    ensures ColumnDate(ev.columns).None? && FilenameDate(ev.filename).Some? ==>
      CaptureDateText(ev) == FilenameDate(ev.filename).value
    ensures ColumnDate(ev.columns).None? && FilenameDate(ev.filename).None? && FolderDate(ev.folderName).Some? ==>
      CaptureDateText(ev) == FolderDate(ev.folderName).value
  {
  }

  /** Eight digits laid out with dashes have the shape `get_photo_date` checks for:
      ten characters, two of them dashes. */
  lemma DashedShape(d8: string)
    requires |d8| == 8 && AllDigits(d8)
    ensures |DashedDigits(d8)| == 10 && Count(DashedDigits(d8), '-') == 2
    ensures DashedDigits(d8) != Unknown
  {
    var s := DashedDigits(d8);
    CountDigitsFree(d8[..4]);
    CountDigitsFree(d8[4..6]);
    CountDigitsFree(d8[6..8]);
    CountAppend(d8[..4], "-", '-');
    CountAppend(d8[..4] + "-", d8[4..6], '-');
    CountAppend(d8[..4] + "-" + d8[4..6], "-", '-');
    CountAppend(d8[..4] + "-" + d8[4..6] + "-", d8[6..8], '-');
    assert Count("-", '-') == 1;
  }

  lemma CountDigitsFree(s: string)
    requires AllDigits(s)
    ensures Count(s, '-') == 0
  {
  }

  lemma {:induction false} CountAppend(a: string, b: string, c: char)
    ensures Count(a + b, c) == Count(a, c) + Count(b, c)
    decreases |a|
  {
    if |a| == 0 {
      assert a + b == b;
    } else {
      assert (a + b)[1..] == a[1..] + b;
      CountAppend(a[1..], b, c);
    }
  }
}
