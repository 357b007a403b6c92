/** The part of Python's `datetime.strptime` that the program's numeric date formats
    exercise. `strptime` turns the format into a regular expression, matches it against
    the start of the text (alternatives tried in order, with backtracking), rejects the
    text when characters are left over ("unconverted data remains"), and finally lets
    `datetime` reject impossible dates. Only `%Y`, `%m` and `%d` are modelled; every other
    directive makes the format unusable, which is what Python does with the invalid
    `%-` directive and which never matters for the others (see
    `CaptureDate.TrimmedFormats`). */
module Strptime {
  import opened Options
  import opened Text
  import opened Calendar

  datatype Field = YearField | MonthField | DayField

  /** A compiled format: literal characters and directives, in order. */
  datatype Piece = Literal(c: char) | Directive(field: Field)

  /** One character position of a directive's regular expression. */
  datatype CharClass = Exactly(c: char) | Between(lo: char, hi: char) {
    predicate Holds(x: char) {
      match this
      case Exactly(c) => x == c
      case Between(lo, hi) => lo <= x <= hi
    }
  }

  /** The alternatives of each directive's group, in the order the regular expression
      tries them: `%Y` is `\d\d\d\d`, `%m` is `1[0-2]|0[1-9]|[1-9]`, `%d` is
      `3[01]|[12]\d|0[1-9]|[1-9]| [1-9]`. */
  function Alternatives(f: Field): seq<seq<CharClass>> {
    match f
    case YearField =>
      [[Between('0', '9'), Between('0', '9'), Between('0', '9'), Between('0', '9')]]
    case MonthField =>
      [[Exactly('1'), Between('0', '2')], [Exactly('0'), Between('1', '9')], [Between('1', '9')]]
    case DayField =>
      [ [Exactly('3'), Between('0', '1')], [Between('1', '2'), Between('0', '9')],
        [Exactly('0'), Between('1', '9')], [Between('1', '9')], [Exactly(' '), Between('1', '9')] ]
  }

  function DirectiveField(c: char): Option<Field> {
    if c == 'Y' then Some(YearField)
    else if c == 'm' then Some(MonthField)
    else if c == 'd' then Some(DayField)
    else None
  }

  /** The format as pieces, or None when it holds a directive outside `%Y`, `%m`, `%d`
      or a stray `%` at its end (Python raises ValueError for a bad directive). */
  function Compile(fmt: string): Option<seq<Piece>>
    decreases |fmt|
  {
    if |fmt| == 0 then Some([])
    else if fmt[0] == '%' then
      if |fmt| == 1 || DirectiveField(fmt[1]).None? then None
      else
        var rest := Compile(fmt[2..]);
        if rest.None? then None else Some([Directive(DirectiveField(fmt[1]).value)] + rest.value)
    else
      var rest := Compile(fmt[1..]);
      if rest.None? then None else Some([Literal(fmt[0])] + rest.value)
  }

  /** The text each directive's group captured. */
  datatype Captures = Captures(year: Option<string>, month: Option<string>, day: Option<string>) {
    function With(f: Field, text: string): Captures {
      match f
      case YearField => this.(year := Some(text))
      case MonthField => this.(month := Some(text))
      case DayField => this.(day := Some(text))
    }
  }

  const NoCaptures := Captures(None, None, None)

  /** A successful match of a prefix of the text: the captures and where it ended. */
  datatype Match = Match(captures: Captures, end: nat)

  predicate Fits(alt: seq<CharClass>, s: string, pos: nat) {
    pos + |alt| <= |s| && forall k :: 0 <= k < |alt| ==> alt[k].Holds(s[pos + k])
  }

  /** Records what a directive captured in a match of the pieces after it. */
  function Then(m: Option<Match>, f: Field, text: string): Option<Match> {
    match m
    case Some(x) => Some(x.(captures := x.captures.With(f, text)))
    case None => None
  }

  /** The regular expression's first match of `ps` starting at `pos`, with
      backtracking over the directives' alternatives. */
  function MatchFrom(ps: seq<Piece>, s: string, pos: nat): (r: Option<Match>)
    requires pos <= |s|
    ensures r.Some? ==> pos <= r.value.end <= |s|
    decreases |ps|, 1, 0
  {
    if ps == [] then Some(Match(NoCaptures, pos))
    else
      match ps[0]
      case Literal(c) => if pos < |s| && s[pos] == c then MatchFrom(ps[1..], s, pos + 1) else None
      case Directive(f) => MatchAlternative(f, 0, ps[1..], s, pos)
  }

  /** Tries the directive's alternatives from the `i`-th on, each followed by the rest
      of the pattern. */
  function MatchAlternative(f: Field, i: nat, rest: seq<Piece>, s: string, pos: nat): (r: Option<Match>)
    requires pos <= |s|
    ensures r.Some? ==> pos <= r.value.end <= |s|
    decreases |rest| + 1, 0, |Alternatives(f)| - i
  {
    if i >= |Alternatives(f)| then None
    else
      var alt := Alternatives(f)[i];
      if Fits(alt, s, pos) then
        match MatchFrom(rest, s, pos + |alt|)
        case Some(m) => Then(Some(m), f, s[pos..pos + |alt|])
        case None => MatchAlternative(f, i + 1, rest, s, pos)
      else
        MatchAlternative(f, i + 1, rest, s, pos)
  }

  /** `int(text)` of a capture, or Python's default when the format has no such directive. */
  function FieldValue(text: Option<string>, default: int): int {
    match text
    case Some(t) => DecimalValue(DigitsOf(t))
    case None => default
  }

  /** `datetime.strptime(s, fmt)` for the numeric formats; None where Python raises
      ValueError (no match, unconverted data remains, or no such date). Missing fields
      default to year 1900, month 1, day 1. */
  function Parse(s: string, fmt: string): (r: Option<Date>)
    ensures r.Some? ==> IsValid(r.value)
  {
    match Compile(fmt)
    case None => None
    case Some(ps) =>
      match MatchFrom(ps, s, 0)
      case None => None
      case Some(m) =>
        if m.end != |s| then None
        else
          var d := Date(FieldValue(m.captures.year, 1900), FieldValue(m.captures.month, 1),
                        FieldValue(m.captures.day, 1));
          if IsValid(d) then Some(d) else None
  }

  /** The format `get_photo_date` and the back-writer's fallback parse with. */
  const IsoFormat := "%Y-%m-%d"

  /** The pieces of `%Y?%m?%d` for a separator `?`. */
  function YearFirstPieces(sep: char): seq<Piece> {
    [Directive(YearField), Literal(sep), Directive(MonthField), Literal(sep), Directive(DayField)]
  }

  /** Eight digits `YYYYMMDD` laid out as `YYYY?MM?DD`; with a dash this is `DashedDigits`. */
  function YearFirstText(d8: string, sep: char): (s: string)
    requires |d8| == 8
    ensures |s| == 10 && s[4] == sep && s[7] == sep
    ensures sep == '-' ==> s == DashedDigits(d8)
  {
    d8[..4] + [sep] + d8[4..6] + [sep] + d8[6..8]
  }

  lemma CompileIso()
    ensures Compile(IsoFormat) == Some(YearFirstPieces('-'))
  {
    assert IsoFormat == ['%', 'Y', '-', '%', 'm', '-', '%', 'd'];
    CompileTriple('Y', '-', 'm', 'd');
  }

  /** A format of three directives joined by one separator compiles to exactly those
      pieces. */
  lemma CompileTriple(c1: char, sep: char, c2: char, c3: char)
    requires DirectiveField(c1).Some? && DirectiveField(c2).Some? && DirectiveField(c3).Some?
    requires sep != '%'
    ensures Compile(['%', c1, sep, '%', c2, sep, '%', c3])
      == Some([Directive(DirectiveField(c1).value), Literal(sep), Directive(DirectiveField(c2).value),
               Literal(sep), Directive(DirectiveField(c3).value)])
  {
    var f: string := ['%', c1, sep, '%', c2, sep, '%', c3];
    var p := [Directive(DirectiveField(c1).value), Literal(sep), Directive(DirectiveField(c2).value),
              Literal(sep), Directive(DirectiveField(c3).value)];
    assert f[8..] == [] && f[6..][2..] == f[8..] && f[5..][1..] == f[6..];
    assert f[3..][2..] == f[5..] && f[2..][1..] == f[3..] && f[2..] == f[0..][2..];
    assert Compile(f[8..]) == Some([]);
    assert p[4..] == p[4..] + [];
    assert Compile(f[6..]) == Some(p[4..]);
    assert p[3..] == [p[3]] + p[4..];
    assert Compile(f[5..]) == Some(p[3..]);
    assert p[2..] == [p[2]] + p[3..];
    assert Compile(f[3..]) == Some(p[2..]);
    assert p[1..] == [p[1]] + p[2..];
    assert Compile(f[2..]) == Some(p[1..]);
    assert p == [p[0]] + p[1..];
  }

  lemma TwoDigitValue(t: string)
    requires |t| == 2 && AllDigits(t)
    ensures DecimalValue(t) == DigitValue(t[0]) * 10 + DigitValue(t[1])
  {
    assert t[..1] == [t[0]] && t[..1][..0] == [];
    assert DecimalValue(t[..1]) == DigitValue(t[0]);
  }

  /** The two-digit months are `1[0-2]` and `0[1-9]`. */
  lemma MonthDigits(a: char, b: char)
    requires IsDigit(a) && IsDigit(b)
    ensures (1 <= DigitValue(a) * 10 + DigitValue(b) <= 12) <==> (a == '1' && '0' <= b <= '2') || (a == '0' && '1' <= b <= '9')
  {
  }

  /** The two-digit days are `3[01]`, `[12]\d` and `0[1-9]`. */
  lemma DayDigits(a: char, b: char)
    requires IsDigit(a) && IsDigit(b)
    ensures (1 <= DigitValue(a) * 10 + DigitValue(b) <= 31)
      <==> (a == '3' && '0' <= b <= '1') || ('1' <= a <= '2') || (a == '0' && '1' <= b <= '9')
  {
  }

  /** Text that satisfies every position of an alternative fits it. */
  lemma FitsAll(alt: seq<CharClass>, s: string, pos: nat)
    requires pos + |alt| <= |s|
    requires |alt| >= 1 ==> alt[0].Holds(s[pos])
    requires |alt| >= 2 ==> alt[1].Holds(s[pos + 1])
    requires |alt| <= 2
    ensures Fits(alt, s, pos)
  {
    forall k | 0 <= k < |alt| ensures alt[k].Holds(s[pos + k]) {
      if k == 0 {
        assert s[pos + k] == s[pos];
      }
    }
  }

  /** One position that the text does not satisfy is enough to rule an alternative out. */
  lemma FailsAt(alt: seq<CharClass>, s: string, pos: nat, k: nat)
    requires k < |alt|
    requires pos + k < |s| ==> !alt[k].Holds(s[pos + k])
    ensures !Fits(alt, s, pos)
  {
  }

  /** Four digits always satisfy `%Y`, so the match continues right after them. */
  lemma YearStep(rest: seq<Piece>, s: string, pos: nat)
    requires pos + 4 <= |s| && AllDigits(s[pos..pos + 4])
    ensures MatchAlternative(YearField, 0, rest, s, pos) == Then(MatchFrom(rest, s, pos + 4), YearField, s[pos..pos + 4])
  {
    var alt := Alternatives(YearField)[0];
    forall k | 0 <= k < 4 ensures alt[k].Holds(s[pos + k]) {
      assert s[pos..pos + 4][k] == s[pos + k];
    }
    assert Fits(alt, s, pos);
  }

  /** An alternative the match moves past: it does not fit, or the rest of the pattern
      cannot follow it. */
  predicate Skippable(f: Field, i: nat, rest: seq<Piece>, s: string, pos: nat)
    requires i < |Alternatives(f)| && pos <= |s|
  {
    var alt := Alternatives(f)[i];
    !Fits(alt, s, pos) || MatchFrom(rest, s, pos + |alt|).None?
  }

  /** Alternatives that are moved past do not change the outcome. */
  lemma {:induction false} SkipTo(f: Field, i: nat, j: nat, rest: seq<Piece>, s: string, pos: nat)
    requires pos <= |s| && i <= j <= |Alternatives(f)|
    requires forall k :: i <= k < j ==> Skippable(f, k, rest, s, pos)
    ensures MatchAlternative(f, i, rest, s, pos) == MatchAlternative(f, j, rest, s, pos)
    decreases j - i
  {
    if i < j {
      assert Skippable(f, i, rest, s, pos);
      SkipTo(f, i + 1, j, rest, s, pos);
    }
  }

  /** An alternative that fits is kept when the rest of the pattern matches after it. */
  lemma Take(f: Field, i: nat, rest: seq<Piece>, s: string, pos: nat)
    requires pos <= |s| && i < |Alternatives(f)| && Fits(Alternatives(f)[i], s, pos)
    ensures var n := |Alternatives(f)[i]|;
      MatchAlternative(f, i, rest, s, pos)
      == if MatchFrom(rest, s, pos + n).Some? then Then(MatchFrom(rest, s, pos + n), f, s[pos..pos + n])
         else MatchAlternative(f, i + 1, rest, s, pos)
  {
  }

  /** When one alternative fits and every other is moved past, that alternative decides
      the match. */
  lemma Decides(f: Field, k: nat, rest: seq<Piece>, s: string, pos: nat)
    requires pos <= |s| && k < |Alternatives(f)| && Fits(Alternatives(f)[k], s, pos)
    requires forall j :: 0 <= j < |Alternatives(f)| && j != k ==> Skippable(f, j, rest, s, pos)
    ensures var n := |Alternatives(f)[k]|;
      MatchAlternative(f, 0, rest, s, pos) == Then(MatchFrom(rest, s, pos + n), f, s[pos..pos + n])
  {
    SkipTo(f, 0, k, rest, s, pos);
    Take(f, k, rest, s, pos);
    SkipTo(f, k + 1, |Alternatives(f)|, rest, s, pos);
  }

  /** Two digits followed by a separator satisfy `%m` exactly when they spell a month
      1..12; a lone leading digit is also tried, but the separator that must follow it
      is missing. */
  lemma MonthStep(rest: seq<Piece>, s: string, pos: nat, sep: char)
    requires pos + 3 <= |s| && IsDigit(s[pos]) && IsDigit(s[pos + 1]) && s[pos + 2] == sep && !IsDigit(sep)
    requires |rest| >= 1 && rest[0] == Literal(sep)
    ensures AllDigits(s[pos..pos + 2])
    ensures var m := DecimalValue(s[pos..pos + 2]);
      MatchAlternative(MonthField, 0, rest, s, pos)
      == if 1 <= m <= 12 then Then(MatchFrom(rest, s, pos + 2), MonthField, s[pos..pos + 2]) else None
  {
    var t := s[pos..pos + 2];
    assert t[0] == s[pos] && t[1] == s[pos + 1];
    TwoDigitValue(t);
    MonthDigits(s[pos], s[pos + 1]);
    var alts := Alternatives(MonthField);
    assert MatchFrom(rest, s, pos + 1) == None;
    assert Skippable(MonthField, 2, rest, s, pos);
    if s[pos] == '1' && '0' <= s[pos + 1] <= '2' {
      FitsAll(alts[0], s, pos);
      FailsAt(alts[1], s, pos, 0);
      Take(MonthField, 0, rest, s, pos);
      SkipTo(MonthField, 1, 3, rest, s, pos);
    } else if s[pos] == '0' && '1' <= s[pos + 1] <= '9' {
      FailsAt(alts[0], s, pos, 0);
      FitsAll(alts[1], s, pos);
      SkipTo(MonthField, 0, 1, rest, s, pos);
      Take(MonthField, 1, rest, s, pos);
      SkipTo(MonthField, 2, 3, rest, s, pos);
    } else {
      FailsAt(alts[0], s, pos, if s[pos] == '1' then 1 else 0);
      FailsAt(alts[1], s, pos, if s[pos] == '0' then 1 else 0);
      SkipTo(MonthField, 0, 3, rest, s, pos);
    }
  }

  /** Two digits followed by a separator satisfy `%d` exactly when they spell a day
      1..31; the one-digit alternatives also fit but leave no separator after them. */
  lemma DayStep(rest: seq<Piece>, s: string, pos: nat, sep: char)
    requires pos + 3 <= |s| && IsDigit(s[pos]) && IsDigit(s[pos + 1]) && s[pos + 2] == sep && !IsDigit(sep)
    requires |rest| >= 1 && rest[0] == Literal(sep)
    ensures AllDigits(s[pos..pos + 2])
    ensures var d := DecimalValue(s[pos..pos + 2]);
      MatchAlternative(DayField, 0, rest, s, pos)
      == if 1 <= d <= 31 then Then(MatchFrom(rest, s, pos + 2), DayField, s[pos..pos + 2]) else None
  {
    var t := s[pos..pos + 2];
    assert t[0] == s[pos] && t[1] == s[pos + 1];
    TwoDigitValue(t);
    DayDigits(s[pos], s[pos + 1]);
    var alts := Alternatives(DayField);
    assert MatchFrom(rest, s, pos + 1) == None;
    assert Skippable(DayField, 3, rest, s, pos);
    FailsAt(alts[4], s, pos, 0);
    if 1 <= DecimalValue(t) <= 31 {
      DayStepHit(rest, s, pos);
    } else {
      FailsAt(alts[0], s, pos, if s[pos] == '3' then 1 else 0);
      FailsAt(alts[1], s, pos, 0);
      FailsAt(alts[2], s, pos, if s[pos] == '0' then 1 else 0);
      SkipTo(DayField, 0, 5, rest, s, pos);
    }
  }

  /** The two-digit alternative that fits a day 1..31 decides the match, since every
      later alternative is moved past. */
  lemma DayStepHit(rest: seq<Piece>, s: string, pos: nat)
    requires pos + 2 <= |s| && IsDigit(s[pos]) && IsDigit(s[pos + 1])
    requires (s[pos] == '3' && '0' <= s[pos + 1] <= '1') || ('1' <= s[pos] <= '2') || (s[pos] == '0' && '1' <= s[pos + 1] <= '9')
    requires Skippable(DayField, 3, rest, s, pos) && Skippable(DayField, 4, rest, s, pos)
    ensures MatchAlternative(DayField, 0, rest, s, pos) == Then(MatchFrom(rest, s, pos + 2), DayField, s[pos..pos + 2])
  {
    var alts := Alternatives(DayField);
    if s[pos] == '3' {
      FitsAll(alts[0], s, pos);
      FailsAt(alts[1], s, pos, 0);
      FailsAt(alts[2], s, pos, 0);
      Decides(DayField, 0, rest, s, pos);
    } else if '1' <= s[pos] <= '2' {
      FailsAt(alts[0], s, pos, 0);
      FitsAll(alts[1], s, pos);
      FailsAt(alts[2], s, pos, 0);
      Decides(DayField, 1, rest, s, pos);
    } else {
      FailsAt(alts[0], s, pos, 0);
      FailsAt(alts[1], s, pos, 0);
      FitsAll(alts[2], s, pos);
      Decides(DayField, 2, rest, s, pos);
    }
  }

  /** Two final digits satisfy `%d` in full exactly when they spell a day 1..31; for
      32..99 only the first digit matches and the second is left unconverted. */
  lemma DayStepAtEnd(s: string, pos: nat)
    requires pos + 2 == |s| && IsDigit(s[pos]) && IsDigit(s[pos + 1])
    ensures AllDigits(s[pos..pos + 2])
    ensures var d, r := DecimalValue(s[pos..pos + 2]), MatchAlternative(DayField, 0, [], s, pos);
      && (1 <= d <= 31 ==> r == Some(Match(NoCaptures.With(DayField, s[pos..pos + 2]), |s|)))
      && (!(1 <= d <= 31) ==> r.None? || r.value.end < |s|)
  {
    var t := s[pos..pos + 2];
    assert t[0] == s[pos] && t[1] == s[pos + 1];
    TwoDigitValue(t);
    DayDigits(s[pos], s[pos + 1]);
    var alts := Alternatives(DayField);
    if s[pos] == '3' && '0' <= s[pos + 1] <= '1' {
      FitsAll(alts[0], s, pos);
      Take(DayField, 0, [], s, pos);
    } else if '1' <= s[pos] <= '2' {
      FailsAt(alts[0], s, pos, 0);
      FitsAll(alts[1], s, pos);
      SkipTo(DayField, 0, 1, [], s, pos);
      Take(DayField, 1, [], s, pos);
    } else if s[pos] == '0' && '1' <= s[pos + 1] <= '9' {
      FailsAt(alts[0], s, pos, 0);
      FailsAt(alts[1], s, pos, 0);
      FitsAll(alts[2], s, pos);
      SkipTo(DayField, 0, 2, [], s, pos);
      Take(DayField, 2, [], s, pos);
    } else if s[pos] == '0' {
      FailsAt(alts[0], s, pos, 0);
      FailsAt(alts[1], s, pos, 0);
      FailsAt(alts[2], s, pos, 1);
      FailsAt(alts[3], s, pos, 0);
      FailsAt(alts[4], s, pos, 0);
      SkipTo(DayField, 0, 5, [], s, pos);
    } else {
      FailsAt(alts[0], s, pos, if s[pos] == '3' then 1 else 0);
      FailsAt(alts[1], s, pos, 0);
      FailsAt(alts[2], s, pos, 0);
      FitsAll(alts[3], s, pos);
      SkipTo(DayField, 0, 3, [], s, pos);
      Take(DayField, 3, [], s, pos);
    }
  }

  /** The `%m?%d` end of a year-first pattern, from position 5 of `YYYY?MM?DD`. */
  lemma YearFirstMonthDay(s: string, sep: char)
    requires |s| == 10 && s[7] == sep && !IsDigit(sep)
    requires AllDigits(s[5..7]) && AllDigits(s[8..10])
    ensures var m, d, r := DecimalValue(s[5..7]), DecimalValue(s[8..10]), MatchFrom(YearFirstPieces(sep)[2..], s, 5);
      && (1 <= m <= 12 && 1 <= d <= 31 ==>
            r == Some(Match(NoCaptures.With(DayField, s[8..10]).With(MonthField, s[5..7]), 10)))
      && (!(1 <= m <= 12 && 1 <= d <= 31) ==> r.None? || r.value.end < 10)
  {
    assert s[5..7][0] == s[5] && s[5..7][1] == s[6] && s[8..10][0] == s[8] && s[8..10][1] == s[9];
    var p := YearFirstPieces(sep);
    DayStepAtEnd(s, 8);
    var dayMatch := MatchAlternative(DayField, 0, [], s, 8);
    assert p[4..][1..] == [] && p[4..][0] == Directive(DayField);
    assert MatchFrom(p[4..], s, 8) == dayMatch;
    assert MatchFrom(p[3..], s, 7) == dayMatch;
    MonthStep(p[3..], s, 5, sep);
    assert MatchFrom(p[2..], s, 5) == MatchAlternative(MonthField, 0, p[3..], s, 5);
  }

  /** A year-first pattern matches ten characters `YYYY?MM?DD` in full exactly when the
      month is 1..12 and the day 1..31, capturing the three groups. */
  lemma YearFirstMatch(s: string, sep: char)
    requires |s| == 10 && s[4] == sep && s[7] == sep && !IsDigit(sep)
    requires AllDigits(s[0..4]) && AllDigits(s[5..7]) && AllDigits(s[8..10])
    ensures var m, d, r := DecimalValue(s[5..7]), DecimalValue(s[8..10]), MatchFrom(YearFirstPieces(sep), s, 0);
      && (1 <= m <= 12 && 1 <= d <= 31 ==>
            r == Some(Match(NoCaptures.With(DayField, s[8..10]).With(MonthField, s[5..7]).With(YearField, s[0..4]), 10)))
      && (!(1 <= m <= 12 && 1 <= d <= 31) ==> r.None? || r.value.end < 10)
  {
    YearFirstMonthDay(s, sep);
    assert YearFirstPieces(sep) == [Directive(YearField), Literal(sep)] + YearFirstPieces(sep)[2..];
    YearThenSeparator(YearFirstPieces(sep)[2..], s, sep);
  }

  /** A leading `%Y?` takes four digits and the separator and hands the rest of the text
      to the rest of the pattern. */
  lemma YearThenSeparator(rest: seq<Piece>, s: string, sep: char)
    requires |s| >= 5 && AllDigits(s[0..4]) && s[4] == sep
    ensures var r, tail := MatchFrom([Directive(YearField), Literal(sep)] + rest, s, 0), MatchFrom(rest, s, 5);
      && r == Then(tail, YearField, s[0..4])
      && (r.Some? <==> tail.Some?)
      && (r.Some? ==> r.value.end == tail.value.end)
  {
    var p := [Directive(YearField), Literal(sep)] + rest;
    assert p[1..] == [Literal(sep)] + rest;
    assert p[1..][1..] == rest;
    YearStep(p[1..], s, 0);
  }

  /** A year-first format reads eight digits laid out with its separator as exactly the
      date they spell, and fails exactly when that date does not exist. */
  lemma YearFirstParse(d8: string, sep: char, fmt: string)
    requires |d8| == 8 && AllDigits(d8) && !IsDigit(sep)
    requires Compile(fmt) == Some(YearFirstPieces(sep))
    ensures var d := DateOfDigits(d8);
      Parse(YearFirstText(d8, sep), fmt) == if IsValid(d) then Some(d) else None
  {
    var s := YearFirstText(d8, sep);
    assert |s| == 10 && s[4] == sep && s[7] == sep;
    assert s[0..4] == d8[..4] && s[5..7] == d8[4..6] && s[8..10] == d8[6..8];
    YearFirstMatch(s, sep);
  }

  /** `strptime(text, "%Y-%m-%d")` on eight digits laid out as `YYYY-MM-DD` reads
      exactly the date they spell, and fails exactly when that date does not exist. */
  lemma IsoParseOfDashedDigits(d8: string)
    requires |d8| == 8 && AllDigits(d8)
    ensures var d := DateOfDigits(d8);
      Parse(DashedDigits(d8), IsoFormat) == if IsValid(d) then Some(d) else None
  {
    CompileIso();
    YearFirstParse(d8, '-', IsoFormat);
  }

  /** The year-first slash format `%Y/%m/%d`. */
  const YearSlashFormat := "%Y/%m/%d"

  /** `strptime(text, "%Y/%m/%d")` on eight digits laid out as `YYYY/MM/DD` reads
      exactly the date they spell, and fails exactly when that date does not exist. */
  lemma ParseYearSlash(d8: string)
    requires |d8| == 8 && AllDigits(d8)
    ensures var d := DateOfDigits(d8);
      Parse(YearFirstText(d8, '/'), YearSlashFormat) == if IsValid(d) then Some(d) else None
  {
    assert YearSlashFormat == ['%', 'Y', '/', '%', 'm', '/', '%', 'd'];
    CompileTriple('Y', '/', 'm', 'd');
    YearFirstParse(d8, '/', YearSlashFormat);
  }

  /** A year-first format fails on text that does not open with four digits. */
  lemma YearFirstNeedsYear(s: string, sep: char, fmt: string)
    requires |s| >= 3 && !IsDigit(s[2])
    requires Compile(fmt) == Some(YearFirstPieces(sep))
    ensures Parse(s, fmt) == None
  {
    var p := YearFirstPieces(sep);
    FailsAt(Alternatives(YearField)[0], s, 0, 2);
    assert MatchAlternative(YearField, 1, p[1..], s, 0) == None;
    assert MatchFrom(p, s, 0) == None;
  }

  /** Neither `%Y-%m-%d` nor `%Y/%m/%d` accepts text whose third character is not a
      digit, such as `NN-NN-NNNN`. */
  lemma YearFirstFormatsNeedYear(s: string)
    requires |s| >= 3 && !IsDigit(s[2])
    ensures Parse(s, IsoFormat) == None && Parse(s, YearSlashFormat) == None
  {
    CompileIso();
    YearFirstNeedsYear(s, '-', IsoFormat);
    assert YearSlashFormat == ['%', 'Y', '/', '%', 'm', '/', '%', 'd'];
    CompileTriple('Y', '/', 'm', 'd');
    YearFirstNeedsYear(s, '/', YearSlashFormat);
  }

  /** Neither `%Y-%m-%d` nor `%Y/%m/%d` accepts text that opens with five digits, such
      as `YYYYMMDD`. */
  lemma YearFirstFormatsNeedSeparator(s: string)
    requires |s| >= 5 && AllDigits(s[..4]) && IsDigit(s[4])
    ensures Parse(s, IsoFormat) == None && Parse(s, YearSlashFormat) == None
  {
    CompileIso();
    YearFirstWrongSeparator(s, '-', IsoFormat);
    assert YearSlashFormat == ['%', 'Y', '/', '%', 'm', '/', '%', 'd'];
    CompileTriple('Y', '/', 'm', 'd');
    YearFirstWrongSeparator(s, '/', YearSlashFormat);
  }

  /** A year-first format fails on text whose fifth character is not its separator. */
  lemma YearFirstWrongSeparator(s: string, sep: char, fmt: string)
    requires |s| >= 5 && AllDigits(s[..4]) && s[4] != sep
    requires Compile(fmt) == Some(YearFirstPieces(sep))
    ensures Parse(s, fmt) == None
  {
    var p := YearFirstPieces(sep);
    assert s[0..4] == s[..4];
    YearStep(p[1..], s, 0);
    assert MatchFrom(p[1..], s, 4) == None;
  }

  /** A valid date survives a round trip through `strftime("%Y-%m-%d")` and
      `strptime(..., "%Y-%m-%d")`. */
  lemma IsoRoundTrip(d: Date)
    requires IsValid(d)
    ensures Parse(DayText(d), IsoFormat) == Some(d)
  {
    DigitsOfDateRoundTrip(d);
    IsoParseOfDashedDigits(DigitsOfDate(d));
  }

  /** Text shaped `NN?NN?NNNN`: two digits, a separator, two digits, the same
      separator, four digits. */
  predicate TwoTwoFour(s: string, sep: char) {
    && |s| == 10 && s[2] == sep && s[5] == sep && !IsDigit(sep)
    && AllDigits(s[..2]) && AllDigits(s[3..5]) && AllDigits(s[6..])
  }

  /** The values a two-digit `%m` or `%d` group accepts. */
  predicate InRange(f: Field, v: int) {
    match f
    case YearField => true
    case MonthField => 1 <= v <= 12
    case DayField => 1 <= v <= 31
  }

  /** Matching `%a?%b?%Y` against `NN?NN?NNNN` consumes the whole text and captures the
      three numbers when both two-digit groups are in range, and fails otherwise. */
  lemma MatchTwoTwoFour(s: string, sep: char, f1: Field, f2: Field)
    requires TwoTwoFour(s, sep) && f1 != YearField && f2 != YearField
    ensures var p := [Directive(f1), Literal(sep), Directive(f2), Literal(sep), Directive(YearField)];
      MatchFrom(p, s, 0)
      == if InRange(f1, DecimalValue(s[..2])) && InRange(f2, DecimalValue(s[3..5]))
         then Some(Match(NoCaptures.With(YearField, s[6..]).With(f2, s[3..5]).With(f1, s[..2]), 10))
         else None
  {
    var p := [Directive(f1), Literal(sep), Directive(f2), Literal(sep), Directive(YearField)];
    assert s[6..6 + 4] == s[6..] && s[0..0 + 2] == s[..2] && s[3..3 + 2] == s[3..5];
    assert IsDigit(s[0]) && IsDigit(s[1]) by { assert s[..2][0] == s[0] && s[..2][1] == s[1]; }
    assert IsDigit(s[3]) && IsDigit(s[4]) by { assert s[3..5][0] == s[3] && s[3..5][1] == s[4]; }
    YearStep(p[4..][1..], s, 6);
    assert p[4..][1..] == [];
    var yearMatch := Some(Match(NoCaptures.With(YearField, s[6..]), 10));
    assert MatchFrom(p[4..], s, 6) == yearMatch;
    assert MatchFrom(p[3..], s, 5) == yearMatch;
    if f2 == MonthField {
      MonthStep(p[3..], s, 3, sep);
    } else {
      DayStep(p[3..], s, 3, sep);
    }
    assert MatchFrom(p[2..], s, 3) == MatchAlternative(f2, 0, p[3..], s, 3);
    assert MatchFrom(p[1..], s, 2) == MatchFrom(p[2..], s, 3);
    if f1 == MonthField {
      MonthStep(p[1..], s, 0, sep);
    } else {
      DayStep(p[1..], s, 0, sep);
    }
    assert MatchFrom(p, s, 0) == MatchAlternative(f1, 0, p[1..], s, 0);
  }

  /** A `%m` or `%d` group followed by a separator cannot match where two digits stand
      and then something other than the separator: whichever alternative it takes, the
      separator is missing after it. */
  lemma NoSeparatorAfterDigits(f: Field, rest: seq<Piece>, s: string, pos: nat)
    requires f != YearField
    requires |rest| >= 1 && rest[0].Literal?
    requires pos + 3 <= |s| && IsDigit(s[pos]) && IsDigit(s[pos + 1]) && s[pos + 2] != rest[0].c
    requires !IsDigit(rest[0].c)
    ensures MatchAlternative(f, 0, rest, s, pos) == None
  {
    var alts := Alternatives(f);
    forall i | 0 <= i < |alts| ensures Skippable(f, i, rest, s, pos) {
      assert 1 <= |alts[i]| <= 2;
      assert MatchFrom(rest, s, pos + |alts[i]|) == None;
    }
    SkipTo(f, 0, |alts|, rest, s, pos);
  }

  /** A format of `%m` and `%d` first, joined by a separator that is not a digit, fails
      on text whose third character is not that separator, such as a `%Y-%m-%d` date. */
  lemma FieldFirstFormatFails(s: string, sep: char, f1: Field, f2: Field)
    requires f1 != YearField && f2 != YearField && !IsDigit(sep)
    requires |s| >= 3 && IsDigit(s[0]) && IsDigit(s[1]) && s[2] != sep
    ensures var p := [Directive(f1), Literal(sep), Directive(f2), Literal(sep), Directive(YearField)];
      MatchFrom(p, s, 0) == None
  {
    var p := [Directive(f1), Literal(sep), Directive(f2), Literal(sep), Directive(YearField)];
    NoSeparatorAfterDigits(f1, p[1..], s, 0);
  }

  /** The month-first format `%m/%d/%Y`. */
  const MonthFirstFormat := "%m/%d/%Y"

  /** The day-first format `%d/%m/%Y`. */
  const DayFirstFormat := "%d/%m/%Y"

  /** `NN?NN?NNNN` read month first. */
  function MonthFirstDate(s: string): Date
    requires |s| == 10 && TwoTwoFour(s, s[2])
  {
    Date(DecimalValue(s[6..]), DecimalValue(s[..2]), DecimalValue(s[3..5]))
  }

  /** `NN?NN?NNNN` read day first. */
  function DayFirstDate(s: string): Date
    requires |s| == 10 && TwoTwoFour(s, s[2])
  {
    Date(DecimalValue(s[6..]), DecimalValue(s[3..5]), DecimalValue(s[..2]))
  }

  /** `strptime(s, "%m/%d/%Y")` on `NN/NN/NNNN` gives the month-first date exactly when
      that date exists. */
  lemma ParseMonthFirst(s: string)
    requires TwoTwoFour(s, '/')
    ensures Parse(s, MonthFirstFormat) == if IsValid(MonthFirstDate(s)) then Some(MonthFirstDate(s)) else None
  {
    assert MonthFirstFormat == ['%', 'm', '/', '%', 'd', '/', '%', 'Y'];
    CompileTriple('m', '/', 'd', 'Y');
    MatchTwoTwoFour(s, '/', MonthField, DayField);
  }

  /** `strptime(s, "%d/%m/%Y")` on `NN/NN/NNNN` gives the day-first date exactly when
      that date exists. */
  lemma ParseDayFirst(s: string)
    requires TwoTwoFour(s, '/')
    ensures Parse(s, DayFirstFormat) == if IsValid(DayFirstDate(s)) then Some(DayFirstDate(s)) else None
  {
    assert DayFirstFormat == ['%', 'd', '/', '%', 'm', '/', '%', 'Y'];
    CompileTriple('d', '/', 'm', 'Y');
    MatchTwoTwoFour(s, '/', DayField, MonthField);
  }

  /** Neither slash format accepts text whose third character is not a slash: a leading
      year, or `NN-NN-NNNN`. */
  lemma SlashFormatsNeedSlash(s: string)
    requires |s| >= 3 && IsDigit(s[0]) && IsDigit(s[1]) && s[2] != '/'
    ensures Parse(s, MonthFirstFormat) == None && Parse(s, DayFirstFormat) == None
  {
    assert MonthFirstFormat == ['%', 'm', '/', '%', 'd', '/', '%', 'Y'];
    CompileTriple('m', '/', 'd', 'Y');
    FieldFirstFormatFails(s, '/', MonthField, DayField);
    assert DayFirstFormat == ['%', 'd', '/', '%', 'm', '/', '%', 'Y'];
    CompileTriple('d', '/', 'm', 'Y');
    FieldFirstFormatFails(s, '/', DayField, MonthField);
  }

  /** The dashed day-first format `%d-%m-%Y`. */
  const DayFirstDashFormat := "%d-%m-%Y"

  /** The dashed month-first format `%m-%d-%Y`. */
  const MonthFirstDashFormat := "%m-%d-%Y"

  /** Neither dashed day-first nor dashed month-first format accepts text whose third
      character is not a dash, such as a leading year. */
  lemma DashFormatsNeedDash(s: string)
    requires |s| >= 3 && IsDigit(s[0]) && IsDigit(s[1]) && s[2] != '-'
    ensures Parse(s, DayFirstDashFormat) == None && Parse(s, MonthFirstDashFormat) == None
  {
    assert DayFirstDashFormat == ['%', 'd', '-', '%', 'm', '-', '%', 'Y'];
    CompileTriple('d', '-', 'm', 'Y');
    FieldFirstFormatFails(s, '-', DayField, MonthField);
    assert MonthFirstDashFormat == ['%', 'm', '-', '%', 'd', '-', '%', 'Y'];
    CompileTriple('m', '-', 'd', 'Y');
    FieldFirstFormatFails(s, '-', MonthField, DayField);
  }

  /** The compact format `%Y%m%d`. */
  const CompactFormat := "%Y%m%d"

  lemma CompileCompact()
    ensures Compile(CompactFormat) == Some([Directive(YearField), Directive(MonthField), Directive(DayField)])
  {
    var f := CompactFormat;
    assert f == ['%', 'Y', '%', 'm', '%', 'd'];
    var p := [Directive(YearField), Directive(MonthField), Directive(DayField)];
    assert f[6..] == [] && f[4..][2..] == f[6..] && f[2..][2..] == f[4..] && f[2..] == f[0..][2..];
    assert Compile(f[6..]) == Some([]);
    assert p[2..] == p[2..] + [];
    assert Compile(f[4..]) == Some(p[2..]);
    assert p[1..] == [p[1]] + p[2..];
    assert Compile(f[2..]) == Some(p[1..]);
    assert p == [p[0]] + p[1..];
  }

  /** A month 1..12 and a day 1..31, as the last four digits of the text, satisfy
      `%m%d` in full: the two-digit month alternative is taken and the day follows. */
  lemma MonthThenDayAtEnd(s: string, pos: nat)
    requires pos + 4 == |s| && IsDigit(s[pos]) && IsDigit(s[pos + 1]) && IsDigit(s[pos + 2]) && IsDigit(s[pos + 3])
    requires AllDigits(s[pos..pos + 2]) && 1 <= DecimalValue(s[pos..pos + 2]) <= 12
    requires AllDigits(s[pos + 2..]) && 1 <= DecimalValue(s[pos + 2..]) <= 31
    ensures MatchAlternative(MonthField, 0, [Directive(DayField)], s, pos)
      == Some(Match(NoCaptures.With(DayField, s[pos + 2..]).With(MonthField, s[pos..pos + 2]), |s|))
  {
    var t := s[pos..pos + 2];
    assert t[0] == s[pos] && t[1] == s[pos + 1];
    TwoDigitValue(t);
    MonthDigits(s[pos], s[pos + 1]);
    DayStepAtEnd(s, pos + 2);
    assert s[pos + 2..pos + 2 + 2] == s[pos + 2..];
    var rest := [Directive(DayField)];
    assert rest[1..] == [];
    assert MatchFrom(rest, s, pos + 2) == Some(Match(NoCaptures.With(DayField, s[pos + 2..]), |s|));
    var alts := Alternatives(MonthField);
    if s[pos] == '1' {
      FitsAll(alts[0], s, pos);
      Take(MonthField, 0, rest, s, pos);
    } else {
      FailsAt(alts[0], s, pos, 0);
      FitsAll(alts[1], s, pos);
      SkipTo(MonthField, 0, 1, rest, s, pos);
      Take(MonthField, 1, rest, s, pos);
    }
  }

  /** `strptime(d8, "%Y%m%d")` reads eight digits that spell a real date as that date. */
  lemma ParseCompact(d8: string)
    requires |d8| == 8 && AllDigits(d8) && IsValid(DateOfDigits(d8))
    ensures Parse(d8, CompactFormat) == Some(DateOfDigits(d8))
  {
    CompileCompact();
    CompactMatch(d8);
  }

  /** `%Y%m%d` matches the eight digits of a real date in full, capturing the year, the
      two-digit month and the two-digit day. */
  lemma CompactMatch(d8: string)
    requires |d8| == 8 && AllDigits(d8) && IsValid(DateOfDigits(d8))
    ensures MatchFrom([Directive(YearField), Directive(MonthField), Directive(DayField)], d8, 0)
      == Some(Match(NoCaptures.With(DayField, d8[6..8]).With(MonthField, d8[4..6]).With(YearField, d8[..4]), 8))
  {
    assert d8[6..] == d8[6..8] && d8[4..4 + 2] == d8[4..6];
    MonthThenDayAtEnd(d8, 4);
    var p := [Directive(YearField), Directive(MonthField), Directive(DayField)];
    assert p[1..] == [Directive(MonthField), Directive(DayField)] && p[1..][1..] == [Directive(DayField)];
    assert d8[0..4] == d8[..4];
    YearStep(p[1..], d8, 0);
    assert MatchFrom(p[1..], d8, 4) == MatchAlternative(MonthField, 0, [Directive(DayField)], d8, 4);
  }

  /** `strptime(s, "%d-%m-%Y")` on `NN-NN-NNNN` gives the day-first date exactly when
      that date exists. */
  lemma ParseDayFirstDash(s: string)
    requires TwoTwoFour(s, '-')
    ensures Parse(s, DayFirstDashFormat) == if IsValid(DayFirstDate(s)) then Some(DayFirstDate(s)) else None
  {
    assert DayFirstDashFormat == ['%', 'd', '-', '%', 'm', '-', '%', 'Y'];
    CompileTriple('d', '-', 'm', 'Y');
    MatchTwoTwoFour(s, '-', DayField, MonthField);
  }

  /** `strptime(s, "%m-%d-%Y")` on `NN-NN-NNNN` gives the month-first date exactly when
      that date exists. */
  lemma ParseMonthFirstDash(s: string)
    requires TwoTwoFour(s, '-')
    ensures Parse(s, MonthFirstDashFormat) == if IsValid(MonthFirstDate(s)) then Some(MonthFirstDate(s)) else None
  {
    assert MonthFirstDashFormat == ['%', 'm', '-', '%', 'd', '-', '%', 'Y'];
    CompileTriple('m', '-', 'd', 'Y');
    MatchTwoTwoFour(s, '-', MonthField, DayField);
  }
}
