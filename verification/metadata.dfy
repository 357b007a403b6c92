/** `preserve_file_metadata`: after a copy, the mover stamps the new file's creation and
    modification times with the best capture time it can find, trying in order the
    copied file's own shell columns, the file's embedded metadata, the device's
    property columns, and finally the catalogue's date string at noon. */
module Metadata {
  import opened Options
  import opened Text
  import opened Calendar
  import opened Strptime
  import opened CaptureDate

  /** `datetime.strptime(text, fmt)` for the full timestamp formats below, which use
      `%I`, `%p`, `%b` and `%y`; it is a parameter of the model. */
  type StampParser = (string, string) -> Option<DateTime>

  /** The formats both column readers of the back-writer try, in their order. */
  const StampFormats: seq<string> := [
    "%m/%d/%Y %I:%M %p", "%m/%d/%Y %I:%M:%S %p",
    "%d/%m/%Y %H:%M", "%d/%m/%Y %H:%M:%S",
    "%Y-%m-%d %H:%M:%S", "%m/%d/%Y", "%d/%m/%Y", "%Y-%m-%d",
    "%d-%b-%y %I:%M %p", "%d-%b-%Y %I:%M %p"
  ]

  /** The shell columns of the copied file that are read, in order; 208 is "Media
      created". */
  const CopiedFileColumns: seq<nat> := [208, 12, 4, 3]

  /** The device's property columns the back-writer reads: 0 to 49. */
  const SourceColumnCount := 50

  /** A year below 100 is moved into this century. Only a `%Y` written with leading
      zeros, such as "0024", gives one: `%y` already maps to 1969..2068. */
  function YearFix(t: DateTime): (r: DateTime)
    ensures t.date.year < 100 ==> r.date.year == t.date.year + 2000
    ensures t.date.year >= 100 ==> r == t
    ensures r.date.month == t.date.month && r.date.day == t.date.day
    ensures r.hour == t.hour && r.minute == t.minute && r.second == t.second
  {
    if t.date.year < 100 then t.(date := t.date.(year := t.date.year + 2000)) else t
  }

  /** `dt.replace(year=dt.year + 2000)` never raises: adding 2000 years keeps every
      day, 29 February included, because it keeps the leap-year rule's answer. */
  lemma YearFixKeepsValid(t: DateTime)
    requires IsValid(t.date)
    ensures IsValid(YearFix(t).date)
  {
    var y := t.date.year;
    if y < 100 {
      assert (y + 2000) % 4 == y % 4;
      assert (y + 2000) % 100 == y % 100;
      assert (y + 2000) % 400 == y % 400;
      assert IsLeapYear(y + 2000) == IsLeapYear(y);
    }
  }

  /** The first format that parses the text, with the two-digit year fixed. */
  function ParseStamp(parse: StampParser, text: string): (r: Option<DateTime>)
    ensures r.None? <==> forall k :: 0 <= k < |StampFormats| ==> parse(text, StampFormats[k]).None?
    ensures r.Some? ==> exists k :: && 0 <= k < |StampFormats| && parse(text, StampFormats[k]).Some?
                                    && r.value == YearFix(parse(text, StampFormats[k]).value)
                                    && forall j :: 0 <= j < k ==> parse(text, StampFormats[j]).None?
  {
    var tries := (k: nat) => if k < |StampFormats| then parse(text, StampFormats[k]) else None;
    assert forall k :: 0 <= k < |StampFormats| ==> tries(k) == parse(text, StampFormats[k]);
    match FirstPresent(tries, 0, |StampFormats|)
    case Some(t) => Some(YearFix(t))
    case None => None
  }

  /** `get_media_creation_date_from_file`: the first of the copied file's columns 208,
      12, 4 and 3 whose stripped text parses. `values` holds those columns' texts in
      that order, and is empty when the shell cannot see the file. */
  function CopiedFileDate(parse: StampParser, values: seq<string>): (r: Option<DateTime>)
    ensures r.None? <==> forall k :: 0 <= k < |values| && k < |CopiedFileColumns| && Strip(values[k]) != "" ==>
                           ParseStamp(parse, Strip(values[k])).None?
    ensures r.Some? ==> exists k :: && 0 <= k < |values| && k < |CopiedFileColumns| && Strip(values[k]) != ""
                                    && ParseStamp(parse, Strip(values[k])) == r
  {
    var tries := CopiedFileYield(parse, values);
    assert forall k :: 0 <= k < |values| && k < |CopiedFileColumns| && Strip(values[k]) != "" ==>
      tries(k) == ParseStamp(parse, Strip(values[k]));
    FirstPresent(tries, 0, |CopiedFileColumns|)
  }

  /** Column `k`'s contribution: its stripped text parsed, if not empty. */
  function CopiedFileYield(parse: StampParser, values: seq<string>): nat -> Option<DateTime> {
    (k: nat) => if k < |values| && Strip(values[k]) != "" then ParseStamp(parse, Strip(values[k])) else None
  }

  /** The copied file's date is that of the first of its columns whose text parses. */
  lemma CopiedFileDateIsFirstHit(parse: StampParser, values: seq<string>, k: nat)
    requires k < |values| && k < |CopiedFileColumns| && Strip(values[k]) != ""
    requires ParseStamp(parse, Strip(values[k])).Some?
    requires forall j :: 0 <= j < k ==> Strip(values[j]) == "" || ParseStamp(parse, Strip(values[j])).None?
    ensures CopiedFileDate(parse, values) == ParseStamp(parse, Strip(values[k]))
  {
    var f := CopiedFileYield(parse, values);
    assert forall j :: 0 <= j <= k ==> f(j) == if Strip(values[j]) != "" then ParseStamp(parse, Strip(values[j])) else None;
    FirstPresentIsFirst(f, 0, |CopiedFileColumns|, k);
  }

  /** What the container parser reports, if the file could be parsed at all. */
  datatype ContainerMetadata = ContainerMetadata(
    creationDate: Option<DateTime>, datetime: Option<DateTime>, lastModification: Option<DateTime>)

  /** `get_media_creation_date`: the creation date, else the date-time, else the last
      modification. */
  function ContainerDate(c: ContainerMetadata): (r: Option<DateTime>)
    ensures r.None? <==> c.creationDate.None? && c.datetime.None? && c.lastModification.None?
    ensures c.creationDate.Some? ==> r == c.creationDate
    ensures c.creationDate.None? && c.datetime.Some? ==> r == c.datetime
    ensures c.creationDate.None? && c.datetime.None? ==> r == c.lastModification
  {
    if c.creationDate.Some? then c.creationDate
    else if c.datetime.Some? then c.datetime
    else c.lastModification
  }

  /** The container's three times as candidates, in the order they are tried. */
  function ContainerCandidates(c: ContainerMetadata): nat -> Option<DateTime> {
    (k: nat) => if k == 0 then c.creationDate else if k == 1 then c.datetime else if k == 2 then c.lastModification else None
  }

  /** The container date is the first of its three times that is present. */
  lemma ContainerDateIsFirstPresent(c: ContainerMetadata)
    ensures ContainerDate(c) == FirstPresent(ContainerCandidates(c), 0, 3)
  {
    var f := ContainerCandidates(c);
    assert f(0) == c.creationDate && f(1) == c.datetime && f(2) == c.lastModification;
    if c.creationDate.None? {
      assert FirstPresent(f, 0, 3) == FirstPresent(f, 1, 3);
      if c.datetime.None? {
        assert FirstPresent(f, 1, 3) == FirstPresent(f, 2, 3);
      }
    }
  }

  /** A device column text worth parsing: it has a `/` or a `-`, and a digit. */
  predicate StampLike(v: string) {
    ('/' in v || '-' in v) && HasDigit(v)
  }

  /** Column `k`'s contribution: its stripped text parsed, if stamp-like. */
  function SourceColumnYield(parse: StampParser, columns: seq<string>): nat -> Option<DateTime> {
    (k: nat) =>
      var v := Strip(Column(columns, k));
      if v != "" && StampLike(v) then ParseStamp(parse, v) else None
  }

  /** The device column source: the first of columns 0 to 49 whose stripped text is
      stamp-like and parses. */
  function SourceColumnDate(parse: StampParser, columns: seq<string>): (r: Option<DateTime>)
    ensures r.Some? ==> exists k :: && 0 <= k < SourceColumnCount && StampLike(Strip(Column(columns, k)))
                                    && ParseStamp(parse, Strip(Column(columns, k))) == r
  {
    FirstPresent(SourceColumnYield(parse, columns), 0, SourceColumnCount)
  }

  /** The device column source takes the first stamp-like column that parses. */
  lemma SourceColumnDateIsFirstHit(parse: StampParser, columns: seq<string>, k: nat)
    requires k < SourceColumnCount && StampLike(Strip(Column(columns, k)))
    requires ParseStamp(parse, Strip(Column(columns, k))).Some?
    requires forall j :: 0 <= j < k ==> !StampLike(Strip(Column(columns, j))) || ParseStamp(parse, Strip(Column(columns, j))).None?
    ensures SourceColumnDate(parse, columns) == ParseStamp(parse, Strip(Column(columns, k)))
  {
    var f := SourceColumnYield(parse, columns);
    forall j | 0 <= j <= k
      ensures f(j) == if StampLike(Strip(Column(columns, j))) then ParseStamp(parse, Strip(Column(columns, j))) else None
    {
      var v := Strip(Column(columns, j));
      assert StampLike(v) ==> v != "";
    }
    FirstPresentIsFirst(f, 0, SourceColumnCount, k);
  }

  /** The device column source finds nothing exactly when every stamp-like column fails
      to parse. */
  lemma SourceColumnsAllFail(parse: StampParser, columns: seq<string>)
    ensures SourceColumnDate(parse, columns).None? <==>
      forall k :: 0 <= k < SourceColumnCount && StampLike(Strip(Column(columns, k))) ==>
        ParseStamp(parse, Strip(Column(columns, k))).None?
  {
    var f := SourceColumnYield(parse, columns);
    forall k | 0 <= k < SourceColumnCount
      ensures f(k).None? <==> !StampLike(Strip(Column(columns, k))) || ParseStamp(parse, Strip(Column(columns, k))).None?
    {
      var v := Strip(Column(columns, k));
      assert StampLike(v) ==> v != "";
    }
  }

  /** The catalogue fallback: the first catalogue row with the file's name, unless its
      date is "Unknown", read with `%Y-%m-%d` and set to noon. */
  function CatalogueDate(catalogue: seq<MediaItem>, name: string): (r: Option<DateTime>)
    ensures r.Some? ==> IsValid(r.value.date) && r.value.hour == 12 && r.value.minute == 0 && r.value.second == 0
    ensures r.Some? ==> exists i :: 0 <= i < |catalogue| && catalogue[i].filename == name
    decreases |catalogue|
  {
    if |catalogue| == 0 then None
    else if catalogue[0].filename == name then
      if catalogue[0].date == Unknown then None
      else
        match Parse(catalogue[0].date, IsoFormat)
        case Some(d) => Some(Noon(d))
        case None => None
    else CatalogueDate(catalogue[1..], name)
  }

  /** Everything the back-writer can consult about one copied file. */
  datatype MetadataWorld = MetadataWorld(
    copiedFileValues: seq<string>,   // columns 208, 12, 4, 3 of the copied file
    container: ContainerMetadata,    // the container parser's report
    sourceColumns: seq<string>,      // the device's property columns
    writeWorks: bool)                // whether `SetFileTime` on the copy succeeds

  /** Which source the time written came from. */
  datatype StampSource = MediaDate | ColumnStamp | CatalogueNoon

  /** What the back-writer did: wrote this time (returned True), or wrote nothing. */
  datatype MetadataResult = Applied(stamp: DateTime, source: StampSource) | NotApplied

  /** The time found by the first two methods: the copied file's columns, then the
      container metadata. */
  function MediaDateOf(parse: StampParser, w: MetadataWorld): Option<DateTime> {
    match CopiedFileDate(parse, w.copiedFileValues)
    case Some(t) => Some(t)
    case None => ContainerDate(w.container)
  }

  /** The first of the three stages' times that is there, tagged with its stage. */
  function FirstStamp(media: Option<DateTime>, column: Option<DateTime>, noon: Option<DateTime>): (r: Option<(DateTime, StampSource)>)
    ensures r.None? <==> media.None? && column.None? && noon.None?
    ensures r.Some? && r.value.1 == MediaDate ==> media == Some(r.value.0)
    ensures r.Some? && r.value.1 == ColumnStamp ==> media.None? && column == Some(r.value.0)
    ensures r.Some? && r.value.1 == CatalogueNoon ==> media.None? && column.None? && noon == Some(r.value.0)
  {
    match media
    case Some(t) => Some((t, MediaDate))
    case None =>
      match column
      case Some(t) => Some((t, ColumnStamp))
      case None =>
        match noon
        case Some(t) => Some((t, CatalogueNoon))
        case None => None
  }

  /** `preserve_file_metadata(file_obj, dest_file, parent_folder)`: writes the first time
      found, if any; a failed write, like finding nothing, leaves the copy's times alone.
      The stages are pure here, so computing all three and taking the first is the same
      as the source's trying them in turn. */
  function PreserveMetadata(parse: StampParser, w: MetadataWorld, catalogue: seq<MediaItem>, name: string): (r: MetadataResult)
    ensures var media, column, noon := MediaDateOf(parse, w), SourceColumnDate(parse, w.sourceColumns), CatalogueDate(catalogue, name);
      && (r.Applied? <==> w.writeWorks && (media.Some? || column.Some? || noon.Some?))
      && (r.Applied? && r.source == MediaDate ==> media == Some(r.stamp))
      && (r.Applied? && r.source == ColumnStamp ==> media.None? && column == Some(r.stamp))
      && (r.Applied? && r.source == CatalogueNoon ==> media.None? && column.None? && noon == Some(r.stamp))
  {
    var media, column, noon := MediaDateOf(parse, w), SourceColumnDate(parse, w.sourceColumns), CatalogueDate(catalogue, name);
    match FirstStamp(media, column, noon)
    case Some(found) => if w.writeWorks then Applied(found.0, found.1) else NotApplied
    case None => NotApplied
  }

  /** An earlier source that produces a time hides every later one. */
  lemma EarlierSourceWins(parse: StampParser, w: MetadataWorld, catalogue: seq<MediaItem>, name: string)
    requires w.writeWorks
    ensures MediaDateOf(parse, w).Some? ==>
      PreserveMetadata(parse, w, catalogue, name) == Applied(MediaDateOf(parse, w).value, MediaDate)
    ensures MediaDateOf(parse, w).None? && SourceColumnDate(parse, w.sourceColumns).Some? ==>
      PreserveMetadata(parse, w, catalogue, name) == Applied(SourceColumnDate(parse, w.sourceColumns).value, ColumnStamp)
    ensures MediaDateOf(parse, w).None? && SourceColumnDate(parse, w.sourceColumns).None? ==>
      PreserveMetadata(parse, w, catalogue, name)
      == (if CatalogueDate(catalogue, name).Some? then Applied(CatalogueDate(catalogue, name).value, CatalogueNoon) else NotApplied)
  {
  }

  /** For an item whose date came from its property columns, the catalogue fallback
      writes noon of that very day, provided no earlier row has the same name. */
  lemma CatalogueNoonOfColumnDate(catalogue: seq<MediaItem>, i: nat, ev: Evidence)
    requires i < |catalogue| && catalogue[i].filename == ev.filename
    requires catalogue[i].date == CaptureDateText(ev)
    requires forall j :: 0 <= j < i ==> catalogue[j].filename != ev.filename
    requires ColumnDate(ev.columns).Some?
    ensures CatalogueDate(catalogue, ev.filename) == Some(Noon(ColumnDate(ev.columns).value))
  {
    var d := ColumnDate(ev.columns).value;
    CaptureDateSource(ev);
    IsoRoundTrip(d);
    DigitsOfDateRoundTrip(d);
    DashedShape(DigitsOfDate(d));
    CatalogueFirstNamesake(catalogue, i, ev.filename);
  }

  /** The fallback reads the first row with the file's name, even when that row is a
      different item of the same name from another device folder. */
  lemma {:induction false} CatalogueFirstNamesake(catalogue: seq<MediaItem>, i: nat, name: string)
    requires i < |catalogue| && catalogue[i].filename == name
    requires forall j :: 0 <= j < i ==> catalogue[j].filename != name
    ensures CatalogueDate(catalogue, name) == CatalogueDate(catalogue[i..], name)
    decreases i
  {
    if i > 0 {
      assert catalogue[1..][i - 1..] == catalogue[i..];
      CatalogueFirstNamesake(catalogue[1..], i - 1, name);
    }
  }
}
