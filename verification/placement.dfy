/** Where an item goes: `get_photo_date` reads the catalogue's date string back, and
    `get_destination_folder` turns it into a month or day folder under the output base
    (or the configured Unknown folder) and creates that folder. */
module Placement {
  import opened Options
  import opened Text
  import opened Calendar
  import opened Strptime
  import opened CaptureDate
  import opened FileSystem

  /** `get_photo_date`: the stored date string as a date, or None for "Unknown", for a
      string that is not ten characters with two dashes, and for one `strptime` rejects. */
  function PhotoDate(dateText: string): (r: Option<Date>)
    ensures r.Some? ==> IsValid(r.value)
    ensures r.Some? ==> dateText != Unknown && |dateText| == 10 && Count(dateText, '-') == 2
  {
    if dateText == Unknown then None
    else if |dateText| == 10 && Count(dateText, '-') == 2 then Parse(dateText, IsoFormat)
    else None
  }

  /** Reading back a date string written with `%Y-%m-%d` gives the date. */
  lemma PhotoDateOfDayText(d: Date)
    requires IsValid(d)
    ensures PhotoDate(DayText(d)) == Some(d)
  {
    DigitsOfDateRoundTrip(d);
    DashedShape(DigitsOfDate(d));
    IsoRoundTrip(d);
  }

  /** Reading back a filename or folder date gives the date its digits spell when that
      date exists, and None otherwise (those sources never check the range). */
  lemma PhotoDateOfDashedDigits(d8: string)
    requires |d8| == 8 && AllDigits(d8)
    ensures PhotoDate(DashedDigits(d8)) == if IsValid(DateOfDigits(d8)) then Some(DateOfDigits(d8)) else None
  {
    DashedShape(d8);
    IsoParseOfDashedDigits(d8);
  }

  /** What `get_photo_date` makes of what `load_photos` stored: the column date itself;
      "Unknown" as None; and a filename or folder date exactly when it names a real day. */
  lemma PhotoDateOfCaptureDate(ev: Evidence)
    ensures ColumnDate(ev.columns).Some? ==> PhotoDate(CaptureDateText(ev)) == ColumnDate(ev.columns)
    ensures CaptureDateText(ev) == Unknown ==> PhotoDate(CaptureDateText(ev)).None?
    ensures ColumnDate(ev.columns).None? && FilenameDate(ev.filename).Some? ==>
      exists d8 :: && |d8| == 8 && AllDigits(d8) && FilenameDate(ev.filename).value == DashedDigits(d8)
                   && PhotoDate(CaptureDateText(ev)) == (if IsValid(DateOfDigits(d8)) then Some(DateOfDigits(d8)) else None)
    ensures ColumnDate(ev.columns).None? && FilenameDate(ev.filename).None? && FolderDate(ev.folderName).Some? ==>
      && |ev.folderName| >= 6 && AllDigits(ev.folderName[..6])
      && PhotoDate(CaptureDateText(ev))
         == if IsValid(FolderMonthStart(ev.folderName)) then Some(FolderMonthStart(ev.folderName)) else None
  {
    CaptureDateSource(ev);
    match ColumnDate(ev.columns)
    case Some(d) =>
      PhotoDateOfDayText(d);
    case None =>
      if FilenameDate(ev.filename).Some? {
        var d8 :| |d8| == 8 && AllDigits(d8) && FilenameDate(ev.filename).value == DashedDigits(d8);
        PhotoDateOfDashedDigits(d8);
      } else if FolderDate(ev.folderName).Some? {
        FolderDateIsFirstOfMonth(ev.folderName);
        PhotoDateOfDashedDigits(MonthStartDigits(ev.folderName[..6]));
      }
  }

  /** The folder name for a dated item under each sort mode the settings offer; any other
      mode puts dated items in a folder literally named "Unknown" under the base. */
  function FolderName(sortMode: string, d: Date): (name: string)
    requires IsValid(d)
    ensures sortMode == "Month_Year" ==> |name| == 7 && name == DayText(d)[..7]
    ensures sortMode == "Date_Month_Year" ==> PhotoDate(name) == Some(d)
    ensures sortMode != "Month_Year" && sortMode != "Date_Month_Year" ==> name == Unknown
  {
    MonthTextIsPrefixOfDayText(d);
    PhotoDateOfDayText(d);
    if sortMode == "Month_Year" then MonthText(d)
    else if sortMode == "Date_Month_Year" then DayText(d)
    else Unknown
  }

  /** The outcome of `get_destination_folder`: the folder and the disk after `mkdir`, or
      the error `mkdir` raised. */
  datatype Destination = Destination(fs: Fs, folder: Path) | DestinationError(error: FsError)

  /** `get_destination_folder`: the Unknown folder for an undated item, otherwise the
      sort mode's folder under the base; either way the folder is created. */
  function DestinationFolder(fs: Fs, dateText: string, sortMode: string, base: Path, unknownFolder: Path): (r: Destination)
    ensures r.Destination? ==> Exists(r.fs, r.folder) && r.fs.files == fs.files && fs.dirs <= r.fs.dirs
    ensures r.Destination? && PhotoDate(dateText).None? ==> r.folder == unknownFolder
    ensures r.Destination? && PhotoDate(dateText).Some? ==>
      r.folder == base + [FolderName(sortMode, PhotoDate(dateText).value)]
    ensures r.DestinationError? <==>
      var folder := if PhotoDate(dateText).None? then unknownFolder else base + [FolderName(sortMode, PhotoDate(dateText).value)];
      exists i :: 0 < i <= |folder| && folder[..i] in fs.files
  {
    var folder := match PhotoDate(dateText)
      case None => unknownFolder
      case Some(d) => base + [FolderName(sortMode, d)];
    match MakeDirs(fs, folder)
    case FsOk(fs') => Destination(fs', folder)
    case FsErr(e) => DestinationError(e)
  }

  /** Two items with the same date string go to the same folder, and placing the second
      one creates nothing new: the folder made for the first is reused as it is. */
  lemma DestinationReused(fs: Fs, dateText: string, sortMode: string, base: Path, unknownFolder: Path)
    requires DestinationFolder(fs, dateText, sortMode, base, unknownFolder).Destination?
    ensures var first := DestinationFolder(fs, dateText, sortMode, base, unknownFolder);
      DestinationFolder(first.fs, dateText, sortMode, base, unknownFolder) == first
  {
    var first := DestinationFolder(fs, dateText, sortMode, base, unknownFolder);
    MakeDirsIdempotent(fs, first.folder);
  }

  /** In month mode, the items of one month share a folder whatever their day; in day
      mode, items of different days never do. */
  lemma FolderGranularity(a: Date, b: Date)
    requires IsValid(a) && IsValid(b)
    ensures FolderName("Month_Year", a) == FolderName("Month_Year", b) <==> a.year == b.year && a.month == b.month
    ensures FolderName("Date_Month_Year", a) == FolderName("Date_Month_Year", b) <==> a == b
  {
    DigitsOfDateRoundTrip(a);
    DigitsOfDateRoundTrip(b);
    if FolderName("Month_Year", a) == FolderName("Month_Year", b) {
      var ma, mb := MonthText(a), MonthText(b);
      assert ma[..4] == Pad4(a.year) && mb[..4] == Pad4(b.year);
      assert ma[5..] == Pad2(a.month) && mb[5..] == Pad2(b.month);
    }
    if FolderName("Date_Month_Year", a) == FolderName("Date_Month_Year", b) {
      PhotoDateOfDayText(a);
      PhotoDateOfDayText(b);
    }
  }
}
