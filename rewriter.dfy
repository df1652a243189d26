/**
  The per-file decision and the batch of `change_date_taken` (run.py:20-65):
  the extension filter, the skips for a missing EXIF block or date, the
  rewrite of DateTimeOriginal and DateTimeDigitized, and the per-file
  `except` that lets the batch go on.
 */
module Rewriter {
  import opened Wrappers
  import opened DateShift
  import opened ExifText

  /** A tag number of the EXIF IFD, as `piexif.ExifIFD` names them. */
  type Tag = int

  const DATE_TIME_ORIGINAL: Tag := 36867
  const DATE_TIME_DIGITIZED: Tag := 36868

  /** The suffixes accepted by the filter of run.py:28. */
  const EXTENSIONS: seq<string> := [".jpg", ".jpeg", ".png", ".tiff", ".bmp", ".arw", ".cr2", ".raw"]

  function LowerChar(c: char): char {
    if 'A' <= c <= 'Z' then (c as int + ('a' as int - 'A' as int)) as char else c
  }

  /** `str.lower()` on the letters A to Z. */
  function Lower(s: string): (r: string)
    ensures |r| == |s| && forall i :: 0 <= i < |s| ==> r[i] == LowerChar(s[i])
  {
    if s == [] then [] else [LowerChar(s[0])] + Lower(s[1..])
  }

  predicate EndsWith(s: string, suffix: string) {
    |suffix| <= |s| && s[|s| - |suffix|..] == suffix
  }

  /** `file.lower().endswith((".jpg", ..., ".raw"))` (run.py:28). */
  predicate IsSupported(name: string) {
    exists i :: 0 <= i < |EXTENSIONS| && EndsWith(Lower(name), EXTENSIONS[i])
  }

  /** Lower-casing distributes over concatenation. */
  lemma LowerAppend(a: string, b: string)
    ensures Lower(a + b) == Lower(a) + Lower(b)
  {
    assert forall i :: 0 <= i < |a + b| ==> Lower(a + b)[i] == (Lower(a) + Lower(b))[i];
  }

  /** The filter ignores case: a name ending in any spelling of an accepted
      extension, such as `photo.JPG` or `scan.Tiff`, is eligible. */
  lemma SupportedAnyCase(stem: string, ext: string, i: int)
    requires 0 <= i < |EXTENSIONS| && Lower(ext) == EXTENSIONS[i]
    ensures IsSupported(stem + ext)
  {
    LowerAppend(stem, ext);
    var low := Lower(stem + ext);
    assert low[|low| - |ext|..] == Lower(ext);
    assert EndsWith(low, EXTENSIONS[i]);
  }

  /** A name is eligible only if it ends in an accepted extension once
      lower-cased. */
  lemma SupportedNeedsExtension(name: string)
    requires IsSupported(name)
    ensures exists i :: 0 <= i < |EXTENSIONS| && |EXTENSIONS[i]| <= |name| && Lower(name[|name| - |EXTENSIONS[i]|..]) == EXTENSIONS[i]
  {
    var i :| 0 <= i < |EXTENSIONS| && EndsWith(Lower(name), EXTENSIONS[i]);
    var e := EXTENSIONS[i];
    var n := |name| - |e|;
    assert forall j :: 0 <= j < |e| ==> Lower(name[n..])[j] == Lower(name)[n..][j];
    assert Lower(name[n..]) == e;
  }

  /** Every accepted extension ends in `g`, `f`, `p`, `w` or `2`, so a name
      whose last character, lower-cased, is none of those is skipped. */
  lemma UnsupportedByLastChar(name: string)
    requires name != [] && LowerChar(name[|name| - 1]) !in {'g', 'f', 'p', 'w', '2'}
    ensures !IsSupported(name)
  {
    var low := Lower(name);
    forall i | 0 <= i < |EXTENSIONS|
      ensures !EndsWith(low, EXTENSIONS[i])
    {
      var e := EXTENSIONS[i];
      assert e[|e| - 1] in {'g', 'f', 'p', 'w', '2'};
    }
  }

  /** `photo.JPG`, say, is eligible. */
  lemma UpperCaseJpgAccepted(stem: string)
    ensures IsSupported(stem + ".JPG")
  {
    assert Lower(".JPG") == ".jpg";
    SupportedAnyCase(stem, ".JPG", 0);
  }

  /** `scan.Tiff`, say, is eligible. */
  lemma MixedCaseTiffAccepted(stem: string)
    ensures IsSupported(stem + ".Tiff")
  {
    assert Lower(".Tiff") == ".tiff";
    SupportedAnyCase(stem, ".Tiff", 3);
  }

  /** `photo.TXT`, say, is skipped. */
  lemma TextFileSkipped(stem: string)
    ensures !IsSupported(stem + ".TXT")
  {
    var name := stem + ".TXT";
    assert name[|name| - 1] == 'T';
    UnsupportedByLastChar(name);
  }

  /** What `img.info.get("exif")` and `piexif.load` give for a file: no block
      (absent or empty), a block that `piexif.load` rejects, or the tags of
      its "Exif" IFD. */
  datatype ExifBlock = Missing | Unreadable | Ifd(tags: map<Tag, string>)

  /** An opened image: its EXIF block, and whether `img.save` succeeds. */
  datatype Image = Image(exif: ExifBlock, saves: bool)

  /** A file found by the walk: its name, and the image `Image.open` yields
      (`None` when it raises). */
  datatype PhotoFile = PhotoFile(name: string, image: Option<Image>)

  /** Why a file was not updated although it was eligible; each stands for an
      exception caught at run.py:64. */
  datatype Failure = OpenFailed | LoadFailed | BadDate | OutOfRange | SaveFailed

  /** The message printed for one file (run.py:29, 35, 60, 62, 65). */
  datatype Outcome =
    | Unsupported
    | NoMetadata
    | NoDateTaken
    | Updated(date: string)
    | Failed(error: Failure)

  datatype Processed = Processed(outcome: Outcome, file: PhotoFile)

  /** Lines 43-51: parse the tag text, shift it, format the result. */
  function ShiftedText(text: string, inc: Delta, months: int, years: int): (r: Result<string, Failure>)
    requires IsDelta(inc)
    ensures r.Success? <==> Parse(text).Some? && Shift(Parse(text).value, inc, months, years).Some?
    ensures r.Failure? ==> r.error == (if Parse(text).None? then BadDate else OutOfRange)
  {
    match Parse(text)
    case None => Failure(BadDate)
    case Some(t) =>
      match Shift(t, inc, months, years)
      case None => Failure(OutOfRange)
      case Some(u) => Success(Format(u))
  }

  /** The text written back parses to the shifted date-time: nothing is lost
      between the shift and the tag. */
  lemma ShiftedTextParses(text: string, inc: Delta, months: int, years: int)
    requires IsDelta(inc)
    requires ShiftedText(text, inc, months, years).Success?
    ensures Parse(ShiftedText(text, inc, months, years).value) == Shift(Parse(text).value, inc, months, years)
  {
    ParseFormat(Shift(Parse(text).value, inc, months, years).value);
  }

  /** With every offset zero, a date tag in the camera's own layout is
      written back exactly as it was read. */
  lemma ZeroShiftKeepsText(text: string)
    requires IsCanonical(text) && Parse(text).Some?
    ensures ShiftedText(text, Delta(0, 0), 0, 0) == Success(text)
  {
    ShiftZero(Parse(text).value);
    FormatParse(text);
  }

  /** The Exif IFD after lines 54-55: both date tags hold the new text. */
  function WithDate(tags: map<Tag, string>, text: string): (r: map<Tag, string>)
    ensures r.Keys == tags.Keys + {DATE_TIME_ORIGINAL, DATE_TIME_DIGITIZED}
    ensures r[DATE_TIME_ORIGINAL] == text && r[DATE_TIME_DIGITIZED] == text
    ensures forall k :: k in tags && k != DATE_TIME_ORIGINAL && k != DATE_TIME_DIGITIZED ==> r[k] == tags[k]
  {
    tags[DATE_TIME_ORIGINAL := text][DATE_TIME_DIGITIZED := text]
  }

  /** The DateTimeOriginal text run.py:40 reads, or the empty text when the
      file has no loaded EXIF block or lacks the tag. */
  function DateTaken(f: PhotoFile): string {
    if f.image.Some? && f.image.value.exif.Ifd? && DATE_TIME_ORIGINAL in f.image.value.exif.tags
    then f.image.value.exif.tags[DATE_TIME_ORIGINAL]
    else ""
  }

  /** The branches of the loop body of run.py:26-65 for one file, given what
      shifting its date text yields. */
  function Decide(f: PhotoFile, shifted: Result<string, Failure>): Processed {
    if !IsSupported(f.name) then Processed(Unsupported, f)
    else match f.image
      case None => Processed(Failed(OpenFailed), f)
      case Some(img) =>
        match img.exif
        case Missing => Processed(NoMetadata, f)
        case Unreadable => Processed(Failed(LoadFailed), f)
        case Ifd(tags) =>
          if DateTaken(f) == "" then Processed(NoDateTaken, f)
          else match shifted
            case Failure(e) => Processed(Failed(e), f)
            case Success(text) =>
              if img.saves then
                Processed(Updated(text), f.(image := Some(img.(exif := Ifd(WithDate(tags, text))))))
              else Processed(Failed(SaveFailed), f)
  }

  /** One file of the loop of run.py:24-65: the message for it, and the file as
      the run leaves it on disk. The shift only matters on the branch that
      reaches line 44, where the text is the tag's. */
  function Rewrite(f: PhotoFile, inc: Delta, months: int, years: int): Processed
    requires IsDelta(inc)
  {
    Decide(f, ShiftedText(DateTaken(f), inc, months, years))
  }

  /** What an update does to the file: the tag map becomes `WithDate` of the
      old one and the new text, and nothing else the model records about the
      file changes. */
  lemma DecideUpdate(f: PhotoFile, shifted: Result<string, Failure>)
    requires Decide(f, shifted).outcome.Updated?
    ensures f.image.Some? && f.image.value.exif.Ifd? && shifted.Success?
    ensures DateTaken(f) == f.image.value.exif.tags[DATE_TIME_ORIGINAL]
    ensures Decide(f, shifted) == Processed(Updated(shifted.value),
      f.(image := Some(f.image.value.(exif := Ifd(WithDate(f.image.value.exif.tags, shifted.value))))))
  {
  }

  /** Which files the branches update, with which text, and that every other
      file is left as it was. */
  lemma DecideOutcome(f: PhotoFile, shifted: Result<string, Failure>)
    ensures Decide(f, shifted).outcome.Updated? <==>
      && IsSupported(f.name)
      && f.image.Some? && f.image.value.exif.Ifd? && f.image.value.saves
      && DateTaken(f) != "" && shifted.Success?
    ensures Decide(f, shifted).outcome.Updated? ==> Decide(f, shifted).outcome.date == shifted.value
    ensures !Decide(f, shifted).outcome.Updated? ==> Decide(f, shifted).file == f
    ensures !IsSupported(f.name) ==> Decide(f, shifted).outcome == Unsupported
    ensures IsSupported(f.name) && f.image.Some? && f.image.value.exif.Missing? ==> Decide(f, shifted).outcome == NoMetadata
    ensures IsSupported(f.name) && f.image.Some? && f.image.value.exif.Ifd? && DateTaken(f) == "" ==>
      Decide(f, shifted).outcome == NoDateTaken
    ensures Decide(f, shifted).outcome.Failed? <==>
      && IsSupported(f.name)
      && (|| f.image.None? || f.image.value.exif.Unreadable?
          || (f.image.value.exif.Ifd? && DateTaken(f) != "" && (shifted.Failure? || !f.image.value.saves)))
  {
  }

  /** A file is updated exactly when it passes the filter, opens, has an EXIF
      block that loads, has a non-empty DateTimeOriginal whose shift succeeds,
      and saves. Every other file is left as it was, and one the filter
      rejects is reported as unsupported. */
  lemma RewriteDecision(f: PhotoFile, inc: Delta, months: int, years: int)
    requires IsDelta(inc)
    ensures Rewrite(f, inc, months, years).outcome.Updated? <==>
      && IsSupported(f.name)
      && f.image.Some? && f.image.value.exif.Ifd? && f.image.value.saves
      && DATE_TIME_ORIGINAL in f.image.value.exif.tags
      && f.image.value.exif.tags[DATE_TIME_ORIGINAL] != ""
      && ShiftedText(f.image.value.exif.tags[DATE_TIME_ORIGINAL], inc, months, years).Success?
    ensures !Rewrite(f, inc, months, years).outcome.Updated? ==> Rewrite(f, inc, months, years).file == f
    ensures !IsSupported(f.name) ==> Rewrite(f, inc, months, years).outcome == Unsupported
    ensures IsSupported(f.name) && f.image.Some? && f.image.value.exif.Missing? ==>
      Rewrite(f, inc, months, years).outcome == NoMetadata
    ensures
      (&& IsSupported(f.name) && f.image.Some? && f.image.value.exif.Ifd?
       && (DATE_TIME_ORIGINAL !in f.image.value.exif.tags || f.image.value.exif.tags[DATE_TIME_ORIGINAL] == ""))
      ==> Rewrite(f, inc, months, years).outcome == NoDateTaken
    ensures Rewrite(f, inc, months, years).outcome.Failed? <==>
      && IsSupported(f.name)
      && (|| f.image.None? || f.image.value.exif.Unreadable?
          || (&& f.image.value.exif.Ifd?
              && DATE_TIME_ORIGINAL in f.image.value.exif.tags
              && f.image.value.exif.tags[DATE_TIME_ORIGINAL] != ""
              && (ShiftedText(f.image.value.exif.tags[DATE_TIME_ORIGINAL], inc, months, years).Failure?
                  || !f.image.value.saves)))
  {
    DecideOutcome(f, ShiftedText(DateTaken(f), inc, months, years));
  }

  /** After an update both date tags hold the same shifted text, which parses
      back to the shifted original date; no other tag, and nothing else the
      model records about the file, changes. */
  lemma RewriteUpdate(f: PhotoFile, inc: Delta, months: int, years: int)
    requires IsDelta(inc)
    requires Rewrite(f, inc, months, years).outcome.Updated?
    ensures var p := Rewrite(f, inc, months, years);
      var old_tags := f.image.value.exif.tags;
      var new_tags := p.file.image.value.exif.tags;
      && p.file.name == f.name && p.file.image.value.saves == f.image.value.saves
      && p.file.image.value.exif.Ifd?
      && new_tags[DATE_TIME_ORIGINAL] == p.outcome.date == new_tags[DATE_TIME_DIGITIZED]
      && Parse(p.outcome.date) == Shift(Parse(old_tags[DATE_TIME_ORIGINAL]).value, inc, months, years)
      && new_tags.Keys == old_tags.Keys + {DATE_TIME_ORIGINAL, DATE_TIME_DIGITIZED}
      && forall k :: k in old_tags && k != DATE_TIME_ORIGINAL && k != DATE_TIME_DIGITIZED ==> new_tags[k] == old_tags[k]
  {
    var text := DateTaken(f);
    DecideUpdate(f, ShiftedText(text, inc, months, years));
    ShiftedTextParses(text, inc, months, years);
  }

  /** What `change_date_taken` does to a folder: it stops before the first file
      when the increment cannot be built (the `OverflowError` of run.py:21 is
      not caught), and otherwise one message per file and the files after. */
  datatype Run = Aborted | Completed(log: seq<Outcome>, files: seq<PhotoFile>)

  /** The `try` block of run.py:26-65 for one file: the message for it, and
      the file as it is left. */
  method ProcessFile(file: PhotoFile, inc: Delta, months: int, years: int)
    returns (outcome: Outcome, saved: PhotoFile)
    requires IsDelta(inc)
    ensures Processed(outcome, saved) == Rewrite(file, inc, months, years)
  {
    saved := file;
    if !IsSupported(file.name) {
      outcome := Unsupported;
    } else if file.image.None? {
      outcome := Failed(OpenFailed);
    } else {
      var img := file.image.value;
      match img.exif {
        case Missing =>
          outcome := NoMetadata;
        case Unreadable =>
          outcome := Failed(LoadFailed);
        case Ifd(tags) =>
          var original := if DATE_TIME_ORIGINAL in tags then tags[DATE_TIME_ORIGINAL] else "";
          if original == "" {
            outcome := NoDateTaken;
          } else {
            var shifted := ShiftedText(original, inc, months, years);
            if shifted.Failure? {
              outcome := Failed(shifted.error);
            } else {
              var exif := tags;
              exif := exif[DATE_TIME_ORIGINAL := shifted.value];
              exif := exif[DATE_TIME_DIGITIZED := shifted.value];
              if img.saves {
                saved := file.(image := Some(img.(exif := Ifd(exif))));
                outcome := Updated(shifted.value);
              } else {
                outcome := Failed(SaveFailed);
              }
            }
          }
      }
    }
  }

  /** The loop of run.py:23-65 over the files of the walk, in the order the
      walk yields them; no file's failure stops it. */
  method ProcessAll(files: seq<PhotoFile>, inc: Delta, months: int, years: int)
    returns (log: seq<Outcome>, after: seq<PhotoFile>)
    requires IsDelta(inc)
    ensures |log| == |files| && |after| == |files|
    ensures forall i :: 0 <= i < |files| ==> Rewrite(files[i], inc, months, years) == Processed(log[i], after[i])
  {
    log, after := [], [];
    for i := 0 to |files|
      invariant |log| == i && |after| == i
      invariant forall k :: 0 <= k < i ==> Rewrite(files[k], inc, months, years) == Processed(log[k], after[k])
    {
      var outcome, saved := ProcessFile(files[i], inc, months, years);
      ghost var logBefore, afterBefore := log, after;
      log := log + [outcome];
      after := after + [saved];
      forall k | 0 <= k < i + 1
        ensures Rewrite(files[k], inc, months, years) == Processed(log[k], after[k])
      {
        if k < i {
          assert log[k] == logBefore[k] && after[k] == afterBefore[k];
        }
      }
    }
  }

  /** `change_date_taken(folder, years, months, days, hours, minutes)`: build
      the increment, then process every file. */
  method ChangeDateTaken(files: seq<PhotoFile>, years: int, months: int, days: int, hours: int, minutes: int)
    returns (run: Run)
    ensures run.Aborted? <==> MakeIncrement(days, hours, minutes).None?
    ensures run.Completed? ==> |run.log| == |files| && |run.files| == |files|
    ensures run.Completed? ==> forall i :: 0 <= i < |files| ==>
      Rewrite(files[i], MakeIncrement(days, hours, minutes).value, months, years) == Processed(run.log[i], run.files[i])
  {
    var increment := MakeIncrement(days, hours, minutes);
    if increment.None? {
      return Aborted;
    }
    var log, after := ProcessAll(files, increment.value, months, years);
    return Completed(log, after);
  }
}
