# PicturesDateIncrementer in Dafny

PicturesDateIncrementer is a command-line script (`run.py`). It walks a
folder of photos and moves the "Date Taken" of each one by a fixed offset of
years, months, days, hours and minutes. The date lives in the EXIF tags
DateTimeOriginal and DateTimeDigitized, as text `YYYY:MM:DD HH:MM:SS`.

This project models the script's core and proves properties of the model:

- **Calendar arithmetic** (module `Calendar`): the proleptic Gregorian
  calendar of Python's `datetime`. This covers years 1..9999, month
  lengths, day ordinals, and stepping a date by a number of days.
- **The shift** (module `DateShift`):
  - the `timedelta` built from days, hours and minutes;
  - `datetime + timedelta`;
  - the helper `add_months`, with its fall back to day 1 when the day does
    not exist in the target month;
  - the composition of run.py:47-49: the increment first, then the months
    (`months + years * 12`), and only when months or years is non-zero.
- **The tag text** (module `ExifText`):
  - `datetime.strptime(s, "%Y:%m:%d %H:%M:%S")`, following the regular
    expressions CPython's `_strptime` builds for each directive, and its
    checks for leftover text and an invalid `datetime`;
  - `strftime` with the same format.
- **The per-file decision and the batch** (module `Rewriter`):
  - the case-insensitive extension filter;
  - the skips for a missing EXIF block or an empty DateTimeOriginal;
  - the rewrite of both tags with the same text;
  - the per-file `except`, which turns any failure into a message and lets
    the loop go on (unless printing that message itself fails);
  - the increment built before the loop, whose `OverflowError` is not
    caught and ends the whole run. This is the `Aborted` run.
- **Worked cases** (module `Examples`): the behaviours the script is known
  for, proved from the general lemmas.

Python's exceptions become `None` or `Failure` values:

- A `ValueError` from `strptime` is `BadDate`.
- An `OverflowError` or `ValueError` from the date arithmetic is `OutOfRange`.
- An exception from `Image.open`, `piexif.load` or `img.save` is `OpenFailed`,
  `LoadFailed` or `SaveFailed`.

Each printed message is an `Outcome` in the run's log. The files are values:

- A `PhotoFile` records its name and whether it opens.
- Its EXIF block is missing, unreadable, or a map from tag numbers to text.
- It records whether saving succeeds.
- The run returns the log and the files as they are left.

## Model

| member | source | states |
|---|---|---|
| Calendar.DaysInMonth | run.py:14-17 | A month has 28 to 31 days; February has 29 exactly in a leap year. This is the bound `replace` checks the day against. |
| Calendar.AddDays | run.py:47 | Stepping a date by k days gives a valid date whose day ordinal is exactly k more. This holds for either sign of k. |
| Calendar.OrdinalInjective | run.py:47 | Two valid dates have the same ordinal if and only if they are the same date. |
| Calendar.OrdinalRoundTrip | run.py:47 | `fromordinal` yields a valid date with the given ordinal. `fromordinal(toordinal(d)) == d`. |
| Calendar.FromOrdinalShift | run.py:47 | Adding k to an ordinal and converting back reaches the date k days later. |
| Calendar.OrdinalRange | run.py:47 | A date's ordinal is in 1..3652059 if and only if its year is in 1..9999. This is the range `datetime + timedelta` accepts. |
| DateShift.Combine | run.py:47 | A date and a second of the day combine into a date-time on that date at that second, with hour, minute and second in range. |
| DateShift.InstantInjective | run.py:47 | Two valid date-times at the same second since the epoch are equal, and conversely. |
| DateShift.MakeIncrement | run.py:21 | The increment exists exactly when its total seconds fit `timedelta`'s day range. It is then normalised, and its total is days·86400 + hours·3600 + minutes·60. |
| DateShift.AddDelta | run.py:47 | The sum exists exactly when the moved instant lies in years 1..9999. It is then a valid date-time exactly the increment's seconds later. |
| DateShift.AddDeltaZero | run.py:47 | Adding the zero increment returns the date-time unchanged. |
| DateShift.AddDeltaReaches | run.py:47 | Any valid date-time that many seconds later is the sum, so the result is unique. |
| DateShift.AddDeltaCarry | run.py:47 | In calendar terms, the date moves by the increment's days plus the day carried out of the seconds, and the time becomes the remaining seconds. |
| DateShift.AddMonths | run.py:8-17 | The result exists exactly when the target year `year + (month - 1 + k) // 12` is in 1..9999, and is then valid. Its year·12 + month is the input's plus k, so the month is in 1..12 and the year moves by the floor quotient. The time of day is kept. The day is kept when it exists in the target month and is 1 otherwise. |
| DateShift.AddMonthsZero | run.py:10-14 | Adding zero months returns the date-time unchanged. |
| DateShift.Shift | run.py:47-49 | A successful shift is a valid date-time. |
| DateShift.ShiftIsIncrementThenMonths | run.py:47-49 | The shift applies the increment first, then `add_months` with months + 12·years. Skipping `add_months` when both are zero makes no difference. |
| DateShift.ShiftZero | run.py:21-49 | All-zero offsets build the zero increment and leave every date-time as it is. |
| ExifText.ScanYear | run.py:44 | `%Y` succeeds exactly when the text starts with four digits. It then reads them as the decimal number they spell, at most 9999, and leaves the text after them. |
| ExifText.ScanNumber | run.py:44 | The `%m`/`%H`/`%M`/`%S` alternatives succeed exactly when the text starts with a digit that is at least the lower bound, or with two digits the second of which is. They consume one or two digits and yield the decimal number those digits spell, within the directive's bounds. When the two leading digits form an in-range number, both are taken. |
| ExifText.ScanDay | run.py:44 | `%d` reads a value in 1..31. |
| ExifText.ScanDayMeaning | run.py:44 | `%d` succeeds exactly when the text starts with a digit that is at least 1, or with two digits the second of which is, or with a space and a digit 1..9. It then reads one or two leading digits as the number they spell, or the space and the one digit after it. When the two leading digits spell a day 1..31, both are read. |
| ExifText.DropSpaces | run.py:44 | Removing the leading whitespace never lengthens the text, and what remains is empty or starts with a character that is not whitespace. |
| ExifText.DropSpacesRun | run.py:44 | What is removed is a run of whitespace characters at the front of the text. |
| ExifText.SpacesMatch | run.py:44 | When the format's space (`\s+`) matches, it consumes a run of one or more whitespace characters from the front, and all of them: what remains does not start with whitespace. |
| ExifText.Parse | run.py:44 | Every accepted text yields a valid `datetime` (year 1..9999, a day that exists in its month, second below 60). |
| ExifText.Format | run.py:51 | The formatted text is always 19 characters long. |
| ExifText.ParseFormat | run.py:44-51 | Parsing what `strftime` printed returns the same date-time. |
| ExifText.ParseCanonical | run.py:44 | A `YYYY:MM:DD HH:MM:SS` text, if it parses, parses to the fields written in it. |
| ExifText.FormatParse | run.py:44-51 | A `YYYY:MM:DD HH:MM:SS` text parses exactly when its fields form a valid date-time. It then prints back as the same text. |
| Rewriter.Lower | run.py:28 | Lower-casing keeps the length and lower-cases each character A-Z in place. |
| Rewriter.SupportedAnyCase | run.py:28 | A name ending in any spelling (any mix of upper and lower case) of an accepted extension passes the filter. |
| Rewriter.SupportedNeedsExtension | run.py:28 | A name passes the filter only if its ending, lower-cased, is one of the eight extensions. |
| Rewriter.UnsupportedByLastChar | run.py:28 | A name whose lower-cased last character ends none of the extensions is skipped. |
| Rewriter.UpperCaseJpgAccepted | run.py:28 | Any name ending in `.JPG`, such as `photo.JPG`, passes the filter. |
| Rewriter.MixedCaseTiffAccepted | run.py:28 | Any name ending in `.Tiff`, such as `scan.Tiff`, passes the filter. |
| Rewriter.TextFileSkipped | run.py:28 | Any name ending in `.TXT`, such as `photo.TXT`, is skipped. |
| Rewriter.ShiftedText | run.py:43-51 | New text is produced exactly when the old text parses and the shift stays in range. Otherwise the failure is `BadDate` for a parse error and `OutOfRange` for the shift. |
| Rewriter.ShiftedTextParses | run.py:43-51 | The written text parses back to the shifted original date-time. |
| Rewriter.ZeroShiftKeepsText | run.py:43-51 | With all offsets zero, a valid `YYYY:MM:DD HH:MM:SS` tag is rewritten with the text it already had. |
| Rewriter.WithDate | run.py:54-55 | After the update, both date tags hold the new text. The tag set gains at most those two tags, and every other tag keeps its value. |
| Rewriter.DecideOutcome | run.py:26-65 | For any result of the shift, a file is updated with that text exactly when it passes the filter, opens, has a loaded EXIF block with a non-empty DateTimeOriginal, the shift succeeded, and it saves. Otherwise it is left unchanged. An eligible file whose image has no EXIF block is reported as having no metadata. One whose tags lack a non-empty DateTimeOriginal is reported as having no Date Taken. The outcome is a failure exactly when an eligible file does not open, its EXIF block does not load, or its dated tag fails to shift or to save. |
| Rewriter.DecideUpdate | run.py:53-60 | An update replaces the EXIF tags by `WithDate` of the old tags and the new text. Nothing else the model records about the file changes. |
| Rewriter.RewriteDecision | run.py:26-65 | A file is updated if and only if it passes the filter, opens, has an EXIF block that loads, has a present and non-empty DateTimeOriginal whose shift succeeds, and saves. Every file that is not updated is left exactly as it was. A file that fails the filter is reported as unsupported. An eligible file without an EXIF block is reported as having no metadata (run.py:35). One whose DateTimeOriginal is absent or empty is reported as having no Date Taken (run.py:62). The outcome is a failure (run.py:65) exactly when an eligible file does not open, its EXIF block does not load, or it has a non-empty DateTimeOriginal whose parse, shift or save fails. |
| Rewriter.RewriteUpdate | run.py:40-60 | After an update both tags hold the reported text, and that text parses to the shifted original date. The tag set gains at most the two date tags, no other tag changes, and the file's name and save behaviour are kept. |
| Rewriter.ProcessFile | run.py:26-65 | The imperative body of the loop produces exactly the outcome and the file that the per-file decision gives. |
| Rewriter.ProcessAll | run.py:23-65 | The loop yields one outcome and one file per input file, each as the per-file decision gives for that file alone. |
| Rewriter.ChangeDateTaken | run.py:20-65 | Setting aside a print that itself fails, the run aborts exactly when the increment cannot be built. Otherwise there is one outcome and one resulting file per input file, in order. Each is what the per-file decision gives for that file alone, so a failure in one file changes nothing for the others. |
| Examples.MonthsOnly | run.py:44-51 | With no day, hour or minute offset, the rewritten text is the formatted `add_months` result, or `OutOfRange`. |
| Examples.JanuaryThirtyFirstPlusOneMonth | run.py:8-17 | 2024-01-31 10:00 plus one month is 2024-02-01 10:00. |
| Examples.DecemberPlusTwoMonths | run.py:10-12 | 2023-12-15 plus two months is 2024-02-15. |
| Examples.MarchMinusFourMonths | run.py:10-12 | 2024-03-10 minus four months is 2023-11-10. |
| Examples.MonthsCancelYears | run.py:47-51 | Twelve months forward and one year back rewrite every valid date-time's tag with its own text. |
| Examples.TwelveMonthsMinusOneYear | run.py:48-49 | Twelve months forward and one year back leave the tag text `2022:06:30 12:00:00` unchanged. |
| Examples.IncrementExamples | run.py:21 | One day, 45 minutes, and minus one hour build the expected normalised increments. A billion days cannot be built, so the run aborts. |
| Examples.DayThenMonth | run.py:47-49 | 2024-01-31 10:00 plus one day and then one month is 2024-03-01 10:00. |
| Examples.MinutesIntoNewYear | run.py:47 | 45 minutes after 23:30 on 31 December of any year before 9999 is 00:15 on 1 January of the next year. |

## Left out

- The folder walk (`os.walk`, `os.path.join`) is left out. The model takes the walk's files as a sequence in walk order, and the log is indexed by that sequence instead of by path.
- Image decoding and EXIF encoding are left out: `PIL.Image.open`, `img.info`, `piexif.load`, `piexif.dump` and `img.save`. Each is reduced to its observable result: the image opens or not, the EXIF block is missing, unreadable or a tag map, and the save succeeds or not.
- A save that fails part-way may damage the file on disk. The model treats it as writing nothing.
- Tag values are modelled as text, so the UTF-8 `decode`/`encode` of run.py:43 and 54-55 is left out. A `UnicodeDecodeError` would be caught like any other per-file failure.
- A tag stored as something other than bytes is also left out.
- Printing is left out. Each message is an `Outcome` in the log, without the path or the exception text.
- A print that itself raises is left out. For example, a file name that is not valid in the file-system encoding reaches `print` with surrogate escapes, and stdout's strict error handler raises `UnicodeEncodeError`. The `except` of run.py:64 catches it, but its own print at run.py:65 raises again. Nothing catches that, so the run ends and the remaining files are not processed. The model's run aborts only for the increment overflow.
- `img.save` writes the whole file again from the decoded image, re-encoding its pixel data (lossily for JPEG). The model has no pixel data, so what the save changes beyond the EXIF tags is not modelled.
- The command-line parsing of run.py:68-89 is left out.
- ExifText.IsDigit: `\d` in a Python `str` pattern also matches non-ASCII decimal digits (Arabic-Indic and others). The model accepts ASCII digits only, so it rejects such texts where Python would read them.
- Rewriter.Lower: it lower-cases A-Z only, while `str.lower()` also folds non-ASCII letters. The verdict of the filter is the same. Only two non-ASCII characters lower-case to text containing an ASCII letter. U+0130 becomes `i` followed by a combining dot, which cannot then end the name as `.tiff`. U+212A (KELVIN SIGN) becomes `k`, which no extension contains.
- ExifText.Format: it pads the year to four digits. CPython's `strftime` leaves `%Y` unpadded below year 1000 on some platforms, so on those the text written for such years differs.
- Microseconds are left out. A parsed date-time has none, and the increment is whole minutes.
- Concurrency and file-system races are left out.
- Two walk entries that name the same file on disk (a symbolic or hard link) are treated as independent files. The script shifts such a file once per entry, so the second entry reads the already shifted tag.
