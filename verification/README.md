# construct-reports: the data rules of the field-report application

`app.py` is a small Flask application for construction field work. A
worker fills in a form with four text fields (work area, location,
specialty, activity) and up to two photos ("before" and "after"). The
report is stored with a timestamp. An administrator browses the reports on a
dashboard with three text filters and exports them as CSV, XLSX or PDF.

This project models the rules inside those handlers and proves what they
guarantee:

- `text.dfy` (module `Text`): the Python string operations the rules use.
  These are `strip()` (over the full `str.isspace` set), `lower()`, the
  substring test `needle in hay`, and "the text after the last separator"
  (`rsplit('.', 1)[1]`, `split('/')[-1]`).
- `wrappers.dfy` (module `Wrappers`): the `Option` type used for NULL
  columns, absent form parts and failed parses.
- `clock.dfy` (module `Clock`): `datetime` values with Python's field ranges.
  It covers the two `strftime` renderings the code uses (`%Y-%m-%d %H:%M` and
  `%Y%m%d%H%M%S_`) and the chronological order behind `ORDER BY created_at`.
- `upload.dfy` (module `Upload`): `allowed_file`, the stored photo name and
  its `/uploads/` reference.
- `reports.dfy` (module `Reports`): the `Report` record and the store.
  - The store is append-only; committing adds one row.
  - A read-back is any sequence holding every stored row once, newest first.
  - Rows with equal `created_at` may come back in either order; the model
    adds no tiebreak.
- `intake.dfy` (module `Intake`): the `/submit` rule.
  - `Rule` is the rule as one function. It either rejects, or accepts a
    draft report together with the photo fields that drew a format warning.
  - `Submit` is the handler's validation and its loop over the two photo
    fields, proved equal to `Rule`.
- `filter.dfy` (module `Filter`): the dashboard's normalised filters,
  `match`, and the comprehension that keeps the matching reports.
- `export.dfy` (module `Export`): `to_row`, the three export loops, the
  PDF's 60-character activity cut and `make_img`.

Effects are inputs to the model:

- the database's id and clock;
- the clock read when a photo is saved;
- `secure_filename`;
- the files present in the upload folder.

## Model

| member | source | states |
|---|---|---|
| Text.Strip | app.py:62-65 | `str.strip()`; its meaning is stated by Text.StripIsInfix, Text.StripEmptyIff and Text.StripIdempotent |
| Text.Lower | app.py:50 | `str.lower()`, position by position through Text.LowerChar; it keeps the length, and Text.LowerIdempotent states that no capital is left |
| Text.TrimStart | app.py:62-65 | the leading-whitespace part of `strip()`: a suffix of the input that does not start with whitespace, and everything removed is whitespace |
| Text.TrimEnd | app.py:62-65 | the trailing-whitespace part of `strip()`: a prefix that does not end with whitespace, and everything removed is whitespace |
| Text.StripIsInfix | app.py:62-65 | `strip()` returns a contiguous slice of the input, surrounded only by whitespace, and itself neither starts nor ends with whitespace |
| Text.StripEmptyIff | app.py:67 | a field is empty after `strip()` exactly when it holds only whitespace |
| Text.StripOfTrimmed | app.py:108-110 | a text that neither starts nor ends with whitespace is unchanged by `strip()` |
| Text.StripIdempotent | app.py:108-110 | stripping twice gives the same text as stripping once |
| Text.LowerChar | app.py:50 | `lower()` on one character: capitals move 32 code points up to their small letters, everything else is kept, and the result is never a capital |
| Text.LowerIdempotent | app.py:108-110 | a lower-cased text has no capitals and lower-casing it again changes nothing; used by Filter.NormalizeIdempotent |
| Text.Contains | app.py:117 | Python's `needle in hay`, as a prefix test at every position; Text.ContainsIff ties it to an occurrence index |
| Text.ContainsIff | app.py:117 | the substring test holds exactly when the needle occurs at some index of the text |
| Text.FirstCharAbsent | app.py:117 | a needle whose first character is absent from the text is not in it |
| Text.AfterLast | app.py:232 | the text after the last separator is a suffix of the input and holds no separator; when it is shorter than the input, a separator precedes it |
| Text.AfterLastOfJoin | app.py:50 | whatever precedes the last separator, the text after it is exactly what follows it |
| Clock.FormatMinute | app.py:40 | the date cell is 16 characters long |
| Clock.UploadStamp | app.py:78 | the upload prefix is 14 digits followed by `_` |
| Clock.Pad2Value | app.py:40 | a two-digit field is all digits and reads back as its number |
| Clock.Pad4Value | app.py:40 | the year field is four digits and reads back as the year |
| Clock.ParseFormatMinute | app.py:40 | the date cell parses back to the timestamp's year, month, day, hour and minute: it loses the seconds and nothing else |
| Clock.FormatMinuteInjective | app.py:40 | two timestamps give the same date cell if and only if they agree down to the minute |
| Clock.NotBefore | app.py:112 | `a >= b` for datetimes, compared field by field from the year down to the microsecond; Clock.NotBeforeTotalOrder states it is a total order |
| Clock.NotBeforeTotalOrder | app.py:112 | the chronological comparison is total, transitive and antisymmetric |
| Upload.AllowedFile | app.py:49-50 | `allowed_file`: the name has a dot and the lower-cased text after its last dot is png, jpg, jpeg or webp; characterised by Upload.AllowedFileIff and Upload.AllowedByLastExtension |
| Upload.AllowedFileIff | app.py:49-50 | a name is accepted if and only if some dot in it is followed by no other dot and by a text that lower-cases to one of png, jpg, jpeg or webp |
| Upload.AllowedByLastExtension | app.py:50 | whatever comes before the last dot, the name is accepted if and only if the text after it lower-cases to an allowed extension |
| Upload.UpperCaseExtensionAllowed | app.py:49-50 | `photo.PNG` is accepted |
| Upload.NoDotRefused | app.py:49-50 | `png`, which has no dot, is refused |
| Upload.LastExtensionCounts | app.py:50 | `x.jpg.exe` is refused and `x.exe.jpg` accepted: only the last extension counts |
| Upload.JpgAllowed | app.py:50 | every name ending in `.jpg` passes `allowed_file`, whatever precedes the extension |
| Upload.StoredName | app.py:78 | the stored name: the upload stamp followed by the sanitised name; Clock.UploadStamp states the stamp's shape |
| Upload.Reference | app.py:82-84 | `url_for('uploaded_file', filename=...)` as `/uploads/` + name; Upload.ReferenceNamesStoredFile reads the name back |
| Upload.ReferenceNamesStoredFile | app.py:78-84 | the last `/` segment of an issued reference is the stored name, provided the sanitised name has no slash |
| Reports.Commit | app.py:88-97 | a commit appends exactly one row, with the assigned id and time, and leaves every earlier row as it was |
| Reports.CommitKeepsDraft | app.py:88-95 | the stored row carries the submitted text fields and photo references unchanged |
| Reports.NewestFirst | app.py:112 | `ORDER BY created_at DESC`: no row is newer than one before it, and nothing is said about rows with equal timestamps |
| Reports.IsListing | app.py:112 | an answer to the query: every stored row exactly once, newest first; Reports.ListingExists and Reports.ListingsAgreeOnTimes state what it fixes |
| Reports.ListingSize | app.py:112 | a listing has as many rows as the store |
| Reports.ListingsAgreeOnTimes | app.py:112 | two newest-first sequences with the same rows have the same timestamp at every position, so they differ only among rows created at the same instant |
| Reports.ListingsOfStoreAgree | app.py:112 | every listing of one store shows the same sequence of timestamps |
| Reports.Insert | app.py:112 | the insertion step Reports.ListingExists uses to build a newest-first listing (not the store's insert): it adds exactly the given row to the multiset of rows |
| Reports.InsertKeepsNewestFirst | app.py:112 | inserting a row before the first row it is not older than keeps a sequence newest first |
| Reports.ListingExists | app.py:112 | every store has a listing: its rows in some newest-first order |
| Reports.TiesInEitherOrder | app.py:112 | two rows with equal `created_at` may be listed in either order, because no tiebreak is implied |
| Intake.Rule | app.py:61-97 | the whole `/submit` rule as one value: refused, or accepted with a draft and the warned photo fields; its properties are Intake.RejectedIff, Intake.AcceptedFieldsTrimmed and Intake.PhotoSlotRule |
| Intake.PhotoRef | app.py:75-84 | the reference a photo field ends up with; Intake.PhotoSlotRule states when it is present and what it is |
| Intake.WarningsOf | app.py:85-86 | the photo fields that draw a format warning; Intake.PhotoSlotRule and Intake.WarningsInFieldOrder state which and in what order |
| Intake.Submit | app.py:61-97 | the validation and the loop over `foto_antes` and `foto_despues` produce exactly the outcome of `Intake.Rule` |
| Intake.RejectedIff | app.py:62-69 | a submission is refused if and only if one of the four text fields holds only whitespace (or is missing) |
| Intake.AcceptedFieldsTrimmed | app.py:62-65 | an accepted draft holds the four stripped fields, each non-empty and without surrounding whitespace |
| Intake.PhotoSlotRule | app.py:75-87 | a photo field gets a reference if and only if its file has a non-empty, allowed name, and the reference is `/uploads/` + upload stamp + sanitised name; it draws a warning if and only if the name is non-empty and not allowed |
| Intake.PhotosDoNotBlock | app.py:75-98 | submissions differing only in their files are accepted alike and store the same text fields, so a refused photo never blocks a report |
| Intake.WarningsInFieldOrder | app.py:75-86 | at most one warning per photo field, `foto_antes` first |
| Intake.Record | app.py:67-69 | a refused submission leaves the store unchanged; an accepted one appends one row and keeps the rest |
| Intake.SubmittedReportStored | app.py:88-97 | after a valid submission the new last row holds the stripped fields, the references of the photo rule, the assigned id and the time |
| Intake.SameSecondCollision | app.py:75-84 | as written: when both photo fields carry the same allowed name and both clock readings fall in the same second, both fields get the same reference |
| Intake.SameSecondStamps | app.py:78 | two readings 899 microseconds apart give the same stamp `20240506100000_` |
| Intake.ImageJpgName | app.py:50 | `image.jpg` passes `allowed_file` |
| Intake.ImageJpgTwice | app.py:75-84 | two `image.jpg` photos saved at those two readings end up with one reference |
| Intake.TaggedReferencesDiffer | app.py:78-84 | corrected naming: with the field's tag after the stamp, the two fields' references differ for all times and names |
| Intake.TaggedPhotosNeverCollide | app.py:75-84 | corrected naming: the two photos of one submission never share a stored file |
| Filter.Normalize | app.py:108-110 | `.strip().lower()` on one argument; Filter.NormalizeIdempotent and Filter.BlankArgumentsSetNoFilter state its properties |
| Filter.FromQuery | app.py:108-110 | the three filters built from the query string, a missing argument read as ""; Filter.NormalizedFiltersStable states that normalised filters are stable |
| Filter.Match | app.py:114-122 | `match(r)`: every non-empty filter occurs in the lower-cased field it targets, the query in the activity or the location; Filter.ApplyMembership and Filter.BreakerQuery state it |
| Filter.Apply | app.py:124 | filtering never lengthens the list |
| Filter.NoFiltersKeepAll | app.py:114-124 | with all three filters empty the dashboard shows the listing unchanged |
| Filter.BlankArgumentsSetNoFilter | app.py:108-110 | arguments that are missing or hold only whitespace set no filter |
| Filter.NormalizeIdempotent | app.py:108-110 | normalising an already normalised argument changes nothing |
| Filter.NormalizedFiltersStable | app.py:108-125 | the filters the dashboard hands back to its page, when sent again, give the same filters |
| Filter.ApplyIsSubsequence | app.py:124 | the filtered list is a subsequence of the listing, in its order |
| Filter.ApplyCounts | app.py:114-124 | a matching report occurs in the filtered list as often as in the listing; a non-matching one not at all |
| Filter.ApplyMembership | app.py:114-124 | a report is shown if and only if it is listed and matches every non-empty filter |
| Filter.ApplyIdempotent | app.py:124 | filtering the filtered list again changes nothing |
| Filter.SubsequenceNewestFirst | app.py:124 | a subsequence of a newest-first list is newest first and holds only rows of the list |
| Filter.FilteredListingNewestFirst | app.py:112-124 | the dashboard's list is newest first |
| Filter.DashboardShows | app.py:108-124 | given the query string, the dashboard shows newest first exactly the stored reports that match, each as often as it is stored |
| Filter.BreakerQuery | app.py:114-122 | a report whose activity is "Cambio de breaker" at "Sala 3" matches the query "breaker" and not "nonexistent" |
| Filter.BreakerQueryFilters | app.py:108 | the argument `BREAKER` becomes the query "breaker" |
| Filter.NonexistentQueryFilters | app.py:108 | the argument `nonexistent` becomes the query "nonexistent" |
| Filter.QueryOnly | app.py:108-110 | a single word without surrounding whitespace, given only as `q`, becomes its lower-case form and sets no other filter |
| Filter.NormalizeWord | app.py:108 | normalising a word without surrounding whitespace only lower-cases it |
| Filter.LowerActivity | app.py:117 | "Cambio de breaker" lower-cases to "cambio de breaker" |
| Filter.ActivityHasBreaker | app.py:117 | "breaker" occurs in "cambio de breaker" |
| Filter.NothingNonexistent | app.py:117 | "nonexistent" occurs in neither "cambio de breaker" nor the lower-cased "Sala 3" |
| Filter.PlaceLacksQuery | app.py:117 | "nonexistent" does not occur in the lower-cased "Sala 3" |
| Export.OrEmpty | app.py:45-46 | `x or ""` on a photo reference: NULL becomes "", a present reference is kept |
| Export.ToRow | app.py:37-47 | a report gives a row of exactly eight cells |
| Export.ToRowIff | app.py:37-47 | two reports give the same row if and only if they agree on id, the four text fields, the photo references once NULL reads as "", and the timestamp down to the minute |
| Export.ToRowReadsBack | app.py:40-46 | the date cell parses back to the report's minute, and a photo cell is "" exactly when the reference is NULL or empty |
| Export.Truncate | app.py:216 | the PDF activity cell; Export.TruncateShape and Export.TruncateIdempotent state its shape |
| Export.TruncateShape | app.py:216 | an activity of up to 60 characters is kept; a longer one becomes its first 60 characters followed by "..." (63 characters) |
| Export.TruncateIdempotent | app.py:216 | shortening an already shortened activity changes nothing |
| Export.MakeImg | app.py:227-238 | NULL or empty reference gives ""; a picture is produced only for the last `/` segment of the reference, and only when that file is present |
| Export.IssuedPhotoThumbnail | app.py:227-238 | a reference issued by the upload rule leads back to its stored file, and shows a thumbnail exactly when that file is present |
| Export.PdfRow | app.py:215-241 | a PDF row has eight cells |
| Export.PdfRowAgainstToRow | app.py:215-241 | the PDF row equals `to_row` in its first five cells and carries the shortened activity; a photo cell is a picture exactly when the `to_row` cell is non-empty and names a present file |
| Export.ExportCsv | app.py:146-149 | the CSV gets the header, then `to_row` of each listed report in order: `1 + n` rows |
| Export.ExportXlsx | app.py:167-181 | the rows passed to `ws.append`: the header, then the same eight cells as `to_row` for each listed report in order, `1 + n` rows |
| Export.ExportPdf | app.py:213-242 | the PDF table gets its header, then the PDF row of each listed report in order: `1 + n` rows |
| Export.DateColumnFixed | app.py:140 | any two listings of one store yield the same date column row by row, even though tied rows may swap |
| Export.CsvAndXlsxAgree | app.py:146-181 | the rows passed to `writerow` and to `ws.append` are identical after the header, and only the headers differ |
| Export.ContentType | app.py:151 | the MIME type of each export: `text/csv` here, and the spreadsheet and PDF types at app.py:189 and app.py:263 |
| Export.FileName | app.py:151 | the attachment name of each export: `reportes.csv` here, `reportes.xlsx` at app.py:190 and `reportes.pdf` at app.py:264 |

## Left out

- Web layer: routing, templates, `flash`, `redirect` and `send_from_directory` are not modelled. The texts of the flash messages are not modelled either. A warning is recorded as the photo field that drew it.
- Authorisation: the `?key=` comparison with `ADMIN_PASSWORD` in every admin handler (app.py:104-106 and its repeats) is not modelled.
- Persistence: SQLAlchemy and SQLite are not modelled.
  - The id and the `created_at` default are inputs to `Reports.Commit`.
  - The `String(120)`-style column lengths are not modelled; SQLite does not enforce them.
- Clock: each `datetime.utcnow()` read during an upload is an input (`clock`, one reading per photo field).
- `secure_filename` is a parameter, because its sanitising rules belong to werkzeug. `Upload.ReferenceNamesStoredFile` assumes it leaves no `/`.
- `url_for` is modelled as `"/uploads/" + name`. Percent-encoding is not modelled; it does not change the stamp or the characters `secure_filename` keeps.
- `file.save`, `os.makedirs` and the upload folder path are not modelled. `os.path.exists` becomes the set of file names present in the folder.
- Export.MakeImg: the model stops at the `data` list handed to `Table`, where a present file gives a picture cell. ReportLab's `Image(full_path, width=60, height=45)` at app.py:235 reads the file lazily, so it does not decode the image inside the `try`. The file is first decoded when `doc.build(elements)` lays out the table at app.py:257, outside the `try`. `allowed_file` (app.py:77) looks only at the name, so an upload named `x.png` whose bytes are not an image makes the whole `/export.pdf` request fail instead of leaving its photo cell empty. Image decoding is not part of this model.
- CSV quoting and escaping (RFC 4180 section 2) happens inside Python's `csv` module. The model stops at the sequence of rows passed to `writerow`.
- Export.ExportXlsx: the model stops at the values handed to `ws.append`. openpyxl's cell check is not part of this model, and it does three things the model does not:
  - it raises `IllegalCharacterError` on text holding U+0000-U+0008, U+000B, U+000C or U+000E-U+001F; `strip()` only cleans the ends of a field, so a stored activity such as `"a\x0bb"` makes `/export.xlsx` fail at app.py:172;
  - it cuts text to 32,767 characters, while `actividad` is an unbounded `db.Text` column;
  - it stores text starting with `=` as a formula.
- openpyxl serialisation and the ReportLab layout (page size, styles, colours, image size) are binary output and are not modelled. The table's data rows are modelled; the MIME types and attachment names are constants.
- Text.LowerChar: covers the ASCII and Latin-1 capitals only. Python's `lower()` also folds capitals beyond Latin-1 and a few characters that expand to two.
- Clock.FormatMinute: `%Y` is always padded to four digits. Some C libraries print years below 1000 without padding.
- Clock.UploadStamp: renders `%Y` the same way, always four digits, with the same caveat for years below 1000.
- Intake.TaggedPhotosNeverCollide: covers the two photos of one submission only. Uploads of two different submissions in the same second with the same name are not kept apart by the corrected name either.
- `report_detail` (fetching one report by id) is outside these rules and is not part of this model.
- Ordering: the listing has no id tiebreak, because the code orders by `created_at` alone (app.py:112, 140, 170, 212). No `id` tiebreak is added.
- Exports read the full listing and never apply the dashboard filters, as the code does (app.py:140, 170, 212).

## Findings

| source | as written | input that shows it | evidently intended | confidence | as-written member | corrected member |
|---|---|---|---|---|---|---|
| app.py:78-80 | the stored name is `strftime('%Y%m%d%H%M%S_')` plus `secure_filename(name)`, so it keeps only the second and the name | both photo fields named `image.jpg` (as phone browsers often send them), saved at 10:00:00.000001 and 10:00:00.000900: both get `20240506100000_image.jpg`, the second `file.save` overwrites the "before" photo, and both columns point at the "after" file | two uploads in the same second with the same name do not share a file | not executed | Intake.SameSecondCollision, Intake.ImageJpgTwice | Intake.TaggedPhotosNeverCollide |

The handler model (`Intake.Rule`, `Intake.Submit`) keeps the name as written,
so that it describes what the handler does. The corrected name
(`Intake.TaggedStoredName`) puts the field's tag (`antes_` or `despues_`)
between the stamp and the sanitised name. This fixes the collision within
one submission. Two different submissions that save the same name in the
same second still collide under both names; a random suffix or a check for
an existing file would be needed for that.
