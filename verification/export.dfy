/**
  The three exports. Each reads the whole listing (newest first, no
  filters) and builds a table: one header row, then one row per report in
  listing order. The CSV writer and the spreadsheet get the eight columns of
  `to_row`; the PDF table shortens the activity and puts a thumbnail, or
  nothing, in the two photo columns.
 */
module Export {
  import opened Wrappers
  import opened Text
  import opened Clock
  import opened Reports
  import opened Upload

  /** A value handed to `writer.writerow`, `ws.append` or the PDF table:
      a number, a text, or an image read from the upload folder. */
  datatype Cell = Num(n: int) | Str(s: string) | Picture(file: string)

  type Row = seq<Cell>

  /** `x or ""` for a photo column: NULL and "" both become "". */
  function OrEmpty(ref: Option<string>): (s: string)
    ensures ref.None? ==> s == ""
    ensures ref.Some? ==> s == ref.value
  {
    match ref
    case None => ""
    case Some(v) => v
  }

  /** `Report.to_row`, in its key order: id, fecha, area_trabajo,
      lugar_trabajo, especialidad, actividad, foto_antes, foto_despues. */
  function ToRow(r: Report): (row: Row)
    ensures |row| == 8
  {
    [Num(r.id), Str(FormatMinute(r.createdAt)), Str(r.areaTrabajo), Str(r.lugarTrabajo),
     Str(r.especialidad), Str(r.actividad), Str(OrEmpty(r.fotoAntes)), Str(OrEmpty(r.fotoDespues))]
  }

  const CsvHeader: Row := [Str("id"), Str("fecha"), Str("area_trabajo"), Str("lugar_trabajo"),
                           Str("especialidad"), Str("actividad"), Str("foto_antes"), Str("foto_despues")]

  const XlsxHeader: Row := [Str("ID"), Str("Fecha"), Str("Área"), Str("Lugar"),
                            Str("Especialidad"), Str("Actividad"), Str("Foto Antes"), Str("Foto Después")]

  const PdfHeader: Row := [Str("ID"), Str("Fecha"), Str("Área"), Str("Lugar"),
                           Str("Especialidad"), Str("Actividad"), Str("Antes"), Str("Después")]

  /** Two reports give the same row exactly when they agree on the id and the
      four text columns, on their photo columns once NULL is read as "", and
      on their timestamp down to the minute. */
  lemma ToRowIff(a: Report, b: Report)
    ensures ToRow(a) == ToRow(b) <==>
      && a.id == b.id && MinuteOf(a.createdAt) == MinuteOf(b.createdAt)
      && a.areaTrabajo == b.areaTrabajo && a.lugarTrabajo == b.lugarTrabajo
      && a.especialidad == b.especialidad && a.actividad == b.actividad
      && OrEmpty(a.fotoAntes) == OrEmpty(b.fotoAntes) && OrEmpty(a.fotoDespues) == OrEmpty(b.fotoDespues)
  {
    FormatMinuteInjective(a.createdAt, b.createdAt);
    if ToRow(a) == ToRow(b) {
      assert ToRow(a)[1] == ToRow(b)[1];
    }
  }

  /** The date column reads back as the report's minute, and the photo
      columns are "" exactly when the reference is missing or empty. */
  lemma ToRowReadsBack(r: Report)
    ensures ToRow(r)[1].Str? && ParseMinute(ToRow(r)[1].s) == Some(MinuteOf(r.createdAt))
    ensures ToRow(r)[6] == Str("") <==> r.fotoAntes.None? || r.fotoAntes.value == ""
    ensures ToRow(r)[7] == Str("") <==> r.fotoDespues.None? || r.fotoDespues.value == ""
  {
    ParseFormatMinute(r.createdAt);
  }

  // ---------------------------------------------------------------------------
  // The PDF columns
  // ---------------------------------------------------------------------------

  const ActivityWidth := 60

  /** The PDF activity cell: the first 60 characters and "..." when the
      activity is longer than 60, otherwise the activity itself. */
  function Truncate(actividad: string): string {
    if |actividad| > ActivityWidth then actividad[..ActivityWidth] + "..." else actividad
  }

  lemma TruncateShape(actividad: string)
    ensures |actividad| <= 60 ==> Truncate(actividad) == actividad
    ensures |actividad| > 60 ==>
      && |Truncate(actividad)| == 63
      && Truncate(actividad)[..60] == actividad[..60]
      && Truncate(actividad)[60..] == "..."
    ensures |Truncate(actividad)| <= 63
  {
  }

  /** Shortening a shortened activity changes nothing more. */
  lemma TruncateIdempotent(actividad: string)
    ensures Truncate(Truncate(actividad)) == Truncate(actividad)
  {
    if |actividad| > 60 {
      var t := Truncate(actividad);
      assert t[..60] == actividad[..60];
    }
  }

  /** `make_img(path_url)`: nothing for a NULL or empty reference; otherwise
      the image named by the last `/`-separated segment, when that name is
      among the files `present` in the upload folder, and nothing when not. */
  function MakeImg(ref: Option<string>, present: set<string>): (c: Cell)
    ensures ref.None? || ref.value == "" ==> c == Str("")
    ensures c.Picture? ==> c.file in present && ref.Some? && c.file == AfterLast(ref.value, '/')
  {
    if ref.None? || ref.value == "" then Str("")
    else
      var name := AfterLast(ref.value, '/');
      if name in present then Picture(name) else Str("")
  }

  /** A reference issued by the upload rule leads `make_img` back to the
      stored file: the thumbnail appears exactly when that file is present. */
  lemma IssuedPhotoThumbnail(at: DateTime, secure: string -> string, name: string, present: set<string>)
    requires '/' !in secure(name)
    ensures var stored := StoredName(at, secure, name);
      MakeImg(Some(Reference(stored)), present) == if stored in present then Picture(stored) else Str("")
  {
    ReferenceNamesStoredFile(at, secure, name);
  }

  /** The PDF row of one report. */
  function PdfRow(r: Report, present: set<string>): (row: Row)
    ensures |row| == 8
  {
    [Num(r.id), Str(FormatMinute(r.createdAt)), Str(r.areaTrabajo), Str(r.lugarTrabajo),
     Str(r.especialidad), Str(Truncate(r.actividad)),
     MakeImg(r.fotoAntes, present), MakeImg(r.fotoDespues, present)]
  }

  /** The PDF row agrees with `to_row` on the first five columns, shortens the
      activity, and has a picture in a photo column only where the CSV row has
      a reference whose file is present. */
  lemma PdfRowAgainstToRow(r: Report, present: set<string>)
    ensures PdfRow(r, present)[..5] == ToRow(r)[..5]
    ensures PdfRow(r, present)[5] == Str(Truncate(r.actividad))
    ensures ToRow(r)[6] == Str("") ==> PdfRow(r, present)[6] == Str("")
    ensures ToRow(r)[7] == Str("") ==> PdfRow(r, present)[7] == Str("")
    ensures PdfRow(r, present)[6].Picture? <==>
      ToRow(r)[6] != Str("") && AfterLast(ToRow(r)[6].s, '/') in present
    ensures PdfRow(r, present)[7].Picture? <==>
      ToRow(r)[7] != Str("") && AfterLast(ToRow(r)[7].s, '/') in present
  {
  }

  /** The PDF row as the handler assembles it: six cells, then the two
      thumbnails appended one by one. */
  lemma PdfRowAppended(r: Report, present: set<string>, actividad: string, row: Row)
    requires actividad == if |r.actividad| > 60 then r.actividad[..60] + "..." else r.actividad
    requires row == [Num(r.id), Str(FormatMinute(r.createdAt)), Str(r.areaTrabajo), Str(r.lugarTrabajo),
                     Str(r.especialidad), Str(actividad)] + [MakeImg(r.fotoAntes, present)] + [MakeImg(r.fotoDespues, present)]
    ensures row == PdfRow(r, present)
  {
  }

  // ---------------------------------------------------------------------------
  // The three exporters
  // ---------------------------------------------------------------------------

  /** `export_csv`: the rows passed to `writer.writerow`, in order. */
  method ExportCsv(reports: seq<Report>) returns (rows: seq<Row>)
    ensures |rows| == 1 + |reports| && rows[0] == CsvHeader
    ensures forall i :: 0 <= i < |reports| ==> rows[i + 1] == ToRow(reports[i])
  {
    rows := [CsvHeader];
    for i := 0 to |reports|
      invariant |rows| == 1 + i && rows[0] == CsvHeader
      invariant forall k :: 1 <= k < |rows| ==> rows[k] == ToRow(reports[k - 1])
    {
      var row := ToRow(reports[i]);
      rows := rows + [row];
    }
  }

  /** `export_xlsx`: the rows passed to `ws.append`, in order. Each data row
      is built column by column from the report, as the handler does. */
  method ExportXlsx(reports: seq<Report>) returns (rows: seq<Row>)
    ensures |rows| == 1 + |reports| && rows[0] == XlsxHeader
    ensures forall i :: 0 <= i < |reports| ==> rows[i + 1] == ToRow(reports[i])
  {
    rows := [XlsxHeader];
    for i := 0 to |reports|
      invariant |rows| == 1 + i && rows[0] == XlsxHeader
      invariant forall k :: 1 <= k < |rows| ==> rows[k] == ToRow(reports[k - 1])
    {
      var r := reports[i];
      rows := rows + [[
        Num(r.id),
        Str(FormatMinute(r.createdAt)),
        Str(r.areaTrabajo),
        Str(r.lugarTrabajo),
        Str(r.especialidad),
        Str(r.actividad),
        Str(if r.fotoAntes.Some? then r.fotoAntes.value else ""),
        Str(if r.fotoDespues.Some? then r.fotoDespues.value else "")
      ]];
    }
  }

  /** `export_pdf`: the `data` list handed to the PDF table, in order.
      `present` is the set of file names found in the upload folder. */
  method ExportPdf(reports: seq<Report>, present: set<string>) returns (data: seq<Row>)
    ensures |data| == 1 + |reports| && data[0] == PdfHeader
    ensures forall i :: 0 <= i < |reports| ==> data[i + 1] == PdfRow(reports[i], present)
  {
    data := [PdfHeader];
    for i := 0 to |reports|
      invariant |data| == 1 + i && data[0] == PdfHeader
      invariant forall k :: 1 <= k < |data| ==> data[k] == PdfRow(reports[k - 1], present)
    {
      var r := reports[i];
      var actividad := if |r.actividad| > 60 then r.actividad[..60] + "..." else r.actividad;
      var row := [Num(r.id), Str(FormatMinute(r.createdAt)), Str(r.areaTrabajo),
                  Str(r.lugarTrabajo), Str(r.especialidad), Str(actividad)];
      row := row + [MakeImg(r.fotoAntes, present)];
      row := row + [MakeImg(r.fotoDespues, present)];
      PdfRowAppended(r, present, actividad, row);
      data := data + [row];
    }
  }

  /** The database may list rows created at the same instant in any order,
      yet every listing of one store yields the same date column, row by row. */
  lemma DateColumnFixed(store: seq<Report>, a: seq<Report>, b: seq<Report>)
    requires IsListing(store, a) && IsListing(store, b)
    ensures |a| == |b|
    ensures forall i :: 0 <= i < |a| ==> ToRow(a[i])[1] == ToRow(b[i])[1]
  {
    ListingsOfStoreAgree(store, a, b);
    forall i | 0 <= i < |a| ensures ToRow(a[i])[1] == ToRow(b[i])[1] {
      assert Times(a)[i] == Times(b)[i];
    }
  }

  /** The response each export is sent with. */
  datatype Format = Csv | Xlsx | Pdf

  function ContentType(f: Format): string {
    match f
    case Csv => "text/csv"
    case Xlsx => "application/vnd.openxmlformats-officedocument.spreadsheetml.sheet"
    case Pdf => "application/pdf"
  }

  /** The attachment name in `Content-Disposition`. */
  function FileName(f: Format): string {
    match f
    case Csv => "reportes.csv"
    case Xlsx => "reportes.xlsx"
    case Pdf => "reportes.pdf"
  }

  /** The rows passed to `writerow` and to `ws.append` are the same after the
      header; only the header rows differ. Every report of the listing yields exactly one row. */
  lemma CsvAndXlsxAgree(reports: seq<Report>, csv: seq<Row>, xlsx: seq<Row>)
    requires |csv| == 1 + |reports| && csv[0] == CsvHeader
    requires forall i :: 0 <= i < |reports| ==> csv[i + 1] == ToRow(reports[i])
    requires |xlsx| == 1 + |reports| && xlsx[0] == XlsxHeader
    requires forall i :: 0 <= i < |reports| ==> xlsx[i + 1] == ToRow(reports[i])
    ensures csv[1..] == xlsx[1..] && csv[0] != xlsx[0]
  {
    assert csv[0][0] != xlsx[0][0];
    forall i | 0 <= i < |reports| ensures csv[1..][i] == xlsx[1..][i] {
      assert csv[1..][i] == csv[i + 1] && xlsx[1..][i] == xlsx[i + 1];
      assert csv[i + 1] == ToRow(reports[i]) == xlsx[i + 1];
    }
  }
}
