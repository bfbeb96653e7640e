/** The editable table of `src/components/DataTable.jsx`: its CSV export and its row edits. */
module Table {
  import opened Common
  import opened Rows

  /** A picked file; only its `name` is ever read. */
  datatype FileRef = FileRef(name: Option<string>)

  /** A stored row. Fields are optional because rows come back from `localStorage` as whatever
      JSON was saved. */
  datatype Row = Row(coronoles: Option<string>, parteDelDia: Option<string>, observaciones: Option<string>,
                     documentoTipo: Option<string>, documentoArchivo: Option<FileRef>,
                     documentoURL: Option<string>, parte: Option<string>, estado: Option<string>)

  const InitialRow: Row := Row(Some(""), Some("Ma\U{00F1}ana"), Some(""), Some("archivo"), None,
                               Some(""), Some(""), Some("Pendiente"))

  const Header: string := "coronoles,partes_del_dia,observaciones,documento,parte,estado"

  /* ---------- CSV export ---------- */

  /** `String(x ?? "")`. */
  function Str(v: Option<string>): string
  {
    match v
    case None => ""
    case Some(s) => s
  }

  /** `replace(/"/g, '""')`. */
  function Escape(s: string): string
    decreases |s|
  {
    if |s| == 0 then ""
    else (if s[0] == '"' then "\"\"" else [s[0]]) + Escape(s[1..])
  }

  /** One quoted field, per section 2 rule 7 of RFC 4180. */
  function Quote(s: string): string
  {
    "\"" + Escape(s) + "\""
  }

  /** `replace(/\n/g, " ")`. */
  function SpaceNewlines(s: string): (r: string)
    ensures |r| == |s|
    ensures forall k :: 0 <= k < |r| ==> r[k] != '\n'
    ensures forall k :: 0 <= k < |s| && s[k] != '\n' ==> r[k] == s[k]
    ensures forall k :: 0 <= k < |s| && s[k] == '\n' ==> r[k] == ' '
  {
    seq(|s|, k requires 0 <= k < |s| => if s[k] == '\n' then ' ' else s[k])
  }

  /** The `documento` column: the URL for URL documents, else the file's name. */
  function DocField(r: Row): string
  {
    if r.documentoTipo == Some("url") then Str(r.documentoURL)
    else match r.documentoArchivo
      case None => ""
      case Some(f) => Str(f.name)
  }

  /** The six column values of a row, or `None` when `r.observaciones.replace` would throw. */
  function Fields(r: Row): (f: Option<seq<string>>)
    ensures f.Some? <==> r.observaciones.Some?
    ensures f.Some? ==> |f.value| == 6
    ensures f.Some? ==> forall k :: 0 <= k < |f.value[2]| ==> f.value[2][k] != '\n'
  {
    match r.observaciones
    case None => None
    case Some(obs) =>
      Some([Str(r.coronoles), Str(r.parteDelDia), SpaceNewlines(obs), DocField(r), Str(r.parte), Str(r.estado)])
  }

  /** Quoted fields joined by commas. */
  function JoinQuoted(fs: seq<string>): string
    requires |fs| > 0
    decreases |fs|
  {
    if |fs| == 1 then Quote(fs[0]) else Quote(fs[0]) + "," + JoinQuoted(fs[1..])
  }

  /** The column values of every row, or `None` when some row would throw. */
  function Records(rows: seq<Row>): (recs: Option<seq<seq<string>>>)
    ensures recs.Some? <==> forall i :: 0 <= i < |rows| ==> rows[i].observaciones.Some?
    ensures recs.Some? ==> |recs.value| == |rows|
    ensures recs.Some? ==> forall i :: 0 <= i < |rows| ==> Fields(rows[i]) == Some(recs.value[i])
    decreases |rows|
  {
    if |rows| == 0 then Some([])
    else match (Fields(rows[0]), Records(rows[1..]))
      case (Some(f), Some(rest)) => Some([f] + rest)
      case _ => None
  }

  /** Each record on its own line, after a line break. */
  function Lines(recs: seq<seq<string>>): string
    requires forall i :: 0 <= i < |recs| ==> |recs[i]| > 0
    decreases |recs|
  {
    if |recs| == 0 then "" else "\n" + JoinQuoted(recs[0]) + Lines(recs[1..])
  }

  /** `toCSV`: the header line, then one line per row; `None` when a row without `observaciones`
      makes the export throw. */
  function ToCSV(rows: seq<Row>): (csv: Option<string>)
    ensures csv.Some? <==> forall i :: 0 <= i < |rows| ==> rows[i].observaciones.Some?
    ensures csv.Some? ==> |csv.value| >= |Header| && csv.value[..|Header|] == Header
    ensures csv.Some? && |rows| == 0 ==> csv.value == Header
    ensures csv.Some? && |rows| > 0 ==> |csv.value| > |Header| && csv.value[|Header|] == '\n'
  {
    match Records(rows)
    case None => None
    case Some(recs) => Some(Header + Lines(recs))
  }

  /* ---------- Reading the CSV back ---------- */

  /** The inside of a quoted field, after its opening quote: a doubled quote stands for one quote,
      a single quote closes the field. Returns the field and what follows the closing quote. */
  function ParseBody(t: string): (p: Option<(string, string)>)
    ensures p.Some? ==> |p.value.1| < |t|
    decreases |t|
  {
    if |t| == 0 then None
    else if t[0] == '"' then
      if |t| >= 2 && t[1] == '"' then
        match ParseBody(t[2..])
        case None => None
        case Some((s, rest)) => Some(("\"" + s, rest))
      else Some(("", t[1..]))
    else
      match ParseBody(t[1..])
      case None => None
      case Some((s, rest)) => Some(([t[0]] + s, rest))
  }

  /** A record of comma-separated quoted fields; returns its fields and the text after it. */
  function ParseRecord(t: string): (p: Option<(seq<string>, string)>)
    ensures p.Some? ==> |p.value.1| < |t|
    decreases |t|
  {
    if |t| == 0 || t[0] != '"' then None
    else
      match ParseBody(t[1..])
      case None => None
      case Some((f, rest)) =>
        if |rest| > 0 && rest[0] == ',' then
          match ParseRecord(rest[1..])
          case None => None
          case Some((fs, rest')) => Some(([f] + fs, rest'))
        else Some(([f], rest))
  }

  /** Records, each introduced by a line break. */
  function ParseLines(t: string): Option<seq<seq<string>>>
    decreases |t|
  {
    if |t| == 0 then Some([])
    else if t[0] != '\n' then None
    else
      match ParseRecord(t[1..])
      case None => None
      case Some((fs, rest)) =>
        match ParseLines(rest)
        case None => None
        case Some(more) => Some([fs] + more)
  }

  /** A whole export: the header line, then the records. */
  function ParseCsv(t: string): Option<seq<seq<string>>>
  {
    if |t| >= |Header| && t[..|Header|] == Header then ParseLines(t[|Header|..]) else None
  }

  /** Unescaping inverts escaping, up to the closing quote. */
  lemma {:induction false} ParseBodyEscape(s: string, rest: string)
    requires |rest| == 0 || rest[0] != '"'
    ensures ParseBody(Escape(s) + "\"" + rest) == Some((s, rest))
    decreases |s|
  {
    var t := Escape(s) + "\"" + rest;
    if |s| == 0 {
      assert t == "\"" + rest;
      assert t[1..] == rest;
    } else {
      ParseBodyEscape(s[1..], rest);
      var tail := Escape(s[1..]) + "\"" + rest;
      if s[0] == '"' {
        assert t == "\"\"" + tail;
        assert t[2..] == tail;
        assert "\"" + s[1..] == s;
      } else {
        assert t == [s[0]] + tail;
        assert t[1..] == tail;
        assert [s[0]] + s[1..] == s;
      }
    }
  }

  /** A quoted field opens with a quote, and its escaped contents and closing quote follow. */
  lemma QuoteSplit(f: string, after: string)
    ensures var t := Quote(f) + after;
      |t| > 0 && t[0] == '"' && t[1..] == Escape(f) + "\"" + after
  {
    var t := Quote(f) + after;
    assert t == "\"" + (Escape(f) + "\"" + after);
  }

  /** A last quoted field followed by neither a comma nor a quote reads back on its own. */
  lemma ParseRecordLast(f: string, rest: string)
    requires |rest| == 0 || (rest[0] != ',' && rest[0] != '"')
    ensures ParseRecord(Quote(f) + rest) == Some(([f], rest))
  {
    QuoteSplit(f, rest);
    ParseBodyEscape(f, rest);
  }

  /** A quoted field followed by a comma reads back, then reading continues after the comma. */
  lemma ParseRecordCons(f: string, tail: string)
    requires ParseRecord(tail).Some?
    ensures ParseRecord(Quote(f) + "," + tail)
         == Some(([f] + ParseRecord(tail).value.0, ParseRecord(tail).value.1))
  {
    var more := "," + tail;
    assert Quote(f) + "," + tail == Quote(f) + more;
    QuoteSplit(f, more);
    ParseBodyEscape(f, more);
    assert more[0] == ',' && more[1..] == tail;
  }

  /** A record of quoted fields parses back into exactly those fields. */
  lemma {:induction false} ParseRecordJoin(fs: seq<string>, rest: string)
    requires |fs| > 0
    requires |rest| == 0 || (rest[0] != ',' && rest[0] != '"')
    ensures ParseRecord(JoinQuoted(fs) + rest) == Some((fs, rest))
    decreases |fs|
  {
    if |fs| == 1 {
      assert JoinQuoted(fs) + rest == Quote(fs[0]) + rest;
      ParseRecordLast(fs[0], rest);
      assert [fs[0]] == fs;
    } else {
      var tail := JoinQuoted(fs[1..]) + rest;
      ParseRecordJoin(fs[1..], rest);
      assert ParseRecord(Quote(fs[0]) + "," + tail) == Some(([fs[0]] + fs[1..], rest)) by {
        ParseRecordCons(fs[0], tail);
      }
      JoinSplit(fs, rest);
      assert [fs[0]] + fs[1..] == fs;
    }
  }

  /** A joined record of two or more fields is its first quoted field, a comma, and the rest. */
  lemma JoinSplit(fs: seq<string>, rest: string)
    requires |fs| > 1
    ensures JoinQuoted(fs) + rest == Quote(fs[0]) + "," + (JoinQuoted(fs[1..]) + rest)
  {
  }

  /** The record lines parse back into the records. */
  lemma {:induction false} ParseLinesRoundTrip(recs: seq<seq<string>>)
    requires forall i :: 0 <= i < |recs| ==> |recs[i]| > 0
    ensures ParseLines(Lines(recs)) == Some(recs)
    decreases |recs|
  {
    if |recs| > 0 {
      var rest := Lines(recs[1..]);
      LinesSplit(recs);
      assert ParseRecord(JoinQuoted(recs[0]) + rest) == Some((recs[0], rest)) by {
        ParseRecordJoin(recs[0], rest);
      }
      ParseLinesRoundTrip(recs[1..]);
      ParseLinesStep(Lines(recs), recs[0], rest, recs[1..]);
      assert [recs[0]] + recs[1..] == recs;
    }
  }

  /** The lines of a non-empty list: a line break, the first record, then the lines of the rest,
      which are empty or open with a line break themselves. */
  lemma LinesSplit(recs: seq<seq<string>>)
    requires |recs| > 0 && forall i :: 0 <= i < |recs| ==> |recs[i]| > 0
    ensures var t := Lines(recs);
      var rest := Lines(recs[1..]);
      && |t| > 0 && t[0] == '\n' && t[1..] == JoinQuoted(recs[0]) + rest
      && (|rest| == 0 || rest[0] == '\n')
  {
    var t := Lines(recs);
    var rest := Lines(recs[1..]);
    assert t == "\n" + (JoinQuoted(recs[0]) + rest);
  }

  /** One step of reading lines: a line break, a record, and the lines after it. */
  lemma ParseLinesStep(t: string, fs: seq<string>, rest: string, more: seq<seq<string>>)
    requires |t| > 0 && t[0] == '\n'
    requires ParseRecord(t[1..]) == Some((fs, rest))
    requires ParseLines(rest) == Some(more)
    ensures ParseLines(t) == Some([fs] + more)
  {
  }


  /** Reading an export back as RFC 4180 CSV, quoted commas, quotes and line breaks included,
      yields every row's six column values in order. */
  lemma CsvRoundTrip(rows: seq<Row>)
    requires ToCSV(rows).Some?
    ensures ParseCsv(ToCSV(rows).value) == Records(rows)
  {
    var recs := Records(rows).value;
    var t := Header + Lines(recs);
    assert t[..|Header|] == Header;
    assert t[|Header|..] == Lines(recs);
    ParseLinesRoundTrip(recs);
  }

  /** The six columns of one exportable row, each missing value read as "". */
  lemma RowColumns(r: Row)
    requires r.observaciones.Some?
    ensures Fields(r).Some?
    ensures Fields(r).value
        == [ (if r.coronoles.Some? then r.coronoles.value else "")
           , (if r.parteDelDia.Some? then r.parteDelDia.value else "")
           , SpaceNewlines(r.observaciones.value)
           , (if r.documentoTipo == Some("url") then
                (if r.documentoURL.Some? then r.documentoURL.value else "")
              else if r.documentoArchivo.Some? then
                (if r.documentoArchivo.value.name.Some? then r.documentoArchivo.value.name.value else "")
              else "")
           , (if r.parte.Some? then r.parte.value else "")
           , (if r.estado.Some? then r.estado.value else "") ]
  {
  }

  /** What a spreadsheet reads back from the export, column by column: record `i` (the header
      line is not a record) holds the row's pairs, kind, remarks with each line break turned into
      a space, the document (URL for URL documents, else the file's name, else empty), the part
      and the state, each missing value read as "". */
  lemma ExportColumns(rows: seq<Row>, i: int)
    requires ToCSV(rows).Some?
    requires 0 <= i < |rows|
    ensures ParseCsv(ToCSV(rows).value).Some?
    ensures |ParseCsv(ToCSV(rows).value).value| == |rows|
    ensures var r := rows[i];
      ParseCsv(ToCSV(rows).value).value[i]
        == [ (if r.coronoles.Some? then r.coronoles.value else "")
           , (if r.parteDelDia.Some? then r.parteDelDia.value else "")
           , SpaceNewlines(r.observaciones.value)
           , (if r.documentoTipo == Some("url") then
                (if r.documentoURL.Some? then r.documentoURL.value else "")
              else if r.documentoArchivo.Some? then
                (if r.documentoArchivo.value.name.Some? then r.documentoArchivo.value.name.value else "")
              else "")
           , (if r.parte.Some? then r.parte.value else "")
           , (if r.estado.Some? then r.estado.value else "") ]
  {
    CsvRoundTrip(rows);
    RowColumns(rows[i]);
  }

  /** A single field with quotes, commas and a line break survives the round trip. */
  lemma QuoteRoundTripExample()
    ensures ParseRecord(Quote("a \"b\",\nc")) == Some((["a \"b\",\nc"], ""))
  {
    var f := "a \"b\",\nc";
    assert JoinQuoted([f]) + "" == Quote(f);
    ParseRecordJoin([f], "");
  }

  /* ---------- Row edits ---------- */

  /** The payload `onSubmit` stores: the draft, with the URL cleared when a file is attached to a
      file-type document. */
  function NormalizeDraft(d: Row): (p: Row)
    ensures p == d.(documentoURL := p.documentoURL)
    ensures p.documentoURL != d.documentoURL ==> d.documentoTipo == Some("archivo") && d.documentoArchivo.Some?
    ensures d.documentoTipo == Some("archivo") && d.documentoArchivo.Some? ==> p.documentoURL == Some("")
  {
    if d.documentoTipo == Some("archivo") && d.documentoArchivo.Some? then d.(documentoURL := Some("")) else d
  }

  /** `onSubmit` on the row list: replace the edited row in edit mode, prepend otherwise. */
  function Submit(rows: seq<Row>, draft: Row, editingIndex: int): (r: seq<Row>)
    ensures editingIndex >= 0 ==> |r| == |rows|
    ensures editingIndex >= 0 ==> forall i :: 0 <= i < |rows| && i != editingIndex ==> r[i] == rows[i]
    ensures 0 <= editingIndex < |rows| ==> r == rows[editingIndex := NormalizeDraft(draft)]
    ensures editingIndex < 0 ==> |r| == |rows| + 1 && r[0] == NormalizeDraft(draft)
    ensures editingIndex < 0 ==> forall i :: 0 <= i < |rows| ==> r[i + 1] == rows[i]
  {
    var payload := NormalizeDraft(draft);
    if editingIndex >= 0 then seq(|rows|, i requires 0 <= i < |rows| => if i == editingIndex then payload else rows[i])
    else [payload] + rows
  }

  /** `r.x || fallback`. */
  function Or(v: Option<string>, fallback: string): string
  {
    if Falsy(v) then fallback else v.value
  }

  /** The draft `startEdit` loads: each field of the row, or its default when missing or empty;
      the file cannot be restored. */
  function EditDraft(r: Row): (d: Row)
    ensures d.documentoArchivo.None?
    ensures d.coronoles.Some? && d.parteDelDia.Some? && d.observaciones.Some? && d.documentoTipo.Some?
         && d.documentoURL.Some? && d.parte.Some? && d.estado.Some?
    ensures !Falsy(r.coronoles) ==> d.coronoles == r.coronoles
    ensures Falsy(r.coronoles) ==> d.coronoles == InitialRow.coronoles
    ensures !Falsy(r.parteDelDia) ==> d.parteDelDia == r.parteDelDia
    ensures Falsy(r.parteDelDia) ==> d.parteDelDia == InitialRow.parteDelDia
    ensures !Falsy(r.observaciones) ==> d.observaciones == r.observaciones
    ensures Falsy(r.observaciones) ==> d.observaciones == InitialRow.observaciones
    ensures !Falsy(r.documentoTipo) ==> d.documentoTipo == r.documentoTipo
    ensures Falsy(r.documentoTipo) ==> d.documentoTipo == InitialRow.documentoTipo
    ensures !Falsy(r.documentoURL) ==> d.documentoURL == r.documentoURL
    ensures Falsy(r.documentoURL) ==> d.documentoURL == InitialRow.documentoURL
    ensures !Falsy(r.parte) ==> d.parte == r.parte
    ensures Falsy(r.parte) ==> d.parte == InitialRow.parte
    ensures !Falsy(r.estado) ==> d.estado == r.estado
    ensures Falsy(r.estado) ==> d.estado == InitialRow.estado
  {
    Row(Some(Or(r.coronoles, "")), Some(Or(r.parteDelDia, "Ma\U{00F1}ana")), Some(Or(r.observaciones, "")),
        Some(Or(r.documentoTipo, "archivo")), None, Some(Or(r.documentoURL, "")),
        Some(Or(r.parte, "")), Some(Or(r.estado, "Pendiente")))
  }

  /** `docLabel`: what the table shows in the document column. */
  function DocLabel(r: Row): string
  {
    if r.documentoTipo == Some("url") && !Falsy(r.documentoURL) then r.documentoURL.value
    else if r.documentoTipo == Some("archivo") then
      (if r.documentoArchivo.Some? && !Falsy(r.documentoArchivo.value.name) then r.documentoArchivo.value.name.value
       else "(archivo)")
    else ""
  }

  /** The table and the CSV agree on the document column except for a file-type document with no
      file name, shown as "(archivo)" but exported empty, and a document of neither type with a
      named file, shown empty but exported with the name. */
  lemma DocLabelVersusCsv(r: Row)
    ensures r.documentoTipo == Some("url") ==> DocLabel(r) == DocField(r)
    ensures r.documentoTipo == Some("archivo") && r.documentoArchivo.Some? && !Falsy(r.documentoArchivo.value.name)
      ==> DocLabel(r) == DocField(r)
    ensures r.documentoTipo == Some("archivo") && (r.documentoArchivo.None? || Falsy(r.documentoArchivo.value.name))
      ==> DocLabel(r) == "(archivo)" && DocField(r) == ""
    ensures r.documentoTipo != Some("url") && r.documentoTipo != Some("archivo") ==> DocLabel(r) == ""
    ensures r.documentoTipo != Some("url") && r.documentoArchivo.Some? && !Falsy(r.documentoArchivo.value.name)
      ==> DocField(r) == r.documentoArchivo.value.name.value
  {
  }

  /** The component's state: the rows, the row being edited (-1 for none) and the form draft. */
  datatype TableState = TableState(rows: seq<Row>, editingIndex: int, draft: Row)

  /** `startEdit(i)`, for a row the table shows. */
  function StartEdit(st: TableState, i: int): (st': TableState)
    requires 0 <= i < |st.rows|
    ensures st'.rows == st.rows && st'.editingIndex == i
    ensures st'.draft == EditDraft(st.rows[i])
  {
    TableState(st.rows, i, EditDraft(st.rows[i]))
  }

  /** `onSubmit`: store the draft, leave edit mode and reset the form. In edit mode only the edited
      row changes, to the normalised draft; otherwise the normalised draft becomes the first row. */
  function OnSubmit(st: TableState): (st': TableState)
    ensures st'.editingIndex == -1 && st'.draft == InitialRow
    ensures st.editingIndex >= 0 ==> |st'.rows| == |st.rows|
    ensures st.editingIndex >= 0 ==>
      forall j :: 0 <= j < |st.rows| && j != st.editingIndex ==> st'.rows[j] == st.rows[j]
    ensures 0 <= st.editingIndex < |st.rows| ==> st'.rows[st.editingIndex] == NormalizeDraft(st.draft)
    ensures st.editingIndex < 0 ==> st'.rows == [NormalizeDraft(st.draft)] + st.rows
  {
    TableState(Submit(st.rows, st.draft, st.editingIndex), -1, InitialRow)
  }

  /** Editing row `i` and saving whatever the form then holds changes row `i` alone, to the
      normalised form, and leaves the table out of edit mode. */
  lemma SaveAfterEdit(st: TableState, i: int, form: Row)
    requires 0 <= i < |st.rows|
    ensures var saved := OnSubmit(StartEdit(st, i).(draft := form));
      && |saved.rows| == |st.rows|
      && saved.rows[i] == NormalizeDraft(form)
      && (forall j :: 0 <= j < |st.rows| && j != i ==> saved.rows[j] == st.rows[j])
      && saved.editingIndex == -1
  {
  }

  /** `removeRow(i)` as written: the row goes, and edit mode ends only when it was the edited row;
      an edited row after `i` keeps its old index although it has moved up by one. */
  function RemoveRow(st: TableState, i: int): (st': TableState)
    ensures st'.rows == RemoveAt(st.rows, i)
    ensures st.editingIndex == i ==> st'.editingIndex == -1 && st'.draft == InitialRow
    ensures st.editingIndex != i ==> st'.editingIndex == st.editingIndex && st'.draft == st.draft
  {
    if st.editingIndex == i then TableState(RemoveAt(st.rows, i), -1, InitialRow)
    else TableState(RemoveAt(st.rows, i), st.editingIndex, st.draft)
  }

  /** The stale index in action: editing the second of three rows, deleting the first, then saving
      overwrites the third row and leaves the edited one as it was. */
  lemma StaleEditIndexExample(a: Row, b: Row, c: Row, edited: Row)
    requires c != NormalizeDraft(edited)
    ensures var st := RemoveRow(TableState([a, b, c], 1, edited), 0);
      OnSubmit(st).rows == [b, NormalizeDraft(edited)] && OnSubmit(st).rows[1] != c
  {
    assert RemoveAt([a, b, c], 0) == [b, c];
  }

  /** `removeRow` with the edited row's index shifted when a row before it goes. */
  function RemoveRowTracked(st: TableState, i: int): (st': TableState)
    ensures st'.rows == RemoveAt(st.rows, i)
    ensures st.editingIndex == i ==> st'.editingIndex == -1 && st'.draft == InitialRow
    ensures 0 <= i < |st.rows| && 0 <= st.editingIndex < |st.rows| && st.editingIndex != i ==>
      0 <= st'.editingIndex < |st'.rows| && st'.rows[st'.editingIndex] == st.rows[st.editingIndex]
  {
    if st.editingIndex == i then TableState(RemoveAt(st.rows, i), -1, InitialRow)
    else
      var e := if 0 <= i < st.editingIndex then st.editingIndex - 1 else st.editingIndex;
      TableState(RemoveAt(st.rows, i), e, st.draft)
  }

  /** With the index tracked, deleting another row and then saving gives the same rows as saving
      and then deleting that row. */
  lemma RemoveThenSubmitCommutes(st: TableState, i: int)
    requires 0 <= i < |st.rows| && 0 <= st.editingIndex < |st.rows| && st.editingIndex != i
    ensures OnSubmit(RemoveRowTracked(st, i)).rows == RemoveAt(OnSubmit(st).rows, i)
  {
    var e := st.editingIndex;
    var p := NormalizeDraft(st.draft);
    var e' := if i < e then e - 1 else e;
    assert OnSubmit(RemoveRowTracked(st, i)).rows == RemoveAt(st.rows, i)[e' := p];
    assert OnSubmit(st).rows == st.rows[e := p];
    UpdateThenRemove(st.rows, e, i, p);
  }

  /** Replacing element `e` and then removing another element `i` is removing `i` first and then
      replacing `e` at its shifted position. */
  lemma UpdateThenRemove<T>(s: seq<T>, e: int, i: int, p: T)
    requires 0 <= i < |s| && 0 <= e < |s| && e != i
    ensures RemoveAt(s, i)[(if i < e then e - 1 else e) := p] == RemoveAt(s[e := p], i)
  {
    var removed := s[..i] + s[i + 1..];
    var e' := if i < e then e - 1 else e;
    var lhs := removed[e' := p];
    var r := s[e := p];
    var rhs := r[..i] + r[i + 1..];
    assert |lhs| == |rhs|;
    forall k | 0 <= k < |lhs|
      ensures lhs[k] == rhs[k]
    {
      if k < i {
        assert removed[k] == s[k];
      } else {
        assert removed[k] == s[k + 1];
      }
    }
    assert lhs == rhs;
  }


}
