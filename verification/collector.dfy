/** The collector itself: the `record` table it keeps in sqlite, the upsert that
    fills it from the server, the conversion of one payload to text and the
    per-record pass that refreshes each row from the file or page its
    `reference` names. Everything outside the process (the file system, HTTP,
    the page selector, MarkItDown, SHA-1, the clock) is an oracle in `Env`. */
module Collector {
  import opened StringOps
  import opened FileTypes
  import opened Timestamps
  import opened Paths

  // ---- the record table ----------------------------------------------------------

  /** The columns `sync_records` copies from the server and nothing else reads. */
  datatype Provenance = Provenance(title: string, groupId: int, createdBy: string, createdAt: string)

  /** What a row's `error` column says. Each alternative is one message the
      collector writes; `Raised` carries the text of an exception raised by the
      network, the page selector or the file system. `TimestampMismatch`
      stands for every message `strptime` raises on a string the format
      rejects. */
  datatype Diagnostic =
    | FileUpToDate(fileTime: DateTime, recordTime: DateTime)
    | UrlUpToDate(lastModified: DateTime, recordTime: DateTime)
    | UnsupportedContentType(contentType: string)
    | FileMissing
    | UnsupportedFormat
    | ConversionFailed
    | MarkItDownUnbound
    | MagicOnText
    | BinaryWriteOfText
    | TimestampMismatch(data: string, format: string)
    | MarkdownTextUnbound
    | Raised(reason: string)

  /** A row of `record`, without its `id`. An empty `reference` stands for both
      `NULL` and `''`; `error == None` is `NULL`. */
  datatype Record = Record(meta: Provenance, text: string, reference: string, updatedAt: string,
                           hash: string, updateFlg: bool, error: Option<Diagnostic>)

  /** The table: its rows by `id`, and the ids in the order the rows were
      inserted, which is the order `SELECT *` returns them in. */
  datatype Table = Table(rows: map<int, Record>, order: seq<int>)

  predicate Wellformed(t: Table) {
    && (forall i, j | 0 <= i < j < |t.order| :: t.order[i] != t.order[j])
    && (forall id | id in t.rows :: id in t.order)
    && (forall i | 0 <= i < |t.order| :: t.order[i] in t.rows)
  }

  /** A row as `fetchall` returns it. */
  datatype Row = Row(id: int, record: Record)

  function Rows(t: Table): (rows: seq<Row>)
    requires Wellformed(t)
    ensures |rows| == |t.order|
    ensures forall i | 0 <= i < |rows| :: rows[i].id == t.order[i] && rows[i].record == t.rows[t.order[i]]
  {
    seq(|t.order|, i requires 0 <= i < |t.order| => Row(t.order[i], t.rows[t.order[i]]))
  }

  /** `UPDATE record SET error = ? WHERE id = ?`. */
  function SetError(rows: map<int, Record>, id: int, d: Diagnostic): (r: map<int, Record>)
    ensures r.Keys == rows.Keys
  {
    if id in rows then rows[id := rows[id].(error := Some(d))] else rows
  }

  /** `UPDATE record SET text = ?, hash = ?, update_flg = 1 WHERE id = ?`. */
  function SetText(rows: map<int, Record>, id: int, text: string, hash: string): (r: map<int, Record>)
    ensures r.Keys == rows.Keys
  {
    if id in rows then rows[id := rows[id].(text := text, hash := hash, updateFlg := true)] else rows
  }

  /** Every row marked for upload holds the SHA-1 of its own text. */
  predicate DirtyHashed(rows: map<int, Record>, sha1: string -> string) {
    forall id | id in rows && rows[id].updateFlg :: rows[id].hash == sha1(rows[id].text)
  }

  // ---- sync_records ----------------------------------------------------------------

  /** One element of the server's `records` list. */
  datatype Incoming = Incoming(id: int, meta: Provenance, text: string, reference: string, updatedAt: string)

  /** The `hash` column `sync_records` writes: the same SHA-1 the pass writes
      for any non-empty text, but empty, not the SHA-1 of `''`, for an empty
      text. */
  function Fingerprint(sha1: string -> string, text: string): (h: string)
    ensures text != "" ==> h == sha1(text)
    ensures text == "" ==> h == ""
  {
    if text == "" then "" else sha1(text)
  }

  /** A row holds every server column of an incoming record. */
  predicate Mirrors(r: Record, inc: Incoming, sha1: string -> string) {
    && r.meta == inc.meta && r.text == inc.text && r.reference == inc.reference
    && r.updatedAt == inc.updatedAt && r.hash == Fingerprint(sha1, inc.text)
  }

  /** The upsert of one incoming record: an `UPDATE` of every server column when
      the id is present, otherwise an `INSERT` with `update_flg` and `error` at
      their defaults. */
  function Upsert(sha1: string -> string, t: Table, inc: Incoming): (r: Table)
    ensures Wellformed(t) ==> Wellformed(r)
    ensures r.rows.Keys == t.rows.Keys + {inc.id}
    ensures forall id | id in t.rows && id != inc.id :: r.rows[id] == t.rows[id]
    ensures Mirrors(r.rows[inc.id], inc, sha1)
    ensures r.rows[inc.id].updateFlg == (inc.id in t.rows && t.rows[inc.id].updateFlg)
    ensures r.rows[inc.id].error == (if inc.id in t.rows then t.rows[inc.id].error else None)
    ensures r.order == (if inc.id in t.rows then t.order else t.order + [inc.id])
  {
    var hash := Fingerprint(sha1, inc.text);
    if inc.id in t.rows then
      var existing := t.rows[inc.id];
      var updated := existing.(meta := inc.meta, text := inc.text, reference := inc.reference,
                           updatedAt := inc.updatedAt, hash := hash);
      Table(t.rows[inc.id := updated], t.order)
    else
      var inserted := Record(inc.meta, inc.text, inc.reference, inc.updatedAt, hash, false, None);
      Table(t.rows[inc.id := inserted], t.order + [inc.id])
  }

  /** The upserts of a list of incoming records, one after the other. */
  function PullAll(sha1: string -> string, t: Table, records: seq<Incoming>): (r: Table)
    ensures Wellformed(t) ==> Wellformed(r)
    ensures forall id | id in t.rows :: id in r.rows
    ensures IsPrefix(t.order, r.order)
    decreases |records|
  {
    if records == [] then t
    else
      var before := PullAll(sha1, t, records[..|records| - 1]);
      var r := Upsert(sha1, before, records[|records| - 1]);
      assert r.order[..|t.order|] == before.order[..|t.order|];
      r
  }

  /** One more record is one more upsert. */
  lemma PullAllStep(sha1: string -> string, t: Table, records: seq<Incoming>, i: nat)
    requires i < |records|
    ensures PullAll(sha1, t, records[..i + 1]) == Upsert(sha1, PullAll(sha1, t, records[..i]), records[i])
  {
    assert records[..i + 1][..i] == records[..i];
  }

  // ---- convert_content ---------------------------------------------------------------

  /** The result of a fetch: the value, or the text of the exception raised. */
  datatype Fetch<T> = Fetched(value: T) | Failed(reason: string)

  /** A path `os.path.exists` accepts: what `os.path.getmtime` gives for it,
      already in local time, and what reading it in binary mode gives. Either
      can raise; a directory has a modification time but cannot be opened. */
  datatype LocalFile = LocalFile(mtime: Fetch<DateTime>, content: Fetch<seq<byte>>)

  /** The headers of a `HEAD` response; an absent header is `''`. */
  datatype Headers = Headers(lastModified: string, contentType: string)

  /** A `GET` response: its body and its `content-type` header (`''` if absent). */
  datatype Response = Response(content: seq<byte>, contentType: string)

  /** The world outside the process.
      - `files`: the paths `os.path.exists` accepts, with their modification
        times and contents;
      - `head`, `get`: `requests.head` and `requests.get`;
      - `select`: `BeautifulSoup(response.text).select_one(selector)`, then
        `get_text()` of the element found;
      - `markItDown`: `MarkItDown.convert` on the temp file of that name holding
        those bytes; `None` when it returns `None` or raises;
      - `decode`: `bytes.decode('utf-8', errors='ignore')`;
      - `sha1`: the hex SHA-1 of the UTF-8 encoding of a text;
      - `stamp`: the `%Y%m%d%H%M%S` clock reading when the temp file for a
        record is named. */
  datatype Env = Env(files: map<string, LocalFile>,
                     head: string -> Fetch<Headers>,
                     get: string -> Fetch<Response>,
                     select: (Response, string) -> Fetch<Option<string>>,
                     markItDown: (string, seq<byte>) -> Option<string>,
                     decode: seq<byte> -> string,
                     sha1: string -> string,
                     stamp: int -> string)

  /** What became of the temp file of one conversion. */
  datatype TempFile = NoTemp | Removed(name: string) | Leaked(name: string)

  /** The effect of a conversion on the temp files on disk. */
  function Disk(temps: set<string>, t: TempFile): set<string> {
    match t
    case NoTemp => temps
    case Removed(name) => temps - {name}
    case Leaked(name) => temps + {name}
  }

  /** What `convert_content` returns (`text`), what it writes to the row's
      `error` column (`error`) and what it leaves on disk (`temp`). */
  datatype Conversion = Conversion(text: Option<string>, error: Option<Diagnostic>, temp: TempFile)

  /** `convert_content`. A conversion through MarkItDown that returns nothing or
      raises ends in the `NameError` of the unbound `markitdown` module named by
      the inner `except` clause. */
  function Convert(env: Env, id: int, content: Payload, contentType: string): (c: Conversion)
    ensures c.text.Some? <==> c.error.None?
    ensures DetectFileType(content, contentType) == Undetected ==>
      c == Conversion(None, Some(UnsupportedFormat), NoTemp)
    ensures DetectFileType(content, contentType) == Detected(Text) ==>
      c.temp == NoTemp && c.text == Some(if content.Bytes? then env.decode(content.data) else content.chars)
    ensures content.Bytes? ==> !c.temp.Leaked?
    ensures content.Chars? ==> !c.temp.Removed?
    ensures c.temp != NoTemp ==>
      exists k | k != Text :: DetectFileType(content, contentType) == Detected(k)
                              && c.temp.name == TempFileName(env.stamp(id), k)
  {
    match DetectFileType(content, contentType)
    case MagicOnChars => Conversion(None, Some(MagicOnText), NoTemp)
    case Undetected => Conversion(None, Some(UnsupportedFormat), NoTemp)
    case Detected(kind) =>
      if kind == Text then
        Conversion(Some(if content.Bytes? then env.decode(content.data) else content.chars), None, NoTemp)
      else
        var name := TempFileName(env.stamp(id), kind);
        if content.Chars? then Conversion(None, Some(BinaryWriteOfText), Leaked(name))
        else
          var converted := env.markItDown(name, content.data);
          if converted.Some? then Conversion(converted, None, Removed(name))
          else Conversion(None, Some(MarkItDownUnbound), Removed(name))
  }

  // ---- process_content, one record -----------------------------------------------------

  /** The final effect of one record on its row. */
  datatype Outcome = Skip | Fail(diagnostic: Diagnostic) | Store(text: string)

  /** One record's outcome, its temp file and the value of `markdown_text`
      afterwards, which the next record may still see. */
  datatype Step = Step(outcome: Outcome, temp: TempFile, carried: Option<string>)

  /** `markdown_text` changes exactly when a text is stored, and then holds
      that text. */
  predicate Carries(s: Step, carried: Option<string>) {
    if s.outcome.Store? then s.carried == Some(s.outcome.text) else s.carried == carried
  }

  /** The common end of every branch that converts: a failed conversion raises
      and the handler records it; otherwise the text is stored. */
  function Converted(c: Conversion, carried: Option<string>): (s: Step)
    ensures Carries(s, carried) && s.temp == c.temp && s.outcome != Skip
  {
    if c.text.Some? then Step(Store(c.text.value), c.temp, c.text)
    else Step(Fail(ConversionFailed), c.temp, carried)
  }

  /** The shared write at the end of the loop body, reached with whatever
      `markdown_text` holds. */
  function FallThrough(markdownText: Option<string>): (s: Step)
    ensures Carries(s, markdownText) && s.temp == NoTemp && s.outcome != Skip
  {
    if markdownText.Some? then Step(Store(markdownText.value), NoTemp, markdownText)
    else Step(Fail(MarkdownTextUnbound), NoTemp, markdownText)
  }

  /** The branch for a reference that names an existing path: its
      modification time is read first, then `updated_at` is parsed, then the
      dates are compared, and only then is the file read. */
  function LocalStep(env: Env, row: Row, carried: Option<string>): (s: Step)
    requires row.record.reference in env.files
    ensures Carries(s, carried) && !s.temp.Leaked? && s.outcome != Skip
  {
    var file := env.files[row.record.reference];
    match file.mtime
    case Failed(reason) => Step(Fail(Raised(reason)), NoTemp, carried)
    case Fetched(fileTime) =>
      match ParseRecordTime(row.record.updatedAt)
      case None => Step(Fail(TimestampMismatch(row.record.updatedAt, RecordFormat)), NoTemp, carried)
      case Some(recordTime) =>
        if row.record.text != "" && NotAfter(fileTime, recordTime) then
          Step(Fail(FileUpToDate(fileTime, recordTime)), NoTemp, carried)
        else
          match file.content
          case Failed(reason) => Step(Fail(Raised(reason)), NoTemp, carried)
          case Fetched(data) =>
            Converted(Convert(env, row.id, Bytes(data), LocalContentType(row.record.reference)), carried)
  }

  /** The branch for `URL,selector`: the text of the selected element goes to
      the converter with the page's content type. */
  function SelectorStep(env: Env, row: Row, carried: Option<string>): (s: Step)
    requires ',' in row.record.reference
    ensures Carries(s, carried) && !s.temp.Removed? && s.outcome != Skip
  {
    var parts := SplitFirst(row.record.reference, ',');
    match env.get(parts.0)
    case Failed(reason) => Step(Fail(Raised(reason)), NoTemp, carried)
    case Fetched(page) =>
      match env.select(page, Strip(parts.1))
      case Failed(reason) => Step(Fail(Raised(reason)), NoTemp, carried)
      case Fetched(selected) =>
        if selected.None? then FallThrough(carried)
        else Converted(Convert(env, row.id, Chars(selected.value), page.contentType), carried)
  }

  /** The download of a bare URL once its `HEAD` has been accepted: the content
      type of the `HEAD` is checked, the one of the `GET` is used. */
  function DownloadStep(env: Env, id: int, url: string, headType: string, carried: Option<string>): (s: Step)
    ensures Carries(s, carried) && !s.temp.Leaked? && s.outcome != Skip
  {
    if !CheckContentType(headType) then Step(Fail(UnsupportedContentType(headType)), NoTemp, carried)
    else
      match env.get(url)
      case Failed(reason) => Step(Fail(Raised(reason)), NoTemp, carried)
      case Fetched(response) =>
        Converted(Convert(env, id, Bytes(response.content), response.contentType), carried)
  }

  /** The branch for a bare URL. The dates are compared only when the row has
      text and the server sent `Last-Modified`. */
  function UrlStep(env: Env, row: Row, carried: Option<string>): (s: Step)
    ensures Carries(s, carried) && !s.temp.Leaked? && s.outcome != Skip
  {
    var url := row.record.reference;
    match env.head(url)
    case Failed(reason) => Step(Fail(Raised(reason)), NoTemp, carried)
    case Fetched(headers) =>
      if row.record.text != "" && headers.lastModified != "" then
        match ParseHttpDate(headers.lastModified)
        case None => Step(Fail(TimestampMismatch(headers.lastModified, HttpDateFormat)), NoTemp, carried)
        case Some(lastModified) =>
          match ParseRecordTime(row.record.updatedAt)
          case None => Step(Fail(TimestampMismatch(row.record.updatedAt, RecordFormat)), NoTemp, carried)
          case Some(recordTime) =>
            if NotAfter(lastModified, recordTime) then
              Step(Fail(UrlUpToDate(lastModified, recordTime)), NoTemp, carried)
            else DownloadStep(env, row.id, url, headers.contentType, carried)
      else DownloadStep(env, row.id, url, headers.contentType, carried)
  }

  /** `reference.lower().startswith('http')`: the reference starts with
      `http` in any mix of cases. */
  function IsWebAddress(reference: string): (ok: bool)
    ensures ok <==> |reference| >= 4 && EqualIgnoringCase(reference[..4], "http")
  {
    if |reference| >= 4 then
      LowerKeepsLowercase("http");
      LowerIdentifiesCase(reference[..4], "http");
      assert Lower(reference)[..4] == Lower(reference[..4]);
      IsPrefix("http", Lower(reference))
    else IsPrefix("http", Lower(reference))
  }

  /** The body of the loop of `process_content` for one row. Only an empty
      reference leaves the row alone, and a temp file can stay behind only
      for a selected text. */
  function RecordStep(env: Env, row: Row, carried: Option<string>): (s: Step)
    ensures Carries(s, carried)
    ensures s.outcome == Skip <==> row.record.reference == ""
    ensures s.temp.Leaked? ==> ',' in row.record.reference && IsWebAddress(row.record.reference)
  {
    var reference := row.record.reference;
    if reference == "" then Step(Skip, NoTemp, carried)
    else if reference in env.files then LocalStep(env, row, carried)
    else if ',' in reference && IsWebAddress(reference) then SelectorStep(env, row, carried)
    else if IsWebAddress(reference) then UrlStep(env, row, carried)
    else Step(Fail(FileMissing), NoTemp, carried)
  }

  // ---- process_content, the whole table -------------------------------------------------

  /** The state the loop carries: the rows, the temp files on disk and
      `markdown_text`. */
  datatype Batch = Batch(rows: map<int, Record>, temps: set<string>, carried: Option<string>)

  function Apply(sha1: string -> string, rows: map<int, Record>, id: int, o: Outcome): (r: map<int, Record>)
    ensures r.Keys == rows.Keys
  {
    match o
    case Skip => rows
    case Fail(d) => SetError(rows, id, d)
    case Store(text) => SetText(rows, id, text, sha1(text))
  }

  function Take(sha1: string -> string, b: Batch, id: int, s: Step): Batch {
    Batch(Apply(sha1, b.rows, id, s.outcome), Disk(b.temps, s.temp), s.carried)
  }

  function Next(env: Env, b: Batch, row: Row): Batch {
    Take(env.sha1, b, row.id, RecordStep(env, row, b.carried))
  }

  /** The loop over the rows `fetchall` returned, first to last. */
  function Run(env: Env, b: Batch, rows: seq<Row>): (r: Batch)
    ensures r.rows.Keys == b.rows.Keys
    decreases |rows|
  {
    if rows == [] then b else Next(env, Run(env, b, rows[..|rows| - 1]), rows[|rows| - 1])
  }

  // ---- the collector object ------------------------------------------------------------

  class DataCollector {
    /** The `record` table of `data.db`. */
    var table: Table
    /** The temp files the collector has left in its working directory. */
    var tempFiles: set<string>

    predicate Valid()
      reads this
    {
      Wellformed(table)
    }

    /** `init_database`: a fresh, empty table. */
    constructor ()
      ensures table == Table(map[], []) && tempFiles == {}
      ensures Valid()
    {
      table := Table(map[], []);
      tempFiles := {};
    }

    method WriteError(id: int, d: Diagnostic)
      requires Valid()
      modifies this
      ensures Valid()
      ensures table == old(table).(rows := SetError(old(table.rows), id, d))
      ensures tempFiles == old(tempFiles)
    {
      table := table.(rows := SetError(table.rows, id, d));
    }

    method WriteText(id: int, text: string, hash: string)
      requires Valid()
      modifies this
      ensures Valid()
      ensures table == old(table).(rows := SetText(old(table.rows), id, text, hash))
      ensures tempFiles == old(tempFiles)
    {
      table := table.(rows := SetText(table.rows, id, text, hash));
    }

    /** One pass of the loop of `sync_records`: the fingerprint, then an
        `UPDATE` of the row with that id or an `INSERT` of a new one. */
    method UpsertRecord(record: Incoming, sha1: string -> string)
      requires Valid()
      modifies this
      ensures Valid()
      ensures table == Upsert(sha1, old(table), record)
      ensures tempFiles == old(tempFiles)
    {
      var hashValue := if record.text != "" then sha1(record.text) else "";
      if record.id in table.rows {
        var updated := table.rows[record.id].(meta := record.meta, text := record.text,
          reference := record.reference, updatedAt := record.updatedAt, hash := hashValue);
        table := table.(rows := table.rows[record.id := updated]);
      } else {
        var inserted := Record(record.meta, record.text, record.reference, record.updatedAt,
                               hashValue, false, None);
        table := Table(table.rows[record.id := inserted], table.order + [record.id]);
      }
    }

    /** `sync_records`: every record of the server's list is upserted in turn;
        a failed request leaves the table as it was. */
    method SyncRecords(response: Fetch<seq<Incoming>>, sha1: string -> string)
      requires Valid()
      modifies this
      ensures Valid()
      ensures response.Failed? ==> table == old(table)
      ensures response.Fetched? ==> table == PullAll(sha1, old(table), response.value)
      ensures tempFiles == old(tempFiles)
    {
      if response.Failed? {
        return;
      }
      var records := response.value;
      var i := 0;
      assert records[..i] == [];
      assert table == PullAll(sha1, old(table), records[..i]);
      while i < |records|
        invariant 0 <= i <= |records|
        invariant Valid()
        invariant table == PullAll(sha1, old(table), records[..i])
        invariant tempFiles == old(tempFiles)
      {
        PullAllStep(sha1, old(table), records, i);
        UpsertRecord(records[i], sha1);
        i := i + 1;
      }
      assert records[..i] == records;
    }

    /** `save_temp_file`: the file is created under its name before the bytes
        are written, so a write that fails leaves it behind. */
    method SaveTempFile(content: Payload, kind: FileKind, stamp: string) returns (name: string, written: bool)
      modifies this
      ensures name == TempFileName(stamp, kind)
      ensures written == content.Bytes?
      ensures tempFiles == old(tempFiles) + {name}
      ensures table == old(table)
    {
      name := "temp_" + stamp + Extensions(kind)[0];
      tempFiles := tempFiles + {name};
      written := content.Bytes?;
    }

    /** `convert_content`. */
    method ConvertContent(env: Env, content: Payload, contentType: string, id: int) returns (text: Option<string>)
      requires Valid()
      modifies this
      ensures Valid()
      ensures var c := Convert(env, id, content, contentType);
        && text == c.text
        && tempFiles == Disk(old(tempFiles), c.temp)
        && table == (if c.error.Some? then old(table).(rows := SetError(old(table.rows), id, c.error.value))
                     else old(table))
    {
      ghost var c := Convert(env, id, content, contentType);
      var detected := DetectFileType(content, contentType);
      if detected.MagicOnChars? {
        assert c == Conversion(None, Some(MagicOnText), NoTemp);
        WriteError(id, MagicOnText);
        return None;
      }
      if detected.Undetected? {
        WriteError(id, UnsupportedFormat);
        return None;
      }
      var kind := detected.kind;
      if kind == Text {
        text := Some(if content.Bytes? then env.decode(content.data) else content.chars);
        return;
      }
      var tempFile, written := SaveTempFile(content, kind, env.stamp(id));
      if !written {
        assert c == Conversion(None, Some(BinaryWriteOfText), Leaked(tempFile));
        WriteError(id, BinaryWriteOfText);
        return None;
      }
      var converted := env.markItDown(tempFile, content.data);
      tempFiles := tempFiles - {tempFile};
      assert c.temp == Removed(tempFile) && c.text == converted;
      if converted.None? {
        WriteError(id, MarkItDownUnbound);
        return None;
      }
      text := converted;
    }

    /** The write shared by the three branches, reached with whatever
        `markdown_text` holds. */
    method FinishRecord(sha1: string -> string, id: int, markdownText: Option<string>)
      requires Valid()
      modifies this
      ensures Valid()
      ensures Batch(table.rows, tempFiles, markdownText) ==
              Take(sha1, Batch(old(table.rows), old(tempFiles), markdownText), id, FallThrough(markdownText))
      ensures table.order == old(table.order)
    {
      if markdownText.None? {
        WriteError(id, MarkdownTextUnbound);
      } else {
        WriteText(id, markdownText.value, sha1(markdownText.value));
      }
    }

    /** The end of a branch after `convert_content`: `None` raises, and the
        handler overwrites the message `convert_content` wrote; text falls
        through to the shared write. */
    method AfterConversion(env: Env, id: int, converted: Option<string>, carried: Option<string>)
      returns (markdownText: Option<string>)
      requires Valid()
      modifies this
      ensures Valid() && table.order == old(table.order) && tempFiles == old(tempFiles)
      ensures converted.None? ==> markdownText == carried && table.rows == SetError(old(table.rows), id, ConversionFailed)
      ensures converted.Some? ==> markdownText == converted && table.rows == SetText(old(table.rows), id, converted.value, env.sha1(converted.value))
    {
      markdownText := carried;
      if converted.None? {
        WriteError(id, ConversionFailed);
        return;
      }
      markdownText := converted;
      FinishRecord(env.sha1, id, markdownText);
    }

    /** `convert_content` followed by the end of the branch that called it. */
    method ConvertRecord(env: Env, id: int, content: Payload, contentType: string, carried: Option<string>)
      returns (markdownText: Option<string>)
      requires Valid()
      modifies this
      ensures Valid() && table.order == old(table.order)
      ensures Batch(table.rows, tempFiles, markdownText) ==
              Take(env.sha1, Batch(old(table.rows), old(tempFiles), carried), id,
                   Converted(Convert(env, id, content, contentType), carried))
    {
      var converted := ConvertContent(env, content, contentType, id);
      markdownText := AfterConversion(env, id, converted, carried);
      ErrorOverwrites(old(table.rows), id);
    }

    /** The local-file branch. It writes the converted text twice: once in the
        branch and once more in the shared write. */
    method ProcessLocalFile(env: Env, row: Row, carried: Option<string>) returns (markdownText: Option<string>)
      requires Valid() && row.record.reference in env.files
      modifies this
      ensures Valid() && table.order == old(table.order)
      ensures Batch(table.rows, tempFiles, markdownText) ==
              Take(env.sha1, Batch(old(table.rows), old(tempFiles), carried), row.id, LocalStep(env, row, carried))
    {
      markdownText := carried;
      var reference := row.record.reference;
      var fileTime := env.files[reference].mtime;
      if fileTime.Failed? {
        WriteError(row.id, Raised(fileTime.reason));
        return;
      }
      var recordTime := ParseRecordTime(row.record.updatedAt);
      if recordTime.None? {
        WriteError(row.id, TimestampMismatch(row.record.updatedAt, RecordFormat));
        return;
      }
      if row.record.text != "" && NotAfter(fileTime.value, recordTime.value) {
        WriteError(row.id, FileUpToDate(fileTime.value, recordTime.value));
        return;
      }
      var content := env.files[reference].content;
      if content.Failed? {
        WriteError(row.id, Raised(content.reason));
        return;
      }
      markdownText := ConvertLocalFile(env, row.id, content.value, LocalContentType(reference), carried);
    }

    /** The conversion of a local file, whose text is written once in the branch
        and once more in the shared write; the second write changes nothing. */
    method ConvertLocalFile(env: Env, id: int, content: seq<byte>, contentType: string, carried: Option<string>)
      returns (markdownText: Option<string>)
      requires Valid()
      modifies this
      ensures Valid() && table.order == old(table.order)
      ensures Batch(table.rows, tempFiles, markdownText) ==
              Take(env.sha1, Batch(old(table.rows), old(tempFiles), carried), id,
                   Converted(Convert(env, id, Bytes(content), contentType), carried))
    {
      var converted := ConvertContent(env, Bytes(content), contentType, id);
      ghost var converting := table.rows;
      if converted.None? {
        markdownText := AfterConversion(env, id, converted, carried);
        ErrorOverwrites(old(table.rows), id);
        return;
      }
      WriteText(id, converted.value, env.sha1(converted.value));
      markdownText := AfterConversion(env, id, converted, carried);
      StoreIdempotent(converting, id, converted.value, env.sha1(converted.value));
    }

    /** The `URL,selector` branch. */
    method ProcessSelection(env: Env, row: Row, carried: Option<string>) returns (markdownText: Option<string>)
      requires Valid() && ',' in row.record.reference
      modifies this
      ensures Valid() && table.order == old(table.order)
      ensures Batch(table.rows, tempFiles, markdownText) ==
              Take(env.sha1, Batch(old(table.rows), old(tempFiles), carried), row.id, SelectorStep(env, row, carried))
    {
      markdownText := carried;
      var parts := SplitFirst(row.record.reference, ',');
      var url, selector := parts.0, parts.1;
      var response := env.get(url);
      if response.Failed? {
        WriteError(row.id, Raised(response.reason));
        return;
      }
      var selected := env.select(response.value, Strip(selector));
      if selected.Failed? {
        WriteError(row.id, Raised(selected.reason));
        return;
      }
      if selected.value.Some? {
        markdownText := ConvertRecord(env, row.id, Chars(selected.value.value), response.value.contentType, carried);
      } else {
        FinishRecord(env.sha1, row.id, markdownText);
      }
    }

    /** The bare-URL branch. */
    method ProcessUrl(env: Env, row: Row, carried: Option<string>) returns (markdownText: Option<string>)
      requires Valid()
      modifies this
      ensures Valid() && table.order == old(table.order)
      ensures Batch(table.rows, tempFiles, markdownText) ==
              Take(env.sha1, Batch(old(table.rows), old(tempFiles), carried), row.id, UrlStep(env, row, carried))
    {
      markdownText := carried;
      var reference := row.record.reference;
      var head := env.head(reference);
      if head.Failed? {
        WriteError(row.id, Raised(head.reason));
        return;
      }
      var lastModified := head.value.lastModified;
      if row.record.text != "" && lastModified != "" {
        var lastModifiedDate := ParseHttpDate(lastModified);
        if lastModifiedDate.None? {
          WriteError(row.id, TimestampMismatch(lastModified, HttpDateFormat));
          return;
        }
        var recordUpdateDate := ParseRecordTime(row.record.updatedAt);
        if recordUpdateDate.None? {
          WriteError(row.id, TimestampMismatch(row.record.updatedAt, RecordFormat));
          return;
        }
        if NotAfter(lastModifiedDate.value, recordUpdateDate.value) {
          WriteError(row.id, UrlUpToDate(lastModifiedDate.value, recordUpdateDate.value));
          return;
        }
      }
      markdownText := Download(env, row.id, reference, head.value.contentType, carried);
    }

    /** The tail of the URL branch: the `HEAD` content type is checked, then the
        `GET` body is converted. */
    method Download(env: Env, id: int, url: string, headType: string, carried: Option<string>)
      returns (markdownText: Option<string>)
      requires Valid()
      modifies this
      ensures Valid() && table.order == old(table.order)
      ensures Batch(table.rows, tempFiles, markdownText) ==
              Take(env.sha1, Batch(old(table.rows), old(tempFiles), carried), id, DownloadStep(env, id, url, headType, carried))
    {
      markdownText := carried;
      if !CheckContentType(headType) {
        WriteError(id, UnsupportedContentType(headType));
        return;
      }
      var response := env.get(url);
      if response.Failed? {
        WriteError(id, Raised(response.reason));
        return;
      }
      markdownText := ConvertRecord(env, id, Bytes(response.value.content), response.value.contentType, carried);
    }

    /** One pass of the loop body of `process_content`. */
    method ProcessRecord(env: Env, row: Row, carried: Option<string>) returns (markdownText: Option<string>)
      requires Valid()
      modifies this
      ensures Valid() && table.order == old(table.order)
      ensures Batch(table.rows, tempFiles, markdownText) ==
              Take(env.sha1, Batch(old(table.rows), old(tempFiles), carried), row.id, RecordStep(env, row, carried))
    {
      markdownText := carried;
      var reference := row.record.reference;
      if reference == "" {
        return;
      }
      if reference in env.files {
        markdownText := ProcessLocalFile(env, row, carried);
      } else if ',' in reference && IsWebAddress(reference) {
        markdownText := ProcessSelection(env, row, carried);
      } else if IsWebAddress(reference) {
        markdownText := ProcessUrl(env, row, carried);
      } else {
        WriteError(row.id, FileMissing);
      }
    }

    /** `process_content`: every row of the table, in table order, against the
        rows as they were read at the start. */
    method ProcessContent(env: Env)
      requires Valid()
      modifies this
      ensures Valid() && table.order == old(table.order)
      ensures Batch(table.rows, tempFiles, Run(env, Batch(old(table.rows), old(tempFiles), None), Rows(old(table))).carried)
              == Run(env, Batch(old(table.rows), old(tempFiles), None), Rows(old(table)))
    {
      var records := Rows(table);
      var markdownText: Option<string> := None;
      var i := 0;
      while i < |records|
        invariant 0 <= i <= |records|
        invariant Valid() && table.order == old(table.order)
        invariant Batch(table.rows, tempFiles, markdownText) ==
                  Run(env, Batch(old(table.rows), old(tempFiles), None), records[..i])
      {
        markdownText := ProcessRecord(env, records[i], markdownText);
        assert records[..i + 1][..i] == records[..i];
        i := i + 1;
      }
      assert records[..i] == records;
    }

    /** `main` without the upload: a fresh table, the sync, then the pass over
        the rows. */
    method Collect(response: Fetch<seq<Incoming>>, env: Env)
      requires Valid() && table == Table(map[], [])
      modifies this
      ensures Valid()
      ensures var synced := PullAll(env.sha1, Table(map[], []), if response.Fetched? then response.value else []);
        var done := Run(env, Batch(synced.rows, old(tempFiles), None), Rows(synced));
        table == Table(done.rows, synced.order) && tempFiles == done.temps
      ensures DirtyHashed(table.rows, env.sha1)
    {
      SyncRecords(response, env.sha1);
      FreshPullIsClean(env.sha1, if response.Fetched? then response.value else []);
      ghost var synced, temps := table, tempFiles;
      ProcessContent(env);
      RunKeepsDirtyHashed(env, Batch(synced.rows, temps, None), Rows(synced));
    }
  }

  // ---- lemmas: the row writes ----------------------------------------------------------

  /** A second error message replaces the first. */
  lemma ErrorOverwrites(rows: map<int, Record>, id: int)
    ensures forall d1, d2 :: SetError(SetError(rows, id, d1), id, d2) == SetError(rows, id, d2)
  {
  }

  /** Writing the same text twice is writing it once. */
  lemma StoreIdempotent(rows: map<int, Record>, id: int, text: string, hash: string)
    ensures SetText(SetText(rows, id, text, hash), id, text, hash) == SetText(rows, id, text, hash)
  {
  }

  // ---- lemmas: sync_records --------------------------------------------------------------

  /** After the upserts the table holds exactly the rows it held and one row
      per incoming id. */
  lemma {:induction false} PullKeys(sha1: string -> string, t: Table, records: seq<Incoming>)
    ensures forall id :: id in PullAll(sha1, t, records).rows <==>
      id in t.rows || exists k | 0 <= k < |records| :: records[k].id == id
  {
    if records != [] {
      var n := |records| - 1;
      PullKeys(sha1, t, records[..n]);
      forall id | exists k | 0 <= k < n + 1 :: records[k].id == id
        ensures id in PullAll(sha1, t, records).rows
      {
        var k :| 0 <= k < n + 1 && records[k].id == id;
        if k < n {
          assert records[..n][k].id == id;
        }
      }
      forall id | id in PullAll(sha1, t, records).rows && id !in t.rows && id != records[n].id
        ensures exists k | 0 <= k < |records| :: records[k].id == id
      {
        var k :| 0 <= k < n && records[..n][k].id == id;
        assert records[k].id == id;
      }
    }
  }

  /** The last incoming record with a given id decides every server column of
      its row. */
  lemma {:induction false} PullLastWins(sha1: string -> string, t: Table, records: seq<Incoming>, j: nat)
    requires j < |records|
    requires forall k | j < k < |records| :: records[k].id != records[j].id
    ensures records[j].id in PullAll(sha1, t, records).rows
    ensures Mirrors(PullAll(sha1, t, records).rows[records[j].id], records[j], sha1)
  {
    var n := |records| - 1;
    if j < n {
      var prefix := records[..n];
      forall k | j < k < |prefix|
        ensures prefix[k].id != prefix[j].id
      {
        assert prefix[k] == records[k];
      }
      PullLastWins(sha1, t, prefix, j);
      assert prefix[j] == records[j];
    }
  }

  /** The upserts never touch `update_flg` or `error`: a row that was there
      keeps both, a new row starts unmarked and without error. */
  lemma {:induction false} PullKeepsStatus(sha1: string -> string, t: Table, records: seq<Incoming>)
    ensures var r := PullAll(sha1, t, records).rows;
      forall id | id in r ::
        if id in t.rows then r[id].updateFlg == t.rows[id].updateFlg && r[id].error == t.rows[id].error
        else !r[id].updateFlg && r[id].error == None
  {
    if records != [] {
      PullKeepsStatus(sha1, t, records[..|records| - 1]);
    }
  }

  /** A sync into the fresh table of a run marks no row for upload and leaves
      every `error` empty. */
  lemma FreshPullIsClean(sha1: string -> string, records: seq<Incoming>)
    ensures var t := PullAll(sha1, Table(map[], []), records);
      && Wellformed(t)
      && (forall id | id in t.rows :: !t.rows[id].updateFlg && t.rows[id].error == None)
      && DirtyHashed(t.rows, sha1)
  {
    PullKeepsStatus(sha1, Table(map[], []), records);
  }

  // ---- lemmas: the pass over the rows ----------------------------------------------------

  /** A write keeps every marked row hashed. */
  lemma ApplyKeepsDirtyHashed(sha1: string -> string, rows: map<int, Record>, id: int, o: Outcome)
    requires DirtyHashed(rows, sha1)
    ensures DirtyHashed(Apply(sha1, rows, id, o), sha1)
  {
  }

  /** `update_flg = 1` implies `hash = SHA1(text)` before the pass implies it after. */
  lemma {:induction false} RunKeepsDirtyHashed(env: Env, b: Batch, rows: seq<Row>)
    requires DirtyHashed(b.rows, env.sha1)
    ensures DirtyHashed(Run(env, b, rows).rows, env.sha1)
  {
    if rows != [] {
      var n := |rows| - 1;
      RunKeepsDirtyHashed(env, b, rows[..n]);
      var before := Run(env, b, rows[..n]);
      ApplyKeepsDirtyHashed(env.sha1, before.rows, rows[n].id, RecordStep(env, rows[n], before.carried).outcome);
    }
  }

  /** One record changes its own row and no other; and in that row either only
      `error` changes, or `text`, `hash` and `update_flg` change together, with
      the row marked and hashed. */
  lemma NextChangesOwnRow(env: Env, b: Batch, row: Row)
    ensures var r := Next(env, b, row).rows;
      forall id | id in b.rows && id != row.id :: r[id] == b.rows[id]
    ensures row.id in b.rows ==>
      var before, after := b.rows[row.id], Next(env, b, row).rows[row.id];
      && after.meta == before.meta && after.reference == before.reference && after.updatedAt == before.updatedAt
      && (after.error != before.error ==>
            after.text == before.text && after.hash == before.hash && after.updateFlg == before.updateFlg)
      && (after.text != before.text || after.hash != before.hash || after.updateFlg != before.updateFlg ==>
            after.error == before.error && after.updateFlg && after.hash == env.sha1(after.text))
  {
  }

  /** A row whose reference is empty in the snapshot is left exactly as it was
      by the whole pass. */
  lemma {:induction false} EmptyReferenceRowsUntouched(env: Env, b: Batch, rows: seq<Row>, id: int)
    requires forall k | 0 <= k < |rows| && rows[k].id == id :: rows[k].record.reference == ""
    requires id in b.rows
    ensures Run(env, b, rows).rows[id] == b.rows[id]
  {
    if rows != [] {
      var n := |rows| - 1;
      forall k | 0 <= k < n && rows[..n][k].id == id
        ensures rows[..n][k].record.reference == ""
      {
        assert rows[..n][k] == rows[k];
      }
      EmptyReferenceRowsUntouched(env, b, rows[..n], id);
    }
  }

  /** Marks only appear: the pass never clears `update_flg`. */
  lemma {:induction false} RunKeepsMarks(env: Env, b: Batch, rows: seq<Row>, id: int)
    requires id in b.rows && b.rows[id].updateFlg
    ensures Run(env, b, rows).rows[id].updateFlg
  {
    if rows != [] {
      RunKeepsMarks(env, b, rows[..|rows| - 1], id);
    }
  }

  // ---- lemmas: which branch a reference takes ----------------------------------------------

  /** An empty reference is skipped: no write, no temp file, `markdown_text` kept. */
  lemma EmptyReferenceSkipped(env: Env, row: Row, carried: Option<string>)
    requires row.record.reference == ""
    ensures RecordStep(env, row, carried) == Step(Skip, NoTemp, carried)
  {
  }

  /** An existing path is read as a file even when it looks like a URL, and the
      network plays no part in what happens to it. */
  lemma ExistingPathWins(env: Env, row: Row, carried: Option<string>,
                         head: string -> Fetch<Headers>, get: string -> Fetch<Response>,
                         select: (Response, string) -> Fetch<Option<string>>)
    requires row.record.reference != "" && row.record.reference in env.files
    ensures RecordStep(env, row, carried) == LocalStep(env, row, carried)
    ensures RecordStep(env.(head := head, get := get, select := select), row, carried) == RecordStep(env, row, carried)
  {
    var offline := env.(head := head, get := get, select := select);
    var file := env.files[row.record.reference];
    if file.content.Fetched? {
      ConvertOffline(env, offline, row.id, Bytes(file.content.value), LocalContentType(row.record.reference));
    }
    assert LocalStep(offline, row, carried) == LocalStep(env, row, carried);
  }

  /** A conversion reads the converter, the decoder and the clock, not the network. */
  lemma ConvertOffline(env: Env, other: Env, id: int, content: Payload, contentType: string)
    requires other.markItDown == env.markItDown && other.decode == env.decode && other.stamp == env.stamp
    ensures Convert(other, id, content, contentType) == Convert(env, id, content, contentType)
  {
  }

  /** A reference that is no existing path and does not start with `http` in
      any case is reported missing; nothing is converted for it. */
  lemma MissingFileReported(env: Env, row: Row, carried: Option<string>)
    requires row.record.reference != "" && row.record.reference !in env.files
    requires !IsWebAddress(row.record.reference)
    ensures RecordStep(env, row, carried) == Step(Fail(FileMissing), NoTemp, carried)
  {
  }

  /** `split(',', 1)` cuts at the first comma: the URL is the text before it and
      the selector everything after it, commas included. */
  lemma {:induction false} SplitAtFirstComma(url: string, selector: string)
    requires ',' !in url
    ensures SplitFirst(url + [','] + selector, ',') == (url, selector)
  {
    var s := url + [','] + selector;
    assert s[..|url|] == url;
    assert s[|url| + 1..] == selector;
    assert s[|url|] == ',';
  }

  /** A web address with a comma always takes the selector branch, so such a
      URL is never downloaded whole. */
  lemma CommaMeansSelection(env: Env, row: Row, carried: Option<string>)
    requires row.record.reference != "" && row.record.reference !in env.files
    requires ',' in row.record.reference && IsWebAddress(row.record.reference)
    ensures RecordStep(env, row, carried) == SelectorStep(env, row, carried)
  {
  }

  /** A reference that is no existing path, has no comma and starts with
      `http` in any case takes the bare-URL branch. */
  lemma BareUrlTakesUrlStep(env: Env, row: Row, carried: Option<string>)
    requires row.record.reference != "" && row.record.reference !in env.files
    requires ',' !in row.record.reference && IsWebAddress(row.record.reference)
    ensures RecordStep(env, row, carried) == UrlStep(env, row, carried)
  {
  }

  // ---- lemmas: the local-file branch -----------------------------------------------------

  /** A path whose modification time cannot be read fails with the error
      raised, before `updated_at` is looked at. */
  lemma LocalStatFailureRaises(env: Env, row: Row, carried: Option<string>, reason: string)
    requires row.record.reference != "" && row.record.reference in env.files
    requires env.files[row.record.reference].mtime == Failed(reason)
    ensures RecordStep(env, row, carried) == Step(Fail(Raised(reason)), NoTemp, carried)
  {
  }

  /** A file not newer than the row's `updated_at` is not read when the row has
      text: only the up-to-date message is written. */
  lemma LocalUpToDate(env: Env, row: Row, carried: Option<string>, fileTime: DateTime, recordTime: DateTime)
    requires row.record.reference != "" && row.record.reference in env.files
    requires row.record.text != ""
    requires env.files[row.record.reference].mtime == Fetched(fileTime)
    requires ParseRecordTime(row.record.updatedAt) == Some(recordTime)
    requires NotAfter(fileTime, recordTime)
    ensures RecordStep(env, row, carried) == Step(Fail(FileUpToDate(fileTime, recordTime)), NoTemp, carried)
  {
  }

  /** For a readable file and a parsed `updated_at`, the file is converted
      unless the row has text and the file is not newer than the row. */
  lemma LocalFreshnessDecides(env: Env, row: Row, carried: Option<string>, fileTime: DateTime,
                              recordTime: DateTime, data: seq<byte>)
    requires row.record.reference != "" && row.record.reference in env.files
    requires env.files[row.record.reference] == LocalFile(Fetched(fileTime), Fetched(data))
    requires ParseRecordTime(row.record.updatedAt) == Some(recordTime)
    ensures RecordStep(env, row, carried) ==
            if row.record.text != "" && NotAfter(fileTime, recordTime)
            then Step(Fail(FileUpToDate(fileTime, recordTime)), NoTemp, carried)
            else Converted(Convert(env, row.id, Bytes(data), LocalContentType(row.record.reference)), carried)
  {
  }

  /** A path that exists but cannot be read, such as a directory, is still
      reported up to date when the dates say so; otherwise the error raised by
      the read is recorded. */
  lemma UnreadablePath(env: Env, row: Row, carried: Option<string>, fileTime: DateTime, recordTime: DateTime,
                       reason: string)
    requires row.record.reference != "" && row.record.reference in env.files
    requires env.files[row.record.reference] == LocalFile(Fetched(fileTime), Failed(reason))
    requires ParseRecordTime(row.record.updatedAt) == Some(recordTime)
    ensures RecordStep(env, row, carried) ==
            if row.record.text != "" && NotAfter(fileTime, recordTime)
            then Step(Fail(FileUpToDate(fileTime, recordTime)), NoTemp, carried)
            else Step(Fail(Raised(reason)), NoTemp, carried)
  {
  }

  /** A file modified during the very second the row was last updated counts as
      newer, so it is converted again. */
  lemma SameSecondFileIsConverted(env: Env, row: Row, carried: Option<string>, recordTime: DateTime,
                                  fileTime: DateTime, data: seq<byte>)
    requires row.record.reference != "" && row.record.reference in env.files
    requires env.files[row.record.reference] == LocalFile(Fetched(fileTime), Fetched(data))
    requires ParseRecordTime(row.record.updatedAt) == Some(recordTime)
    requires fileTime == recordTime.(micro := fileTime.micro) && fileTime.micro > 0
    ensures RecordStep(env, row, carried) ==
            Converted(Convert(env, row.id, Bytes(data), LocalContentType(row.record.reference)), carried)
  {
    FractionIsLater(recordTime, fileTime.micro);
  }

  /** The row's `updated_at` is parsed before its text is looked at, so a row
      without text but with a malformed `updated_at` is never converted. */
  lemma LocalNeedsRecordTime(env: Env, row: Row, carried: Option<string>)
    requires row.record.reference != "" && row.record.reference in env.files
    requires env.files[row.record.reference].mtime.Fetched?
    requires ParseRecordTime(row.record.updatedAt) == None
    ensures RecordStep(env, row, carried) ==
            Step(Fail(TimestampMismatch(row.record.updatedAt, RecordFormat)), NoTemp, carried)
  {
  }

  /** A local `.docx` file is detected as Word from its extension and handed to
      MarkItDown under the legacy `.doc` name; the temp file is gone afterwards. */
  lemma LocalDocxConvertedAsDoc(env: Env, id: int, dir: string, stem: string, data: seq<byte>)
    requires '/' !in stem && exists k | 0 <= k < |stem| :: stem[k] != '.'
    ensures var name := "temp_" + env.stamp(id) + ".doc";
      var converted := env.markItDown(name, data);
      Convert(env, id, Bytes(data), LocalContentType(dir + stem + ".docx")) ==
        if converted.Some? then Conversion(converted, None, Removed(name))
        else Conversion(None, Some(MarkItDownUnbound), Removed(name))
  {
    var contentType := LocalContentType(dir + stem + ".docx");
    DocxPathType(dir, stem);
    DocxTypeIsWord();
    ClaimBeatsContent(Bytes(data), contentType, Word);
    BinaryConversionUsesMarkItDown(env, id, data, contentType, Word);
  }

  /** Bytes detected as a kind other than text go through a temp file named for
      that kind, which is removed afterwards. */
  lemma BinaryConversionRemovesTemp(env: Env, id: int, data: seq<byte>, contentType: string, k: FileKind)
    requires k != Text && DetectFileType(Bytes(data), contentType) == Detected(k)
    ensures Convert(env, id, Bytes(data), contentType).temp == Removed(TempFileName(env.stamp(id), k))
  {
    BinaryConversionUsesMarkItDown(env, id, data, contentType, k);
  }

  /** Bytes detected as a kind other than text are handed to MarkItDown in the
      temp file named for that kind. Its text is the result; when it gives
      none, the row gets the `NameError` of the unbound `markitdown` module. */
  lemma BinaryConversionUsesMarkItDown(env: Env, id: int, data: seq<byte>, contentType: string, k: FileKind)
    requires k != Text && DetectFileType(Bytes(data), contentType) == Detected(k)
    ensures var name := TempFileName(env.stamp(id), k);
      var converted := env.markItDown(name, data);
      Convert(env, id, Bytes(data), contentType) ==
        if converted.Some? then Conversion(converted, None, Removed(name))
        else Conversion(None, Some(MarkItDownUnbound), Removed(name))
  {
  }

  /** A local `.docx` file that is newer than its row, or whose row has no
      text, is stored with the text MarkItDown makes of `temp_<stamp>.doc`,
      which is then removed, and `markdown_text` holds that text for the next
      record. */
  lemma LocalDocxStep(env: Env, row: Row, carried: Option<string>, dir: string, stem: string, data: seq<byte>,
                      fileTime: DateTime, recordTime: DateTime, text: string)
    requires '/' !in stem && exists k | 0 <= k < |stem| :: stem[k] != '.'
    requires row.record.reference == dir + stem + ".docx"
    requires row.record.reference in env.files
    requires env.files[row.record.reference] == LocalFile(Fetched(fileTime), Fetched(data))
    requires ParseRecordTime(row.record.updatedAt) == Some(recordTime)
    requires row.record.text == "" || !NotAfter(fileTime, recordTime)
    requires env.markItDown("temp_" + env.stamp(row.id) + ".doc", data) == Some(text)
    ensures RecordStep(env, row, carried) == Step(Store(text), Removed("temp_" + env.stamp(row.id) + ".doc"), Some(text))
  {
    LocalDocxConvertedAsDoc(env, row.id, dir, stem, data);
    assert LocalStep(env, row, carried) ==
      Converted(Convert(env, row.id, Bytes(data), LocalContentType(row.record.reference)), carried);
  }

  /** The row of such a file gets that text, its SHA-1 and the upload flag. */
  lemma LocalDocxStored(env: Env, b: Batch, row: Row, dir: string, stem: string, data: seq<byte>,
                        fileTime: DateTime, recordTime: DateTime, text: string)
    requires '/' !in stem && exists k | 0 <= k < |stem| :: stem[k] != '.'
    requires row.record.reference == dir + stem + ".docx"
    requires row.record.reference in env.files
    requires env.files[row.record.reference] == LocalFile(Fetched(fileTime), Fetched(data))
    requires ParseRecordTime(row.record.updatedAt) == Some(recordTime)
    requires row.record.text == "" || !NotAfter(fileTime, recordTime)
    requires env.markItDown("temp_" + env.stamp(row.id) + ".doc", data) == Some(text)
    requires row.id in b.rows
    ensures var r := Next(env, b, row).rows[row.id];
      r.text == text && r.hash == env.sha1(text) && r.updateFlg
  {
    LocalDocxStep(env, row, b.carried, dir, stem, data, fileTime, recordTime, text);
  }

  lemma DocxPathType(dir: string, stem: string)
    requires '/' !in stem && exists k | 0 <= k < |stem| :: stem[k] != '.'
    ensures LocalContentType(dir + stem + ".docx") == Render(Registry(Word)[1])
  {
    ExtensionOfFileName(dir, stem, ".docx");
    LowerKeepsLowercase(".docx");
    TableEntries();
  }

  // ---- lemmas: the bare-URL branch ---------------------------------------------------------

  /** Without text the dates are not compared at all: neither a malformed
      `Last-Modified` nor a malformed `updated_at` stops the download. */
  lemma UrlWithoutTextIgnoresDates(env: Env, row: Row, carried: Option<string>, headers: Headers)
    requires row.record.text == ""
    requires env.head(row.record.reference) == Fetched(headers)
    ensures UrlStep(env, row, carried) == DownloadStep(env, row.id, row.record.reference, headers.contentType, carried)
  {
  }

  /** For a row with text and a `Last-Modified` header, both dates parsed, the
      page is downloaded only when it is strictly newer than the row. */
  lemma UrlFreshnessDecides(env: Env, row: Row, carried: Option<string>, headers: Headers,
                            lastModified: DateTime, recordTime: DateTime)
    requires row.record.reference != "" && row.record.reference !in env.files
    requires ',' !in row.record.reference && IsWebAddress(row.record.reference)
    requires row.record.text != ""
    requires env.head(row.record.reference) == Fetched(headers) && headers.lastModified != ""
    requires ParseHttpDate(headers.lastModified) == Some(lastModified)
    requires ParseRecordTime(row.record.updatedAt) == Some(recordTime)
    ensures RecordStep(env, row, carried) ==
            if NotAfter(lastModified, recordTime)
            then Step(Fail(UrlUpToDate(lastModified, recordTime)), NoTemp, carried)
            else DownloadStep(env, row.id, row.record.reference, headers.contentType, carried)
  {
  }

  /** A page last modified in 2019 is up to date for a row with text updated at
      the start of 2020. */
  lemma UrlUpToDateExample(env: Env, row: Row, carried: Option<string>, contentType: string)
    requires row.record.reference != "" && row.record.reference !in env.files
    requires ',' !in row.record.reference && IsWebAddress(row.record.reference)
    requires row.record.text != "" && row.record.updatedAt == "2020-01-01 00:00:00"
    requires env.head(row.record.reference) == Fetched(Headers("Tue, 01 Jan 2019 00:00:00 GMT", contentType))
    ensures RecordStep(env, row, carried) ==
            Step(Fail(UrlUpToDate(DateTime(2019, 1, 1, 0, 0, 0, 0), DateTime(2020, 1, 1, 0, 0, 0, 0))), NoTemp, carried)
  {
    RecordTimeExample();
    HttpDateExample();
  }

  /** A `HEAD` content type that no kind claims ends the record before any
      download, whatever `GET` would have returned. */
  lemma UnsupportedTypeNeverDownloads(env: Env, id: int, url: string, headType: string, carried: Option<string>)
    requires !CheckContentType(headType)
    ensures forall get: string -> Fetch<Response> ::
      DownloadStep(env.(get := get), id, url, headType, carried) ==
        Step(Fail(UnsupportedContentType(headType)), NoTemp, carried)
  {
  }

  /** The `HEAD` content type only gates the download; the `GET` content type
      alone decides the conversion. */
  lemma GetTypeDecides(env: Env, id: int, url: string, headType: string, carried: Option<string>, response: Response)
    requires headType != "" && ClaimedKind(headType).Some?
    requires env.get(url) == Fetched(response)
    ensures DownloadStep(env, id, url, headType, carried) ==
            Converted(Convert(env, id, Bytes(response.content), response.contentType), carried)
  {
    CheckAgreesWithDetector(headType);
  }

  // ---- lemmas: the selector branch -------------------------------------------------------

  /** The selected text is a `str`, so it is stored only when the page's
      content type claims `text`; any other claimed kind fails while writing the
      temp file, which stays on disk; no claim fails in the magic-number stage. */
  lemma SelectedTextConvertsOnlyAsText(env: Env, id: int, text: string, contentType: string)
    ensures var c := Convert(env, id, Chars(text), contentType);
      && (c.text.Some? <==> contentType != "" && ClaimedKind(contentType) == Some(Text))
      && (c.text.Some? ==> c.text == Some(text))
      && (c.temp.Leaked? <==> contentType != "" && ClaimedKind(contentType).Some? && ClaimedKind(contentType) != Some(Text))
      && (contentType == "" || ClaimedKind(contentType).None? ==> c.error == Some(MagicOnText))
  {
    if contentType == "" || ClaimedKind(contentType).None? {
      UnclaimedUsesMagic(Chars(text), contentType);
    }
  }

  /** When the selector finds nothing the loop body still reaches the shared
      write: it stores the text left over from an earlier record, or fails on
      the unbound `markdown_text` when there is none. */
  lemma SelectorMissReusesCarried(env: Env, row: Row, carried: Option<string>, page: Response)
    requires ',' in row.record.reference
    requires env.get(SplitFirst(row.record.reference, ',').0) == Fetched(page)
    requires env.select(page, Strip(SplitFirst(row.record.reference, ',').1)) == Fetched(None)
    ensures var s := SelectorStep(env, row, carried);
      && s.carried == carried && s.temp == NoTemp
      && (carried.Some? ==> s.outcome == Store(carried.value))
      && (carried.None? ==> s.outcome == Fail(MarkdownTextUnbound))
  {
  }
}
