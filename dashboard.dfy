/**
 * The dashboard's stored state and the request handlers of app.py that
 * change it. The four JSON files under `data/` (recipients, templates,
 * logs, settings) become the four fields of a `Store`; a handler that
 * loads a file, changes it and saves it back becomes a method that
 * assigns the field. A handler that refuses a request leaves every field
 * as it was.
 */
module Dashboard {
  import opened Wrappers
  import opened Text
  import opened Placeholders
  import opened Upload
  import opened Templates
  import opened Dispatch

  /** The answer to a send request. */
  datatype SendResponse = Completed(results: seq<SendResult>) | Rejected(error: DispatchError)

  datatype ExportError = NoLogs   // 'No email logs to export'

  /** The log entries of a completed batch, in order. */
  function Entries(ds: seq<Delivery>): seq<LogEntry> {
    seq(|ds|, p requires 0 <= p < |ds| => ds[p].entry)
  }

  /** The `results` list of a completed batch, in order. */
  function Results(ds: seq<Delivery>): seq<SendResult> {
    seq(|ds|, p requires 0 <= p < |ds| => ds[p].result)
  }

  /** The response to a batch and the log it leaves. */
  function Respond(b: Batch): SendResponse {
    match b
    case Done(ds) => Completed(Results(ds))
    case Aborted(e, _) => Rejected(e)
  }

  /** The logs after a batch: a completed batch appends its entries, an aborted one saves nothing. */
  function LogsAfter(logs: seq<LogEntry>, b: Batch): seq<LogEntry> {
    match b
    case Done(ds) => logs + Entries(ds)
    case Aborted(_, _) => logs
  }

  /**
   * A send request that reaches the batch grows the log by exactly one
   * entry per in-range selected index when it completes, and leaves it as
   * it was when it aborts.
   */
  lemma LogsGrowBySends(schools: seq<School>, templates: seq<Template>, settings: Settings,
                        comp: Composition, sel: seq<int>, env: Environment, logs: seq<LogEntry>)
    ensures var b := BatchSpec(schools, templates, settings, comp, sel, env);
            && LogsAfter(logs, b)[..|logs|] == logs
            && (b.Done? ==> |LogsAfter(logs, b)| == |logs| + |Kept(sel, |schools|)|)
            && (b.Aborted? ==> LogsAfter(logs, b) == logs)
  {
    var b := BatchSpec(schools, templates, settings, comp, sel, env);
    if b.Done? {
      BatchLogsEverySend(schools, templates, settings, comp, sel, env);
      assert (logs + Entries(b.deliveries))[..|logs|] == logs;
    }
  }

  /**
   * When every stored recipient has a School Name and an Email, as an
   * accepted upload guarantees, every log entry of a completed batch names
   * a school and an address: the loop's `school['Email']` lookups never
   * miss, and no entry records a blank school name.
   */
  lemma BatchLogsNameRecipients(schools: seq<School>, templates: seq<Template>, settings: Settings,
                                comp: Composition, sel: seq<int>, env: Environment)
    requires forall i | 0 <= i < |schools| :: Keep(schools[i])
    ensures var b := BatchSpec(schools, templates, settings, comp, sel, env);
            b.Done? ==> forall p | 0 <= p < |b.deliveries| ::
                          b.deliveries[p].entry.schoolName != "" && b.deliveries[p].entry.email != ""
  {
    var b := BatchSpec(schools, templates, settings, comp, sel, env);
    if b.Done? {
      BatchLogsEverySend(schools, templates, settings, comp, sel, env);
      var k := Kept(sel, |schools|);
      forall p | 0 <= p < |b.deliveries|
        ensures b.deliveries[p].entry.schoolName != "" && b.deliveries[p].entry.email != ""
      {
        var i := k[p];
        assert Keep(SchoolAt(schools, i)) by {
          if i < 0 { assert Keep(schools[|schools| + i]); } else { assert Keep(schools[i]); }
        }
      }
    }
  }

  /** The CSV columns of the log export. */
  const ExportHeader: seq<string> := ["school_name", "email", "template_used", "status", "timestamp", "subject"]

  /** One exported row: the six exported fields, in header order. */
  function ExportRow(e: LogEntry): seq<string> {
    [e.schoolName, e.email, e.templateUsed, e.status, e.timestamp, e.subject]
  }

  /** The exported table: the header, then one row per log entry in log order. */
  function ExportTable(logs: seq<LogEntry>): Result<seq<seq<string>>, ExportError> {
    if logs == [] then Err(NoLogs)
    else Ok([ExportHeader] + seq(|logs|, p requires 0 <= p < |logs| => ExportRow(logs[p])))
  }

  /**
   * Two entries export to the same row exactly when they agree on the six
   * exported fields; the template id and the message id are not exported.
   */
  lemma ExportRowFields(e1: LogEntry, e2: LogEntry)
    ensures |ExportRow(e1)| == |ExportHeader|
    ensures ExportRow(e1) == ExportRow(e2) <==>
              && e1.schoolName == e2.schoolName && e1.email == e2.email
              && e1.templateUsed == e2.templateUsed && e1.status == e2.status
              && e1.timestamp == e2.timestamp && e1.subject == e2.subject
  {
    if ExportRow(e1) == ExportRow(e2) {
      assert ExportRow(e1)[0] == ExportRow(e2)[0];
      assert ExportRow(e1)[1] == ExportRow(e2)[1];
      assert ExportRow(e1)[2] == ExportRow(e2)[2];
      assert ExportRow(e1)[3] == ExportRow(e2)[3];
      assert ExportRow(e1)[4] == ExportRow(e2)[4];
      assert ExportRow(e1)[5] == ExportRow(e2)[5];
    }
  }

  /**
   * The export refuses an empty log; otherwise it has the header and one
   * row per entry, the p-th row being the p-th entry's fields.
   */
  lemma ExportTableSpec(logs: seq<LogEntry>)
    ensures ExportTable(logs).Err? <==> logs == []
    ensures ExportTable(logs).Ok? ==>
              var t := ExportTable(logs).value;
              && |t| == |logs| + 1 && t[0] == ExportHeader
              && forall p | 0 <= p < |logs| :: t[p + 1] == ExportRow(logs[p])
  {
  }

  class Store {
    var schools: seq<School>
    var templates: seq<Template>
    var logs: seq<LogEntry>
    var settings: Settings

    /** Every stored recipient has a School Name and an Email; template ids are distinct. */
    ghost predicate Valid()
      reads this
    {
      && (forall i | 0 <= i < |schools| :: Keep(schools[i]))
      && UniqueIds(templates)
    }

    /** A fresh data directory: no recipients, no logs, the seeded templates. */
    constructor (seed: seq<Template>, initialSettings: Settings)
      requires UniqueIds(seed)
      ensures Valid()
      ensures schools == [] && templates == seed && logs == [] && settings == initialSettings
    {
      schools := [];
      templates := seed;
      logs := [];
      settings := initialSettings;
    }

    /**
     * `upload_csv`: an accepted upload replaces the recipient list and
     * reports how many records it kept; a refused one changes nothing.
     */
    method Upload(rows: seq<Row>) returns (r: Result<nat, UploadError>)
      requires Valid()
      modifies this
      ensures Valid()
      ensures UploadResult(rows).Ok? ==> schools == UploadResult(rows).value && r == Ok(|schools|)
      ensures UploadResult(rows).Err? ==> schools == old(schools) && r == Err(UploadResult(rows).error)
      ensures templates == old(templates) && logs == old(logs) && settings == old(settings)
    {
      var cleaned := CleanUpload(rows);
      match cleaned
      case Err(e) =>
        r := Err(e);
      case Ok(kept) =>
        UploadResultSpec(rows);
        schools := kept;
        r := Ok(|kept|);
    }

    /**
     * `send_emails`: an empty selection is refused; otherwise the batch
     * runs, a completed batch appends its log entries, and an aborted one
     * saves no log at all.
     */
    method SendEmails(templateId: Option<int>, sel: seq<int>, abTesting: bool,
                      customSubject: string, customContent: string, customHtml: string, env: Environment)
      returns (resp: SendResponse)
      requires Valid()
      modifies this
      ensures Valid()
      ensures sel == [] ==> resp == Rejected(NoSchoolsSelected) && logs == old(logs)
      ensures sel != [] ==>
                var b := BatchSpec(schools, templates, settings,
                                   FromTemplate(templateId, abTesting, customSubject, customContent, customHtml),
                                   sel, env);
                resp == Respond(b) && logs == LogsAfter(old(logs), b)
      ensures forall p | |old(logs)| <= p < |logs| :: logs[p].schoolName != "" && logs[p].email != ""
      ensures schools == old(schools) && templates == old(templates) && settings == old(settings)
    {
      if sel == [] {
        return Rejected(NoSchoolsSelected);
      }
      var comp := FromTemplate(templateId, abTesting, customSubject, customContent, customHtml);
      var b := RunBatch(schools, templates, settings, comp, sel, env);
      BatchLogsNameRecipients(schools, templates, settings, comp, sel, env);
      resp := Record(b);
    }

    /**
     * `send_custom_email`: the subject and bodies are stripped; a blank
     * subject, or blank content and html together, is refused before the
     * selection is looked at; then it runs as `send_emails` does.
     */
    method SendCustomEmail(subject: string, content: string, html: string, sel: seq<int>, env: Environment)
      returns (resp: SendResponse)
      requires Valid()
      modifies this
      ensures Valid()
      ensures Strip(subject) == "" || (Strip(content) == "" && Strip(html) == "") ==>
                resp == Rejected(ContentRequired) && logs == old(logs)
      ensures Strip(subject) != "" && (Strip(content) != "" || Strip(html) != "") && sel == [] ==>
                resp == Rejected(NoSchoolsSelected) && logs == old(logs)
      ensures Strip(subject) != "" && (Strip(content) != "" || Strip(html) != "") && sel != [] ==>
                var b := BatchSpec(schools, templates, settings,
                                   Custom(Strip(subject), Strip(content), Strip(html)), sel, env);
                resp == Respond(b) && logs == LogsAfter(old(logs), b)
      ensures forall p | |old(logs)| <= p < |logs| :: logs[p].schoolName != "" && logs[p].email != ""
      ensures schools == old(schools) && templates == old(templates) && settings == old(settings)
    {
      var s, c, h := Strip(subject), Strip(content), Strip(html);
      if s == "" || (c == "" && h == "") {
        return Rejected(ContentRequired);
      }
      if sel == [] {
        return Rejected(NoSchoolsSelected);
      }
      var b := RunBatch(schools, templates, settings, Custom(s, c, h), sel, env);
      BatchLogsNameRecipients(schools, templates, settings, Custom(s, c, h), sel, env);
      resp := Record(b);
    }

    /** Save the outcome of a batch: the log of a completed batch, nothing for an aborted one. */
    method Record(b: Batch) returns (resp: SendResponse)
      requires Valid()
      modifies this
      ensures Valid()
      ensures resp == Respond(b) && logs == LogsAfter(old(logs), b)
      ensures schools == old(schools) && templates == old(templates) && settings == old(settings)
    {
      match b
      case Done(ds) =>
        logs := logs + Entries(ds);
        resp := Completed(Results(ds));
      case Aborted(e, _) =>
        resp := Rejected(e);
    }

    /**
     * `create_template`: with all three stripped fields non-blank, the
     * template is appended with an id above every existing one; otherwise
     * nothing changes.
     */
    method CreateTemplate(name: string, subject: string, content: string) returns (r: Result<Template, TemplateError>)
      requires Valid()
      modifies this
      ensures Valid()
      ensures RequiredFields(name, subject, content).None? ==>
                r == Err(FieldsRequired) && templates == old(templates)
      ensures RequiredFields(name, subject, content).Some? ==>
                var (n, s, c) := RequiredFields(name, subject, content).value;
                && templates == Appended(old(templates), n, s, c)
                && r == Ok(Template(NextId(old(templates)), n, s, c))
      ensures schools == old(schools) && logs == old(logs) && settings == old(settings)
    {
      var fields := RequiredFields(name, subject, content);
      if fields.None? {
        return Err(FieldsRequired);
      }
      var (n, s, c) := fields.value;
      var t := Template(NextId(templates), n, s, c);
      AppendedKeepsIds(templates, n, s, c);
      templates := templates + [t];
      r := Ok(t);
    }

    /**
     * `save_template`: with all three stripped fields non-blank, the first
     * template with the id is overwritten (nothing happens when there is
     * none); otherwise nothing changes.
     */
    method SaveTemplate(id: int, name: string, subject: string, content: string) returns (r: Result<(), TemplateError>)
      requires Valid()
      modifies this
      ensures Valid()
      ensures RequiredFields(name, subject, content).None? ==>
                r == Err(FieldsRequired) && templates == old(templates)
      ensures RequiredFields(name, subject, content).Some? ==>
                var (n, s, c) := RequiredFields(name, subject, content).value;
                r == Ok(()) && templates == ReplaceFirst(old(templates), Template(id, n, s, c))
      ensures schools == old(schools) && logs == old(logs) && settings == old(settings)
    {
      var fields := RequiredFields(name, subject, content);
      if fields.None? {
        return Err(FieldsRequired);
      }
      var (n, s, c) := fields.value;
      var t := Template(id, n, s, c);
      var ts := templates;
      var i := 0;
      while i < |ts|
        invariant 0 <= i <= |ts|
        invariant ts == templates
        invariant forall j | 0 <= j < i :: ts[j].id != id
      {
        if ts[i].id == id {
          FirstIndexAt(ts, id, i);
          ts := ts[i := t];
          break;
        }
        i := i + 1;
      }
      ReplaceFirstKeepsUnique(templates, t);
      templates := ts;
      r := Ok(());
    }

    /** `clear_data`: recipients and logs are emptied; templates and settings stay. */
    method ClearData()
      requires Valid()
      modifies this
      ensures Valid()
      ensures schools == [] && logs == []
      ensures templates == old(templates) && settings == old(settings)
    {
      schools := [];
      logs := [];
    }

    /** `export_logs`: the header, then one row per log entry, built row by row. */
    method ExportLogs() returns (r: Result<seq<seq<string>>, ExportError>)
      ensures r == ExportTable(logs)
    {
      if logs == [] {
        return Err(NoLogs);
      }
      var table := [ExportHeader];
      for p := 0 to |logs|
        invariant |table| == p + 1 && table[0] == ExportHeader
        invariant forall q | 0 <= q < p :: table[q + 1] == ExportRow(logs[q])
      {
        table := table + [ExportRow(logs[p])];
      }
      var ls := logs;
      ghost var rows := seq(|ls|, p requires 0 <= p < |ls| => ExportRow(ls[p]));
      assert table[1..] == rows;
      assert table == [ExportHeader] + table[1..];
      return Ok(table);
    }
  }
}
