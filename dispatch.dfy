/**
 * The dispatch loops of `send_emails` and `send_custom_email` (app.py).
 * Both walk the selected indices in order, skip an index past the end of
 * the recipient list, compose and merge the message, call the gateway once
 * and record exactly one log entry and one result for the call.
 *
 * The gateway (`resend.Emails.send`), the clock (`datetime.now()`) and the
 * A/B pick (`random.choice`) are outside the model and come in as an
 * `Environment`: the k-th gateway call of a batch (counting from 0) gets
 * `gateway(k, params)`, its log entry is stamped `clock(k)`, and in A/B mode
 * it uses `templates[pick(k) % |templates|]`, so every choice of template
 * is possible.
 */
module Dispatch {
  import opened Wrappers
  import opened Placeholders
  import opened Templates

  type Settings = map<string, string>

  const DefaultSenderEmail: string := "hello@maximally.in"
  const DefaultSenderName: string := "Maximally Team"

  /** `settings.get('sender_email', 'hello@maximally.in')`. */
  function SenderEmail(settings: Settings): string {
    if "sender_email" in settings then settings["sender_email"] else DefaultSenderEmail
  }

  /** `settings.get('sender_name', 'Maximally Team')`. */
  function SenderName(settings: Settings): string {
    if "sender_name" in settings then settings["sender_name"] else DefaultSenderName
  }

  /**
   * The sender address: `Name <email>` when there is a sender name, the bare
   * email otherwise.
   */
  function FromAddress(settings: Settings): (r: string)
    ensures r == SenderEmail(settings) <==> SenderName(settings) == ""
  {
    var name, email := SenderName(settings), SenderEmail(settings);
    if name != "" then name + " <" + email + ">" else email
  }

  /** With a sender name, the name and the email can be read back out of the address. */
  lemma FromAddressParts(settings: Settings)
    requires SenderName(settings) != ""
    ensures var r, name, email := FromAddress(settings), SenderName(settings), SenderEmail(settings);
            && |r| == |name| + |email| + 3
            && r[..|name|] == name
            && r[|name|..|name| + 2] == " <"
            && r[|name| + 2..|r| - 1] == email
            && r[|r| - 1] == '>'
  {
    var r, name, email := FromAddress(settings), SenderName(settings), SenderEmail(settings);
    assert r == name + " <" + email + ">";
    assert r[..|name|] == name;
    assert r[|name|..|name| + 2] == " <";
    assert r[|name| + 2..|r| - 1] == email;
  }

  /** The parameters handed to the gateway. */
  datatype SendParams = SendParams(
    sender: string,
    to: seq<string>,
    subject: string,
    html: Option<string>,
    text: Option<string>)

  /**
   * The `params` dictionary: one recipient; html only when the merged html
   * is non-empty; text unless there is html and the text is empty.
   */
  function BuildParams(sender: string, to: string, subject: string, text: string, html: string): (p: SendParams)
    ensures p.sender == sender && p.to == [to] && p.subject == subject
    ensures p.html.Some? <==> html != ""
    ensures p.html.Some? ==> p.html.value == html
    ensures p.text.Some? <==> (html == "" || text != "")
    ensures p.text.Some? ==> p.text.value == text
    ensures p.html.Some? || p.text.Some?
  {
    if html != "" then
      SendParams(sender, [to], subject, Some(html), if text != "" then Some(text) else None)
    else
      SendParams(sender, [to], subject, None, Some(text))
  }

  /** What the gateway does with one call: returns a message id, or raises. */
  datatype Reply = Accepted(messageId: string) | Raised(message: string)

  datatype Environment = Environment(
    gateway: (nat, SendParams) -> Reply,
    clock: nat -> string,
    pick: nat -> nat)

  /** One appended log record. */
  datatype LogEntry = LogEntry(
    schoolName: string,
    email: string,
    templateUsed: string,
    templateId: int,
    status: string,
    timestamp: string,
    emailId: string,
    subject: string)

  /** One entry of the `results` list returned to the browser. */
  datatype SendResult = Succeeded(school: string) | Failed(school: string, error: string)

  datatype Delivery = Delivery(entry: LogEntry, result: SendResult)

  /** Where the subject and bodies come from. */
  datatype Composition =
    | FromTemplate(templateId: Option<int>, abTesting: bool,
                   customSubject: string, customContent: string, customHtml: string)
    | Custom(subject: string, content: string, html: string)

  /** The message before merging, with the template name and id the log records. */
  datatype Draft = Draft(templateName: string, templateId: int, subject: string, content: string, html: string)

  datatype DispatchError =
    | NoSchoolsSelected      // 'No schools selected'
    | TemplateNotFound       // 'Template not found'
    | NoTemplateToChoose     // `random.choice` on an empty template list raises
    | SchoolIndexOutOfRange  // `schools[i]` raises for i < -len(schools)
    | ContentRequired        // 'Subject and content are required'

  /** A template can be found for every call of the batch. */
  predicate TemplateAvailable(templates: seq<Template>, comp: Composition) {
    match comp
    case FromTemplate(id, ab, _, _, _) =>
      if ab then templates != [] else id.Some? && FindTemplate(templates, id.value).Some?
    case Custom(_, _, _) => true
  }

  /** The error raised when no template can be found. */
  function MissingTemplate(comp: Composition): DispatchError {
    if comp.FromTemplate? && comp.abTesting then NoTemplateToChoose else TemplateNotFound
  }

  /** The template the call with number `callNo` uses. */
  function ChosenTemplate(templates: seq<Template>, comp: Composition, callNo: nat, env: Environment): (t: Template)
    requires comp.FromTemplate? && TemplateAvailable(templates, comp)
    ensures t in templates
    ensures !comp.abTesting ==> Some(t) == FindTemplate(templates, comp.templateId.value)
  {
    if comp.abTesting then templates[env.pick(callNo) % |templates|]
    else FindTemplate(templates, comp.templateId.value).value
  }

  /** Custom text wins when it is non-empty; otherwise the template's text is used. */
  function DraftFor(templates: seq<Template>, comp: Composition, callNo: nat, env: Environment): Draft
    requires TemplateAvailable(templates, comp)
  {
    match comp
    case Custom(subject, content, html) => Draft("Custom Email", 0, subject, content, html)
    case FromTemplate(_, _, cs, cc, ch) =>
      var t := ChosenTemplate(templates, comp, callNo, env);
      Draft(t.name, t.id,
            if cs != "" then cs else t.subject,
            if cc != "" then cc else t.content,
            ch)
  }

  /** The gateway parameters for one recipient and draft. */
  function ParamsFor(school: School, d: Draft, settings: Settings): SendParams {
    var html := if d.html != "" then Merge(d.html, school) else "";
    BuildParams(FromAddress(settings), Field(school, "Email"),
                Merge(d.subject, school), Merge(d.content, school), html)
  }

  /**
   * What is sent to a recipient: to its address alone, from the sender
   * address; the subject and text are the merged custom values when they
   * are non-empty and the merged template's otherwise; html goes along
   * exactly when the merged html is non-empty.
   */
  lemma SentMessage(school: School, templates: seq<Template>, comp: Composition, callNo: nat,
                    env: Environment, settings: Settings)
    requires TemplateAvailable(templates, comp)
    ensures var d := DraftFor(templates, comp, callNo, env);
            var p := ParamsFor(school, d, settings);
            && p.to == [Field(school, "Email")] && p.sender == FromAddress(settings)
            && (p.html.Some? <==> Merge(d.html, school) != "")
            && (p.html.Some? ==> p.html.value == Merge(d.html, school))
            && (comp.Custom? ==>
                  && p.subject == Merge(comp.subject, school) && d.html == comp.html
                  && (p.text.Some? ==> p.text.value == Merge(comp.content, school)))
            && (comp.FromTemplate? ==>
                  var t := ChosenTemplate(templates, comp, callNo, env);
                  && d.html == comp.customHtml
                  && p.subject == Merge(if comp.customSubject != "" then comp.customSubject else t.subject, school)
                  && (p.text.Some? ==>
                        p.text.value == Merge(if comp.customContent != "" then comp.customContent else t.content, school)))
  {
    MergeEmpty(school);
  }

  /** One send: the log entry and the result, decided by the gateway's reply. */
  function Deliver(school: School, d: Draft, settings: Settings, callNo: nat, env: Environment): Delivery {
    var params := ParamsFor(school, d, settings);
    var name := Field(school, "School Name");
    var email := Field(school, "Email");
    match env.gateway(callNo, params)
    case Accepted(id) =>
      Delivery(LogEntry(name, email, d.templateName, d.templateId, "Sent", env.clock(callNo), id, params.subject),
               Succeeded(name))
    case Raised(msg) =>
      Delivery(LogEntry(name, email, d.templateName, d.templateId, "Error: " + msg, env.clock(callNo), "", params.subject),
               Failed(name, msg))
  }

  /**
   * What a send to `school` with draft `d` as call `callNo` must record:
   * the school's name and address, the merged subject, the call's stamp,
   * status `Sent` with the message id exactly when the gateway accepted,
   * `Error: <message>` with no id otherwise, and a result that agrees.
   */
  predicate SendOutcome(r: Delivery, school: School, d: Draft, settings: Settings, callNo: nat, env: Environment) {
    var reply := env.gateway(callNo, ParamsFor(school, d, settings));
    && r.entry.schoolName == Field(school, "School Name")
    && r.entry.email == Field(school, "Email")
    && r.entry.subject == Merge(d.subject, school)
    && r.entry.timestamp == env.clock(callNo)
    && (r.entry.status == "Sent" <==> reply.Accepted?)
    && (reply.Raised? ==> r.entry.status == "Error: " + reply.message && r.entry.emailId == "")
    && (reply.Accepted? ==> r.entry.emailId == reply.messageId)
    && (r.result.Succeeded? <==> r.entry.status == "Sent")
  }

  /**
   * What one send records: the recipient's address, the merged subject,
   * status `Sent` exactly when the gateway returned (with its message id),
   * `Error: <message>` otherwise, and a result that agrees with the status.
   */
  lemma DeliverSpec(school: School, d: Draft, settings: Settings, callNo: nat, env: Environment)
    ensures SendOutcome(Deliver(school, d, settings, callNo, env), school, d, settings, callNo, env)
  {
    var reply := env.gateway(callNo, ParamsFor(school, d, settings));
    if reply.Raised? {
      assert |"Error: " + reply.message| > |"Sent"|;
    }
  }

  /** Python indexing: `schools[i]`, counting from the end for a negative `i`. */
  function SchoolAt(schools: seq<School>, i: int): School
    requires -|schools| <= i < |schools|
  {
    if i >= 0 then schools[i] else schools[|schools| + i]
  }

  /** The selected indices that pass `if school_index >= len(schools): continue`, in order. */
  function Kept(sel: seq<int>, n: int): (k: seq<int>)
    ensures |k| <= |sel|
    ensures forall p | 0 <= p < |k| :: k[p] < n
  {
    if sel == [] then []
    else Kept(sel[..|sel| - 1], n) + (if sel[|sel| - 1] < n then [sel[|sel| - 1]] else [])
  }

  /** The in-range indices of a concatenation are those of each part, in order. */
  lemma {:induction false} KeptAppend(a: seq<int>, b: seq<int>, n: int)
    ensures Kept(a + b, n) == Kept(a, n) + Kept(b, n)
    decreases |b|
  {
    if b == [] {
      assert a + b == a;
    } else {
      var m := |b| - 1;
      KeptAppend(a, b[..m], n);
      assert (a + b)[..|a + b| - 1] == a + b[..m];
    }
  }

  /** An index is kept exactly when it is selected and below `n`. */
  lemma {:induction false} KeptMembers(sel: seq<int>, n: int, x: int)
    ensures x in Kept(sel, n) <==> x in sel && x < n
  {
    if sel != [] {
      var m := |sel| - 1;
      KeptMembers(sel[..m], n, x);
      assert sel == sel[..m] + [sel[m]];
    }
  }

  /** Indices all inside the list are all kept. */
  lemma {:induction false} KeptAll(sel: seq<int>, n: int)
    requires forall j | 0 <= j < |sel| :: sel[j] < n
    ensures Kept(sel, n) == sel
  {
    if sel != [] {
      KeptAll(sel[..|sel| - 1], n);
    }
  }

  /** The send with number `callNo`, for the selected index `i`. */
  function Step(schools: seq<School>, templates: seq<Template>, settings: Settings,
                comp: Composition, env: Environment, i: int, callNo: nat): Delivery
    requires -|schools| <= i < |schools|
    requires TemplateAvailable(templates, comp)
  {
    Deliver(SchoolAt(schools, i), DraftFor(templates, comp, callNo, env), settings, callNo, env)
  }

  /** `Step` as a value, defined wherever the loop can reach it. */
  function StepFn(schools: seq<School>, templates: seq<Template>, settings: Settings,
                  comp: Composition, env: Environment): (int, nat) --> Delivery
  {
    (i: int, callNo: nat)
      requires -|schools| <= i < |schools| && TemplateAvailable(templates, comp)
      => Step(schools, templates, settings, comp, env, i, callNo)
  }

  /**
   * How a batch ends. An aborted batch has already made the gateway calls
   * in `unlogged`, but their log entries are never saved.
   */
  datatype Batch = Done(deliveries: seq<Delivery>) | Aborted(error: DispatchError, unlogged: seq<Delivery>)

  /** Every index in `k` is a valid Python index into a list of length `n`. */
  predicate Indexable(k: seq<int>, n: int) {
    forall p | 0 <= p < |k| :: -n <= k[p] < n
  }

  /** `step` is defined for every valid index when `available` holds. */
  ghost predicate Covers(step: (int, nat) --> Delivery, n: int, available: bool) {
    available ==> forall i: int, callNo: nat | -n <= i < n :: step.requires(i, callNo)
  }

  /** The position of the first entry of `k` below `lo`, or `|k|` when there is none. */
  function FirstBelow(k: seq<int>, lo: int): (f: nat)
    ensures f <= |k|
    ensures forall p | 0 <= p < f :: lo <= k[p]
    ensures f < |k| ==> k[f] < lo
  {
    if k == [] || k[0] < lo then 0 else 1 + FirstBelow(k[1..], lo)
  }

  /** `FirstBelow` is the first position below `lo`. */
  lemma FirstBelowAt(k: seq<int>, lo: int, c: nat)
    requires c < |k| && k[c] < lo
    requires forall p | 0 <= p < c :: lo <= k[p]
    ensures FirstBelow(k, lo) == c
  {
  }

  /** One delivery per index of `k`, the p-th being gateway call number p. */
  function Deliveries(step: (int, nat) --> Delivery, k: seq<int>): seq<Delivery>
    requires forall p | 0 <= p < |k| :: step.requires(k[p], p)
  {
    seq(|k|, p requires 0 <= p < |k| => step(k[p], p))
  }

  /**
   * A batch over the in-range indices `k` of a list of length `n`. The
   * first index that fails (one below `-n`, or any index when no template
   * is available) aborts the batch; otherwise there is one delivery per
   * index.
   */
  function BatchOf(k: seq<int>, n: int, available: bool, missing: DispatchError,
                   step: (int, nat) --> Delivery): Batch
    requires forall p | 0 <= p < |k| :: k[p] < n
    requires Covers(step, n, available)
  {
    var f := FirstBelow(k, -n);
    if k == [] then Done([])
    else if f == 0 then Aborted(SchoolIndexOutOfRange, [])
    else if !available then Aborted(missing, [])
    else if f < |k| then
      assert Indexable(k[..f], n);
      Aborted(SchoolIndexOutOfRange, Deliveries(step, k[..f]))
    else
      assert Indexable(k, n);
      Done(Deliveries(step, k))
  }

  /**
   * The whole batch: indices `>= len(schools)` are skipped, the rest are
   * sent in order until one fails.
   */
  function BatchSpec(schools: seq<School>, templates: seq<Template>, settings: Settings,
                     comp: Composition, sel: seq<int>, env: Environment): Batch
  {
    BatchOf(Kept(sel, |schools|), |schools|, TemplateAvailable(templates, comp), MissingTemplate(comp),
            StepFn(schools, templates, settings, comp, env))
  }

  /** The draft for a call, looking the template up as the loop does. */
  method ResolveDraft(templates: seq<Template>, comp: Composition, callNo: nat, env: Environment)
    returns (d: Option<Draft>)
    ensures d.Some? <==> TemplateAvailable(templates, comp)
    ensures d.Some? ==> d.value == DraftFor(templates, comp, callNo, env)
  {
    match comp
    case Custom(subject, content, html) =>
      d := Some(Draft("Custom Email", 0, subject, content, html));
    case FromTemplate(id, ab, cs, cc, ch) =>
      var t: Template;
      if ab {
        if templates == [] {
          return None;
        }
        t := templates[env.pick(callNo) % |templates|];
      } else {
        if id.None? {
          return None;
        }
        var found := LookupTemplate(templates, id.value);
        if found.None? {
          return None;
        }
        t := found.value;
      }
      var subject := if cs != "" then cs else t.subject;
      var content := if cc != "" then cc else t.content;
      d := Some(Draft(t.name, t.id, subject, content, ch));
  }

  /** One send as the loop body performs it. */
  method Send(school: School, d: Draft, settings: Settings, callNo: nat, env: Environment)
    returns (delivery: Delivery)
    ensures delivery == Deliver(school, d, settings, callNo, env)
  {
    var subject := ReplacePlaceholders(d.subject, school);
    var content := ReplacePlaceholders(d.content, school);
    var html := "";
    if d.html != "" {
      html := ReplacePlaceholders(d.html, school);
    }
    var params := BuildParams(FromAddress(settings), Field(school, "Email"), subject, content, html);
    var name := Field(school, "School Name");
    var email := Field(school, "Email");
    var reply := env.gateway(callNo, params);
    match reply
    case Accepted(id) =>
      delivery := Delivery(LogEntry(name, email, d.templateName, d.templateId, "Sent", env.clock(callNo), id, subject),
                           Succeeded(name));
    case Raised(msg) =>
      delivery := Delivery(LogEntry(name, email, d.templateName, d.templateId, "Error: " + msg, env.clock(callNo), "", subject),
                           Failed(name, msg));
  }

  /** The body of one iteration for an index the list has: pick the school, find the draft, send. */
  method SendTo(schools: seq<School>, templates: seq<Template>, settings: Settings,
                comp: Composition, env: Environment, i: int, callNo: nat) returns (r: Option<Delivery>)
    requires -|schools| <= i < |schools|
    ensures r.Some? <==> TemplateAvailable(templates, comp)
    ensures r.Some? ==> StepFn(schools, templates, settings, comp, env).requires(i, callNo)
                        && r.value == StepFn(schools, templates, settings, comp, env)(i, callNo)
  {
    var school := if i >= 0 then schools[i] else schools[|schools| + i];
    var draft := ResolveDraft(templates, comp, callNo, env);
    if draft.None? {
      return None;
    }
    var delivery := Send(school, draft.value, settings, callNo, env);
    return Some(delivery);
  }

  /**
   * Loop invariant of the dispatch loop: the deliveries so far are the
   * steps for the in-range indices `k` seen so far.
   */
  ghost predicate SentSoFar(k: seq<int>, n: int, available: bool, step: (int, nat) --> Delivery,
                      deliveries: seq<Delivery>)
  {
    && Indexable(k, n)
    && Covers(step, n, available)
    && (k == [] ==> deliveries == [])
    && (k != [] ==> available && deliveries == Deliveries(step, k))
  }

  /** One more step keeps the loop invariant. */
  lemma SentSoFarExtend(k: seq<int>, n: int, step: (int, nat) --> Delivery, deliveries: seq<Delivery>,
                        i: int, d: Delivery)
    requires SentSoFar(k, n, true, step, deliveries)
    requires -n <= i < n && step.requires(i, |k|) && d == step(i, |k|)
    ensures SentSoFar(k + [i], n, true, step, deliveries + [d])
  {
    var k', ds' := k + [i], deliveries + [d];
    assert Indexable(k', n) by {
      assert forall p | 0 <= p < |k| :: k'[p] == k[p];
    }
    var all := Deliveries(step, k');
    forall p | 0 <= p < |k'|
      ensures ds'[p] == all[p]
    {
      if p < |k| {
        assert ds'[p] == Deliveries(step, k)[p];
        assert k'[p] == k[p];
      }
    }
  }

  /** The in-range indices of the selection start with those of a prefix and the next one. */
  lemma KeptPrefix(sel: seq<int>, j: int, n: int)
    requires 0 <= j < |sel| && sel[j] < n
    ensures Kept(sel[..j + 1], n) == Kept(sel[..j], n) + [sel[j]]
    ensures |Kept(sel[..j], n)| < |Kept(sel, n)|
    ensures Kept(sel, n)[|Kept(sel[..j], n)|] == sel[j]
    ensures Kept(sel, n)[..|Kept(sel[..j], n)|] == Kept(sel[..j], n)
  {
    assert sel[..j + 1] == sel[..j] + [sel[j]];
    KeptAppend(sel[..j], [sel[j]], n);
    assert [sel[j]] == [] + [sel[j]];
    KeptAppend(sel[..j + 1], sel[j + 1..], n);
    assert sel[..j + 1] + sel[j + 1..] == sel;
  }

  /** An index past the end leaves the in-range prefix as it is. */
  lemma KeptSkip(sel: seq<int>, j: int, n: int)
    requires 0 <= j < |sel| && sel[j] >= n
    ensures Kept(sel[..j + 1], n) == Kept(sel[..j], n)
  {
    assert sel[..j + 1][..j] == sel[..j];
  }

  /**
   * The batch aborts with the loop's error at an in-range index below
   * `-n`, after the sends made so far.
   */
  lemma AbortOnIndex(sel: seq<int>, n: int, available: bool, missing: DispatchError,
                     step: (int, nat) --> Delivery, j: int, deliveries: seq<Delivery>)
    requires 0 <= n && 0 <= j < |sel| && sel[j] < -n
    requires SentSoFar(Kept(sel[..j], n), n, available, step, deliveries)
    ensures BatchOf(Kept(sel, n), n, available, missing, step) == Aborted(SchoolIndexOutOfRange, deliveries)
  {
    KeptPrefix(sel, j, n);
    var k := Kept(sel, n);
    var before := Kept(sel[..j], n);
    var c := |before|;
    forall p | 0 <= p < c
      ensures -n <= k[p]
    {
      assert k[p] == before[p];
    }
    FirstBelowAt(k, -n, c);
  }

  /** The batch aborts with the loop's error at the first valid index when there is no template. */
  lemma AbortOnTemplate(sel: seq<int>, n: int, missing: DispatchError, step: (int, nat) --> Delivery, j: int)
    requires 0 <= j < |sel| && -n <= sel[j] < n
    requires Kept(sel[..j], n) == []
    requires Covers(step, n, false)
    ensures BatchOf(Kept(sel, n), n, false, missing, step) == Aborted(missing, [])
  {
    KeptPrefix(sel, j, n);
    assert Kept(sel, n)[0] == sel[j];
  }

  /** After the whole selection, the batch is the deliveries made. */
  lemma DoneAtEnd(sel: seq<int>, n: int, available: bool, missing: DispatchError,
                  step: (int, nat) --> Delivery, deliveries: seq<Delivery>)
    requires SentSoFar(Kept(sel, n), n, available, step, deliveries)
    ensures BatchOf(Kept(sel, n), n, available, missing, step) == Done(deliveries)
  {
    var k := Kept(sel, n);
    if k != [] {
      assert FirstBelow(k, -n) == |k|;
    }
  }

  /** The dispatch loop over the selected indices. */
  method RunBatch(schools: seq<School>, templates: seq<Template>, settings: Settings,
                  comp: Composition, sel: seq<int>, env: Environment) returns (b: Batch)
    ensures b == BatchSpec(schools, templates, settings, comp, sel, env)
  {
    var n := |schools|;
    ghost var available := TemplateAvailable(templates, comp);
    ghost var step := StepFn(schools, templates, settings, comp, env);
    assert Covers(step, n, available);
    var deliveries: seq<Delivery> := [];
    for j := 0 to |sel|
      invariant SentSoFar(Kept(sel[..j], n), n, available, step, deliveries)
    {
      var i := sel[j];
      if i >= n {
        KeptSkip(sel, j, n);
        continue;
      }
      if i < -n {
        AbortOnIndex(sel, n, available, MissingTemplate(comp), step, j, deliveries);
        return Aborted(SchoolIndexOutOfRange, deliveries);
      }
      var sent := SendTo(schools, templates, settings, comp, env, i, |deliveries|);
      if sent.None? {
        AbortOnTemplate(sel, n, MissingTemplate(comp), step, j);
        return Aborted(MissingTemplate(comp), []);
      }
      var delivery := sent.value;
      KeptPrefix(sel, j, n);
      SentSoFarExtend(Kept(sel[..j], n), n, step, deliveries, i, delivery);
      deliveries := deliveries + [delivery];
    }
    assert sel[..|sel|] == sel;
    DoneAtEnd(sel, n, available, MissingTemplate(comp), step, deliveries);
    return Done(deliveries);
  }

  /** Indices past the end of the list have no effect on the batch. */
  lemma {:induction false} KeptIdempotent(sel: seq<int>, n: int)
    ensures Kept(Kept(sel, n), n) == Kept(sel, n)
  {
    KeptAll(Kept(sel, n), n);
  }

  lemma SkippedIndicesIgnored(schools: seq<School>, templates: seq<Template>, settings: Settings,
                              comp: Composition, sel: seq<int>, env: Environment)
    ensures BatchSpec(schools, templates, settings, comp, Kept(sel, |schools|), env)
         == BatchSpec(schools, templates, settings, comp, sel, env)
  {
    KeptIdempotent(sel, |schools|);
  }

  /**
   * The batch aborts exactly when an in-range index lies below `-n`, or
   * when there is an in-range index but no template. An index error aborts
   * after the sends for the indices before it; a missing template aborts
   * before any send.
   */
  lemma BatchOfAborts(k: seq<int>, n: int, available: bool, missing: DispatchError,
                      step: (int, nat) --> Delivery)
    requires forall p | 0 <= p < |k| :: k[p] < n
    requires Covers(step, n, available)
    requires missing != SchoolIndexOutOfRange
    ensures var b := BatchOf(k, n, available, missing, step);
            && (b.Aborted? <==> (exists p | 0 <= p < |k| :: k[p] < -n) || (k != [] && !available))
            && (b.Aborted? && b.error == missing ==> !available && b.unlogged == [])
            && (b.Aborted? && b.error == SchoolIndexOutOfRange ==>
                  var u := |b.unlogged|;
                  && u < |k| && k[u] < -n
                  && (forall p | 0 <= p < u :: -n <= k[p])
                  && (u > 0 ==> available && b.unlogged == Deliveries(step, k[..u])))
  {
    var f := FirstBelow(k, -n);
    if f < |k| {
      assert k[f] < -n;
    }
  }

  lemma BatchAborts(schools: seq<School>, templates: seq<Template>, settings: Settings,
                    comp: Composition, sel: seq<int>, env: Environment)
    ensures var k, n := Kept(sel, |schools|), |schools|;
            var b := BatchSpec(schools, templates, settings, comp, sel, env);
            && (b.Aborted? <==> (exists p | 0 <= p < |k| :: k[p] < -n)
                                || (k != [] && !TemplateAvailable(templates, comp)))
            && (b.Aborted? && b.error != SchoolIndexOutOfRange ==>
                  b.error == MissingTemplate(comp) && !TemplateAvailable(templates, comp) && b.unlogged == [])
            && (b.Aborted? && b.error == SchoolIndexOutOfRange ==>
                  var u := |b.unlogged|;
                  && u < |k| && k[u] < -n
                  && (forall p | 0 <= p < u :: -n <= k[p]
                        && b.unlogged[p] == Step(schools, templates, settings, comp, env, k[p], p)))
  {
    var n := |schools|;
    var k := Kept(sel, n);
    var step := StepFn(schools, templates, settings, comp, env);
    BatchOfAborts(k, n, TemplateAvailable(templates, comp), MissingTemplate(comp), step);
  }

  /**
   * A batch that completes has one log entry and one result per in-range
   * index, in order: the p-th delivery is the send of call p to the p-th
   * in-range index. Its entry names that school and its address, carries
   * the merged subject and the stamp `clock(p)`, and has status `Sent`
   * with the gateway's message id exactly when the gateway accepted call p,
   * `Error: <message>` with no id otherwise; the result agrees with the
   * status. A failed send does not stop the batch.
   */
  lemma BatchLogsEverySend(schools: seq<School>, templates: seq<Template>, settings: Settings,
                           comp: Composition, sel: seq<int>, env: Environment)
    requires BatchSpec(schools, templates, settings, comp, sel, env).Done?
    ensures var k := Kept(sel, |schools|);
            var ds := BatchSpec(schools, templates, settings, comp, sel, env).deliveries;
            && |ds| == |k|
            && forall p | 0 <= p < |ds| ::
                 && -|schools| <= k[p] < |schools|
                 && TemplateAvailable(templates, comp)
                 && ds[p] == Step(schools, templates, settings, comp, env, k[p], p)
                 && SendOutcome(ds[p], SchoolAt(schools, k[p]), DraftFor(templates, comp, p, env), settings, p, env)
  {
    var n := |schools|;
    var k := Kept(sel, n);
    var ds := BatchSpec(schools, templates, settings, comp, sel, env).deliveries;
    BatchAborts(schools, templates, settings, comp, sel, env);
    assert Indexable(k, n);
    forall p | 0 <= p < |ds|
      ensures TemplateAvailable(templates, comp)
      ensures ds[p] == Step(schools, templates, settings, comp, env, k[p], p)
      ensures SendOutcome(ds[p], SchoolAt(schools, k[p]), DraftFor(templates, comp, p, env), settings, p, env)
    {
      assert ds[p] == Step(schools, templates, settings, comp, env, k[p], p);
      DeliverSpec(SchoolAt(schools, k[p]), DraftFor(templates, comp, p, env), settings, p, env);
    }
  }

  /**
   * The template a log entry may record: the requested one outside A/B
   * mode, one of the stored templates in A/B mode, and `Custom Email` with
   * id 0 for a custom email.
   */
  predicate RecordsTemplate(templates: seq<Template>, comp: Composition, e: LogEntry) {
    match comp
    case Custom(_, _, _) =>
      e.templateUsed == "Custom Email" && e.templateId == 0
    case FromTemplate(id, ab, _, _, _) =>
      && (exists t | t in templates :: e.templateUsed == t.name && e.templateId == t.id)
      && (!ab ==> Some(e.templateId) == id)
  }

  lemma BatchTemplatesUsed(schools: seq<School>, templates: seq<Template>, settings: Settings,
                           comp: Composition, sel: seq<int>, env: Environment)
    requires BatchSpec(schools, templates, settings, comp, sel, env).Done?
    ensures var ds := BatchSpec(schools, templates, settings, comp, sel, env).deliveries;
            forall p | 0 <= p < |ds| :: RecordsTemplate(templates, comp, ds[p].entry)
  {
    var n := |schools|;
    var k := Kept(sel, n);
    var ds := BatchSpec(schools, templates, settings, comp, sel, env).deliveries;
    BatchAborts(schools, templates, settings, comp, sel, env);
    assert Indexable(k, n);
    forall p | 0 <= p < |ds|
      ensures RecordsTemplate(templates, comp, ds[p].entry)
    {
      assert ds[p] == Step(schools, templates, settings, comp, env, k[p], p);
      var d := DraftFor(templates, comp, p, env);
      assert ds[p].entry.templateUsed == d.templateName && ds[p].entry.templateId == d.templateId;
      if comp.FromTemplate? {
        var t := ChosenTemplate(templates, comp, p, env);
        assert d.templateName == t.name && d.templateId == t.id;
      }
    }
  }

  /**
   * When every selected index is a position in the list, a template is
   * available and the gateway accepts every call, every selected school is
   * sent its email and every result is a success.
   */
  lemma AllAcceptedAllSent(schools: seq<School>, templates: seq<Template>, settings: Settings,
                           comp: Composition, sel: seq<int>, env: Environment)
    requires forall j | 0 <= j < |sel| :: 0 <= sel[j] < |schools|
    requires sel != [] ==> TemplateAvailable(templates, comp)
    requires forall callNo: nat, params: SendParams :: env.gateway(callNo, params).Accepted?
    ensures var b := BatchSpec(schools, templates, settings, comp, sel, env);
            && b.Done? && |b.deliveries| == |sel|
            && forall p | 0 <= p < |sel| ::
                 && b.deliveries[p].result == Succeeded(Field(schools[sel[p]], "School Name"))
                 && b.deliveries[p].entry.email == Field(schools[sel[p]], "Email")
                 && b.deliveries[p].entry.status == "Sent"
  {
    var n := |schools|;
    KeptAll(sel, n);
    BatchAborts(schools, templates, settings, comp, sel, env);
    var b := BatchSpec(schools, templates, settings, comp, sel, env);
    assert b.Done?;
    var ds := b.deliveries;
    forall p | 0 <= p < |sel|
      ensures ds[p].result == Succeeded(Field(schools[sel[p]], "School Name"))
      ensures ds[p].entry.email == Field(schools[sel[p]], "Email")
      ensures ds[p].entry.status == "Sent"
    {
      assert Indexable(sel, n);
      assert ds[p] == Step(schools, templates, settings, comp, env, sel[p], p);
      DeliverSpec(schools[sel[p]], DraftFor(templates, comp, p, env), settings, p, env);
    }
  }

  /** A valid index followed by one below `-n`: one send, then the abort. */
  lemma BatchOfPair(a: int, b: int, n: int, missing: DispatchError, step: (int, nat) --> Delivery)
    requires -n <= a < n && b < -n
    requires Covers(step, n, true)
    ensures BatchOf([a, b], n, true, missing, step) == Aborted(SchoolIndexOutOfRange, [step(a, 0)])
  {
    var k := [a, b];
    FirstBelowAt(k, -n, 1);
    assert k[..1] == [a];
    assert Deliveries(step, k[..1]) == [step(a, 0)];
  }

  /**
   * An index error after a send aborts the batch with that send made but
   * not logged: one school, a template, and the selection `[0, -2]`.
   */
  lemma SendBeforeIndexErrorIsUnlogged(schools: seq<School>, templates: seq<Template>, settings: Settings,
                                       comp: Composition, sel: seq<int>, env: Environment)
    requires |schools| == 1 && TemplateAvailable(templates, comp)
    requires sel == [0, -2]
    ensures BatchSpec(schools, templates, settings, comp, sel, env)
         == Aborted(SchoolIndexOutOfRange, [Step(schools, templates, settings, comp, env, 0, 0)])
  {
    KeptAll(sel, 1);
    var step := StepFn(schools, templates, settings, comp, env);
    BatchOfPair(0, -2, 1, MissingTemplate(comp), step);
    assert step(0, 0) == Step(schools, templates, settings, comp, env, 0, 0);
  }
}
