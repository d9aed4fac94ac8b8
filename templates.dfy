/**
 * The template table of app.py: lookup of the first template with an id,
 * `create_template` (append with id = max + 1) and `save_template`
 * (overwrite the first template with the id).
 */
module Templates {
  import opened Wrappers
  import opened Text

  datatype Template = Template(id: int, name: string, subject: string, content: string)

  datatype TemplateError = FieldsRequired   // 'All fields are required'

  /** Position of the first template whose id is `id`. */
  function FirstIndex(ts: seq<Template>, id: int): (r: Option<nat>)
    ensures r.Some? ==> r.value < |ts| && ts[r.value].id == id
    ensures r.Some? ==> forall j | 0 <= j < r.value :: ts[j].id != id
    ensures r.None? ==> forall j | 0 <= j < |ts| :: ts[j].id != id
  {
    if ts == [] then None
    else if ts[0].id == id then Some(0)
    else match FirstIndex(ts[1..], id)
      case None => None
      case Some(i) => Some(i + 1)
  }

  /** The first position with the id is the one `FirstIndex` finds. */
  lemma FirstIndexAt(ts: seq<Template>, id: int, i: nat)
    requires i < |ts| && ts[i].id == id
    requires forall j | 0 <= j < i :: ts[j].id != id
    ensures FirstIndex(ts, id) == Some(i)
  {
  }

  /** The template the lookup loop stops at, if any. */
  function FindTemplate(ts: seq<Template>, id: int): (r: Option<Template>)
    ensures r.Some? ==> r.value in ts && r.value.id == id
    ensures r.None? <==> forall t | t in ts :: t.id != id
  {
    match FirstIndex(ts, id)
    case None => None
    case Some(i) => Some(ts[i])
  }

  /** The lookup loop `for t in templates: if t['id'] == template_id: ...; break`. */
  method LookupTemplate(ts: seq<Template>, id: int) returns (r: Option<Template>)
    ensures r == FindTemplate(ts, id)
  {
    var i := 0;
    while i < |ts|
      invariant 0 <= i <= |ts|
      invariant forall j | 0 <= j < i :: ts[j].id != id
    {
      if ts[i].id == id {
        return Some(ts[i]);
      }
      i := i + 1;
    }
    return None;
  }

  /** Template ids are pairwise distinct. */
  predicate UniqueIds(ts: seq<Template>) {
    forall i, j | 0 <= i < j < |ts| :: ts[i].id != ts[j].id
  }

  /** `max([t['id'] for t in templates], default=0)`. */
  function MaxId(ts: seq<Template>): (m: int)
    ensures ts == [] ==> m == 0
    ensures forall i | 0 <= i < |ts| :: ts[i].id <= m
    ensures ts != [] ==> exists i | 0 <= i < |ts| :: ts[i].id == m
  {
    if ts == [] then 0
    else if |ts| == 1 then ts[0].id
    else
      var m := MaxId(ts[1..]);
      assert forall i | 1 <= i < |ts| :: ts[i] == ts[1..][i - 1];
      if ts[0].id >= m then ts[0].id else m
  }

  /** The id `create_template` assigns: larger than every existing id. */
  function NextId(ts: seq<Template>): (r: int)
    ensures forall i | 0 <= i < |ts| :: ts[i].id < r
    ensures ts == [] ==> r == 1
  {
    MaxId(ts) + 1
  }

  /** The form check `all([name, subject, content])` on the stripped fields. */
  function RequiredFields(name: string, subject: string, content: string): Option<(string, string, string)> {
    var n, s, c := Strip(name), Strip(subject), Strip(content);
    if n != "" && s != "" && c != "" then Some((n, s, c)) else None
  }

  /**
   * The form is accepted exactly when each field has a character that is
   * not whitespace, and the accepted fields are non-empty and already
   * stripped.
   */
  lemma RequiredFieldsAccepted(name: string, subject: string, content: string)
    ensures RequiredFields(name, subject, content).Some? <==>
              !AllSpace(name) && !AllSpace(subject) && !AllSpace(content)
    ensures RequiredFields(name, subject, content).Some? ==>
              var (n, s, c) := RequiredFields(name, subject, content).value;
              && n != "" && s != "" && c != ""
              && Strip(n) == n && Strip(s) == s && Strip(c) == c
  {
    StripEmptyIff(name);
    StripEmptyIff(subject);
    StripEmptyIff(content);
    StripIdempotent(name);
    StripIdempotent(subject);
    StripIdempotent(content);
  }

  /** The table after `create_template` accepted `t`. */
  function Appended(ts: seq<Template>, name: string, subject: string, content: string): seq<Template> {
    ts + [Template(NextId(ts), name, subject, content)]
  }

  /** Creating a template keeps ids unique, and leaves the existing templates as they were. */
  lemma AppendedKeepsIds(ts: seq<Template>, name: string, subject: string, content: string)
    requires UniqueIds(ts)
    ensures UniqueIds(Appended(ts, name, subject, content))
    ensures Appended(ts, name, subject, content)[..|ts|] == ts
  {
    var r := Appended(ts, name, subject, content);
    forall i, j | 0 <= i < j < |r| ensures r[i].id != r[j].id {
      if j == |ts| { assert r[i] == ts[i]; }
    }
  }

  /** The table after `save_template`: the first template with the id is overwritten. */
  function ReplaceFirst(ts: seq<Template>, t: Template): seq<Template> {
    match FirstIndex(ts, t.id)
    case None => ts
    case Some(i) => ts[i := t]
  }

  /**
   * Saving a template replaces only the first template with its id; the
   * length and every other template stay, and nothing changes when no
   * template has the id.
   */
  lemma ReplaceFirstSpec(ts: seq<Template>, t: Template)
    ensures |ReplaceFirst(ts, t)| == |ts|
    ensures FirstIndex(ts, t.id).None? ==> ReplaceFirst(ts, t) == ts
    ensures FirstIndex(ts, t.id).Some? ==>
              var i := FirstIndex(ts, t.id).value;
              && ReplaceFirst(ts, t)[i] == t
              && forall j | 0 <= j < |ts| && j != i :: ReplaceFirst(ts, t)[j] == ts[j]
    ensures forall j | 0 <= j < |ts| :: ReplaceFirst(ts, t)[j].id == ts[j].id
  {
  }

  /** Saving a template keeps ids unique. */
  lemma ReplaceFirstKeepsUnique(ts: seq<Template>, t: Template)
    requires UniqueIds(ts)
    ensures UniqueIds(ReplaceFirst(ts, t))
  {
    ReplaceFirstSpec(ts, t);
  }
}
