/**
 * `replace_placeholders` (app.py): the four fixed tokens are replaced, one
 * after another, by the recipient's fields, a missing field counting as the
 * empty string. Because the replacements run in sequence, a value inserted
 * for an earlier token is scanned again for the later tokens.
 */
module Placeholders {
  import opened Text

  /** A recipient record: column name to value. */
  type School = map<string, string>

  datatype Placeholder = SchoolName | ContactPerson | City | EmailAddress

  /** The name between the braces of a token. */
  function TokenName(p: Placeholder): string {
    match p
    case SchoolName => "school_name"
    case ContactPerson => "contact_person"
    case City => "city"
    case EmailAddress => "email"
  }

  /** The token text as it appears in a template: `{{school_name}}` and so on. */
  function Token(p: Placeholder): (t: string)
    ensures |t| >= 8 && t[0] == '{' && t[1] == '{'
    ensures forall j | 2 <= j < |t| :: t[j] != '{'
  {
    "{{" + TokenName(p) + "}}"
  }

  /** The record column a token stands for. */
  function Column(p: Placeholder): string {
    match p
    case SchoolName => "School Name"
    case ContactPerson => "Contact Person"
    case City => "City"
    case EmailAddress => "Email"
  }

  /** The order of the token table, which is the order of replacement. */
  const Order: seq<Placeholder> := [SchoolName, ContactPerson, City, EmailAddress]

  /** `school.get(key, '')`. */
  function Field(school: School, key: string): string {
    if key in school then school[key] else ""
  }

  /** The value a token is replaced by. */
  function ValueOf(school: School, p: Placeholder): string {
    Field(school, Column(p))
  }

  /** One step of the loop: `result.replace(token, value)`. */
  function Substitute(text: string, school: School, p: Placeholder): string {
    ReplaceAll(text, Token(p), ValueOf(school, p))
  }

  /**
   * One replacement replaces every occurrence: the text is its token-free
   * pieces joined by the token, and the result is the same pieces joined by
   * the value.
   */
  lemma SubstituteEveryOccurrence(text: string, school: School, p: Placeholder)
    ensures var pieces := Split(text, Token(p));
            && Join(pieces, Token(p)) == text
            && (forall k | 0 <= k < |pieces| :: !Occurs(pieces[k], Token(p)))
            && Substitute(text, school, p) == Join(pieces, ValueOf(school, p))
  {
    SplitJoin(text, Token(p));
    SplitPiecesFree(text, Token(p));
    ReplaceViaSplit(text, Token(p), ValueOf(school, p));
  }

  /** The loop over the token table, as a left fold. */
  function ApplyInOrder(text: string, school: School, ps: seq<Placeholder>): string
    decreases |ps|
  {
    if ps == [] then text else ApplyInOrder(Substitute(text, school, ps[0]), school, ps[1..])
  }

  /** `replace_placeholders(text, school)`. */
  function Merge(text: string, school: School): string {
    ApplyInOrder(text, school, Order)
  }

  /** The four replacements of `Merge`, written out in their order. */
  lemma MergeUnfold(text: string, school: School)
    ensures Merge(text, school)
         == Substitute(Substitute(Substitute(Substitute(text, school, SchoolName),
              school, ContactPerson), school, City), school, EmailAddress)
  {
    assert Order[1..] == [ContactPerson, City, EmailAddress];
    assert Order[1..][1..] == [City, EmailAddress];
    assert Order[1..][1..][1..] == [EmailAddress];
  }

  /** `replace_placeholders` as the source runs it: a loop reassigning `result`. */
  method ReplacePlaceholders(text: string, school: School) returns (result: string)
    ensures result == Merge(text, school)
  {
    result := text;
    for i := 0 to |Order|
      invariant ApplyInOrder(result, school, Order[i..]) == Merge(text, school)
    {
      assert Order[i..][1..] == Order[i + 1..];
      result := ReplaceAll(result, Token(Order[i]), Field(school, Column(Order[i])));
    }
  }

  /** A missing column is merged as the empty string, exactly like a present empty one. */
  lemma MissingFieldIsEmpty(text: string, school: School, key: string)
    requires key !in school
    ensures Merge(text, school) == Merge(text, school[key := ""])
  {
    MergeUnfold(text, school);
    MergeUnfold(text, school[key := ""]);
    forall p ensures ValueOf(school, p) == ValueOf(school[key := ""], p) {
    }
  }

  /** The empty text merges to the empty text. */
  lemma MergeEmpty(school: School)
    ensures Merge("", school) == ""
  {
    MergeUnfold("", school);
  }

  /** A text in which none of the four tokens occurs is returned unchanged. */
  lemma MergeWithoutTokens(text: string, school: School)
    requires forall p :: !Occurs(text, Token(p))
    ensures Merge(text, school) == text
  {
    MergeUnfold(text, school);
    NoOccurrenceUnchanged(text, Token(SchoolName), ValueOf(school, SchoolName));
    NoOccurrenceUnchanged(text, Token(ContactPerson), ValueOf(school, ContactPerson));
    NoOccurrenceUnchanged(text, Token(City), ValueOf(school, City));
    NoOccurrenceUnchanged(text, Token(EmailAddress), ValueOf(school, EmailAddress));
  }

  // ---------------------------------------------------------------------
  // Well-formed templates: literal text without braces, and tokens.
  // ---------------------------------------------------------------------

  predicate BraceFree(s: string) {
    forall i | 0 <= i < |s| :: s[i] != '{' && s[i] != '}'
  }

  /** A piece of a template: literal text or one of the four tokens. */
  datatype Segment = Literal(text: string) | Slot(p: Placeholder)

  function RenderOne(g: Segment): string {
    match g
    case Literal(x) => x
    case Slot(p) => Token(p)
  }

  /** The template text a list of segments spells. */
  function Render(segs: seq<Segment>): string {
    if segs == [] then "" else RenderOne(segs[0]) + Render(segs[1..])
  }

  /** Every literal piece is free of braces. */
  predicate WellFormed(segs: seq<Segment>) {
    forall k | 0 <= k < |segs| :: segs[k].Literal? ==> BraceFree(segs[k].text)
  }

  /**
   * The merge a reader of the template expects: every token replaced at
   * once by its value, and values never rescanned.
   */
  function Intended(segs: seq<Segment>, school: School): string {
    if segs == [] then ""
    else
      (match segs[0]
       case Literal(x) => x
       case Slot(p) => ValueOf(school, p)) + Intended(segs[1..], school)
  }

  function FillOne(g: Segment, p: Placeholder, v: string): Segment {
    if g == Slot(p) then Literal(v) else g
  }

  /** The segments after every `Slot(p)` has become the literal `v`. */
  function Fill(segs: seq<Segment>, p: Placeholder, v: string): (r: seq<Segment>)
    ensures |r| == |segs|
  {
    if segs == [] then [] else [FillOne(segs[0], p, v)] + Fill(segs[1..], p, v)
  }

  /** No token can start inside brace-free text. */
  lemma LiteralNoStart(x: string, rest: string, p: Placeholder, j: int)
    requires BraceFree(x) && 0 <= j < |x|
    ensures !IsAt(x + rest, Token(p), j)
  {
    var s := x + rest;
    var t := Token(p);
    if j + |t| <= |s| {
      assert s[j..j + |t|][0] == s[j] == x[j];
    }
  }

  /** A token cannot start inside a different token (nor overlap the text after it). */
  lemma TokenNoInnerStart(q: Placeholder, p: Placeholder, rest: string, j: int)
    requires q != p && 0 <= j < |Token(q)|
    ensures !IsAt(Token(q) + rest, Token(p), j)
  {
    var s := Token(q) + rest;
    var t := Token(p);
    if j + |t| <= |s| {
      var w := s[j..j + |t|];
      if j == 0 {
        assert w[3] == s[3] == Token(q)[3];
        assert Token(q)[3] != t[3] by {
          match q
          case SchoolName =>
          case ContactPerson =>
          case City =>
          case EmailAddress =>
        }
      } else if j == 1 {
        assert w[1] == s[2] == Token(q)[2];
      } else {
        assert w[0] == s[j] == Token(q)[j];
      }
    }
  }

  /**
   * Replacing one token in a well-formed template text replaces exactly its
   * slots: no other token and no literal is touched.
   */
  lemma {:induction false} ReplaceSlots(segs: seq<Segment>, p: Placeholder, v: string)
    requires WellFormed(segs)
    ensures ReplaceAll(Render(segs), Token(p), v) == Render(Fill(segs, p, v))
  {
    if segs != [] {
      var rest := Render(segs[1..]);
      assert WellFormed(segs[1..]) by {
        forall k | 0 <= k < |segs[1..]| ensures segs[1..][k].Literal? ==> BraceFree(segs[1..][k].text) {
          assert segs[1..][k] == segs[k + 1];
        }
      }
      ReplaceSlots(segs[1..], p, v);
      var head := RenderOne(segs[0]);
      assert Render(segs) == head + rest;
      match segs[0]
      case Literal(x) =>
        forall j | 0 <= j < |x| ensures !IsAt(x + rest, Token(p), j) {
          LiteralNoStart(x, rest, p, j);
        }
        ReplaceSkipsPrefix(x + rest, Token(p), v, |x|);
        assert (x + rest)[..|x|] == x && (x + rest)[|x|..] == rest;
      case Slot(q) =>
        if q == p {
          ReplaceAtStart(Token(p), rest, v);
        } else {
          forall j | 0 <= j < |Token(q)| ensures !IsAt(Token(q) + rest, Token(p), j) {
            TokenNoInnerStart(q, p, rest, j);
          }
          ReplaceSkipsPrefix(Token(q) + rest, Token(p), v, |Token(q)|);
          assert (Token(q) + rest)[..|Token(q)|] == Token(q);
          assert (Token(q) + rest)[|Token(q)|..] == rest;
        }
    }
  }

  /** Replacing one token leaves a different token as it is. */
  lemma OtherTokenUntouched(q: Placeholder, p: Placeholder, v: string)
    requires q != p
    ensures ReplaceAll(Token(q), Token(p), v) == Token(q)
  {
    var t := Token(q);
    assert t + [] == t;
    forall j | 0 <= j < |t| ensures !IsAt(t, Token(p), j) {
      TokenNoInnerStart(q, p, [], j);
    }
    NoOccurrenceUnchanged(t, Token(p), v);
  }

  /** Filling slots with brace-free values keeps a template well formed. */
  lemma {:induction false} FillWellFormed(segs: seq<Segment>, p: Placeholder, v: string)
    requires WellFormed(segs) && BraceFree(v)
    ensures WellFormed(Fill(segs, p, v))
  {
    if segs != [] {
      assert WellFormed(segs[1..]) by {
        forall k | 0 <= k < |segs[1..]| ensures segs[1..][k].Literal? ==> BraceFree(segs[1..][k].text) {
          assert segs[1..][k] == segs[k + 1];
        }
      }
      FillWellFormed(segs[1..], p, v);
      var r := Fill(segs, p, v);
      forall k | 0 <= k < |r| ensures r[k].Literal? ==> BraceFree(r[k].text) {
        if k > 0 { assert r[k] == Fill(segs[1..], p, v)[k - 1]; }
      }
    }
  }

  /** The fill of all four slots, in replacement order. */
  function FillAll(segs: seq<Segment>, school: School): seq<Segment> {
    Fill(Fill(Fill(Fill(segs, SchoolName, ValueOf(school, SchoolName)),
      ContactPerson, ValueOf(school, ContactPerson)),
      City, ValueOf(school, City)),
      EmailAddress, ValueOf(school, EmailAddress))
  }

  lemma FillCons(g: Segment, rest: seq<Segment>, p: Placeholder, v: string)
    ensures Fill([g] + rest, p, v) == [FillOne(g, p, v)] + Fill(rest, p, v)
  {
    assert ([g] + rest)[1..] == rest;
  }

  /** One segment with its slot filled renders as its intended text. */
  function FillOneAll(g: Segment, school: School): (r: Segment)
    ensures RenderOne(r) == match g case Literal(x) => x case Slot(p) => ValueOf(school, p)
  {
    FillOne(FillOne(FillOne(FillOne(g, SchoolName, ValueOf(school, SchoolName)),
      ContactPerson, ValueOf(school, ContactPerson)),
      City, ValueOf(school, City)),
      EmailAddress, ValueOf(school, EmailAddress))
  }

  /** Filling all four slots works segment by segment. */
  lemma FillAllCons(g: Segment, rest: seq<Segment>, school: School)
    ensures FillAll([g] + rest, school) == [FillOneAll(g, school)] + FillAll(rest, school)
  {
    var v1, v2, v3, v4 := ValueOf(school, SchoolName), ValueOf(school, ContactPerson),
                          ValueOf(school, City), ValueOf(school, EmailAddress);
    var g1 := FillOne(g, SchoolName, v1);
    var g2 := FillOne(g1, ContactPerson, v2);
    var g3 := FillOne(g2, City, v3);
    var f1 := Fill(rest, SchoolName, v1);
    var f2 := Fill(f1, ContactPerson, v2);
    var f3 := Fill(f2, City, v3);
    FillCons(g, rest, SchoolName, v1);
    FillCons(g1, f1, ContactPerson, v2);
    FillCons(g2, f2, City, v3);
    FillCons(g3, f3, EmailAddress, v4);
  }

  /** Once all four slots are filled, the text is the intended merge. */
  lemma {:induction false} FillAllIsIntended(segs: seq<Segment>, school: School)
    ensures Render(FillAll(segs, school)) == Intended(segs, school)
  {
    if segs != [] {
      var g := segs[0];
      var rest := segs[1..];
      assert segs == [g] + rest;
      FillAllCons(g, rest, school);
      FillAllIsIntended(rest, school);
      var all := [FillOneAll(g, school)] + FillAll(rest, school);
      assert all[1..] == FillAll(rest, school);
      assert Render(all) == RenderOne(FillOneAll(g, school)) + Render(FillAll(rest, school));
    }
  }

  /**
   * For a well-formed template whose first three values contain no braces,
   * the sequential replacement is the intended simultaneous one. (The email
   * value, replaced last, is never rescanned, so it may contain anything.)
   */
  lemma MergeWellFormed(segs: seq<Segment>, school: School)
    requires WellFormed(segs)
    requires BraceFree(ValueOf(school, SchoolName))
    requires BraceFree(ValueOf(school, ContactPerson))
    requires BraceFree(ValueOf(school, City))
    ensures Merge(Render(segs), school) == Intended(segs, school)
  {
    var v1, v2, v3, v4 := ValueOf(school, SchoolName), ValueOf(school, ContactPerson),
                          ValueOf(school, City), ValueOf(school, EmailAddress);
    MergeUnfold(Render(segs), school);
    var s1 := Fill(segs, SchoolName, v1);
    ReplaceSlots(segs, SchoolName, v1);
    FillWellFormed(segs, SchoolName, v1);
    var s2 := Fill(s1, ContactPerson, v2);
    ReplaceSlots(s1, ContactPerson, v2);
    FillWellFormed(s1, ContactPerson, v2);
    ReplaceSlots(s2, City, v3);
    FillWellFormed(s2, City, v3);
    ReplaceSlots(Fill(s2, City, v3), EmailAddress, v4);
    FillAllIsIntended(segs, school);
  }

  /** The intended merge of brace-free pieces has no braces. */
  lemma {:induction false} IntendedBraceFree(segs: seq<Segment>, school: School)
    requires WellFormed(segs)
    requires forall p :: BraceFree(ValueOf(school, p))
    ensures BraceFree(Intended(segs, school))
  {
    if segs != [] {
      assert WellFormed(segs[1..]) by {
        forall k | 0 <= k < |segs[1..]| ensures segs[1..][k].Literal? ==> BraceFree(segs[1..][k].text) {
          assert segs[1..][k] == segs[k + 1];
        }
      }
      IntendedBraceFree(segs[1..], school);
    }
  }

  /** Text without braces contains no token. */
  lemma BraceFreeHasNoToken(s: string, p: Placeholder)
    requires BraceFree(s)
    ensures !Occurs(s, Token(p))
  {
    forall j | 0 <= j <= |s| ensures !IsAt(s, Token(p), j) {
      if j + |Token(p)| <= |s| {
        assert s[j..j + |Token(p)|][0] == s[j];
      }
    }
  }

  /**
   * With brace-free values, merging a well-formed template leaves none of
   * the four tokens behind, and merging the result again changes nothing.
   */
  lemma MergeCompleteAndIdempotent(segs: seq<Segment>, school: School)
    requires WellFormed(segs)
    requires forall p :: BraceFree(ValueOf(school, p))
    ensures forall p :: !Occurs(Merge(Render(segs), school), Token(p))
    ensures Merge(Merge(Render(segs), school), school) == Merge(Render(segs), school)
  {
    MergeWellFormed(segs, school);
    var m := Merge(Render(segs), school);
    IntendedBraceFree(segs, school);
    forall p ensures !Occurs(m, Token(p)) {
      BraceFreeHasNoToken(m, p);
    }
    MergeWithoutTokens(m, school);
  }

  // ---------------------------------------------------------------------
  // What the sequential replacement does not promise.
  // ---------------------------------------------------------------------

  /** A value inserted for an earlier token is scanned for the later tokens. */
  lemma MergeRescansLaterTokens()
    ensures Merge("{{school_name}}", map["School Name" := "{{city}}", "City" := "Pune"]) == "Pune"
  {
    var school := map["School Name" := "{{city}}", "City" := "Pune"];
    var name, city := Token(SchoolName), Token(City);
    assert name == "{{school_name}}";
    assert ValueOf(school, SchoolName) == city;
    assert ValueOf(school, ContactPerson) == "" && ValueOf(school, City) == "Pune";
    MergeUnfold(name, school);
    var s1 := Substitute(name, school, SchoolName);
    assert s1 == city by { ReplaceWhole(name, city); }
    var s2 := Substitute(s1, school, ContactPerson);
    assert s2 == city by { OtherTokenUntouched(City, ContactPerson, ""); }
    var s3 := Substitute(s2, school, City);
    assert s3 == "Pune" by { ReplaceWhole(city, "Pune"); }
    assert Substitute(s3, school, EmailAddress) == "Pune" by {
      NoOccurrenceUnchanged(s3, Token(EmailAddress), ValueOf(school, EmailAddress));
    }
  }

  /** Merging is not idempotent once a value contains an earlier token. */
  lemma MergeNotIdempotent()
    ensures var school := map["School Name" := "Asha", "Email" := "{{school_name}}"];
            && Merge("{{email}}", school) == "{{school_name}}"
            && Merge(Merge("{{email}}", school), school) == "Asha"
  {
    var school := map["School Name" := "Asha", "Email" := "{{school_name}}"];
    var t1 := [Slot(EmailAddress)];
    var t2 := [Slot(SchoolName)];
    assert Render(t1) == "{{email}}";
    assert Render(t2) == "{{school_name}}";
    assert BraceFree(ValueOf(school, SchoolName));
    MergeWellFormed(t1, school);
    MergeWellFormed(t2, school);
  }

  /** The scan finds no token inside the half-spelled `{{school_name}`. */
  lemma HalfTokenSkipped(j: int)
    requires 0 <= j < |"{{school_name}"|
    ensures !IsAt("{{school_name}" + Token(SchoolName), Token(SchoolName), j)
  {
    var s := "{{school_name}" + Token(SchoolName);
    var t := Token(SchoolName);
    var w := s[j..j + |t|];
    if j == 0 { assert w[14] == s[14] == '{'; }
    else if j == 1 { assert w[1] == s[2] == 's'; }
    else { assert w[0] == s[j] == "{{school_name}"[j]; }
  }

  /** The first replacement turns the half-spelled token and a `}` value into a whole token. */
  lemma HalfTokenCompleted(half: string, v: string)
    requires half == "{{school_name}" && v == "}"
    ensures ReplaceAll(half + Token(SchoolName), Token(SchoolName), v) == Token(SchoolName)
  {
    var t := Token(SchoolName);
    forall j | 0 <= j < |half| ensures !IsAt(half + t, t, j) {
      HalfTokenSkipped(j);
    }
    ReplaceSkipsPrefix(half + t, t, v, |half|);
    assert (half + t)[..|half|] == half && (half + t)[|half|..] == t;
    ReplaceAtStart(t, [], v);
    assert t + [] == t;
    assert ReplaceAll([], t, v) == [];
  }

  /**
   * No value contains any token, yet a token is left in the result: the
   * inserted value `}` completes the token that the text `half` (that is,
   * `{{school_name}`) only half spells.
   */
  lemma MergeCanLeaveToken(school: School, half: string)
    requires half == "{{school_name}"
    requires ValueOf(school, SchoolName) == "}"
    requires ValueOf(school, ContactPerson) == ValueOf(school, City) == ValueOf(school, EmailAddress) == ""
    ensures forall p, q :: !Occurs(ValueOf(school, q), Token(p))
    ensures Merge(half + Token(SchoolName), school) == Token(SchoolName)
  {
    forall p, q ensures !Occurs(ValueOf(school, q), Token(p)) {
      assert |ValueOf(school, q)| <= 1;
    }
    var t := Token(SchoolName);
    MergeUnfold(half + t, school);
    var s1 := Substitute(half + t, school, SchoolName);
    assert s1 == t by { HalfTokenCompleted(half, ValueOf(school, SchoolName)); }
    OtherTokenUntouched(SchoolName, ContactPerson, ValueOf(school, ContactPerson));
    OtherTokenUntouched(SchoolName, City, ValueOf(school, City));
    OtherTokenUntouched(SchoolName, EmailAddress, ValueOf(school, EmailAddress));
  }
}
