/**
 * The string operations the mail-merge relies on, with Python's meaning:
 * `str.strip()` with no argument, and `str.replace(old, new)` for a
 * non-empty `old`. `ReplaceAll` scans left to right as `str.replace` does;
 * `Split` and `Join` (`str.split` and `str.join`) are an independent
 * reference definition, and `ReplaceViaSplit` proves Python's documented
 * identity `s.replace(old, new) == new.join(s.split(old))`.
 */
module Text {
  /** The characters for which Python's `str.isspace()` holds. */
  predicate IsSpace(c: char) {
    || c == ' '
    || ('\t' <= c <= '\r')
    || ('\U{1C}' <= c <= '\U{1F}')
    || c == '\U{85}' || c == '\U{A0}' || c == '\U{1680}'
    || ('\U{2000}' <= c <= '\U{200A}')
    || c == '\U{2028}' || c == '\U{2029}' || c == '\U{202F}' || c == '\U{205F}' || c == '\U{3000}'
  }

  predicate AllSpace(s: string) {
    forall i | 0 <= i < |s| :: IsSpace(s[i])
  }

  /** Drops leading whitespace. */
  function TrimStart(s: string): string {
    if s != [] && IsSpace(s[0]) then TrimStart(s[1..]) else s
  }

  /** Drops trailing whitespace. */
  function TrimEnd(s: string): string {
    if s != [] && IsSpace(s[|s| - 1]) then TrimEnd(s[..|s| - 1]) else s
  }

  /** `TrimStart` leaves a suffix that does not start with a space, after only spaces. */
  lemma {:induction false} TrimStartSpec(s: string)
    ensures |TrimStart(s)| <= |s| && TrimStart(s) == s[|s| - |TrimStart(s)|..]
    ensures TrimStart(s) == [] || !IsSpace(TrimStart(s)[0])
    ensures AllSpace(s[..|s| - |TrimStart(s)|])
  {
    if s != [] && IsSpace(s[0]) {
      TrimStartSpec(s[1..]);
      var r := TrimStart(s[1..]);
      assert s[1..][..|s| - 1 - |r|] == s[1..|s| - |r|];
    }
  }

  /** `TrimEnd` leaves a prefix that does not end with a space, before only spaces. */
  lemma {:induction false} TrimEndSpec(s: string)
    ensures |TrimEnd(s)| <= |s| && TrimEnd(s) == s[..|TrimEnd(s)|]
    ensures TrimEnd(s) == [] || !IsSpace(TrimEnd(s)[|TrimEnd(s)| - 1])
    ensures AllSpace(s[|TrimEnd(s)|..])
  {
    if s != [] && IsSpace(s[|s| - 1]) {
      TrimEndSpec(s[..|s| - 1]);
      var r := TrimEnd(s[..|s| - 1]);
      assert s[..|s| - 1][|r|..] + [s[|s| - 1]] == s[|r|..];
    }
  }

  /** `r` is `s[a..a + |r|]` and everything of `s` outside that slice is whitespace. */
  predicate StripCut(s: string, r: string, a: int) {
    && 0 <= a <= |s| - |r|
    && r == s[a..a + |r|]
    && AllSpace(s[..a])
    && AllSpace(s[a + |r|..])
  }

  /** Python's `s.strip()`. */
  function Strip(s: string): string {
    TrimEnd(TrimStart(s))
  }

  /**
   * What `strip` promises: the result is a slice of `s` with only
   * whitespace around it, and neither starts nor ends with whitespace.
   */
  lemma StripSpec(s: string)
    ensures |Strip(s)| <= |s|
    ensures Strip(s) == [] || (!IsSpace(Strip(s)[0]) && !IsSpace(Strip(s)[|Strip(s)| - 1]))
    ensures exists a :: StripCut(s, Strip(s), a)
  {
    var t := TrimStart(s);
    TrimStartSpec(s);
    TrimEndSpec(t);
    var r := TrimEnd(t);
    var a := |s| - |t|;
    assert r == s[a..a + |r|];
    assert s[a + |r|..] == t[|r|..];
    assert StripCut(s, r, a);
  }

  /** A string strips to nothing exactly when it is all whitespace. */
  lemma StripEmptyIff(s: string)
    ensures Strip(s) == [] <==> AllSpace(s)
  {
    StripSpec(s);
    if Strip(s) == [] {
      var a :| StripCut(s, Strip(s), a);
      forall i | 0 <= i < |s| ensures IsSpace(s[i]) {
        if i < a { assert s[..a][i] == s[i]; } else { assert s[a..][i - a] == s[i]; }
      }
    } else {
      var a :| StripCut(s, Strip(s), a);
      assert Strip(s)[0] == s[a];
    }
  }

  /** Stripping twice is stripping once. */
  lemma StripIdempotent(s: string)
    ensures Strip(Strip(s)) == Strip(s)
  {
    StripSpec(s);
    var r := Strip(s);
    assert TrimStart(r) == r;
    assert TrimEnd(r) == r;
  }

  /** `pat` occurs in `s` starting at index `i`. */
  predicate IsAt(s: string, pat: string, i: int) {
    0 <= i && i + |pat| <= |s| && s[i..i + |pat|] == pat
  }

  /** Python's `pat in s`. */
  predicate Occurs(s: string, pat: string) {
    exists i | 0 <= i <= |s| :: IsAt(s, pat, i)
  }

  lemma IsAtTail(s: string, pat: string, j: int)
    requires s != [] && 0 <= j
    ensures IsAt(s[1..], pat, j) <==> IsAt(s, pat, j + 1)
  {
    if 0 <= j && j + 1 + |pat| <= |s| {
      assert s[1..][j..j + |pat|] == s[j + 1..j + 1 + |pat|];
    }
  }

  /**
   * Python's `s.replace(pat, rep)`: scanning from the left, every occurrence
   * of `pat` that does not overlap an occurrence already replaced is
   * replaced by `rep`; the replacement text itself is not rescanned.
   */
  function ReplaceAll(s: string, pat: string, rep: string): string
    requires pat != []
    decreases |s|
  {
    if |s| < |pat| then s
    else if s[..|pat|] == pat then rep + ReplaceAll(s[|pat|..], pat, rep)
    else [s[0]] + ReplaceAll(s[1..], pat, rep)
  }

  /**
   * Python's `s.split(pat)`: the pieces between the occurrences of `pat`
   * met scanning from the left, each occurrence ending the current piece.
   */
  function Split(s: string, pat: string): (r: seq<string>)
    requires pat != []
    ensures |r| >= 1
    decreases |s|
  {
    if |s| < |pat| then [s]
    else if s[..|pat|] == pat then [[]] + Split(s[|pat|..], pat)
    else
      var r := Split(s[1..], pat);
      [[s[0]] + r[0]] + r[1..]
  }

  /** Python's `sep.join(parts)`. */
  function Join(parts: seq<string>, sep: string): string
    requires |parts| >= 1
  {
    if |parts| == 1 then parts[0] else parts[0] + sep + Join(parts[1..], sep)
  }

  /** Joining a first piece onto a non-empty list of pieces. */
  lemma JoinCons(x: string, parts: seq<string>, sep: string)
    requires |parts| >= 1
    ensures Join([x] + parts, sep) == x + sep + Join(parts, sep)
  {
    assert ([x] + parts)[1..] == parts;
  }

  /** Extending the first piece extends the joined text at its front. */
  lemma JoinHead(x: string, parts: seq<string>, sep: string)
    requires |parts| >= 1
    ensures Join([x + parts[0]] + parts[1..], sep) == x + Join(parts, sep)
  {
    var q := [x + parts[0]] + parts[1..];
    assert q[1..] == parts[1..];
    if |parts| > 1 {
      assert Join(q, sep) == (x + parts[0]) + sep + Join(parts[1..], sep);
      assert x + (parts[0] + sep + Join(parts[1..], sep)) == (x + parts[0]) + sep + Join(parts[1..], sep);
    }
  }

  /** The first piece of a split is a prefix of the text. */
  lemma {:induction false} SplitFirstIsPrefix(s: string, pat: string)
    requires pat != []
    ensures |Split(s, pat)[0]| <= |s| && Split(s, pat)[0] == s[..|Split(s, pat)[0]|]
    decreases |s|
  {
    if |s| >= |pat| && s[..|pat|] != pat {
      SplitFirstIsPrefix(s[1..], pat);
      var r0 := Split(s[1..], pat)[0];
      assert [s[0]] + s[1..][..|r0|] == s[..|r0| + 1];
    }
  }

  /**
   * A piece `x` that is a prefix of `s`, where `s` does not start with
   * `pat`, and whose tail `y` does not contain `pat`, does not contain it.
   */
  lemma ConsFree(x: string, y: string, s: string, pat: string)
    requires pat != [] && x != [] && x[1..] == y
    requires |x| <= |s| && x == s[..|x|]
    requires !(|pat| <= |s| && s[..|pat|] == pat)
    requires !Occurs(y, pat)
    ensures !Occurs(x, pat)
  {
    forall j | 0 <= j <= |x| ensures !IsAt(x, pat, j) {
      if j == 0 && |pat| <= |x| {
        assert x[..|pat|] == s[..|x|][..|pat|] == s[..|pat|];
      } else if 0 < j && j + |pat| <= |x| {
        assert x[j..j + |pat|] == x[1..][j - 1..j - 1 + |pat|] == y[j - 1..j - 1 + |pat|];
        assert !IsAt(y, pat, j - 1);
      }
    }
  }

  /** No piece of a split contains the separator. */
  lemma {:induction false} SplitPiecesFree(s: string, pat: string)
    requires pat != []
    ensures forall k | 0 <= k < |Split(s, pat)| :: !Occurs(Split(s, pat)[k], pat)
    decreases |s|
  {
    var pieces := Split(s, pat);
    if |s| < |pat| {
    } else if s[..|pat|] == pat {
      SplitPiecesFree(s[|pat|..], pat);
      assert pieces == [[]] + Split(s[|pat|..], pat);
    } else {
      var r := Split(s[1..], pat);
      SplitPiecesFree(s[1..], pat);
      SplitFirstIsPrefix(s[1..], pat);
      var x := [s[0]] + r[0];
      assert pieces == [x] + r[1..];
      assert x == s[..|x|] by {
        assert [s[0]] + s[1..][..|r[0]|] == s[..|r[0]| + 1];
      }
      ConsFree(x, r[0], s, pat);
      forall k | 1 <= k < |pieces| ensures !Occurs(pieces[k], pat) {
        assert pieces[k] == r[k];
      }
    }
  }

  /** A text in which `pat` does not occur is left as it is. */
  lemma NoOccurrenceUnchanged(s: string, pat: string, rep: string)
    requires pat != []
    requires !Occurs(s, pat)
    ensures ReplaceAll(s, pat, rep) == s
  {
    ReplaceSkipsPrefix(s, pat, rep, |s|);
    assert s[|s|..] == [];
  }

  /**
   * When no occurrence of `pat` starts before index `i`, the scan copies
   * `s[..i]` unchanged and continues from `i`.
   */
  lemma {:induction false} ReplaceSkipsPrefix(s: string, pat: string, rep: string, i: nat)
    requires pat != [] && i <= |s|
    requires forall j | 0 <= j < i :: !IsAt(s, pat, j)
    ensures ReplaceAll(s, pat, rep) == s[..i] + ReplaceAll(s[i..], pat, rep)
    decreases i
  {
    if i == 0 {
      assert s[i..] == s;
    } else if |s| < |pat| {
      assert |s[i..]| < |pat|;
    } else {
      assert !IsAt(s, pat, 0);
      forall j | 0 <= j < i - 1 ensures !IsAt(s[1..], pat, j) {
        IsAtTail(s, pat, j);
      }
      ReplaceSkipsPrefix(s[1..], pat, rep, i - 1);
      assert s[1..][i - 1..] == s[i..];
      assert [s[0]] + s[1..][..i - 1] == s[..i];
    }
  }

  /** The replacement scan matches at the start of a text that begins with `pat`. */
  lemma ReplaceAtStart(pat: string, rest: string, rep: string)
    requires pat != []
    ensures ReplaceAll(pat + rest, pat, rep) == rep + ReplaceAll(rest, pat, rep)
  {
    var s := pat + rest;
    assert s[..|pat|] == pat;
    assert s[|pat|..] == rest;
  }

  /** The pattern alone is replaced by the replacement alone. */
  lemma ReplaceWhole(pat: string, rep: string)
    requires pat != []
    ensures ReplaceAll(pat, pat, rep) == rep
  {
    ReplaceAtStart(pat, [], rep);
    assert pat + [] == pat;
    assert rep + [] == rep;
  }

  /**
   * Python's identity `s.replace(pat, rep) == rep.join(s.split(pat))`: the
   * scan replaces exactly the separators of the split.
   */
  lemma {:induction false} ReplaceViaSplit(s: string, pat: string, rep: string)
    requires pat != []
    ensures ReplaceAll(s, pat, rep) == Join(Split(s, pat), rep)
    decreases |s|
  {
    if |s| < |pat| {
    } else if s[..|pat|] == pat {
      var rest := s[|pat|..];
      ReplaceViaSplit(rest, pat, rep);
      JoinCons([], Split(rest, pat), rep);
    } else {
      ReplaceViaSplit(s[1..], pat, rep);
      JoinHead([s[0]], Split(s[1..], pat), rep);
    }
  }

  /** Replacing a pattern by itself changes nothing. */
  lemma {:induction false} ReplaceBySelf(s: string, pat: string)
    requires pat != []
    ensures ReplaceAll(s, pat, pat) == s
    decreases |s|
  {
    if |s| < |pat| {
    } else if s[..|pat|] == pat {
      ReplaceBySelf(s[|pat|..], pat);
      assert s == s[..|pat|] + s[|pat|..];
    } else {
      ReplaceBySelf(s[1..], pat);
      assert s == [s[0]] + s[1..];
    }
  }

  /** Splitting and joining back with the same separator restores the text. */
  lemma SplitJoin(s: string, pat: string)
    requires pat != []
    ensures Join(Split(s, pat), pat) == s
  {
    ReplaceViaSplit(s, pat, pat);
    ReplaceBySelf(s, pat);
  }
}
