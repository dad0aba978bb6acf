/**
 * The answer evaluator of `submit_answer` (routes.py): `normalize_answer`,
 * the decoding of a riddle's answer column into alternatives, and the
 * `any(...)` match of a submission against them.
 */
module Answers {
  import opened Wrappers
  import opened Strings

  /** `re.sub(r'\s+', ' ', text)`: every maximal run of whitespace becomes
      a single space. Scanning from the left, a whitespace character that
      another follows is dropped and the last one of a run is written as
      one space (CollapseRun states the run property). */
  function CollapseSpaces(s: string): string {
    if s == [] then []
    else CollapsedHead(s[0], s[1..]) + CollapseSpaces(s[1..])
  }

  /** What the first character `x` of `[x] + rest` contributes. */
  function CollapsedHead(x: char, rest: string): string {
    if !IsSpace(x) then [x]
    else if rest != [] && IsSpace(rest[0]) then []
    else " "
  }

  /** `normalize_answer`: collapse whitespace runs, strip, upper-case. */
  function Normalize(text: string): string {
    Upper(Strip(CollapseSpaces(text)))
  }

  // ---------------------------------------------------------------------
  // Sequence facts about Upper, TrimLeft and TrimRight used below.

  lemma UpperAppend(a: string, b: string)
    ensures Upper(a + b) == Upper(a) + Upper(b)
  {
    assert forall i :: 0 <= i < |a + b| ==> Upper(a + b)[i] == (Upper(a) + Upper(b))[i];
  }

  lemma UpperIdempotent(s: string)
    ensures Upper(Upper(s)) == Upper(s)
  {
  }

  lemma UpperOfLower(s: string)
    ensures Upper(Lower(s)) == Upper(s)
  {
    assert forall i :: 0 <= i < |s| ==> Upper(Lower(s))[i] == Upper(s)[i];
  }

  /** Upper-casing never turns whitespace into something else, or back. */
  lemma UpperCharSpace(c: char)
    ensures IsSpace(UpperChar(c)) == IsSpace(c)
  {
  }

  lemma {:induction false} TrimLeftUpper(s: string)
    ensures TrimLeft(Upper(s)) == Upper(TrimLeft(s))
    decreases |s|
  {
    if s != [] {
      var u := Upper(s);
      UpperCharSpace(s[0]);
      if IsSpace(s[0]) {
        assert u[1..] == Upper(s[1..]);
        TrimLeftUpper(s[1..]);
      }
    }
  }

  lemma {:induction false} TrimRightUpper(s: string)
    ensures TrimRight(Upper(s)) == Upper(TrimRight(s))
    decreases |s|
  {
    if s != [] {
      var u := Upper(s);
      UpperCharSpace(s[|s| - 1]);
      if IsSpace(s[|s| - 1]) {
        assert u[..|s| - 1] == Upper(s[..|s| - 1]);
        TrimRightUpper(s[..|s| - 1]);
      }
    }
  }

  /** Whitespace the text starts with can be stripped first. */
  lemma {:induction false} TrimLeftPrefix(w: string, t: string)
    requires AllSpace(w)
    ensures TrimLeft(w + t) == TrimLeft(t)
    decreases |w|
  {
    if w == [] {
      assert w + t == t;
    } else {
      assert w + t == [w[0]] + (w[1..] + t);
      TrimLeftCons(w[0], w[1..] + t);
      TrimLeftPrefix(w[1..], t);
    }
  }

  /** A trailing whitespace character does not survive `strip`. */
  lemma StripAppendSpace(x: string, c: char)
    requires IsSpace(c)
    ensures Strip(x + [c]) == Strip(x)
  {
    var y := TrimLeft(x);
    var k := |x| - |y|;
    TrimLeftRemovesSpace(x);
    assert x + [c] == x[..k] + (y + [c]);
    TrimLeftPrefix(x[..k], y + [c]);
    if y == [] {
      assert y + [c] == [c] + [];
      TrimLeftCons(c, []);
      assert TrimLeft([]) == [];
    } else {
      assert (y + [c])[0] == y[0];
      assert TrimLeft(y + [c]) == y + [c];
      TrimRightSnoc(y, c);
    }
  }

  // ---------------------------------------------------------------------
  // Properties of the normal form.

  /** Only whether the next character is whitespace matters to the head. */
  lemma CollapseCons(x: char, rest: string)
    ensures CollapseSpaces([x] + rest) == CollapsedHead(x, rest) + CollapseSpaces(rest)
  {
    assert ([x] + rest)[1..] == rest;
  }

  /** Collapsing whitespace commutes with upper-casing. */
  lemma {:induction false} CollapseUpper(s: string)
    ensures CollapseSpaces(Upper(s)) == Upper(CollapseSpaces(s))
    decreases |s|
  {
    if s != [] {
      var u := Upper(s);
      assert u[1..] == Upper(s[1..]);
      CollapseUpper(s[1..]);
      assert CollapsedHead(u[0], u[1..]) == Upper(CollapsedHead(s[0], s[1..]));
      UpperAppend(CollapsedHead(s[0], s[1..]), CollapseSpaces(s[1..]));
    }
  }

  /** Upper-casing a text first does not change its normal form. */
  lemma NormalizeUpper(s: string)
    ensures Normalize(Upper(s)) == Normalize(s)
  {
    var c := CollapseSpaces(s);
    CollapseUpper(s);
    TrimLeftUpper(c);
    TrimRightUpper(TrimLeft(c));
    UpperIdempotent(Strip(c));
  }

  /** Matching is case-insensitive: two texts that agree once upper-cased
      have the same normal form. */
  lemma CaseInsensitive(s: string, t: string)
    requires Upper(s) == Upper(t)
    ensures Normalize(s) == Normalize(t)
  {
    NormalizeUpper(s);
    NormalizeUpper(t);
  }

  /** A whitespace character collapses like a space before any text. */
  lemma CollapseSpaceCons(c: char, b: string)
    requires IsSpace(c)
    ensures CollapseSpaces([c] + b) == CollapseSpaces(" " + b)
  {
    CollapseCons(c, b);
    CollapseCons(' ', b);
  }

  /** A non-empty whitespace run followed by `b` collapses like one space. */
  lemma {:induction false} CollapseRunHead(w: string, b: string)
    requires w != [] && AllSpace(w)
    ensures CollapseSpaces(w + b) == CollapseSpaces(" " + b)
    decreases |w|
  {
    var rest := w[1..] + b;
    assert w + b == [w[0]] + rest;
    if |w| > 1 {
      assert rest[0] == w[1];
      CollapseCons(w[0], rest);
      assert CollapseSpaces(w + b) == CollapseSpaces(rest);
      CollapseRunHead(w[1..], b);
    } else {
      assert rest == b;
      CollapseSpaceCons(w[0], b);
    }
  }

  /** Any non-empty run of whitespace collapses like a single space. */
  lemma {:induction false} CollapseRun(a: string, w: string, b: string)
    requires w != [] && AllSpace(w)
    ensures CollapseSpaces(a + w + b) == CollapseSpaces(a + " " + b)
    decreases |a|
  {
    if a == [] {
      assert a + w + b == w + b && a + " " + b == " " + b;
      CollapseRunHead(w, b);
    } else {
      var l, r := a[1..] + w + b, a[1..] + " " + b;
      assert a + w + b == [a[0]] + l && a + " " + b == [a[0]] + r;
      CollapseCons(a[0], l);
      CollapseCons(a[0], r);
      assert (l != [] && IsSpace(l[0])) == (r != [] && IsSpace(r[0])) by {
        if |a| > 1 {
          assert l[0] == a[1] == r[0];
        } else {
          assert l[0] == w[0] && r[0] == ' ';
        }
      }
      CollapseRun(a[1..], w, b);
    }
  }

  lemma NormalizeRun(a: string, w: string, b: string)
    requires w != [] && AllSpace(w)
    ensures Normalize(a + w + b) == Normalize(a + " " + b)
  {
    CollapseRun(a, w, b);
  }

  /** What a whitespace character appended to `p` adds to its collapsed
      form: nothing when `p` already ends in whitespace, else one space. */
  function SpaceTail(p: string): string {
    if p != [] && IsSpace(p[|p| - 1]) then [] else " "
  }

  /** Appending one whitespace character adds a space to the collapsed
      form unless the text already ends in whitespace. */
  lemma {:induction false} CollapseAppendSpace(p: string, c: char)
    requires IsSpace(c)
    ensures CollapseSpaces(p + [c]) == CollapseSpaces(p) + SpaceTail(p)
    decreases |p|
  {
    if p == [] {
      assert p + [c] == [c] + [];
      CollapseCons(c, []);
    } else if |p| == 1 {
      assert p + [c] == [p[0]] + [c] && p == [p[0]] + [];
      CollapseCons(p[0], [c]);
      CollapseCons(p[0], []);
      CollapseCons(c, []);
    } else {
      CollapseAppendSpaceStep(p, c);
    }
  }

  lemma {:induction false} CollapseAppendSpaceStep(p: string, c: char)
    requires IsSpace(c) && |p| > 1
    ensures CollapseSpaces(p + [c]) == CollapseSpaces(p) + SpaceTail(p)
    decreases |p|, 0
  {
    var rest := p[1..];
    assert p + [c] == [p[0]] + (rest + [c]) && p == [p[0]] + rest;
    assert (rest + [c])[0] == rest[0];
    assert SpaceTail(p) == SpaceTail(rest);
    var h := CollapsedHead(p[0], rest);
    assert CollapsedHead(p[0], rest + [c]) == h;
    CollapseCons(p[0], rest + [c]);
    CollapseCons(p[0], rest);
    CollapseAppendSpace(rest, c);
    assert h + (CollapseSpaces(rest) + SpaceTail(rest)) == (h + CollapseSpaces(rest)) + SpaceTail(rest);
  }

  /** A whitespace character appended to a text is gone after collapsing
      and stripping. */
  lemma StripCollapseSnoc(q: string, c: char)
    requires IsSpace(c)
    ensures Strip(CollapseSpaces(q + [c])) == Strip(CollapseSpaces(q))
  {
    CollapseAppendSpace(q, c);
    if SpaceTail(q) == " " {
      StripAppendSpace(CollapseSpaces(q), ' ');
    } else {
      assert CollapseSpaces(q) + SpaceTail(q) == CollapseSpaces(q);
    }
  }

  /** Trailing whitespace never survives the strip after collapsing. */
  lemma {:induction false} StripCollapseTrimRight(p: string)
    ensures Strip(CollapseSpaces(TrimRight(p))) == Strip(CollapseSpaces(p))
    decreases |p|
  {
    if p != [] && IsSpace(p[|p| - 1]) {
      var q := p[..|p| - 1];
      assert p == q + [p[|p| - 1]];
      TrimRightSnoc(q, p[|p| - 1]);
      StripCollapseTrimRight(q);
      StripCollapseSnoc(q, p[|p| - 1]);
    }
  }

  /** A whitespace character prefixed to a text is gone after collapsing
      and stripping. */
  lemma StripCollapseCons(c: char, rest: string)
    requires IsSpace(c)
    ensures Strip(CollapseSpaces([c] + rest)) == Strip(CollapseSpaces(rest))
  {
    CollapseCons(c, rest);
    var y := CollapseSpaces(rest);
    if rest != [] && IsSpace(rest[0]) {
      assert CollapseSpaces([c] + rest) == [] + y == y;
    } else {
      assert CollapseSpaces([c] + rest) == [' '] + y;
      TrimLeftCons(' ', y);
    }
  }

  /** Leading whitespace never survives the strip after collapsing. */
  lemma {:induction false} StripCollapseTrimLeft(s: string)
    ensures Strip(CollapseSpaces(TrimLeft(s))) == Strip(CollapseSpaces(s))
    decreases |s|
  {
    if s != [] && IsSpace(s[0]) {
      var rest := s[1..];
      assert s == [s[0]] + rest;
      TrimLeftCons(s[0], rest);
      StripCollapseTrimLeft(rest);
      StripCollapseCons(s[0], rest);
    }
  }

  /** Stripping a text first does not change its normal form. */
  lemma NormalizeStrip(s: string)
    ensures Normalize(Strip(s)) == Normalize(s)
  {
    StripCollapseTrimRight(TrimLeft(s));
    StripCollapseTrimLeft(s);
  }

  /** `submit_answer` strips and lower-cases the submission before
      normalising it; neither step changes the normal form. */
  lemma SubmissionNormalForm(answer: string)
    ensures Normalize(Lower(Strip(answer))) == Normalize(answer)
  {
    UpperOfLower(Strip(answer));
    CaseInsensitive(Lower(Strip(answer)), Strip(answer));
    NormalizeStrip(answer);
  }

  // ---------------------------------------------------------------------
  // The answer column and matching.

  /** A value `json.loads` can return for the answer column: a string, or
      any other JSON value (number, boolean, null, object), kept with its
      literal text. */
  datatype JsonValue = JString(text: string) | JOther(literal: string)

  /** The answer column as decoded at load time: a JSON list, a JSON value
      that is not a list, or text that is not JSON at all. */
  datatype AnswerField =
    | JsonList(items: seq<JsonValue>)
    | JsonScalar(item: JsonValue)
    | PlainText(raw: string)

  /** `possible_answers`: a list as is; any other value, decoded or not,
      as a one-element list. */
  function Alternatives(field: AnswerField): seq<JsonValue> {
    match field
    case JsonList(items) => items
    case JsonScalar(v) => [v]
    case PlainText(raw) => [JString(raw)]
  }

  /** The text an alternative is compared as. A non-string JSON value is
      compared as its literal text (see MatchAsWritten for the source). */
  function AltText(v: JsonValue): string {
    match v
    case JString(t) => t
    case JOther(lit) => lit
  }

  /** `any(normalize_answer(a) == user for a in alts)`. */
  function AnyMatches(alts: seq<JsonValue>, user: string): bool {
    if alts == [] then false
    else Normalize(AltText(alts[0])) == user || AnyMatches(alts[1..], user)
  }

  /** The scan accepts exactly when some alternative normalises to the
      submission. */
  lemma {:induction false} AnyMatchesIff(alts: seq<JsonValue>, user: string)
    ensures AnyMatches(alts, user) <==> exists i :: 0 <= i < |alts| && Normalize(AltText(alts[i])) == user
  {
    if alts != [] {
      var rest := alts[1..];
      AnyMatchesIff(rest, user);
      if AnyMatches(alts, user) {
        if Normalize(AltText(alts[0])) != user {
          var j :| 0 <= j < |rest| && Normalize(AltText(rest[j])) == user;
          assert alts[j + 1] == rest[j];
        }
      } else {
        forall i | 0 <= i < |alts| ensures Normalize(AltText(alts[i])) != user {
          if i > 0 {
            assert alts[i] == rest[i - 1];
          }
        }
      }
    }
  }

  /** `is_correct` for an already stripped and lower-cased submission. */
  predicate AnswerMatches(field: AnswerField, userAnswer: string) {
    AnyMatches(Alternatives(field), Normalize(userAnswer))
  }

  /** A raw submission is correct exactly when its normal form equals the
      normal form of some alternative; so case and whitespace runs never
      matter. */
  lemma MatchesIff(field: AnswerField, answer: string)
    ensures AnswerMatches(field, Lower(Strip(answer))) <==>
      exists i :: 0 <= i < |Alternatives(field)| &&
        Normalize(AltText(Alternatives(field)[i])) == Normalize(answer)
  {
    var n := Normalize(answer);
    SubmissionNormalForm(answer);
    assert AnswerMatches(field, Lower(Strip(answer))) == AnyMatches(Alternatives(field), n);
    AnyMatchesIff(Alternatives(field), n);
  }

  /** A JSON value that is not a list, or text that is not JSON, is the
      single alternative: the submission is correct exactly when the two
      normal forms agree. */
  lemma SingleAlternativeIff(field: AnswerField, answer: string)
    requires !field.JsonList?
    ensures AnswerMatches(field, Lower(Strip(answer))) <==>
      Normalize(AltText(Alternatives(field)[0])) == Normalize(answer)
  {
    var alts := Alternatives(field);
    SubmissionNormalForm(answer);
    assert alts[1..] == [];
    assert AnswerMatches(field, Lower(Strip(answer))) == AnyMatches(alts, Normalize(answer));
  }

  // ---------------------------------------------------------------------
  // The source as written.

  datatype EvalError = AnswerNotText

  /** The match as routes.py:187 runs it: `any` stops at the first match,
      but reaching a non-string alternative makes `re.sub` raise TypeError. */
  function MatchAsWritten(alts: seq<JsonValue>, user: string): Result<bool, EvalError> {
    if alts == [] then Success(false)
    else match alts[0]
      case JOther(_) => Failure(AnswerNotText)
      case JString(t) => if Normalize(t) == user then Success(true) else MatchAsWritten(alts[1..], user)
  }

  /** When every alternative is a string the source and AnyMatches agree. */
  lemma {:induction false} AsWrittenAgreesOnText(alts: seq<JsonValue>, user: string)
    requires forall i :: 0 <= i < |alts| ==> alts[i].JString?
    ensures MatchAsWritten(alts, user) == Success(AnyMatches(alts, user))
  {
    if alts != [] {
      AsWrittenAgreesOnText(alts[1..], user);
    }
  }

  /** An answer column holding a JSON value that is not a string (the
      text `1947` decodes to a number) makes the source fail for every
      submission, while the corrected evaluator accepts the literal itself. */
  lemma NonTextAnswerFails(literal: string, answer: string)
    ensures MatchAsWritten(Alternatives(JsonScalar(JOther(literal))), answer) == Failure(AnswerNotText)
    ensures AnswerMatches(JsonScalar(JOther(literal)), Lower(Strip(literal)))
  {
    SingleAlternativeIff(JsonScalar(JOther(literal)), literal);
  }
}
