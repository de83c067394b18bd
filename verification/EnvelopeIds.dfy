/** Legacy document and template ids, and the queries that look envelopes up by id. */
module EnvelopeIds {
  import opened Wrappers
  import opened Decimal
  import opened Texts

  datatype EnvelopeType = Document | Template

  datatype IdError = InvalidEnvelopeId | InvalidDocumentId | InvalidTemplateId | NoIds | TooManyIds

  datatype IdOption = ByEnvelopeId(id: string) | ByDocumentId(number: int) | ByTemplateId(number: int)

  /** The ids of one request are all of the same kind. */
  datatype IdsOption =
    | ByEnvelopeIds(ids: seq<string>)
    | ByDocumentIds(numbers: seq<int>)
    | ByTemplateIds(numbers: seq<int>)
  {
    function Count(): nat {
      match this
      case ByEnvelopeIds(ids) => |ids|
      case ByDocumentIds(numbers) => |numbers|
      case ByTemplateIds(numbers) => |numbers|
    }

    function At(i: nat): IdOption
      requires i < Count()
    {
      match this
      case ByEnvelopeIds(ids) => ByEnvelopeId(ids[i])
      case ByDocumentIds(numbers) => ByDocumentId(numbers[i])
      case ByTemplateIds(numbers) => ByTemplateId(numbers[i])
    }
  }

  const MAX_ENVELOPE_IDS_PER_REQUEST := 20

  // ----- legacy ids -----

  /** A JavaScript integer as a template literal prints it. */
  function RenderInt(n: int): string {
    if n < 0 then "-" + Render(-n) else Render(n)
  }

  function DocumentIdToSecondaryId(number: int): string {
    "document_" + RenderInt(number)
  }

  function TemplateIdToSecondaryId(number: int): string {
    "template_" + RenderInt(number)
  }

  /** `^prefix\d+$` */
  predicate MatchesLegacyId(prefix: string, s: string) {
    |prefix| < |s| && s[..|prefix|] == prefix && AllDigits(s[|prefix|..])
  }

  /** The number after the underscore of a text that matches the pattern. */
  function NumberAfterUnderscore(s: string): Option<nat> {
    var parts := Split(s, "_");
    if |parts| > 1 && AllDigits(parts[1]) then Some(Value(parts[1])) else None
  }

  function SecondaryIdToDocumentId(s: string): Result<nat, IdError> {
    if !MatchesLegacyId("document_", s) then Failure(InvalidDocumentId)
    else match NumberAfterUnderscore(s)
         case Some(n) => Success(n)
         case None => Failure(InvalidDocumentId)
  }

  function SecondaryIdToTemplateId(s: string): Result<nat, IdError> {
    if !MatchesLegacyId("template_", s) then Failure(InvalidTemplateId)
    else match NumberAfterUnderscore(s)
         case Some(n) => Success(n)
         case None => Failure(InvalidTemplateId)
  }

  lemma FirstUnderscore(word: string, rest: string)
    requires forall i :: 0 <= i < |word| ==> word[i] != '_'
    ensures IndexOf(word + "_" + rest, "_") == Some(|word|)
  {
    var s := word + "_" + rest;
    assert OccursAt(s, "_", |word|);
    var at := IndexOf(s, "_").value;
    assert s[at..at + 1][0] == s[at];
  }

  lemma {:induction false} NoUnderscore(digits: string)
    requires AllDigits(digits)
    ensures IndexOf(digits, "_").None?
  {
    if digits != "" {
      assert digits[..1][0] != '_';
      NoUnderscore(digits[1..]);
    }
  }

  /** The part after the only underscore is what the split yields second. */
  lemma SplitAtUnderscore(word: string, digits: string)
    requires forall i :: 0 <= i < |word| ==> word[i] != '_'
    requires AllDigits(digits)
    ensures Split(word + "_" + digits, "_") == [word, digits]
  {
    var s := word + "_" + digits;
    FirstUnderscore(word, digits);
    NoUnderscore(digits);
    assert s[|word| + 1..] == digits && s[..|word|] == word;
  }

  lemma ParsedNumber(word: string, s: string)
    requires forall i :: 0 <= i < |word| ==> word[i] != '_'
    requires MatchesLegacyId(word + "_", s)
    ensures NumberAfterUnderscore(s) == Some(Value(s[|word| + 1..]))
  {
    var digits := s[|word| + 1..];
    assert s == word + "_" + digits;
    SplitAtUnderscore(word, digits);
  }

  lemma PrintedMatches(prefix: string, n: int)
    ensures MatchesLegacyId(prefix, prefix + RenderInt(n)) <==> n >= 0
    ensures (prefix + RenderInt(n))[|prefix|..] == RenderInt(n)
  {
    ValueOfRender(if n < 0 then -n else n);
    if n < 0 {
      assert RenderInt(n)[0] == '-';
    }
  }

  /** Printing and parsing a legacy id gives the number back exactly when it is not negative; others are refused. */
  lemma LegacyIdsRoundTrip(n: int)
    ensures SecondaryIdToDocumentId(DocumentIdToSecondaryId(n)) ==
            if n >= 0 then Success(n) else Failure(InvalidDocumentId)
    ensures SecondaryIdToTemplateId(TemplateIdToSecondaryId(n)) ==
            if n >= 0 then Success(n) else Failure(InvalidTemplateId)
  {
    PrintedMatches("document_", n);
    PrintedMatches("template_", n);
    if n >= 0 {
      assert "document" + "_" == "document_" && "template" + "_" == "template_";
      ParsedNumber("document", DocumentIdToSecondaryId(n));
      ParsedNumber("template", TemplateIdToSecondaryId(n));
      ValueOfRender(n);
    }
  }

  /**
   * Parsing then printing gives the text back exactly when its digits carry no superfluous leading zero; no text
   * parses both ways.
   */
  lemma ParsedIdsReprint(s: string)
    ensures SecondaryIdToDocumentId(s).Success? ==>
              (DocumentIdToSecondaryId(SecondaryIdToDocumentId(s).value) == s <==> Canonical(s[9..]))
    ensures SecondaryIdToTemplateId(s).Success? ==>
              (TemplateIdToSecondaryId(SecondaryIdToTemplateId(s).value) == s <==> Canonical(s[9..]))
    ensures SecondaryIdToDocumentId(s).Failure? || SecondaryIdToTemplateId(s).Failure?
  {
    assert "document" + "_" == "document_" && "template" + "_" == "template_";
    if MatchesLegacyId("document_", s) {
      ParsedNumber("document", s);
      Reprint("document_", s);
      assert s[0] == 'd';
    }
    if MatchesLegacyId("template_", s) {
      ParsedNumber("template", s);
      Reprint("template_", s);
      assert s[0] == 't';
    }
  }

  lemma Reprint(prefix: string, s: string)
    requires MatchesLegacyId(prefix, s)
    ensures prefix + Render(Value(s[|prefix|..])) == s <==> Canonical(s[|prefix|..])
  {
    var digits := s[|prefix|..];
    assert s == prefix + digits;
    ValueOfRender(Value(digits));
    if Canonical(digits) {
      RenderOfValue(digits);
    }
    if prefix + Render(Value(digits)) == s {
      assert (prefix + Render(Value(digits)))[|prefix|..] == Render(Value(digits));
    }
  }

  // ----- queries -----

  datatype Envelope = Envelope(id: string, kind: EnvelopeType, secondaryId: string)

  /** A filter for one envelope; absent conditions hold of every envelope. */
  datatype Query = Query(id: Option<string>, kind: Option<EnvelopeType>, secondaryId: Option<string>) {
    predicate Matches(e: Envelope) {
      && (id.Some? ==> e.id == id.value)
      && (kind.Some? ==> e.kind == kind.value)
      && (secondaryId.Some? ==> e.secondaryId == secondaryId.value)
    }
  }

  datatype PluralQuery =
    PluralQuery(ids: Option<seq<string>>, kind: Option<EnvelopeType>, secondaryIds: Option<seq<string>>)
  {
    predicate Matches(e: Envelope) {
      && (ids.Some? ==> e.id in ids.value)
      && (kind.Some? ==> e.kind == kind.value)
      && (secondaryIds.Some? ==> e.secondaryId in secondaryIds.value)
    }
  }

  /** `^envelope_.{2,}$`, where the dot stands for any UTF-16 code unit but a line terminator. */
  predicate IsEnvelopeId(s: string) {
    var prefix := "envelope_";
    && |prefix| <= |s| && s[..|prefix|] == prefix
    && UnitLength(s[|prefix|..]) >= 2
    && forall i :: |prefix| <= i < |s| ==> s[i] !in {'\n', '\r', '\U{2028}', '\U{2029}'}
  }

  function BuildIdQuery(option: IdOption, expected: Option<EnvelopeType>): Result<Query, IdError> {
    match option
    case ByEnvelopeId(id) =>
      if !IsEnvelopeId(id) then Failure(InvalidEnvelopeId)
      else if expected.Some? then Success(Query(Some(id), expected, None))
      else Success(Query(Some(id), None, None))
    case ByDocumentId(number) =>
      if expected.Some? && expected.value != Document then Failure(InvalidDocumentId)
      else Success(Query(None, Some(Document), Some(DocumentIdToSecondaryId(number))))
    case ByTemplateId(number) =>
      if expected.Some? && expected.value != Template then Failure(InvalidTemplateId)
      else Success(Query(None, Some(Template), Some(TemplateIdToSecondaryId(number))))
  }

  /** The ids of the two legacy kinds are a word, an underscore and digits; the numbers are read of the digits. */
  lemma LegacyIdsExactly(digits: string, n: nat)
    requires digits != "" && AllDigits(digits)
    ensures SecondaryIdToDocumentId("document_" + digits) == Success(Value(digits))
    ensures SecondaryIdToTemplateId("template_" + digits) == Success(Value(digits))
    ensures DocumentIdToSecondaryId(n) == "document_" + Render(n)
    ensures TemplateIdToSecondaryId(n) == "template_" + Render(n)
  {
    assert ("document_" + digits)[9..] == digits && ("document_" + digits)[..9] == "document_";
    assert ("template_" + digits)[9..] == digits && ("template_" + digits)[..9] == "template_";
    assert "document" + "_" == "document_" && "template" + "_" == "template_";
    ParsedNumber("document", "document_" + digits);
    ParsedNumber("template", "template_" + digits);
  }

  /** No other text is read. */
  lemma LegacyIdsOnly(s: string)
    ensures SecondaryIdToDocumentId(s).Success? ==> |s| > 9 && s[..9] == "document_" && AllDigits(s[9..])
    ensures SecondaryIdToTemplateId(s).Success? ==> |s| > 9 && s[..9] == "template_" && AllDigits(s[9..])
  {
  }

  predicate HasLineTerminator(s: string) {
    exists i :: 0 <= i < |s| && (s[i] == '\n' || s[i] == '\r' || s[i] == '\U{2028}' || s[i] == '\U{2029}')
  }

  /** Envelope ids are the word with its underscore and at least two more code units on the same line. */
  lemma EnvelopeIdsExactly(s: string)
    ensures IsEnvelopeId(s) <==>
            |s| >= 9 && s[..9] == "envelope_" && UnitLength(s[9..]) >= 2 && !HasLineTerminator(s[9..])
  {
    if |s| >= 9 {
      var rest := s[9..];
      assert forall i :: 0 <= i < |rest| ==> rest[i] == s[i + 9];
      assert forall i :: 9 <= i < |s| ==> s[i] == rest[i - 9];
    }
  }

  /** A query by envelope id is refused exactly when the id is none, and finds the envelope with that id. */
  lemma EnvelopeQueryMeans(id: string, expected: Option<EnvelopeType>, e: Envelope)
    ensures BuildIdQuery(ByEnvelopeId(id), expected).Success? <==> IsEnvelopeId(id)
    ensures IsEnvelopeId(id) ==>
              (BuildIdQuery(ByEnvelopeId(id), expected).value.Matches(e) <==>
               e.id == id && (expected.None? || e.kind == expected.value))
    ensures BuildIdQuery(ByEnvelopeId(id), expected).Failure? ==>
              BuildIdQuery(ByEnvelopeId(id), expected).error == InvalidEnvelopeId
  {
  }

  /** The envelope's secondary id is that number's legacy id for its kind, without superfluous leading zeros. */
  predicate HasLegacyNumber(e: Envelope, number: int) {
    && |e.secondaryId| >= 9 && Canonical(e.secondaryId[9..])
    && match e.kind
       case Document => SecondaryIdToDocumentId(e.secondaryId) == Success(number)
       case Template => SecondaryIdToTemplateId(e.secondaryId) == Success(number)
  }

  lemma DocumentIdIsExact(s: string, number: nat)
    ensures s == DocumentIdToSecondaryId(number) <==>
            |s| >= 9 && Canonical(s[9..]) && SecondaryIdToDocumentId(s) == Success(number)
  {
    if s == DocumentIdToSecondaryId(number) {
      LegacyIdsRoundTrip(number);
      ValueOfRender(number);
      assert s[9..] == Render(number);
    } else if SecondaryIdToDocumentId(s) == Success(number) {
      ParsedIdsReprint(s);
    }
  }

  lemma TemplateIdIsExact(s: string, number: nat)
    ensures s == TemplateIdToSecondaryId(number) <==>
            |s| >= 9 && Canonical(s[9..]) && SecondaryIdToTemplateId(s) == Success(number)
  {
    if s == TemplateIdToSecondaryId(number) {
      LegacyIdsRoundTrip(number);
      ValueOfRender(number);
      assert s[9..] == Render(number);
    } else if SecondaryIdToTemplateId(s) == Success(number) {
      ParsedIdsReprint(s);
    }
  }

  /**
   * A query by legacy number is refused exactly when the other kind is expected, and finds exactly the envelopes of
   * its kind whose secondary id reads back as that number.
   */
  lemma LegacyQueryMeans(number: nat, expected: Option<EnvelopeType>, e: Envelope)
    ensures BuildIdQuery(ByDocumentId(number), expected).Success? <==> expected != Some(Template)
    ensures BuildIdQuery(ByTemplateId(number), expected).Success? <==> expected != Some(Document)
    ensures expected != Some(Template) ==>
              (BuildIdQuery(ByDocumentId(number), expected).value.Matches(e) <==>
               e.kind == Document && HasLegacyNumber(e, number))
    ensures expected != Some(Document) ==>
              (BuildIdQuery(ByTemplateId(number), expected).value.Matches(e) <==>
               e.kind == Template && HasLegacyNumber(e, number))
  {
    DocumentIdIsExact(e.secondaryId, number);
    TemplateIdIsExact(e.secondaryId, number);
  }

  /** Expecting a kind only narrows down what the query finds otherwise, whichever id it is by. */
  lemma ExpectedKindNarrows(option: IdOption, kind: EnvelopeType, e: Envelope)
    ensures var narrow, wide := BuildIdQuery(option, Some(kind)), BuildIdQuery(option, None);
            (narrow.Success? && narrow.value.Matches(e)) <==>
            (wide.Success? && wide.value.Matches(e) && e.kind == kind)
  {
  }

  /** The plural filter accepts exactly the envelopes that some singular filter accepts. */
  ghost predicate MeansAnyOf(query: PluralQuery, options: IdsOption, expected: Option<EnvelopeType>) {
    && (forall i :: 0 <= i < options.Count() ==> BuildIdQuery(options.At(i), expected).Success?)
    && forall e: Envelope :: query.Matches(e) <==>
         exists i :: 0 <= i < options.Count() && BuildIdQuery(options.At(i), expected).value.Matches(e)
  }

  method ValidateEnvelopeIds(ids: seq<string>) returns (r: Result<seq<string>, IdError>)
    ensures r.Success? <==> forall i :: 0 <= i < |ids| ==> IsEnvelopeId(ids[i])
    ensures r.Success? ==> r.value == ids
    ensures r.Failure? ==> r.error == InvalidEnvelopeId
  {
    var validatedIds: seq<string> := [];
    for i := 0 to |ids|
      invariant validatedIds == ids[..i]
      invariant forall j :: 0 <= j < i ==> IsEnvelopeId(ids[j])
    {
      if !IsEnvelopeId(ids[i]) {
        return Failure(InvalidEnvelopeId);
      }
      validatedIds := validatedIds + [ids[i]];
    }
    return Success(validatedIds);
  }

  /**
   * One to twenty ids are accepted exactly when each alone is, and the filter then means that some singular filter
   * matches; when they are refused, it is with the error of a refused id.
   */
  method BuildIdsQuery(options: IdsOption, expected: Option<EnvelopeType>) returns (r: Result<PluralQuery, IdError>)
    ensures options.Count() == 0 ==> r == Failure(NoIds)
    ensures options.Count() > 20 ==> r == Failure(TooManyIds)
    ensures 1 <= options.Count() <= 20 ==>
              (r.Success? <==> forall i :: 0 <= i < options.Count() ==> BuildIdQuery(options.At(i), expected).Success?)
    ensures r.Success? ==> MeansAnyOf(r.value, options, expected)
    ensures r.Failure? && 1 <= options.Count() <= 20 ==>
              exists i :: 0 <= i < options.Count() && BuildIdQuery(options.At(i), expected) == Failure(r.error)
  {
    if options.Count() == 0 {
      return Failure(NoIds);
    }
    if options.Count() > MAX_ENVELOPE_IDS_PER_REQUEST {
      return Failure(TooManyIds);
    }
    match options {
      case ByEnvelopeIds(ids) =>
        var validated := ValidateEnvelopeIds(ids);
        if validated.Failure? {
          var i :| 0 <= i < |ids| && !IsEnvelopeId(ids[i]);
          assert BuildIdQuery(options.At(i), expected) == Failure(InvalidEnvelopeId);
          return Failure(validated.error);
        }
        EnvelopeIdsMeanAnyOf(options, expected);
        if expected.Some? {
          r := Success(PluralQuery(Some(validated.value), expected, None));
        } else {
          r := Success(PluralQuery(Some(validated.value), None, None));
        }
      case ByDocumentIds(numbers) =>
        if expected.Some? && expected.value != Document {
          assert BuildIdQuery(options.At(0), expected) == Failure(InvalidDocumentId);
          return Failure(InvalidDocumentId);
        }
        var secondaryIds := seq(|numbers|, i requires 0 <= i < |numbers| => DocumentIdToSecondaryId(numbers[i]));
        r := Success(PluralQuery(None, Some(Document), Some(secondaryIds)));
        SecondaryIdsMeanAnyOf(options, expected, Document, secondaryIds);
      case ByTemplateIds(numbers) =>
        if expected.Some? && expected.value != Template {
          assert BuildIdQuery(options.At(0), expected) == Failure(InvalidTemplateId);
          return Failure(InvalidTemplateId);
        }
        var secondaryIds := seq(|numbers|, i requires 0 <= i < |numbers| => TemplateIdToSecondaryId(numbers[i]));
        r := Success(PluralQuery(None, Some(Template), Some(secondaryIds)));
        SecondaryIdsMeanAnyOf(options, expected, Template, secondaryIds);
    }
  }

  lemma EnvelopeIdsMeanAnyOf(options: IdsOption, expected: Option<EnvelopeType>)
    requires options.ByEnvelopeIds? && forall i :: 0 <= i < |options.ids| ==> IsEnvelopeId(options.ids[i])
    requires |options.ids| > 0
    ensures MeansAnyOf(PluralQuery(Some(options.ids), expected, None), options, expected)
  {
    var query := PluralQuery(Some(options.ids), expected, None);
    forall e: Envelope
      ensures query.Matches(e) <==>
              exists i :: 0 <= i < options.Count() && BuildIdQuery(options.At(i), expected).value.Matches(e)
    {
      if query.Matches(e) {
        var i :| 0 <= i < |options.ids| && options.ids[i] == e.id;
        assert BuildIdQuery(options.At(i), expected).value.Matches(e);
      }
    }
  }

  lemma SecondaryIdsMeanAnyOf(options: IdsOption, expected: Option<EnvelopeType>, kind: EnvelopeType,
                              secondaryIds: seq<string>)
    requires |secondaryIds| == options.Count()
    requires forall i :: 0 <= i < |secondaryIds| ==>
               BuildIdQuery(options.At(i), expected) == Success(Query(None, Some(kind), Some(secondaryIds[i])))
    ensures MeansAnyOf(PluralQuery(None, Some(kind), Some(secondaryIds)), options, expected)
  {
    var query := PluralQuery(None, Some(kind), Some(secondaryIds));
    forall e: Envelope
      ensures query.Matches(e) <==>
              exists i :: 0 <= i < options.Count() && BuildIdQuery(options.At(i), expected).value.Matches(e)
    {
      if query.Matches(e) {
        var i :| 0 <= i < |secondaryIds| && secondaryIds[i] == e.secondaryId;
        assert BuildIdQuery(options.At(i), expected).value.Matches(e);
      }
    }
  }
}
