/** Revision tokens: what the front emits as a record's revision and what it accepts back in
    `If-Match` (crates/rift-cluster-server/src/admin_front.rs).
 */
module IfMatch {
  import opened Text
  import opened Control

  const TWO_64: nat := 0x1_0000_0000_0000_0000
  const ROUTES_REVISION_SUBJECT: string := "routes"

  /** What a token is about: one imposter, or (`None`) the whole route table. */
  type Subject = Option<Port>

  function SubjectText(subject: Subject): string {
    match subject
    case Some(port) => Decimal(port)
    case None => ROUTES_REVISION_SUBJECT
  }

  /** The token a read or a write of `subject` answers with. */
  function Token(subject: Subject, revision: nat): string {
    SubjectText(subject) + "@" + Decimal(revision)
  }

  /** One pair of double quotes around the whole text is dropped; anything else is kept. */
  function Unquote(s: string): string {
    if |s| >= 2 && s[0] == '"' && s[|s| - 1] == '"' then s[1..|s| - 1] else s
  }

  /** `parse_if_match`: the revision, or `None` for the `400`. */
  function ParseIfMatch(raw: string, expected: Subject): Option<nat> {
    var unquoted := Unquote(Trim(raw));
    var bare := ParseUnsigned(unquoted, TWO_64);
    if bare.Some? then bare
    else
      var (addressed, revision) :- SplitOnce(unquoted, '@');
      match expected
      case Some(port) =>
        if ParseUnsigned(addressed, 0x1_0000) == Some(port) then ParseUnsigned(revision, TWO_64) else None
      case None =>
        if addressed == ROUTES_REVISION_SUBJECT then ParseUnsigned(revision, TWO_64) else None
  }

  /** A header value that carries `text`: padded with white space, in quotes or not. */
  ghost predicate Carries(raw: string, text: string) {
    exists left, right :: Padded(raw, text, left, right) || Padded(raw, "\"" + text + "\"", left, right)
  }

  ghost predicate Padded(raw: string, text: string, left: string, right: string) {
    AllWhitespace(left) && AllWhitespace(right) && raw == left + text + right
  }

  lemma DecimalShape(n: nat)
    ensures Trimmed(Decimal(n)) && Decimal(n) != ""
    ensures Free(Decimal(n), '"') && Free(Decimal(n), '@')
  {
    var s := Decimal(n);
    assert forall i :: 0 <= i < |s| ==> IsDigit(s[i]) && !IsWhitespace(s[i]) && s[i] != '"' && s[i] != '@';
  }

  lemma TokenShape(subject: Subject, revision: nat)
    ensures Trimmed(Token(subject, revision)) && Token(subject, revision) != ""
    ensures Free(Token(subject, revision), '"')
    ensures Free(SubjectText(subject), '@')
  {
    DecimalShape(revision);
    if subject.Some? { DecimalShape(subject.value); }
  }

  /** Padding and one pair of quotes never change what is parsed. */
  lemma UnwrapsCarried(raw: string, text: string)
    requires Carries(raw, text) && Trimmed(text) && text != "" && Free(text, '"')
    ensures Unquote(Trim(raw)) == text
  {
    var left, right :| Padded(raw, text, left, right) || Padded(raw, "\"" + text + "\"", left, right);
    if Padded(raw, text, left, right) {
      TrimUndoesPadding(left, text, right);
    } else {
      var quoted := "\"" + text + "\"";
      assert Trimmed(quoted);
      TrimUndoesPadding(left, quoted, right);
      assert quoted[1..|quoted| - 1] == text;
    }
  }

  lemma TokenIsNotANumber(subject: Subject, revision: nat, bound: nat)
    ensures ParseUnsigned(Token(subject, revision), bound).None?
  {
    var token := Token(subject, revision);
    var at := |SubjectText(subject)|;
    assert token[at] == '@' && at > 0;
    assert token[0] == SubjectText(subject)[0] != '+';
    assert !AllDigits(token);
  }

  /** What parsing a token for a given subject comes to. */
  lemma ParseOfToken(raw: string, subject: Subject, revision: nat, expected: Subject)
    requires revision < TWO_64
    requires Carries(raw, Token(subject, revision))
    ensures ParseIfMatch(raw, expected) == if subject == expected then Some(revision) else None
  {
    var token := Token(subject, revision);
    TokenShape(subject, revision);
    UnwrapsCarried(raw, token);
    TokenIsNotANumber(subject, revision, TWO_64);
    SplitOnceAt(SubjectText(subject), Decimal(revision), '@');
    DecimalParses(revision, TWO_64);
    if subject.Some? {
      DecimalParses(subject.value, 0x1_0000);
      assert Decimal(subject.value) != ROUTES_REVISION_SUBJECT by {
        assert !IsDigit(ROUTES_REVISION_SUBJECT[0]);
      }
    } else {
      assert ParseUnsigned(ROUTES_REVISION_SUBJECT, 0x1_0000).None? by {
        assert !IsDigit(ROUTES_REVISION_SUBJECT[0]);
      }
    }
  }

  /** A token comes back as its revision for its own subject, however it is padded or quoted. */
  lemma TokenRoundTrip(raw: string, subject: Subject, revision: nat)
    requires revision < TWO_64
    requires Carries(raw, Token(subject, revision))
    ensures ParseIfMatch(raw, subject) == Some(revision)
  {
    ParseOfToken(raw, subject, revision, subject);
  }

  /** A token is refused for every other subject, route table and imposters alike. */
  lemma TokenRefusedElsewhere(raw: string, subject: Subject, revision: nat, other: Subject)
    requires revision < TWO_64 && other != subject
    requires Carries(raw, Token(subject, revision))
    ensures ParseIfMatch(raw, other).None?
  {
    ParseOfToken(raw, subject, revision, other);
  }

  /** A bare revision names no subject and is accepted for each of them. */
  lemma BareRevisionFitsEverySubject(raw: string, revision: nat, expected: Subject)
    requires revision < TWO_64
    requires Carries(raw, Decimal(revision))
    ensures ParseIfMatch(raw, expected) == Some(revision)
  {
    DecimalShape(revision);
    UnwrapsCarried(raw, Decimal(revision));
    DecimalParses(revision, TWO_64);
  }

  // ---- exactly what is accepted ----

  /** The text names the subject: any spelling of the port, or the word for the route table. */
  ghost predicate NamesSubject(text: string, subject: Subject) {
    match subject
    case Some(port) => Numeral(text, port)
    case None => text == "routes"
  }

  /** `text` is a bare revision. */
  ghost predicate SpellsBare(text: string, revision: nat) {
    revision < TWO_64 && Numeral(text, revision)
  }

  /** `text` is a revision of the subject: the subject, an at sign, the revision. */
  ghost predicate SpellsAddressed(text: string, subject: Subject, addressed: string, number: string, revision: nat) {
    text == addressed + "@" + number && NamesSubject(addressed, subject) && revision < TWO_64 && Numeral(number, revision)
  }

  ghost predicate SpellsText(text: string, subject: Subject, revision: nat) {
    SpellsBare(text, revision) || exists addressed, number :: SpellsAddressed(text, subject, addressed, number, revision)
  }

  /** The header value spells the revision for the subject: bare or addressed, in one pair of quotes
      or in none, padded or not. */
  ghost predicate SpellsRevision(raw: string, subject: Subject, revision: nat) {
    exists text :: Carries(raw, text) && SpellsText(text, subject, revision)
  }

  lemma {:induction false} SpelledIsBare(text: string, subject: Subject, revision: nat)
    requires SpellsText(text, subject, revision)
    ensures Trimmed(text) && text != "" && Free(text, '"')
  {
    if SpellsBare(text, revision) {
      NumeralIsPlain(text, revision);
    } else {
      var addressed, number :| SpellsAddressed(text, subject, addressed, number, revision);
      NumeralIsPlain(number, revision);
      if subject.Some? { NumeralIsPlain(addressed, subject.value); }
    }
  }

  lemma NumeralIsPlain(text: string, n: nat)
    requires Numeral(text, n)
    ensures Trimmed(text) && text != "" && Free(text, '"')
  {
    NumeralIsFreeOf(text, n, '"');
    assert text[0] == '+' ==> text[|text| - 1] == text[1..][|text| - 2];
  }

  lemma UnwrappedIsCarried(raw: string)
    ensures Carries(raw, Unquote(Trim(raw)))
  {
    var left, right := TrimTakesTheEnds(raw);
    var core := Trim(raw);
    if Unquote(core) != core {
      assert core == "\"" + Unquote(core) + "\"";
      assert Padded(raw, "\"" + Unquote(core) + "\"", left, right);
    } else {
      assert Padded(raw, Unquote(core), left, right);
    }
  }

  lemma SubjectIsFree(text: string, subject: Subject)
    requires NamesSubject(text, subject)
    ensures Free(text, '@')
  {
    if subject.Some? { NumeralIsFreeOf(text, subject.value, '@'); }
  }

  lemma AddressedParses(text: string, subject: Subject, addressed: string, number: string, revision: nat)
    requires SpellsAddressed(text, subject, addressed, number, revision)
    ensures ParseUnsigned(text, TWO_64).None? && SplitOnce(text, '@') == Some((addressed, number))
    ensures ParseUnsigned(number, TWO_64) == Some(revision)
    ensures subject.Some? ==> ParseUnsigned(addressed, 0x1_0000) == Some(subject.value)
  {
    SubjectIsFree(addressed, subject);
    SplitOnceAt(addressed, number, '@');
    assert text == addressed + ['@'] + number;
    ParsesIff(number, TWO_64, revision);
    if subject.Some? { ParsesIff(addressed, 0x1_0000, subject.value); }
    assert text[|addressed|] == '@';
    if ParseUnsigned(text, TWO_64).Some? {
      ParsesIff(text, TWO_64, ParseUnsigned(text, TWO_64).value);
      NumeralIsFreeOf(text, ParseUnsigned(text, TWO_64).value, '@');
    }
  }

  lemma ParsedIsAddressed(text: string, subject: Subject, addressed: string, number: string, revision: nat)
    requires text == addressed + "@" + number && ParseUnsigned(number, TWO_64) == Some(revision)
    requires if subject.Some? then ParseUnsigned(addressed, 0x1_0000) == subject else addressed == ROUTES_REVISION_SUBJECT
    ensures SpellsAddressed(text, subject, addressed, number, revision)
  {
    ParsesIff(number, TWO_64, revision);
    if subject.Some? { ParsesIff(addressed, 0x1_0000, subject.value); }
  }

  /** A header value is accepted for a subject, and as which revision, exactly when it spells it. */
  lemma ParseIfMatchIff(raw: string, subject: Subject, revision: nat)
    ensures ParseIfMatch(raw, subject) == Some(revision) <==> SpellsRevision(raw, subject, revision)
  {
    var text := Unquote(Trim(raw));
    UnwrappedIsCarried(raw);
    UnwrappedParsesIff(raw, subject, revision);
    forall carried | Carries(raw, carried) && SpellsText(carried, subject, revision) ensures carried == text {
      SpelledIsBare(carried, subject, revision);
      UnwrapsCarried(raw, carried);
    }
  }

  lemma UnwrappedParsesIff(raw: string, subject: Subject, revision: nat)
    ensures ParseIfMatch(raw, subject) == Some(revision) <==> SpellsText(Unquote(Trim(raw)), subject, revision)
  {
    var text := Unquote(Trim(raw));
    ParsesIff(text, TWO_64, revision);
    if ParseIfMatch(raw, subject) == Some(revision) && ParseUnsigned(text, TWO_64).None? {
      var (addressed, number) := SplitOnce(text, '@').value;
      SplitOnceIs(text, '@');
      ParsedIsAddressed(text, subject, addressed, number, revision);
    }
    if addressed, number :| SpellsAddressed(text, subject, addressed, number, revision) {
      AddressedParses(text, subject, addressed, number, revision);
    }
  }
}
