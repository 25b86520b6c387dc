/**
 * The visitor form: rows of visitor fields with per-field error messages, the
 * Arabic-only check, and the submission that posts the visitors and the
 * selected dates and saves the document or documents that come back.
 */
module UserForm {
  import opened Wrappers
  import opened Text
  import opened Json
  import opened Bytes
  import opened Lists
  import EnterDate

  datatype Field = Name | Nationality | IdNumber

  datatype Visitor = Visitor(name: string, nationality: string, idNumber: string)

  /**
   * A row's error messages by field. A fresh row has entries for `name` and
   * `nationality`; editing the ID number adds an (always empty) entry for it.
   */
  type FieldErrors = map<Field, string>

  const EmptyVisitor: Visitor := Visitor("", "", "")
  const NoErrors: FieldErrors := map[Name := "", Nationality := ""]
  const ArabicOnlyMessage: string := "Please enter Arabic text only"

  /** The characters the regular-expression class `\s` matches, by code point. */
  predicate IsJsWhitespace(c: char) {
    var x := c as int;
    (0x09 <= x <= 0x0D) || x == 0x20 || x == 0xA0 || x == 0x1680 || (0x2000 <= x <= 0x200A)
    || x == 0x2028 || x == 0x2029 || x == 0x202F || x == 0x205F || x == 0x3000 || x == 0xFEFF
  }

  /** A character of the class `[\u0600-\u06FF\s]`: the Arabic block or white space. */
  predicate IsArabicChar(c: char) {
    (0x0600 <= c as int <= 0x06FF) || IsJsWhitespace(c)
  }

  /** Matches the class against every character, one after the other. */
  function AllArabic(t: string): (r: bool)
    ensures r <==> forall i :: 0 <= i < |t| ==> IsArabicChar(t[i])
    decreases |t|
  {
    if t == [] then true
    else
      var rest := AllArabic(t[1..]);
      assert forall i :: 1 <= i < |t| ==> t[i] == t[1..][i - 1];
      IsArabicChar(t[0]) && rest
  }

  /** `isArabicOnly`: the whole text is one or more characters of the class; the empty string fails. */
  function IsArabicOnly(t: string): (r: bool)
    ensures r <==> |t| > 0 && forall i :: 0 <= i < |t| ==> IsArabicChar(t[i])
  {
    |t| > 0 && AllArabic(t)
  }

  function FieldValue(v: Visitor, f: Field): string {
    match f
    case Name => v.name
    case Nationality => v.nationality
    case IdNumber => v.idNumber
  }

  /** `{...v, [f]: value}`: the one field replaced, the others kept. */
  function WithField(v: Visitor, f: Field, value: string): (r: Visitor)
    ensures forall g :: FieldValue(r, g) == if g == f then value else FieldValue(v, g)
  {
    match f
    case Name => v.(name := value)
    case Nationality => v.(nationality := value)
    case IdNumber => v.(idNumber := value)
  }

  /**
   * The message `handleChanges` stores for the edited field: the Arabic-only
   * message for a non-empty name or nationality that is not Arabic-only, and
   * the empty message otherwise.
   */
  function ErrorFor(f: Field, value: string): (m: string)
    ensures m == ArabicOnlyMessage <==> (f == Name || f == Nationality) && value != "" && !IsArabicOnly(value)
    ensures m != ArabicOnlyMessage ==> m == ""
  {
    if (f == Name || f == Nationality) && value != "" then
      if !IsArabicOnly(value) then ArabicOnlyMessage else ""
    else ""
  }

  /** `!isArabicOnly(x) && x !== ""`: the test whole-form validation applies. */
  predicate Flagged(value: string) {
    !IsArabicOnly(value) && value != ""
  }

  /** The body of the validation loop for one row. */
  function CheckRow(errs: FieldErrors, v: Visitor): (r: FieldErrors)
    ensures Name in errs && Nationality in errs ==> Name in r && Nationality in r
    ensures forall f :: f in errs ==> f in r
    ensures r.Keys <= errs.Keys + {Name, Nationality}
  {
    var e1 := if Flagged(v.name) then errs[Name := ArabicOnlyMessage] else errs;
    if Flagged(v.nationality) then e1[Nationality := ArabicOnlyMessage] else e1
  }

  /** The error rows after validation: each row with a visitor is checked, the rest kept. */
  function ValidatedErrors(errs: seq<FieldErrors>, forms: seq<Visitor>): (r: seq<FieldErrors>)
    requires |forms| <= |errs|
    ensures |r| == |errs|
    ensures forall i :: |forms| <= i < |errs| ==> r[i] == errs[i]
  {
    seq(|errs|, i requires 0 <= i < |errs| => if i < |forms| then CheckRow(errs[i], forms[i]) else errs[i])
  }

  /** No row has a flagged name or nationality. */
  predicate FormsValid(forms: seq<Visitor>) {
    forall i :: 0 <= i < |forms| ==> !Flagged(forms[i].name) && !Flagged(forms[i].nationality)
  }

  /** Validation keeps every error row's name and nationality entries. */
  lemma KeysAfterValidation(errs: seq<FieldErrors>, forms: seq<Visitor>)
    requires |forms| <= |errs|
    requires forall i :: 0 <= i < |errs| ==> Name in errs[i] && Nationality in errs[i]
    ensures forall i :: 0 <= i < |errs| ==>
              Name in ValidatedErrors(errs, forms)[i] && Nationality in ValidatedErrors(errs, forms)[i]
  {
  }

  /** Validating one more row updates that row's errors and adds that row's test. */
  lemma ValidatedStep(errs: seq<FieldErrors>, forms: seq<Visitor>, index: nat)
    requires index < |forms| <= |errs|
    ensures ValidatedErrors(errs, forms[..index + 1]) ==
            ValidatedErrors(errs, forms[..index])[index := CheckRow(errs[index], forms[index])]
    ensures ValidatedErrors(errs, forms[..index])[index] == errs[index]
    ensures FormsValid(forms[..index + 1]) <==>
            FormsValid(forms[..index]) && !Flagged(forms[index].name) && !Flagged(forms[index].nationality)
  {
    assert forms[..index + 1] == forms[..index] + [forms[index]];
  }

  /**
   * Validation marks exactly the flagged fields: a flagged field gets the
   * Arabic-only message, an unflagged one keeps whatever it had, so an empty
   * field is never marked and a message is never cleared.
   */
  lemma ValidationMarksFlagged(errs: seq<FieldErrors>, forms: seq<Visitor>, i: nat)
    requires |forms| <= |errs| && i < |forms|
    requires Name in errs[i] && Nationality in errs[i]
    ensures var r := ValidatedErrors(errs, forms)[i];
      Name in r && Nationality in r &&
      r[Name] == (if Flagged(forms[i].name) then ArabicOnlyMessage else errs[i][Name]) &&
      r[Nationality] == (if Flagged(forms[i].nationality) then ArabicOnlyMessage else errs[i][Nationality]) &&
      (forall f :: f in errs[i] && errs[i][f] != "" ==> f in r && r[f] != "") &&
      (forms[i].name == "" ==> r[Name] == errs[i][Name])
  {
  }

  /** With no flagged field, validation leaves every error row as it was. */
  lemma ValidFormsKeepErrors(errs: seq<FieldErrors>, forms: seq<Visitor>)
    requires |forms| <= |errs| && FormsValid(forms)
    ensures ValidatedErrors(errs, forms) == errs
  {
  }

  // ---------------------------------------------------------------------
  // Request payload

  datatype Person = Person(name: string, nationality: string, id_number: string)

  /** The body posted to the document generator. */
  datatype ApiData = ApiData(people: seq<Person>, dates: seq<EnterDate.ApiDate>)

  /** `{people: forms.map(...), dates: selectedDates.map(...)}`, with `idNumber` sent as `id_number`. */
  function BuildPayload(forms: seq<Visitor>, dates: seq<EnterDate.ApiDate>): (r: ApiData)
    ensures |r.people| == |forms| && |r.dates| == |dates|
    ensures forall i :: 0 <= i < |forms| ==>
              r.people[i] == Person(forms[i].name, forms[i].nationality, forms[i].idNumber)
    ensures forall i :: 0 <= i < |dates| ==> r.dates[i].date == dates[i].date
  {
    ApiData(seq(|forms|, i requires 0 <= i < |forms| => Person(forms[i].name, forms[i].nationality, forms[i].idNumber)),
            seq(|dates|, i requires 0 <= i < |dates| => EnterDate.ApiDate(dates[i].date)))
  }

  /** Reads the visitors back from the posted people. */
  function PeopleToVisitors(people: seq<Person>): (r: seq<Visitor>)
    ensures |r| == |people|
  {
    seq(|people|, i requires 0 <= i < |people| => Visitor(people[i].name, people[i].nationality, people[i].id_number))
  }

  /** The posted people carry every visitor field: the visitors can be read back unchanged. */
  lemma PayloadKeepsVisitors(forms: seq<Visitor>, dates: seq<EnterDate.ApiDate>)
    ensures PeopleToVisitors(BuildPayload(forms, dates).people) == forms
    ensures BuildPayload(forms, dates).dates == dates
  {
    var r := BuildPayload(forms, dates);
    assert forall i :: 0 <= i < |dates| ==> r.dates[i] == dates[i];
  }

  /** Dates projected from a well-formed selection are posted in order, one per calendar day. */
  lemma PayloadDatesFromPicker(forms: seq<Visitor>, list: seq<EnterDate.DateEntry>)
    requires EnterDate.WellFormed(list)
    ensures var dates := BuildPayload(forms, EnterDate.Projection(list)).dates;
      |dates| == |list| &&
      (forall i :: 0 <= i < |list| ==> dates[i].date == list[i].date) &&
      (forall i, j :: 0 <= i < j < |list| ==> dates[i] != dates[j])
  {
    EnterDate.ProjectionDistinct(list);
    PayloadKeepsVisitors(forms, EnterDate.Projection(list));
  }

  // ---------------------------------------------------------------------
  // Errors of the submission

  /** How the HTTP client failed: the server answered with an error status, did not answer, or something else threw. */
  datatype RequestError = ServerStatus(status: int) | NoResponse | Failure(message: string)

  const ErrorBase: string := "An error occurred while processing your request."
  const NoResponseText: string := " No response received from server."
  const ServerReturnedText: string := " Server returned: "

  /** The message the `catch` of the submission shows. */
  function ErrorMessage(e: RequestError): (m: string)
    ensures |m| > |ErrorBase| && m[..|ErrorBase|] == ErrorBase
    ensures e.ServerStatus? ==> m == ErrorBase + ServerReturnedText + IntToString(e.status)
    ensures e.NoResponse? ==> m == ErrorBase + NoResponseText
    ensures e.Failure? ==> m == ErrorBase + " " + e.message
  {
    match e
    case ServerStatus(status) => ErrorBase + ServerReturnedText + IntToString(status)
    case NoResponse => ErrorBase + NoResponseText
    case Failure(message) => ErrorBase + " " + message
  }

  /** The status a "Server returned" message names, read back from the message. */
  function StatusInMessage(m: string): Option<int> {
    var prefix := ErrorBase + ServerReturnedText;
    if |m| >= |prefix| && m[..|prefix|] == prefix then ParseInt(m[|prefix|..]) else None
  }

  /** The error status can be read back from the message shown for it. */
  lemma StatusMessageRoundTrip(status: int)
    ensures StatusInMessage(ErrorMessage(ServerStatus(status))) == Some(status)
  {
    var prefix := ErrorBase + ServerReturnedText;
    var m := ErrorMessage(ServerStatus(status));
    assert m[..|prefix|] == prefix && m[|prefix|..] == IntToString(status);
    IntToStringRoundTrip(status);
  }

  // ---------------------------------------------------------------------
  // The name of a single downloaded document

  predicate IsQuote(c: char) {
    c == '\'' || c == '"'
  }

  /** The characters `.` does not match. */
  predicate IsLineTerminator(c: char) {
    c == '\n' || c == '\r' || c as int == 0x2028 || c as int == 0x2029
  }

  /** The end of the run `[^;=\n]*` that starts at `j`. */
  function SkipKey(s: string, j: nat): (k: nat)
    requires j <= |s|
    ensures j <= k <= |s|
    ensures forall m :: j <= m < k ==> s[m] != ';' && s[m] != '=' && s[m] != '\n'
    ensures k < |s| ==> s[k] == ';' || s[k] == '=' || s[k] == '\n'
    decreases |s| - j
  {
    if j == |s| || s[j] == ';' || s[j] == '=' || s[j] == '\n' then j else SkipKey(s, j + 1)
  }

  /** The end of the run `[^;\n]*` that starts at `j`. */
  function SkipValue(s: string, j: nat): (k: nat)
    requires j <= |s|
    ensures j <= k <= |s|
    ensures forall m :: j <= m < k ==> s[m] != ';' && s[m] != '\n'
    ensures k < |s| ==> s[k] == ';' || s[k] == '\n'
    decreases |s| - j
  {
    if j == |s| || s[j] == ';' || s[j] == '\n' then j else SkipValue(s, j + 1)
  }

  /** The first `q` at or after `j` on the same line: where the lazy `.*?\2` stops. */
  function ClosingQuote(s: string, j: nat, q: char): (r: Option<nat>)
    requires j <= |s|
    ensures r.Some? ==> j <= r.value < |s| && s[r.value] == q
    ensures r.Some? ==> forall m :: j <= m < r.value ==> s[m] != q && !IsLineTerminator(s[m])
    decreases |s| - j
  {
    if j == |s| || IsLineTerminator(s[j]) then None
    else if s[j] == q then Some(j)
    else ClosingQuote(s, j + 1, q)
  }

  /** The capture `((['"]).*?\2|[^;\n]*)` at `j`: a quoted value with its quotes, or the rest of the field. */
  function ValueGroup(s: string, j: nat): string
    requires j <= |s|
  {
    if j < |s| && IsQuote(s[j]) then
      match ClosingQuote(s, j + 1, s[j])
      case Some(m) => s[j..m + 1]
      case None => s[j..SkipValue(s, j)]
    else s[j..SkipValue(s, j)]
  }

  /** `filename[^;=\n]*=` matches at `i` with its `=` at `k`. */
  predicate KeyMatch(s: string, i: nat, k: nat) {
    OccursAt(s, "filename", i) && i + 8 <= k < |s| && s[k] == '='
    && forall m :: i + 8 <= m < k ==> s[m] != ';' && s[m] != '=' && s[m] != '\n'
  }

  /** `filename[^;=\n]*=(...)` tried at start `i`. */
  function MatchAt(s: string, i: nat): Option<string> {
    if OccursAt(s, "filename", i) then
      var k := SkipKey(s, i + 8);
      if k < |s| && s[k] == '=' then Some(ValueGroup(s, k + 1)) else None
    else None
  }

  /** A start matches exactly when `filename` is there and a `=` ends the key on the same field. */
  lemma MatchNeedsKey(s: string, i: nat)
    ensures MatchAt(s, i).Some? <==> exists k: nat :: KeyMatch(s, i, k)
  {
    if OccursAt(s, "filename", i) {
      var k := SkipKey(s, i + 8);
      assert forall k': nat :: KeyMatch(s, i, k') ==> k' == k;
      if k < |s| && s[k] == '=' {
        assert KeyMatch(s, i, k);
      }
    }
  }

  /** `regex.exec(s)`: the capture at the first start position where the pattern matches. */
  function ExecFrom(s: string, i: nat): Option<string>
    decreases |s| - i
  {
    if i > |s| then None
    else match MatchAt(s, i)
      case Some(g) => Some(g)
      case None => if i == |s| then None else ExecFrom(s, i + 1)
  }

  /** No start position from `i` up to `j` (exclusive) matches. */
  predicate NoMatchBefore(s: string, i: nat, j: nat) {
    forall m :: i <= m < j ==> MatchAt(s, m).None?
  }

  /** `exec` answers with the capture of the first matching start, and with nothing when no start matches. */
  lemma {:induction false} ExecFirstMatch(s: string, i: nat)
    requires i <= |s|
    ensures ExecFrom(s, i).Some? ==>
              exists j :: i <= j <= |s| && MatchAt(s, j) == ExecFrom(s, i) && NoMatchBefore(s, i, j)
    ensures ExecFrom(s, i).None? ==> NoMatchBefore(s, i, |s| + 1)
    decreases |s| - i
  {
    if MatchAt(s, i).Some? {
      assert NoMatchBefore(s, i, i);
    } else if i < |s| {
      ExecFirstMatch(s, i + 1);
      if ExecFrom(s, i + 1).Some? {
        var j :| i + 1 <= j <= |s| && MatchAt(s, j) == ExecFrom(s, i + 1) && NoMatchBefore(s, i + 1, j);
        assert NoMatchBefore(s, i, j);
      }
    }
  }

  /** `s.replace(/['"]/g, '')`: every quote removed, the other characters kept in order. */
  function StripQuotes(s: string): (r: string)
    ensures forall i :: 0 <= i < |r| ==> !IsQuote(r[i])
    ensures |r| <= |s|
    ensures (forall i :: 0 <= i < |s| ==> !IsQuote(s[i])) ==> r == s
    decreases |s|
  {
    if s == [] then ""
    else
      var rest := StripQuotes(s[1..]);
      assert (forall i :: 0 <= i < |s| ==> !IsQuote(s[i])) ==> forall i :: 0 <= i < |s[1..]| ==> !IsQuote(s[1..][i]);
      if IsQuote(s[0]) then rest
      else
        assert (forall i :: 0 <= i < |s| ==> !IsQuote(s[i])) ==> [s[0]] + s[1..] == s;
        [s[0]] + rest
  }

  /** Only quotes are removed: every other character occurs as often as before. */
  lemma {:induction false} StripQuotesKeepsOthers(s: string, c: char)
    requires !IsQuote(c)
    ensures multiset(StripQuotes(s))[c] == multiset(s)[c]
    decreases |s|
  {
    if s != [] {
      StripQuotesKeepsOthers(s[1..], c);
      assert s == [s[0]] + s[1..];
    }
  }

  /** Removing quotes twice is removing them once. */
  lemma StripQuotesIdempotent(s: string)
    ensures StripQuotes(StripQuotes(s)) == StripQuotes(s)
  {
  }

  /** The file name a `Content-Disposition` header gives, quotes removed; None when it gives none. */
  function NameFromDisposition(disposition: Option<string>): (r: Option<string>)
    ensures r.Some? ==> disposition.Some? && Includes(disposition.value, "filename=")
    ensures r.Some? ==> forall i :: 0 <= i < |r.value| ==> !IsQuote(r.value[i])
  {
    if disposition.Some? && disposition.value != "" && Includes(disposition.value, "filename=") then
      match ExecFrom(disposition.value, 0)
      case Some(g) => if g != "" then Some(StripQuotes(g)) else None
      case None => None
    else None
  }

  const PdfType: string := "application/pdf"

  /** `getpass_<date>.pdf` for a PDF, `getpass_<date>.docx` for anything else. */
  function SynthesizedName(firstDate: string, contentType: Option<string>): (r: string)
    ensures |r| > 8 + |firstDate| && r[..8] == "getpass_" && r[8..8 + |firstDate|] == firstDate
    ensures r[8 + |firstDate|..] == ".pdf" <==> contentType == Some(PdfType)
    ensures r[8 + |firstDate|..] == ".docx" <==> contentType != Some(PdfType)
  {
    // `date.replace(/-/g, '-')` gives the date back unchanged.
    var ext := if contentType == Some(PdfType) then ".pdf" else ".docx";
    "getpass_" + firstDate + ext
  }

  /** The name the single document is saved under: the header's, unless that is missing or empty. */
  function DownloadName(disposition: Option<string>, contentType: Option<string>, firstDate: string): (r: string)
    ensures match NameFromDisposition(disposition)
            case Some(n) => n != "" ==> r == n
            case None => true
    ensures r != "" 
    ensures (NameFromDisposition(disposition).None? || NameFromDisposition(disposition).value == "") ==>
              r == SynthesizedName(firstDate, contentType)
  {
    match NameFromDisposition(disposition)
    case Some(n) => if n != "" then n else SynthesizedName(firstDate, contentType)
    case None => SynthesizedName(firstDate, contentType)
  }

  /** No start before `|p|` can match when `p` has no `f`, so the search goes on past it. */
  lemma {:induction false} ExecSkipsPrefix(s: string, p: string, i: nat)
    requires i <= |p| <= |s| && s[..|p|] == p
    requires forall m :: 0 <= m < |p| ==> p[m] != 'f'
    ensures ExecFrom(s, i) == ExecFrom(s, |p|)
    decreases |p| - i
  {
    if i < |p| {
      assert s[i] == p[i];
      FirstCharDiffers(s, "filename", i);
      ExecSkipsPrefix(s, p, i + 1);
    }
  }

  const Key: string := "filename=\""

  /**
   * A header such as `attachment; filename="getpass.docx"` names its file: the
   * quoted name comes back without its quotes.
   */
  lemma QuotedNameExtracted(p: string, name: string)
    requires forall m :: 0 <= m < |p| ==> p[m] != 'f'
    requires forall m :: 0 <= m < |name| ==> !IsQuote(name[m]) && !IsLineTerminator(name[m])
    ensures NameFromDisposition(Some(p + Key + name + "\"")) == Some(name)
  {
    var s := p + Key + name + "\"";
    var k := |p|;
    assert s[..k] == p && s[k..k + |Key|] == Key && s[k + |Key|..] == name + "\"";
    QuotedHeader(s, p, name);
    NameFromCapture(s, "\"" + name + "\"");
    StripQuotesAround(name);
  }

  /** In such a header `exec` captures the quoted name, and `filename=` is present. */
  lemma QuotedHeader(s: string, p: string, name: string)
    requires |s| == |p| + |Key| + |name| + 1
    requires s[..|p|] == p && s[|p|..|p| + |Key|] == Key && s[|p| + |Key|..] == name + "\""
    requires forall m :: 0 <= m < |p| ==> p[m] != 'f'
    requires forall m :: 0 <= m < |name| ==> !IsQuote(name[m]) && !IsLineTerminator(name[m])
    ensures ExecFrom(s, 0) == Some("\"" + name + "\"")
    ensures Includes(s, "filename=")
  {
    var k := |p|;
    ExecSkipsPrefix(s, p, 0);
    QuotedCapture(s, k, name);
    assert OccursAt(s, "filename=", k) by { assert s[k..k + 9] == Key[..9]; }
  }

  /** A header with `filename=` whose capture is not empty names the capture without its quotes. */
  lemma NameFromCapture(d: string, g: string)
    requires Includes(d, "filename=") && ExecFrom(d, 0) == Some(g) && g != ""
    ensures NameFromDisposition(Some(d)) == Some(StripQuotes(g))
  {
  }

  /** At the key, the capture is the quoted name with its quotes. */
  lemma QuotedCapture(s: string, k: nat, name: string)
    requires k + |Key| + |name| + 1 == |s| && s[k..k + |Key|] == Key
    requires s[k + |Key|..] == name + "\""
    requires forall m :: 0 <= m < |name| ==> !IsQuote(name[m]) && !IsLineTerminator(name[m])
    ensures ExecFrom(s, k) == Some("\"" + name + "\"")
  {
    assert s[k..k + 8] == Key[..8];
    assert OccursAt(s, "filename", k);
    assert s[k + 8] == Key[8] == '=';
    assert SkipKey(s, k + 8) == k + 8;
    assert s[k + 9] == Key[9] == '"';
    var close := k + 10 + |name|;
    assert s[close] == (name + "\"")[|name|] == '"';
    forall x | k + 10 <= x < close ensures s[x] != '"' && !IsLineTerminator(s[x]) {
      assert s[x] == (name + "\"")[x - (k + 10)] == name[x - (k + 10)];
    }
    ClosingQuoteFirst(s, k + 10, close, '"');
    assert s[k + 9..close + 1] == "\"" + name + "\"" by {
      assert s[k + 9..close + 1] == [s[k + 9]] + s[k + 10..close + 1];
      assert s[k + 10..close + 1] == name + "\"";
    }
  }

  /** The lazy match stops at the first quote of its kind when the line holds no earlier one. */
  lemma {:induction false} ClosingQuoteFirst(s: string, j: nat, m: nat, q: char)
    requires j <= m < |s| && s[m] == q
    requires forall x :: j <= x < m ==> s[x] != q && !IsLineTerminator(s[x])
    requires !IsLineTerminator(q)
    ensures ClosingQuote(s, j, q) == Some(m)
    decreases m - j
  {
    if j < m {
      ClosingQuoteFirst(s, j + 1, m, q);
    }
  }

  lemma StripQuotesAround(name: string)
    requires forall m :: 0 <= m < |name| ==> !IsQuote(name[m])
    ensures StripQuotes("\"" + name + "\"") == name
  {
    var q: string := "\"";
    StripQuotesAppend(q, name + q);
    StripQuotesAppend(name, q);
    assert StripQuotes(q) == "";
    assert q + name + q == q + (name + q);
  }

  /** Quotes are removed piece by piece. */
  lemma {:induction false} StripQuotesAppend(a: string, b: string)
    ensures StripQuotes(a + b) == StripQuotes(a) + StripQuotes(b)
    decreases |a|
  {
    if a != [] {
      assert (a + b)[1..] == a[1..] + b;
      StripQuotesAppend(a[1..], b);
    } else {
      assert a + b == b;
    }
  }

  // ---------------------------------------------------------------------
  // The manifest of several documents

  /** `String(v)` / `${v}` for a JSON value. */
  function JsString(v: JsonValue): string
    decreases v, 1
  {
    match v
    case JNull => "null"
    case JBool(b) => if b then "true" else "false"
    case JNumber(n) => IntToString(n)
    case JString(s) => s
    case JArray(elems) => JoinFrom(elems, 0)
    case JObject(_) => "[object Object]"
  }

  /** `elems.slice(i).join(',')`, where `null` elements print as nothing. */
  function JoinFrom(elems: seq<JsonValue>, i: nat): string
    requires i <= |elems|
    decreases JArray(elems), 0, |elems| - i
  {
    if i == |elems| then ""
    else
      var item := if elems[i].JNull? then "" else JsString(elems[i]);
      if i + 1 == |elems| then item else item + "," + JoinFrom(elems, i + 1)
  }

  /** `${obj.key}` for a member that may be missing. */
  function MemberString(members: seq<(string, JsonValue)>, key: string): string {
    match Member(members, key)
    case Some(v) => JsString(v)
    case None => "undefined"
  }

  /** A manifest entry's `url` and `filename`, as the download code reads them. */
  datatype FileRef = FileRef(url: string, filename: string)

  /** Reading `file.url` of a `null` entry throws; any other non-object entry has no members. */
  function EntryRef(entry: JsonValue): Option<FileRef>
  {
    match entry
    case JNull => None
    case JObject(members) => Some(FileRef(MemberString(members, "url"), MemberString(members, "filename")))
    case _ => Some(FileRef("undefined", "undefined"))
  }

  /**
   * An entry's `url` and `filename` are its string members of those names; a
   * missing member reads as `undefined`, and only a `null` entry has none.
   */
  lemma EntryRefReads(entry: JsonValue)
    ensures EntryRef(entry).None? <==> entry.JNull?
    ensures entry.JObject? && Member(entry.members, "url").Some? && Member(entry.members, "url").value.JString? ==>
              EntryRef(entry).value.url == Member(entry.members, "url").value.s
    ensures entry.JObject? && Member(entry.members, "filename").Some? && Member(entry.members, "filename").value.JString? ==>
              EntryRef(entry).value.filename == Member(entry.members, "filename").value.s
    ensures !entry.JNull? && (!entry.JObject? || Member(entry.members, "url").None?) ==> EntryRef(entry).value.url == "undefined"
  {
  }

  /** The request each manifest entry makes: the entry's URL behind the `/api` mount prefix. */
  function FileRequestUrl(ref: FileRef): (u: string)
    ensures |u| == |ref.url| + 4 && u[..4] == "/api" && u[4..] == ref.url
  {
    "/api" + ref.url
  }

  /** A document the browser is asked to save. */
  datatype SavedFile = SavedFile(name: string, data: seq<byte>)

  /** The save one manifest entry produces, or None when its fetch fails (logged and skipped). */
  function EntrySave(entry: JsonValue, fetch: string -> Result<seq<byte>, RequestError>): Option<SavedFile> {
    match EntryRef(entry)
    case None => None
    case Some(ref) =>
      match fetch(FileRequestUrl(ref))
      case Ok(blob) => Some(SavedFile(ref.filename, blob))
      case Err(_) => None
  }

  /** The saves of a manifest in array order, failed entries left out. */
  function ManifestSaves(files: seq<JsonValue>, fetch: string -> Result<seq<byte>, RequestError>): (r: seq<SavedFile>)
    ensures |r| <= |files|
    decreases |files|
  {
    if files == [] then []
    else
      var last := files[|files| - 1];
      ManifestSaves(files[..|files| - 1], fetch) + match EntrySave(last, fetch)
                                                    case Some(f) => [f]
                                                    case None => []
  }

  /** Every entry is saved, in order and under its own name, exactly when every fetch succeeds. */
  lemma ManifestSavesAll(files: seq<JsonValue>, fetch: string -> Result<seq<byte>, RequestError>)
    ensures |ManifestSaves(files, fetch)| <= |files|
    ensures |ManifestSaves(files, fetch)| == |files| <==> forall i :: 0 <= i < |files| ==> EntrySave(files[i], fetch).Some?
    ensures |ManifestSaves(files, fetch)| == |files| ==>
              forall i :: 0 <= i < |files| ==> ManifestSaves(files, fetch)[i] == EntrySave(files[i], fetch).value
  {
    ManifestSavesCount(files, fetch);
    if forall i :: 0 <= i < |files| ==> EntrySave(files[i], fetch).Some? {
      ManifestSavesInOrder(files, fetch);
    }
  }

  /** As many saves as entries exactly when no entry's fetch fails. */
  lemma {:induction false} ManifestSavesCount(files: seq<JsonValue>, fetch: string -> Result<seq<byte>, RequestError>)
    ensures |ManifestSaves(files, fetch)| == |files| <==> forall i :: 0 <= i < |files| ==> EntrySave(files[i], fetch).Some?
    decreases |files|
  {
    if files != [] {
      var init := files[..|files| - 1];
      ManifestSavesCount(init, fetch);
      assert forall i :: 0 <= i < |init| ==> init[i] == files[i];
    }
  }

  /** When every fetch succeeds, the saves are the entries' own, in array order. */
  lemma {:induction false} ManifestSavesInOrder(files: seq<JsonValue>, fetch: string -> Result<seq<byte>, RequestError>)
    requires forall i :: 0 <= i < |files| ==> EntrySave(files[i], fetch).Some?
    ensures |ManifestSaves(files, fetch)| == |files|
    ensures forall i :: 0 <= i < |files| ==> ManifestSaves(files, fetch)[i] == EntrySave(files[i], fetch).value
    decreases |files|
  {
    if files != [] {
      var n := |files| - 1;
      var init := files[..n];
      assert forall i :: 0 <= i < n ==> init[i] == files[i];
      ManifestSavesInOrder(init, fetch);
      var before := ManifestSaves(init, fetch);
      var r := ManifestSaves(files, fetch);
      assert EntrySave(files[n], fetch).Some?;
      assert r == before + [EntrySave(files[n], fetch).value];
      forall i | 0 <= i < |files| ensures r[i] == EntrySave(files[i], fetch).value {
        if i < n {
          assert r[i] == before[i] && init[i] == files[i];
        }
      }
    }
  }

  /** The saves of one more entry: those of the entries before it, then its own. */
  lemma ManifestSavesStep(files: seq<JsonValue>, index: nat, fetch: string -> Result<seq<byte>, RequestError>)
    requires index < |files|
    ensures ManifestSaves(files[..index + 1], fetch) ==
            ManifestSaves(files[..index], fetch) + match EntrySave(files[index], fetch)
                                                   case Some(f) => [f]
                                                   case None => []
  {
    assert files[..index + 1][..index] == files[..index];
  }

  /**
   * The staggered downloads of a manifest, one after the other in array
   * order, counting the ones that complete.
   */
  method DownloadAll(files: seq<JsonValue>, fetch: string -> Result<seq<byte>, RequestError>)
    returns (saved: seq<SavedFile>, downloadCount: nat)
    ensures saved == ManifestSaves(files, fetch)
    ensures downloadCount == |saved| <= |files|
  {
    saved, downloadCount := [], 0;
    var index := 0;
    while index < |files|
      invariant 0 <= index <= |files|
      invariant saved == ManifestSaves(files[..index], fetch)
      invariant downloadCount == |saved| <= index
    {
      ManifestSavesStep(files, index, fetch);
      match EntryRef(files[index]) {
        case None =>
        case Some(file) =>
          var response := fetch(FileRequestUrl(file));
          if response.Ok? {
            saved := saved + [SavedFile(file.filename, response.value)];
            downloadCount := downloadCount + 1;
          }
      }
      index := index + 1;
    }
    assert files[..index] == files;
  }

  /** `jsonData.files && Array.isArray(jsonData.files)`; reading `files` of `null` throws. */
  function ManifestFiles(v: JsonValue): (r: Result<Option<seq<JsonValue>>, string>)
    ensures r.Err? <==> v.JNull?
    ensures r.Ok? && r.value.Some? ==> v.JObject? && Member(v.members, "files") == Some(JArray(r.value.value))
    ensures r == Ok(None) <==> !v.JNull? && !(v.JObject? && Member(v.members, "files").Some? && Member(v.members, "files").value.JArray?)
  {
    match v
    case JNull => Err(NullFilesMessage)
    case JObject(members) =>
      (match Member(members, "files")
       case Some(JArray(items)) => Ok(Some(items))
       case _ => Ok(None))
    case _ => Ok(None)
  }

  /** The `TypeError` text of reading a member of `null` (V8 wording). */
  const NullFilesMessage: string := "Cannot read properties of null (reading 'files')"

  // ---------------------------------------------------------------------
  // The outcome of a submission

  /** What the upstream call delivers: a `Blob`, or something else. */
  datatype ReplyData = BlobData(bytes: seq<byte>) | NotBlob

  /** The response to the generate request; header names are lower case. */
  datatype Reply = Reply(contentType: Option<string>, contentDisposition: Option<string>, data: ReplyData)

  /** The messages shown and the documents saved by one submission. */
  datatype Outcome = Outcome(error: Option<string>, success: Option<string>, saved: seq<SavedFile>, resetForms: bool)

  const CorrectErrorsMessage: string := "Please correct the errors in the form"
  const NoDatesMessage: string := "Please select at least one date before submitting."
  const InvalidResponseMessage: string := "Received an invalid response from the server."
  const UnexpectedJsonMessage: string := "Received unexpected JSON response"
  const ManifestContentType: string := "application/json"

  function ManifestMessage(count: nat): string {
    IntToString(count) + " documents generated successfully. Downloads starting..."
  }

  function SingleMessage(name: string): string {
    "Document '" + name + "' generated successfully!"
  }

  function Failed(e: RequestError): Outcome {
    Outcome(Some(ErrorMessage(e)), None, [], false)
  }

  /**
   * A manifest's files: the count is announced, the files are saved in array
   * order, and the form is reset only when there was at least one file and
   * every one of them was fetched.
   */
  function FilesOutcome(files: seq<JsonValue>, fetch: string -> Result<seq<byte>, RequestError>): (o: Outcome)
    ensures o.error.None? && o.success == Some(ManifestMessage(|files|))
    ensures o.saved == ManifestSaves(files, fetch)
    ensures o.resetForms <==> |files| > 0 && forall i :: 0 <= i < |files| ==> EntrySave(files[i], fetch).Some?
    ensures o.resetForms ==> |o.saved| == |files| && forall i :: 0 <= i < |files| ==> o.saved[i] == EntrySave(files[i], fetch).value
  {
    ManifestSavesAll(files, fetch);
    var saved := ManifestSaves(files, fetch);
    Outcome(None, Some(ManifestMessage(|files|)), saved, |files| > 0 && |saved| == |files|)
  }

  /**
   * How the answer to the generate request is handled: a JSON manifest makes
   * one download per file, any other blob is the document itself.
   */
  function ReplyOutcome(reply: Reply, firstDate: string,
                        parse: seq<byte> -> Result<JsonValue, string>,
                        fetch: string -> Result<seq<byte>, RequestError>): (o: Outcome)
    ensures o.resetForms ==> o.error.None? && |o.saved| >= 1
    ensures reply.data.NotBlob? ==> o == Outcome(Some(InvalidResponseMessage), None, [], false)
    ensures reply.data.BlobData? && reply.contentType == Some(ManifestContentType) ==>
              match parse(reply.data.bytes)
              case Err(message) => o == Failed(Failure(message))
              case Ok(json) =>
                (json.JNull? ==> o == Failed(Failure(NullFilesMessage))) &&
                (ManifestFiles(json) == Ok(None) ==> o == Outcome(Some(UnexpectedJsonMessage), None, [], false))
    ensures reply.data.BlobData? && reply.contentType != Some(ManifestContentType) ==>
              var name := DownloadName(reply.contentDisposition, reply.contentType, firstDate);
              o == Outcome(None, Some(SingleMessage(name)), [SavedFile(name, reply.data.bytes)], true)
  {
    match reply.data
    case NotBlob => Outcome(Some(InvalidResponseMessage), None, [], false)
    case BlobData(bytes) =>
      if reply.contentType == Some(ManifestContentType) then
        match parse(bytes)
        case Err(message) => Failed(Failure(message))
        case Ok(json) =>
          match ManifestFiles(json)
          case Err(message) => Failed(Failure(message))
          case Ok(None) => Outcome(Some(UnexpectedJsonMessage), None, [], false)
          case Ok(Some(files)) => FilesOutcome(files, fetch)
      else
        var name := DownloadName(reply.contentDisposition, reply.contentType, firstDate);
        Outcome(None, Some(SingleMessage(name)), [SavedFile(name, bytes)], true)
  }

  /**
   * A manifest saves its files in array order under their own names; the form
   * is reset only when every one of them was fetched.
   */
  lemma ManifestOutcome(reply: Reply, firstDate: string, parse: seq<byte> -> Result<JsonValue, string>,
                        fetch: string -> Result<seq<byte>, RequestError>, files: seq<JsonValue>)
    requires reply.data.BlobData? && reply.contentType == Some(ManifestContentType)
    requires parse(reply.data.bytes).Ok? && ManifestFiles(parse(reply.data.bytes).value) == Ok(Some(files))
    ensures var o := ReplyOutcome(reply, firstDate, parse, fetch);
      o.error.None? && o.success == Some(ManifestMessage(|files|)) &&
      o.saved == ManifestSaves(files, fetch) &&
      (o.resetForms <==> |files| > 0 && forall i :: 0 <= i < |files| ==> EntrySave(files[i], fetch).Some?)
  {
    assert ReplyOutcome(reply, firstDate, parse, fetch) == FilesOutcome(files, fetch);
  }

  /** After validation passed: the date check, the request, and the reply. */
  function SubmitOutcome(forms: seq<Visitor>, dates: seq<EnterDate.ApiDate>,
                         post: ApiData -> Result<Reply, RequestError>,
                         parse: seq<byte> -> Result<JsonValue, string>,
                         fetch: string -> Result<seq<byte>, RequestError>): (r: (Option<ApiData>, Outcome))
    ensures r.0.None? <==> dates == []
    ensures dates == [] ==> r.1 == Outcome(Some(NoDatesMessage), None, [], false)
    ensures r.0.Some? ==> r.0.value == BuildPayload(forms, dates)
    ensures r.1.resetForms ==> r.1.error.None? && r.0.Some?
    ensures dates != [] && post(BuildPayload(forms, dates)).Err? ==> r.1 == Failed(post(BuildPayload(forms, dates)).error)
    ensures dates != [] && post(BuildPayload(forms, dates)).Ok? ==>
              r.1 == ReplyOutcome(post(BuildPayload(forms, dates)).value, dates[0].date, parse, fetch)
  {
    if dates == [] then (None, Outcome(Some(NoDatesMessage), None, [], false))
    else
      var payload := BuildPayload(forms, dates);
      match post(payload)
      case Err(e) => (Some(payload), Failed(e))
      case Ok(reply) => (Some(payload), ReplyOutcome(reply, dates[0].date, parse, fetch))
  }

  /**
   * The handling of the reply inside `handleSubmit`: a manifest's files are
   * downloaded one by one, any other blob is saved as the document.
   */
  method HandleReply(reply: Reply, firstDate: string,
                     parse: seq<byte> -> Result<JsonValue, string>,
                     fetch: string -> Result<seq<byte>, RequestError>) returns (o: Outcome)
    ensures o == ReplyOutcome(reply, firstDate, parse, fetch)
  {
    if reply.data.NotBlob? {
      return Outcome(Some(InvalidResponseMessage), None, [], false);
    }
    if reply.contentType == Some(ManifestContentType) {
      var jsonData := parse(reply.data.bytes);
      if jsonData.Err? {
        return Failed(Failure(jsonData.error));
      }
      var files := ManifestFiles(jsonData.value);
      if files.Err? {
        return Failed(Failure(files.error));
      }
      if files.value.None? {
        return Outcome(Some(UnexpectedJsonMessage), None, [], false);
      }
      var list := files.value.value;
      var saved, downloadCount := DownloadAll(list, fetch);
      o := Outcome(None, Some(ManifestMessage(|list|)), saved, downloadCount == |list| && |list| > 0);
    } else {
      var fileName := DownloadName(reply.contentDisposition, reply.contentType, firstDate);
      o := Outcome(None, Some(SingleMessage(fileName)), [SavedFile(fileName, reply.data.bytes)], true);
    }
  }

  /**
   * The loop of `validateArabicInputs` over a copy of the error rows: every
   * flagged name or nationality gets the Arabic-only message.
   */
  method CheckAllRows(errs: seq<FieldErrors>, rows: seq<Visitor>) returns (newInputErrors: seq<FieldErrors>, isValid: bool)
    requires |rows| <= |errs|
    ensures newInputErrors == ValidatedErrors(errs, rows)
    ensures isValid <==> FormsValid(rows)
  {
    isValid := true;
    newInputErrors := errs;
    var index := 0;
    while index < |rows|
      invariant 0 <= index <= |rows|
      invariant newInputErrors == ValidatedErrors(errs, rows[..index])
      invariant isValid <==> FormsValid(rows[..index])
    {
      var form := rows[index];
      ValidatedStep(errs, rows, index);
      var row := newInputErrors[index];
      if !IsArabicOnly(form.name) && form.name != "" {
        row := row[Name := ArabicOnlyMessage];
        isValid := false;
      }
      if !IsArabicOnly(form.nationality) && form.nationality != "" {
        row := row[Nationality := ArabicOnlyMessage];
        isValid := false;
      }
      newInputErrors := newInputErrors[index := row];
      index := index + 1;
    }
    assert rows[..index] == rows;
  }

  // ---------------------------------------------------------------------
  // The form component's state

  class VisitorForm {
    var forms: seq<Visitor>
    var inputErrors: seq<FieldErrors>
    var error: Option<string>
    var successMessage: Option<string>

    /**
     * There is always a visitor row, and every row has an error row with a
     * name and a nationality entry. A successful submission resets the rows
     * but not the error rows, so there may be more error rows than rows.
     */
    ghost predicate Valid()
      reads this
    {
      1 <= |forms| <= |inputErrors| &&
      forall i :: 0 <= i < |inputErrors| ==> Name in inputErrors[i] && Nationality in inputErrors[i]
    }

    constructor ()
      ensures Valid()
      ensures forms == [EmptyVisitor] && inputErrors == [NoErrors] && error.None? && successMessage.None?
    {
      forms, inputErrors := [EmptyVisitor], [NoErrors];
      error, successMessage := None, None;
    }

    /** `handleChanges`: the edited field of row `index` and its message change, nothing else. */
    method HandleChanges(index: nat, field: Field, value: string)
      requires Valid() && index < |forms|
      modifies this
      ensures Valid()
      ensures forms == old(forms)[index := WithField(old(forms)[index], field, value)]
      ensures inputErrors == old(inputErrors)[index := old(inputErrors)[index][field := ErrorFor(field, value)]]
      ensures error == old(error) && successMessage == old(successMessage)
    {
      var newForms, newInputErrors := forms, inputErrors;
      newInputErrors := newInputErrors[index := newInputErrors[index][field := ErrorFor(field, value)]];
      newForms := newForms[index := WithField(newForms[index], field, value)];
      forms, inputErrors := newForms, newInputErrors;
    }

    /** `addForm`: one empty row and one empty error row at the end. */
    method AddForm()
      requires Valid()
      modifies this
      ensures Valid()
      ensures forms == old(forms) + [EmptyVisitor] && inputErrors == old(inputErrors) + [NoErrors]
      ensures error == old(error) && successMessage == old(successMessage)
    {
      forms, inputErrors := forms + [EmptyVisitor], inputErrors + [NoErrors];
    }

    /**
     * `removeForm`: once confirmed, the row and the error row at `index` go;
     * the page offers removal for every row but the first.
     */
    method RemoveForm(index: int, confirmed: bool)
      requires Valid() && 0 < index < |forms|
      modifies this
      ensures Valid()
      ensures confirmed ==> forms == RemoveAt(old(forms), index) && inputErrors == RemoveAt(old(inputErrors), index)
      ensures !confirmed ==> forms == old(forms) && inputErrors == old(inputErrors)
      ensures error == old(error) && successMessage == old(successMessage)
    {
      if confirmed {
        RemovedAt(inputErrors, index);
        forms, inputErrors := RemoveAt(forms, index), RemoveAt(inputErrors, index);
      }
    }

    /**
     * `validateArabicInputs`: marks every flagged name and nationality and
     * answers whether there was none.
     */
    method ValidateArabicInputs() returns (isValid: bool)
      requires Valid()
      modifies this
      ensures Valid()
      ensures forms == old(forms) && error == old(error) && successMessage == old(successMessage)
      ensures inputErrors == ValidatedErrors(old(inputErrors), forms)
      ensures isValid <==> FormsValid(forms)
    {
      var newInputErrors;
      newInputErrors, isValid := CheckAllRows(inputErrors, forms);
      KeysAfterValidation(inputErrors, forms);
      inputErrors := newInputErrors;
    }

    /**
     * `handleSubmit`, with the selected dates, the HTTP client and the JSON
     * parser as parameters: validation first, then the date check, then the
     * request and the handling of its reply. Returns what was posted and what
     * was saved.
     */
    method HandleSubmit(selectedDates: seq<EnterDate.ApiDate>,
                        post: ApiData -> Result<Reply, RequestError>,
                        parse: seq<byte> -> Result<JsonValue, string>,
                        fetch: string -> Result<seq<byte>, RequestError>)
      returns (sent: Option<ApiData>, saved: seq<SavedFile>)
      requires Valid()
      modifies this
      ensures Valid()
      ensures inputErrors == ValidatedErrors(old(inputErrors), old(forms))
      ensures !FormsValid(old(forms)) ==>
                sent.None? && saved == [] && forms == old(forms) &&
                error == Some(CorrectErrorsMessage) && successMessage == old(successMessage)
      ensures FormsValid(old(forms)) ==>
                var (posted, o) := SubmitOutcome(old(forms), selectedDates, post, parse, fetch);
                sent == posted && saved == o.saved && error == o.error && successMessage == o.success &&
                forms == if o.resetForms then [EmptyVisitor] else old(forms)
    {
      sent, saved := None, [];
      var isValid := ValidateArabicInputs();
      if !isValid {
        error := Some(CorrectErrorsMessage);
        return;
      }
      error, successMessage := None, None;
      if |selectedDates| == 0 {
        error := Some(NoDatesMessage);
        return;
      }
      var apiData := BuildPayload(forms, selectedDates);
      sent := Some(apiData);
      var response := post(apiData);
      if response.Err? {
        error := Some(ErrorMessage(response.error));
        return;
      }
      var outcome := HandleReply(response.value, selectedDates[0].date, parse, fetch);
      error, successMessage, saved := outcome.error, outcome.success, outcome.saved;
      if outcome.resetForms {
        forms := [EmptyVisitor];
      }
    }
  }

  // ---------------------------------------------------------------------
  // Where the submitted dates come from

  /** The storage key the form reads the selected dates from. */
  const DatesKey: string := "selectedDates"

  /**
   * `getSelectedDates` as written: the dates stored under `selectedDates`,
   * parsed, or none when the key is absent or holds the empty text.
   */
  function StoredDates(storage: map<string, string>,
                       parseDates: string -> Result<seq<EnterDate.ApiDate>, string>): (r: Result<seq<EnterDate.ApiDate>, string>)
    ensures DatesKey !in storage ==> r == Ok([])
    ensures r.Err? ==> DatesKey in storage && parseDates(storage[DatesKey]) == r
  {
    if DatesKey in storage && storage[DatesKey] != "" then parseDates(storage[DatesKey]) else Ok([])
  }

  /**
   * The form as written: the user picks a day, then submits valid rows. The
   * picker reports its list only to an `onDatesChange` callback the form does
   * not pass, and nothing writes the storage key, so the day is selected yet
   * the submission is refused for want of dates and nothing is posted.
   */
  method PickThenSubmitAsWritten(form: VisitorForm, picker: EnterDate.DatePicker, day: EnterDate.CalendarDate,
                                 storage: map<string, string>,
                                 parseDates: string -> Result<seq<EnterDate.ApiDate>, string>,
                                 post: ApiData -> Result<Reply, RequestError>,
                                 parse: seq<byte> -> Result<JsonValue, string>,
                                 fetch: string -> Result<seq<byte>, RequestError>)
    returns (sent: Option<ApiData>, saved: seq<SavedFile>)
    requires form.Valid() && picker.Valid() && EnterDate.ValidDate(day)
    requires FormsValid(form.forms)
    requires DatesKey !in storage
    modifies form, picker
    ensures picker.Valid() && picker.selectedDates != []
    ensures sent.None? && saved == [] && form.error == Some(NoDatesMessage)
  {
    EnterDate.AddDateKeepsWellFormed(picker.selectedDates, Some(day));
    var _ := picker.HandleDateChange(Some(day));
    var dates := StoredDates(storage, parseDates);
    sent, saved := form.HandleSubmit(dates.value, post, parse, fetch);
  }

  /**
   * The intended wiring: the form submits the days the picker reports. After
   * picking a day, valid rows are posted with the picked days, in time order
   * and one per calendar day.
   */
  method PickThenSubmit(form: VisitorForm, picker: EnterDate.DatePicker, day: EnterDate.CalendarDate,
                        post: ApiData -> Result<Reply, RequestError>,
                        parse: seq<byte> -> Result<JsonValue, string>,
                        fetch: string -> Result<seq<byte>, RequestError>)
    returns (sent: Option<ApiData>, saved: seq<SavedFile>)
    requires form.Valid() && picker.Valid() && EnterDate.ValidDate(day)
    requires FormsValid(form.forms)
    modifies form, picker
    ensures picker.Valid() && picker.selectedDates != []
    ensures sent == Some(BuildPayload(old(form.forms), EnterDate.Projection(picker.selectedDates)))
    ensures |sent.value.dates| == |picker.selectedDates| &&
            forall i, j :: 0 <= i < j < |picker.selectedDates| ==> sent.value.dates[i] != sent.value.dates[j]
  {
    EnterDate.AddDateKeepsWellFormed(picker.selectedDates, Some(day));
    var _ := picker.HandleDateChange(Some(day));
    var dates := EnterDate.Projection(picker.selectedDates);
    sent, saved := form.HandleSubmit(dates, post, parse, fetch);
    PayloadDatesFromPicker(old(form.forms), picker.selectedDates);
  }
}
