/**
 * The draft-record rules the three book forms apply before saving, and the
 * keystroke filter of their year input.
 */
module Validation {
  import opened Optional
  import opened JsText
  import opened Books

  /** The message each rule stores; the forms differ only in these texts. */
  datatype Messages = Messages(
    title: string,
    author: string,
    genre: string,
    yearRequired: string,
    yearInvalid: string,
    image: string)

  /** The messages of the shared form and of the edit page. */
  const FormMessages := Messages(
    "Title is required", "Author is required", "Genre is required",
    "Published year is required", "Enter a valid year", "Image URL is required")

  /** The messages of the add page; its year message names 1960, but its check is still `< 0`. */
  const AddPageMessages := Messages(
    "Title is required", "author is required", "genre is required",
    "Published year is required", "Enter a valid year (1960 - current year)", "Image URL is required")

  /** The fields a rule can flag; the status select never is. */
  const ValidatedFields: set<Field> := {Title, Author, Genre, PublishedYear, Image}

  /**
   * `year < 0 || year > currentYear` with the year still a string: both comparisons
   * convert it with Number(), and a NaN makes both false.
   */
  predicate YearOutOfRange(year: string, currentYear: int) {
    match ToNumber(year)
    case None => false
    case Some(n) => n < 0 || n > currentYear
  }

  /** The fields holding free text, each required to be non-blank. */
  const TextFields: set<Field> := {Title, Author, Genre, Image}

  /**
   * The message one field gets, if any: only the validated fields can get one, and a
   * text field gets one exactly when it is blank.
   */
  function FieldError(d: Book, f: Field, currentYear: int, m: Messages): (r: Option<string>)
    ensures r.Some? ==> f in ValidatedFields
    ensures f in TextFields ==> (r.Some? <==> IsBlank(FieldValue(d, f)))
  {
    match f
    case Title => if Trim(d.title) == [] then Some(m.title) else None
    case Author => if Trim(d.author) == [] then Some(m.author) else None
    case Genre => if Trim(d.genre) == [] then Some(m.genre) else None
    case PublishedYear =>
      if d.publishedYear == [] then Some(m.yearRequired)
      else if YearOutOfRange(d.publishedYear, currentYear) then Some(m.yearInvalid)
      else None
    case Status => None
    case Image => if Trim(d.image) == [] then Some(m.image) else None
  }

  /**
   * The whole error map: every field's message, all violations at once. Only validated
   * fields appear, and a text field appears exactly when it is blank.
   */
  function Validate(d: Book, currentYear: int, m: Messages): (r: map<Field, string>)
    ensures r.Keys <= ValidatedFields
    ensures forall f :: f in TextFields ==> (f in r <==> IsBlank(FieldValue(d, f)))
  {
    map f | f in ValidatedFields && FieldError(d, f, currentYear, m).Some? :: FieldError(d, f, currentYear, m).value
  }

  /** One conditional insertion: the field's message, if its rule fails. */
  function Flag(errors: map<Field, string>, d: Book, f: Field, currentYear: int, m: Messages): map<Field, string> {
    match FieldError(d, f, currentYear, m)
    case None => errors
    case Some(e) => errors[f := e]
  }

  /**
   * Proof scaffolding for CollectErrors: the rules applied one after another, in the
   * order the forms check them, written as a function so it can be compared with Validate.
   */
  function RuleByRule(d: Book, currentYear: int, m: Messages): map<Field, string> {
    var afterTitle := Flag(map[], d, Title, currentYear, m);
    var afterAuthor := Flag(afterTitle, d, Author, currentYear, m);
    var afterGenre := Flag(afterAuthor, d, Genre, currentYear, m);
    var afterYear := Flag(afterGenre, d, PublishedYear, currentYear, m);
    Flag(afterYear, d, Image, currentYear, m)
  }

  /** Applying the rules one by one collects exactly the whole error map. */
  lemma RuleByRuleIsValidate(d: Book, currentYear: int, m: Messages)
    ensures RuleByRule(d, currentYear, m) == Validate(d, currentYear, m)
  {
    var whole := Validate(d, currentYear, m);
    var stepwise := RuleByRule(d, currentYear, m);
    forall f ensures (f in whole <==> f in stepwise) && (f in whole ==> whole[f] == stepwise[f]) {
      ValidateAt(d, f, currentYear, m);
    }
  }

  /**
   * The `newErrors` construction of `validateForm`: one conditional insertion per rule,
   * none of them stopping the others.
   */
  method CollectErrors(d: Book, currentYear: int, m: Messages) returns (newErrors: map<Field, string>)
    ensures newErrors == Validate(d, currentYear, m)
  {
    newErrors := map[];
    if Trim(d.title) == [] { newErrors := newErrors[Title := m.title]; }
    if Trim(d.author) == [] { newErrors := newErrors[Author := m.author]; }
    if Trim(d.genre) == [] { newErrors := newErrors[Genre := m.genre]; }
    if d.publishedYear == [] {
      newErrors := newErrors[PublishedYear := m.yearRequired];
    } else if YearOutOfRange(d.publishedYear, currentYear) {
      newErrors := newErrors[PublishedYear := m.yearInvalid];
    }
    if Trim(d.image) == [] { newErrors := newErrors[Image := m.image]; }
    assert newErrors == RuleByRule(d, currentYear, m);
    RuleByRuleIsValidate(d, currentYear, m);
  }

  /** One entry of the error map. */
  lemma ValidateAt(d: Book, f: Field, currentYear: int, m: Messages)
    ensures f in Validate(d, currentYear, m) <==> f in ValidatedFields && FieldError(d, f, currentYear, m).Some?
    ensures f in Validate(d, currentYear, m) ==> Validate(d, currentYear, m)[f] == FieldError(d, f, currentYear, m).value
  {
  }

  /** The message a text field gets when it is blank. */
  function TextMessage(f: Field, m: Messages): string {
    match f
    case Title => m.title
    case Author => m.author
    case Genre => m.genre
    case _ => m.image
  }

  /** A text field is flagged, with its own message, exactly when it is blank. */
  lemma TextFieldRule(d: Book, f: Field, currentYear: int, m: Messages)
    requires f in TextFields
    ensures f in Validate(d, currentYear, m) <==> IsBlank(FieldValue(d, f))
    ensures f in Validate(d, currentYear, m) ==> Validate(d, currentYear, m)[f] == TextMessage(f, m)
  {
    ValidateAt(d, f, currentYear, m);
  }

  /**
   * The year rule: an empty year is "required"; a non-empty year that is a number
   * below 0 or above the current year is "invalid"; any other year is not flagged.
   */
  lemma YearRule(d: Book, currentYear: int, m: Messages)
    ensures d.publishedYear == [] ==>
      PublishedYear in Validate(d, currentYear, m) && Validate(d, currentYear, m)[PublishedYear] == m.yearRequired
    ensures d.publishedYear != [] ==>
      (PublishedYear in Validate(d, currentYear, m) <==>
        !IsNaN(d.publishedYear) && (ToNumber(d.publishedYear).value < 0 || ToNumber(d.publishedYear).value > currentYear))
    ensures d.publishedYear != [] && PublishedYear in Validate(d, currentYear, m) ==>
      Validate(d, currentYear, m)[PublishedYear] == m.yearInvalid
    ensures Status !in Validate(d, currentYear, m)
  {
  }

  /** The draft properties under which the forms save: every rule satisfied. */
  predicate Acceptable(d: Book, currentYear: int) {
    && !IsBlank(d.title) && !IsBlank(d.author) && !IsBlank(d.genre) && !IsBlank(d.image)
    && d.publishedYear != []
    && (IsNaN(d.publishedYear) || 0 <= ToNumber(d.publishedYear).value <= currentYear)
  }

  /** `Object.keys(newErrors).length === 0` holds exactly for acceptable drafts, whatever the messages. */
  lemma ValidIffAcceptable(d: Book, currentYear: int, m: Messages)
    ensures Validate(d, currentYear, m) == map[] <==> Acceptable(d, currentYear)
  {
    TextFieldRule(d, Title, currentYear, m);
    TextFieldRule(d, Author, currentYear, m);
    TextFieldRule(d, Genre, currentYear, m);
    TextFieldRule(d, Image, currentYear, m);
    YearRule(d, currentYear, m);
    if Acceptable(d, currentYear) {
      forall f ensures f !in Validate(d, currentYear, m) {
        ValidateAt(d, f, currentYear, m);
      }
    }
  }

  /** The add page and the other forms flag the same fields; only the texts differ. */
  lemma MessagesDoNotChangeVerdict(d: Book, currentYear: int)
    ensures Validate(d, currentYear, FormMessages).Keys == Validate(d, currentYear, AddPageMessages).Keys
  {
  }

  /** A fresh draft is flagged on every required field at once. */
  lemma NewDraftFlagsEveryRule(currentYear: int, m: Messages)
    ensures Validate(NewDraft(), currentYear, m).Keys == ValidatedFields
  {
    forall f ensures f in Validate(NewDraft(), currentYear, m) <==> f in ValidatedFields {
      ValidateAt(NewDraft(), f, currentYear, m);
    }
  }

  /**
   * `!form.publishedYear` only tests for the empty string and Number() reads blank text as 0,
   * so a year of white space alone passes the year rule.
   */
  lemma BlankYearPasses(d: Book, currentYear: int, m: Messages)
    requires d.publishedYear != [] && IsBlank(d.publishedYear) && currentYear >= 0
    ensures PublishedYear !in Validate(d, currentYear, m)
  {
  }

  /** The year input's onChange: ignore a value that isNaN or is longer than four characters. */
  function YearAfterKeystroke(current: string, value: string): (r: string)
    ensures r == value || r == current
    ensures r == value <==> (!IsNaN(value) && |value| <= 4) || value == current
  {
    if IsNaN(value) then current
    else if |value| > 4 then current
    else value
  }

  /** The year after a sequence of keystrokes on the year input. */
  function YearAfterKeystrokes(start: string, keys: seq<string>): string
    decreases |keys|
  {
    if keys == [] then start
    else YearAfterKeystrokes(YearAfterKeystroke(start, keys[0]), keys[1..])
  }

  /**
   * Whatever is typed, the stored year is the starting value or one of the typed values
   * that passed the filter, so it never grows beyond four characters.
   */
  lemma {:induction false} KeystrokesKeepYearShort(start: string, keys: seq<string>)
    requires |start| <= 4
    decreases |keys|
    ensures |YearAfterKeystrokes(start, keys)| <= 4
    ensures YearAfterKeystrokes(start, keys) == start
      || (YearAfterKeystrokes(start, keys) in keys && !IsNaN(YearAfterKeystrokes(start, keys)))
  {
    if keys != [] {
      var next := YearAfterKeystroke(start, keys[0]);
      KeystrokesKeepYearShort(next, keys[1..]);
    }
  }

  /**
   * A year typed into an empty input is empty or an integer numeral (as Number() reads
   * it here) between -999 and 9999.
   */
  lemma TypedYearRange(keys: seq<string>)
    ensures var y := YearAfterKeystrokes([], keys);
      y == [] || (!IsNaN(y) && -999 <= ToNumber(y).value <= 9999)
  {
    var y := YearAfterKeystrokes([], keys);
    KeystrokesKeepYearShort([], keys);
    if y != [] {
      ShortNumberRange(y);
    }
  }
}
