/**
 * The earlier add page: a create-only form that POSTs the draft and refreshes the
 * collection before returning to the list.
 */
module AddBooksPage {
  import opened Optional
  import JsText
  import opened Books
  import opened Http
  import opened Validation

  /**
   * What follows a successful POST: `await fetchBooks()` then the navigation. When the
   * page was given no function, the call throws inside the try block, so neither happens.
   */
  function AfterCreate(hasFetchBooks: bool): seq<Effect> {
    if hasFetchBooks then [RefreshBooks, NavigateHome] else []
  }

  /**
   * What a submit does: nothing when the draft has errors; otherwise a POST of the whole
   * form, and on success the refresh followed by the navigation.
   */
  function CreateEffects(form: Book, currentYear: int, hasFetchBooks: bool, response: Outcome): (es: seq<Effect>)
    ensures Validate(form, currentYear, AddPageMessages) != map[] ==> es == []
    ensures Validate(form, currentYear, AddPageMessages) == map[] ==>
      es != [] && es[0] == Send(Request(Post, Collection, Some(form)))
    ensures NavigateHome in es <==> Validate(form, currentYear, AddPageMessages) == map[] && response == Ok && hasFetchBooks
    ensures NavigateHome in es <==> RefreshBooks in es
    ensures NavigateHome in es ==> es == [es[0], RefreshBooks, NavigateHome]
    ensures forall i :: 0 < i < |es| ==> !es[i].Send?
  {
    if Validate(form, currentYear, AddPageMessages) != map[] then []
    else [Send(SaveRequest(Create, form))] + (if response == Ok then AfterCreate(hasFetchBooks) else [])
  }

  class AddBook {
    /** Whether the `fetchBooks` prop is a function. */
    const hasFetchBooks: bool
    var form: Book
    var errors: map<Field, string>
    var loading: bool
    var effects: seq<Effect>

    /** The stored year stays within four characters. */
    predicate YearShort()
      reads this
    {
      |form.publishedYear| <= 4
    }

    /** Mounting: a fresh draft, no errors, the loader off. */
    constructor (hasFetchBooks: bool)
      ensures this.hasFetchBooks == hasFetchBooks
      ensures form == NewDraft() && errors == map[] && !loading && effects == []
      ensures YearShort()
    {
      this.hasFetchBooks := hasFetchBooks;
      form := NewDraft();
      errors := map[];
      loading := false;
      effects := [];
    }

    /** `validateForm`: store the whole error map and report whether it is empty. */
    method ValidateForm(currentYear: int) returns (ok: bool)
      modifies this`errors
      ensures errors == Validate(form, currentYear, AddPageMessages)
      ensures ok <==> errors == map[]
      ensures ok <==> Acceptable(form, currentYear)
    {
      var newErrors := CollectErrors(form, currentYear, AddPageMessages);
      errors := newErrors;
      ok := |newErrors| == 0;
      ValidIffAcceptable(form, currentYear, AddPageMessages);
    }

    /** `handleChange`: replace the named field, and blank that field's error if it shows one. */
    method HandleChange(name: Field, value: string)
      requires name != PublishedYear
      modifies this`form, this`errors
      ensures form == With(old(form), name, value)
      ensures errors == ClearError(old(errors), name)
      ensures old(YearShort()) ==> YearShort()
    {
      if HasError(errors, name) {
        errors := errors[name := ""];
      }
      form := With(form, name, value);
    }

    /** The year input's onChange: store the value unless it isNaN or has more than four characters. */
    method HandleYearInput(value: string)
      modifies this`form
      ensures form == old(form).(publishedYear := YearAfterKeystroke(old(form).publishedYear, value))
      ensures old(YearShort()) ==> YearShort()
    {
      if JsText.IsNaN(value) {
        return;
      }
      if |value| > 4 {
        return;
      }
      form := form.(publishedYear := value);
    }

    /**
     * `handleSubmit`: validate; on errors stop before the request; otherwise POST the form
     * to `API_URL`, and on success await the refresh and go back to the list. The loader
     * is off again on every path that started it.
     */
    method HandleSubmit(currentYear: int, response: Outcome)
      modifies this`errors, this`loading, this`effects
      ensures errors == Validate(form, currentYear, AddPageMessages)
      ensures effects == old(effects) + CreateEffects(form, currentYear, hasFetchBooks, response)
      ensures loading == (if errors == map[] then false else old(loading))
    {
      var ok := ValidateForm(currentYear);
      if !ok {
        return;
      }
      loading := true;
      effects := effects + [Send(Request(Post, Collection, Some(form)))];
      if response == Ok && hasFetchBooks {
        effects := effects + [RefreshBooks, NavigateHome];
      }
      loading := false;
    }
  }
}
