/**
 * The earlier edit page: it loads the book named by the route, and saves changes
 * with a PUT. Its form is null until the book arrives.
 */
module EditBookPage {
  import opened Optional
  import JsText
  import opened Books
  import opened Http
  import opened Validation

  /**
   * What follows a successful PUT: the collection refresh when a `fetchBooks`
   * function was passed, then the navigation to the list.
   */
  function AfterUpdate(hasFetchBooks: bool): seq<Effect> {
    (if hasFetchBooks then [RefreshBooks] else []) + [NavigateHome]
  }

  /**
   * What a submit does: nothing when the draft has errors; otherwise a PUT of the form
   * without its `_id`, and on success the refresh (awaited first) and the navigation.
   */
  function UpdateEffects(id: string, form: Book, currentYear: int, hasFetchBooks: bool, response: Outcome): (es: seq<Effect>)
    ensures Validate(form, currentYear, FormMessages) != map[] ==> es == []
    ensures Validate(form, currentYear, FormMessages) == map[] ==>
      es != [] && es[0] == Send(Request(Put, Item(id), Some(form.(id := None))))
    ensures NavigateHome in es <==> Validate(form, currentYear, FormMessages) == map[] && response == Ok
    ensures RefreshBooks in es <==> Validate(form, currentYear, FormMessages) == map[] && response == Ok && hasFetchBooks
    ensures RefreshBooks in es ==> es == [es[0], RefreshBooks, NavigateHome]
    ensures forall i :: 0 < i < |es| ==> !es[i].Send?
  {
    if Validate(form, currentYear, FormMessages) != map[] then []
    else [Send(SaveRequest(Update(id), form))] + (if response == Ok then AfterUpdate(hasFetchBooks) else [])
  }

  class EditBook {
    /** The route parameter. */
    const id: string
    /** `typeof fetchBooks === "function"` for the prop the page was given. */
    const hasFetchBooks: bool
    /** The book being edited; None (null) until it has been fetched. */
    var form: Option<Book>
    var errors: map<Field, string>
    var loading: bool
    var effects: seq<Effect>

    /** Mounting: no form yet, the loader on, no errors. */
    constructor (id: string, hasFetchBooks: bool)
      ensures this.id == id && this.hasFetchBooks == hasFetchBooks
      ensures form == None && loading && errors == map[] && effects == []
    {
      this.id := id;
      this.hasFetchBooks := hasFetchBooks;
      form := None;
      errors := map[];
      loading := true;
      effects := [];
    }

    /**
     * The fetch effect: with an id, GET the book; show it on success, go back to the list
     * on failure, and stop the loader either way.
     */
    method LoadBook(response: Fetched)
      modifies this`form, this`loading, this`effects
      ensures id == [] ==> form == old(form) && loading == old(loading) && effects == old(effects)
      ensures id != [] ==> effects == old(effects) + LoadEffects(id, response)
      ensures id != [] ==> form == (if response.Found? then Some(response.book) else old(form))
      ensures id != [] ==> !loading
    {
      if id == [] {
        return;
      }
      loading := true;
      effects := effects + [Send(Request(Get, Item(id), None))];
      match response {
        case Found(book) =>
          form := Some(book);
        case NotFound =>
          effects := effects + [NavigateHome];
      }
      loading := false;
    }

    /** `validateForm` on the loaded book: store the whole error map and report whether it is empty. */
    method ValidateForm(currentYear: int) returns (ok: bool)
      requires form.Some?
      modifies this`errors
      ensures errors == Validate(form.value, currentYear, FormMessages)
      ensures ok <==> errors == map[]
      ensures ok <==> Acceptable(form.value, currentYear)
    {
      var newErrors := CollectErrors(form.value, currentYear, FormMessages);
      errors := newErrors;
      ok := |newErrors| == 0;
      ValidIffAcceptable(form.value, currentYear, FormMessages);
    }

    /** `handleChange`: replace the named field; unlike the other forms, errors are left as they are. */
    method HandleChange(name: Field, value: string)
      requires form.Some? && name != PublishedYear
      modifies this`form
      ensures form == Some(With(old(form).value, name, value))
    {
      form := Some(With(form.value, name, value));
    }

    /** The year input's onChange: store the value unless it isNaN or has more than four characters. */
    method HandleYearInput(value: string)
      requires form.Some?
      modifies this`form
      ensures form == Some(old(form).value.(publishedYear := YearAfterKeystroke(old(form).value.publishedYear, value)))
    {
      if JsText.IsNaN(value) {
        return;
      }
      if |value| > 4 {
        return;
      }
      form := Some(form.value.(publishedYear := value));
    }

    /**
     * `handleSubmit`: validate; on errors stop before the request; otherwise PUT the form
     * minus `_id` to `API_URL/id`, and on success refresh (if possible) and go back to the
     * list. The loader is off again on every path that started it.
     */
    method HandleSubmit(currentYear: int, response: Outcome)
      requires form.Some?
      modifies this`errors, this`loading, this`effects
      ensures errors == Validate(form.value, currentYear, FormMessages)
      ensures effects == old(effects) + UpdateEffects(id, form.value, currentYear, hasFetchBooks, response)
      ensures loading == (if errors == map[] then false else old(loading))
    {
      var ok := ValidateForm(currentYear);
      if !ok {
        assert UpdateEffects(id, form.value, currentYear, hasFetchBooks, response) == [];
        return;
      }
      loading := true;
      var bookWithoutId := form.value.(id := None);
      var sent := [Send(Request(Put, Item(id), Some(bookWithoutId)))];
      effects := effects + sent;
      if response == Ok {
        if hasFetchBooks {
          effects := effects + [RefreshBooks];
        }
        effects := effects + [NavigateHome];
      }
      assert effects == old(effects) + sent + (if response == Ok then AfterUpdate(hasFetchBooks) else []);
      loading := false;
    }
  }
}
