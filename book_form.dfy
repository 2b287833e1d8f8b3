/**
 * The shared add/edit form: one component that creates a book when its route has
 * no id and updates the book with that id otherwise.
 */
module BookFormPage {
  import opened Optional
  import JsText
  import opened Books
  import opened Http
  import opened Validation

  /**
   * What a submit does: nothing when the draft has errors; otherwise the save request,
   * followed by a navigation to the list when it succeeds. This form never refreshes
   * the collection.
   */
  function SubmitEffects(mode: Mode, form: Book, currentYear: int, response: Outcome): (es: seq<Effect>)
    ensures Validate(form, currentYear, FormMessages) != map[] ==> es == []
    ensures Validate(form, currentYear, FormMessages) == map[] ==> es != [] && es[0] == Send(SaveRequest(mode, form))
    ensures NavigateHome in es <==> Validate(form, currentYear, FormMessages) == map[] && response == Ok
    ensures RefreshBooks !in es
    ensures forall i :: 0 < i < |es| ==> !es[i].Send?
  {
    if Validate(form, currentYear, FormMessages) != map[] then []
    else [Send(SaveRequest(mode, form))] + (if response == Ok then [NavigateHome] else [])
  }

  class BookForm {
    /** Create, or Update(id) for the route parameter `id`. */
    const mode: Mode
    var form: Book
    var errors: map<Field, string>
    var loading: bool
    /** The requests, refreshes and navigations issued so far, oldest first. */
    var effects: seq<Effect>

    /** The stored year stays within four characters while the form creates a record. */
    predicate YearShort()
      reads this
    {
      mode.Create? ==> |form.publishedYear| <= 4
    }

    /** Mounting: a fresh draft, no errors, and the loader on exactly in edit mode. */
    constructor (idParam: Option<string>)
      ensures mode == ModeOf(idParam)
      ensures form == NewDraft() && errors == map[] && effects == []
      ensures loading <==> mode.Update?
      ensures YearShort()
    {
      mode := ModeOf(idParam);
      form := NewDraft();
      errors := map[];
      loading := ModeOf(idParam).Update?;
      effects := [];
    }

    /**
     * The edit-mode effect: fetch the book, show it on success, go back to the list on
     * failure, and stop the loader either way. In create mode nothing happens.
     */
    method LoadExisting(response: Fetched)
      modifies this`form, this`loading, this`effects
      ensures mode.Create? ==> form == old(form) && loading == old(loading) && effects == old(effects)
      ensures mode.Update? ==> effects == old(effects) + LoadEffects(mode.id, response)
      ensures mode.Update? ==> form == (if response.Found? then response.book else old(form))
      ensures mode.Update? ==> !loading
      ensures old(YearShort()) ==> YearShort()
    {
      if mode.Create? {
        return;
      }
      effects := effects + [Send(Request(Get, Item(mode.id), None))];
      match response {
        case Found(book) =>
          form := book;
        case NotFound =>
          effects := effects + [NavigateHome];
      }
      loading := false;
    }

    /** `validateForm`: store the whole error map and report whether it is empty. */
    method ValidateForm(currentYear: int) returns (ok: bool)
      modifies this`errors
      ensures errors == Validate(form, currentYear, FormMessages)
      ensures ok <==> errors == map[]
      ensures ok <==> Acceptable(form, currentYear)
    {
      var newErrors := CollectErrors(form, currentYear, FormMessages);
      errors := newErrors;
      ok := |newErrors| == 0;
      ValidIffAcceptable(form, currentYear, FormMessages);
    }

    /**
     * `handleChange` for the text inputs and the status select: replace the named field,
     * and blank that field's error if it shows one.
     */
    method HandleChange(name: Field, value: string)
      requires name != PublishedYear
      modifies this`form, this`errors
      ensures form == With(old(form), name, value)
      ensures errors == ClearError(old(errors), name)
      ensures old(YearShort()) ==> YearShort()
    {
      if HasError(errors, name) {
        errors := errors[name := ""];
      }
      form := With(form, name, value);
    }

    /** The year input's onChange: store the value unless it isNaN or has more than four characters. */
    method HandleYearInput(value: string)
      modifies this`form
      ensures form == old(form).(publishedYear := YearAfterKeystroke(old(form).publishedYear, value))
      ensures old(YearShort()) ==> YearShort()
    {
      if JsText.IsNaN(value) {
        return;
      }
      if |value| > 4 {
        return;
      }
      form := form.(publishedYear := value);
    }

    /**
     * `handleSubmit`: validate; on errors stop before the request; otherwise send the
     * save request for the mode and, on success, go back to the list. The loader is
     * off again on every path that started it.
     */
    method HandleSubmit(currentYear: int, response: Outcome)
      modifies this`errors, this`loading, this`effects
      ensures errors == Validate(form, currentYear, FormMessages)
      ensures effects == old(effects) + SubmitEffects(mode, form, currentYear, response)
      ensures loading == (if errors == map[] then false else old(loading))
    {
      var ok := ValidateForm(currentYear);
      if !ok {
        return;
      }
      loading := true;
      effects := effects + [Send(SaveRequest(mode, form))];
      if response == Ok {
        effects := effects + [NavigateHome];
      }
      loading := false;
    }
  }
}
