/**
 * The card list's delete confirmation: a modal flag and the id of the book the
 * modal was opened for.
 */
module BookCardsView {
  import opened Optional
  import opened Http

  /** `${API_URL}/${seletedBookId}`: a null selection is written into the URL as "null". */
  function DeleteTarget(selected: Option<string>): (t: Target)
    ensures t.Item?
    ensures selected.Some? ==> t.key == selected.value
    ensures selected.None? ==> t.key == "null"
  {
    match selected
    case Some(id) => Item(id)
    case None => Item("null")
  }

  /**
   * What confirming does: a DELETE for the selected id, then one collection refresh when
   * the deletion succeeded; never a navigation.
   */
  function DeleteEffects(selected: Option<string>, response: Outcome): (es: seq<Effect>)
    ensures es != [] && es[0] == Send(Request(Delete, DeleteTarget(selected), None))
    ensures multiset(es)[RefreshBooks] == (if response == Ok then 1 else 0)
    ensures NavigateHome !in es
    ensures forall i :: 0 < i < |es| ==> !es[i].Send?
  {
    [Send(Request(Delete, DeleteTarget(selected), None))] + (if response == Ok then [RefreshBooks] else [])
  }

  class BookCards {
    var modalOpen: bool
    /** The source's `seletedBookId`. */
    var seletedBookId: Option<string>
    var effects: seq<Effect>

    /** Mounting: the modal closed and nothing selected. */
    constructor ()
      ensures !modalOpen && seletedBookId == None && effects == []
    {
      modalOpen := false;
      seletedBookId := None;
      effects := [];
    }

    /** `openDeleteModal(id)`: select the book and open the modal; a later call replaces the selection. */
    method OpenDeleteModal(id: string)
      modifies this`modalOpen, this`seletedBookId
      ensures modalOpen && seletedBookId == Some(id)
    {
      seletedBookId := Some(id);
      modalOpen := true;
    }

    /** `closeModal` (Cancel or dismissal): close the modal and forget the selection, with no request. */
    method CloseModal()
      modifies this`modalOpen, this`seletedBookId
      ensures !modalOpen && seletedBookId == None
    {
      modalOpen := false;
      seletedBookId := None;
    }

    /**
     * `deleteBook`, bound to the Delete button: its argument (the click event) is ignored and
     * the selected id is deleted; it leaves `modalOpen` and `seletedBookId` unchanged.
     */
    method DeleteBook(argument: string, response: Outcome)
      modifies this`effects
      ensures effects == old(effects) + DeleteEffects(seletedBookId, response)
    {
      effects := effects + [Send(Request(Delete, DeleteTarget(seletedBookId), None))];
      if response == Ok {
        effects := effects + [RefreshBooks];
      }
    }
  }

  /**
   * Opening the modal for one book and then another, and confirming: the DELETE goes to
   * the last book selected, whatever the button passes, and `deleteBook` itself leaves
   * `modalOpen` set. (After a successful delete the list refresh swaps the cards for the
   * loading skeleton, which discards the component and its modal; that is outside this class.)
   */
  method LastSelectionWins(first: string, second: string, argument: string, response: Outcome)
    returns (sent: Request, stillOpen: bool)
    ensures sent == Request(Delete, Item(second), None)
    ensures stillOpen
  {
    var cards := new BookCards();
    cards.OpenDeleteModal(first);
    cards.OpenDeleteModal(second);
    cards.DeleteBook(argument, response);
    sent := cards.effects[0].request;
    stillOpen := cards.modalOpen;
  }

  /** Cancelling after opening sends nothing and leaves the modal closed with no selection. */
  method CancelSendsNothing(id: string) returns (requests: nat, open: bool, selection: Option<string>)
    ensures requests == 0 && !open && selection == None
  {
    var cards := new BookCards();
    cards.OpenDeleteModal(id);
    cards.CloseModal();
    requests := |cards.effects|;
    open := cards.modalOpen;
    selection := cards.seletedBookId;
  }
}
