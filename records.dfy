/**
 * The book record as the forms hold it, and the per-field error map the
 * validators build.
 */
module Books {
  import opened Optional

  /** The form fields, one per input of the book forms. */
  datatype Field = Title | Author | Genre | PublishedYear | Status | Image

  /**
   * A book record. `id` is the server's `_id`, absent from a fresh draft; every other
   * field holds the text of its input (the year is kept as typed).
   */
  datatype Book = Book(
    id: Option<string>,
    title: string,
    author: string,
    genre: string,
    publishedYear: string,
    status: string,
    image: string)

  /** `form[name]`. */
  function FieldValue(d: Book, f: Field): string {
    match f
    case Title => d.title
    case Author => d.author
    case Genre => d.genre
    case PublishedYear => d.publishedYear
    case Status => d.status
    case Image => d.image
  }

  /** `{ ...form, [name]: value }`: the named field replaced, everything else kept. */
  function With(d: Book, f: Field, v: string): (r: Book)
    ensures FieldValue(r, f) == v
    ensures forall g :: g != f ==> FieldValue(r, g) == FieldValue(d, g)
    ensures r.id == d.id
  {
    match f
    case Title => d.(title := v)
    case Author => d.(author := v)
    case Genre => d.(genre := v)
    case PublishedYear => d.(publishedYear := v)
    case Status => d.(status := v)
    case Image => d.(image := v)
  }

  /** The draft a create form starts from: every text input empty, status "Available", no id. */
  function NewDraft(): (d: Book)
    ensures d.id == None
    ensures d.status == "Available"
    ensures forall f :: f != Status ==> FieldValue(d, f) == ""
  {
    Book(None, "", "", "", "", "Available", "")
  }

  /** `errors[name]` is truthy: the field has a non-empty message. */
  predicate HasError(errors: map<Field, string>, f: Field) {
    f in errors && errors[f] != ""
  }

  /**
   * The error clearing of the create/shared form's change handler: a field that shows
   * an error gets the empty message, and nothing else changes.
   */
  function ClearError(errors: map<Field, string>, f: Field): (r: map<Field, string>)
    ensures r.Keys == errors.Keys
    ensures !HasError(r, f)
    ensures forall g :: g in errors && g != f ==> r[g] == errors[g]
    ensures !HasError(errors, f) ==> r == errors
  {
    if HasError(errors, f) then errors[f := ""] else errors
  }
}

/**
 * The REST requests the pages issue against the book resource, and the observable
 * effects of a handler (requests, collection refreshes, navigation to the list).
 */
module Http {
  import opened Optional
  import opened Books

  datatype Verb = Get | Post | Put | Delete

  /** `API_URL` itself, or `API_URL/key`. */
  datatype Target = Collection | Item(key: string)

  datatype Request = Request(verb: Verb, target: Target, body: Option<Book>)

  /** How a request ended: a response with `res.ok`, or anything that reaches the catch block. */
  datatype Outcome = Ok | Fail

  /** How fetching one record ended: the parsed record, or a failure. */
  datatype Fetched = Found(book: Book) | NotFound

  /** What a handler does that outlives it: a request, a call of `fetchBooks`, `navigate("/")`. */
  datatype Effect = Send(request: Request) | RefreshBooks | NavigateHome

  /** Whether a form creates a record or updates the one with the given id. */
  datatype Mode = Create | Update(id: string)

  /** `Boolean(id)` on the route parameter decides the mode: edit exactly for a non-empty id. */
  function ModeOf(param: Option<string>): (m: Mode)
    ensures m.Update? <==> param.Some? && param.value != ""
    ensures m.Update? ==> m.id == param.value
  {
    if param.Some? && param.value != "" then Update(param.value) else Create
  }

  /**
   * The save request: PUT to `API_URL/id` with the form minus `_id` when updating,
   * POST of the whole form to `API_URL` when creating.
   */
  function SaveRequest(mode: Mode, form: Book): (r: Request)
    ensures r.verb == Put <==> mode.Update?
    ensures r.verb == Post <==> mode.Create?
    ensures mode.Update? ==> r.target == Item(mode.id) && r.body.Some? && r.body.value.id == None
    ensures mode.Create? ==> r.target == Collection && r.body == Some(form)
    ensures r.body.Some? && forall f :: FieldValue(r.body.value, f) == FieldValue(form, f)
  {
    match mode
    case Update(id) => Request(Put, Item(id), Some(form.(id := None)))
    case Create => Request(Post, Collection, Some(form))
  }

  /**
   * The effects of loading the record to edit: a GET of `API_URL/id`, followed by a
   * navigation to the list exactly when the record could not be fetched.
   */
  function LoadEffects(id: string, response: Fetched): (es: seq<Effect>)
    ensures es != [] && es[0] == Send(Request(Get, Item(id), None))
    ensures NavigateHome in es <==> response.NotFound?
    ensures RefreshBooks !in es
    ensures forall i :: 0 < i < |es| ==> !es[i].Send?
  {
    [Send(Request(Get, Item(id), None))] + (if response.NotFound? then [NavigateHome] else [])
  }
}
