/** The add/edit dialog: its default values, its validation, the request it
    submits, how a movie lookup fills it in, and the barcode scan. */
module DvdForm {
  import opened Base
  import opened Schema
  import Storage
  import opened Routes

  /** The year input: never touched (`undefined`, left out of the request),
      set to `null` by a lookup without a year, or a number. */
  datatype YearInput = NoYear | NullYear | GivenYear(value: int)

  /** The form's values. Text inputs always hold a string, possibly empty. */
  datatype FormValues = FormValues(
    title: string,
    year: YearInput,
    genre: string,
    director: string,
    status: string,
    posterUrl: string,
    barcode: string)

  // ---------------------------------------------------------------------------
  // Default values
  // ---------------------------------------------------------------------------

  /** `value || ""`: a missing or empty text becomes the empty string. */
  function TextOr(s: Option<string>): (r: string)
    ensures TruthyText(s) ==> r == s.value
    ensures !TruthyText(s) ==> r == ""
  {
    if s.Some? then s.value else ""
  }

  /** `value || undefined` for the year: a missing year and year 0 both
      leave the input untouched. */
  function YearOr(y: Option<int>): (r: YearInput)
    ensures TruthyNumber(y) <==> r.GivenYear?
    ensures r.GivenYear? ==> y == Some(r.value)
    ensures !r.GivenYear? ==> r == NoYear
  {
    if TruthyNumber(y) then GivenYear(y.value) else NoYear
  }

  /** `defaultValues`: the edited record's fields, with falsy ones replaced
      by the empty form's; a new record starts empty and "owned". */
  function DefaultValues(editing: Option<Dvd>): (v: FormValues)
    ensures editing.None? ==> v == FormValues("", NoYear, "", "", Owned, "", "")
    ensures editing.Some? ==> v.title == editing.value.title
    ensures editing.Some? ==> (v.year == NoYear <==> !TruthyNumber(editing.value.year))
    ensures editing.Some? && editing.value.status != "" ==> v.status == editing.value.status
    ensures editing.Some? && editing.value.status == "" ==> v.status == Owned
    ensures editing.Some? ==> var d := editing.value;
      && (TruthyNumber(d.year) ==> v.year == GivenYear(d.year.value))
      && (TruthyText(d.genre) ==> v.genre == d.genre.value)
      && (TruthyText(d.director) ==> v.director == d.director.value)
      && (TruthyText(d.posterUrl) ==> v.posterUrl == d.posterUrl.value)
      && (TruthyText(d.barcode) ==> v.barcode == d.barcode.value)
    ensures editing.Some? ==> var d := editing.value;
      && (!TruthyText(d.genre) ==> v.genre == "")
      && (!TruthyText(d.director) ==> v.director == "")
      && (!TruthyText(d.posterUrl) ==> v.posterUrl == "")
      && (!TruthyText(d.barcode) ==> v.barcode == "")
  {
    match editing
    case None => FormValues("", NoYear, "", "", Owned, "", "")
    case Some(d) =>
      FormValues(
        d.title,
        YearOr(d.year),
        TextOr(d.genre),
        TextOr(d.director),
        if d.status != "" then d.status else Owned,
        TextOr(d.posterUrl),
        TextOr(d.barcode))
  }

  // ---------------------------------------------------------------------------
  // Validation and submission
  // ---------------------------------------------------------------------------

  /** The two rules the form adds to the insert schema. */
  datatype FormIssue = TitleRequired | StatusNotAllowed

  /** `formSchema`: a non-empty title and one of the two documented
      statuses. */
  predicate ValidForm(v: FormValues) {
    v.title != "" && (v.status == Owned || v.status == Wishlist)
  }

  /** The messages the form shows under its inputs. */
  function FormIssues(v: FormValues): (issues: seq<FormIssue>)
    ensures |issues| == 0 <==> ValidForm(v)
    ensures TitleRequired in issues <==> v.title == ""
    ensures StatusNotAllowed in issues <==> v.status != Owned && v.status != Wishlist
  {
    (if v.title == "" then [TitleRequired] else [])
    + (if v.status != Owned && v.status != Wishlist then [StatusNotAllowed] else [])
  }

  /** The year as the request carries it: left out, null, or a number. */
  function YearValue(y: YearInput): Option<int> {
    if y.GivenYear? then Some(y.value) else None
  }

  /** The JSON body the form sends: every text input as a string (an empty
      input as `""`, not null), the year only when it was set. */
  function ToBody(v: FormValues): (body: JsonObject)
    ensures Get(body, Title) == Some(JString(v.title)) && Get(body, Status) == Some(JString(v.status))
    ensures Get(body, Year).None? <==> v.year == NoYear
    ensures forall k :: k in body ==> IsSchemaKey(k)
  {
    var texts := map[
      "title" := JString(v.title),
      "genre" := JString(v.genre),
      "director" := JString(v.director),
      "status" := JString(v.status),
      "posterUrl" := JString(v.posterUrl),
      "barcode" := JString(v.barcode)];
    match v.year
    case NoYear => texts
    case NullYear => texts["year" := JNull]
    case GivenYear(n) => texts["year" := JInt(n)]
  }

  /** The insert payload a form stands for. */
  function Payload(v: FormValues): InsertDvd {
    InsertDvd(v.title, YearValue(v.year), Some(v.genre), Some(v.director), v.status,
      Some(v.posterUrl), Some(v.barcode))
  }

  /** Whatever the form holds, the server's schema accepts the body it sends
      and reads back the form's payload; the server is laxer than the form,
      since it takes an empty title and any status. The form always sends
      the title, so its update is never the empty patch the store refuses. */
  lemma BodyValidates(v: FormValues)
    ensures ValidateInsert(ToBody(v)) == Success(Payload(v))
    ensures ValidatePatch(ToBody(v)).Success?
    ensures ValidatePatch(ToBody(v)).value != Storage.NoChanges
  {
    var body := ToBody(v);
    ToBodyTexts(v);
    forall f: Field
      ensures FieldOk(body, f, false)
    {
    }
    assert |Issues(body, false)| == 0;
  }

  /** Each text input reaches the body as a string. */
  lemma ToBodyTexts(v: FormValues)
    ensures Get(ToBody(v), Genre) == Some(JString(v.genre))
    ensures Get(ToBody(v), Director) == Some(JString(v.director))
    ensures Get(ToBody(v), PosterUrl) == Some(JString(v.posterUrl))
    ensures Get(ToBody(v), Barcode) == Some(JString(v.barcode))
    ensures IntegerOf(Get(ToBody(v), Year)) == YearValue(v.year)
  {
  }

  /** `onSubmit` behind `handleSubmit`: nothing is sent while the form is
      invalid; otherwise an edit becomes an update of the edited record and
      anything else a create. */
  function Submit(v: FormValues, editing: Option<Dvd>): (r: Option<Request>)
    ensures r.None? <==> !ValidForm(v)
    ensures r.Some? ==> (r.value.UpdateOne? <==> editing.Some?)
    ensures r.Some? ==> (r.value.CreateOne? <==> editing.None?)
    ensures r.Some? && editing.Some? ==> r.value == UpdateOne(editing.value.id, ToBody(v))
    ensures r.Some? && editing.None? ==> r.value == CreateOne(ToBody(v))
  {
    if !ValidForm(v) then None
    else if editing.Some? then Some(UpdateOne(editing.value.id, ToBody(v)))
    else Some(CreateOne(ToBody(v)))
  }

  /** Saving an edit without touching the form writes back the record's own
      fields, except that a missing or empty text is written as `""` and a
      missing year or year 0 is left out. */
  lemma {:induction false} UnchangedEditPayload(d: Dvd)
    ensures var v := DefaultValues(Some(d));
      ValidateInsert(ToBody(v)) == Success(InsertDvd(
        d.title,
        if TruthyNumber(d.year) then d.year else None,
        Some(TextOr(d.genre)),
        Some(TextOr(d.director)),
        if d.status != "" then d.status else Owned,
        Some(TextOr(d.posterUrl)),
        Some(TextOr(d.barcode))))
  {
    BodyValidates(DefaultValues(Some(d)));
  }

  /** A record whose optional fields are all set survives an unchanged edit
      exactly. */
  lemma UnchangedEditKeepsRecord(d: Dvd)
    requires TruthyNumber(d.year) && d.status != ""
    requires TruthyText(d.genre) && TruthyText(d.director) && TruthyText(d.posterUrl) && TruthyText(d.barcode)
    ensures ValidateInsert(ToBody(DefaultValues(Some(d)))) == Success(Storage.Payload(d))
  {
    UnchangedEditPayload(d);
  }

  // ---------------------------------------------------------------------------
  // Movie lookup
  // ---------------------------------------------------------------------------

  /** What `lookupMovie` reads of the reply: the status code, the `error`
      field of an error body, and the movie of a success body. */
  datatype Reply = Reply(status: int, error: Option<string>, movie: Option<MovieData>)

  /** The client's view of a response of `POST /api/lookup`. */
  function ClientView(r: Response): (reply: Reply)
    ensures reply.status == r.code
    ensures reply.error.None?
    ensures reply.movie.Some? <==> r.body.Movie?
    ensures reply.movie.Some? ==> reply.movie.value == r.body.movie
  {
    Reply(r.code, None, if r.body.Movie? then Some(r.body.movie) else None)
  }

  /** `response.ok`. */
  predicate Ok(status: int) {
    200 <= status <= 299
  }

  const ApiKeyInvalid: string := "API_KEY_INVALID"

  /** The toast the lookup ends with. */
  datatype Notice = KeyHint | NotFound | Found

  /** The form after a successful lookup: title, year, genre and director
      are overwritten; the poster only when the result has a non-empty one. */
  function Fill(v: FormValues, m: MovieData): (w: FormValues)
    ensures w.title == m.title && w.genre == m.genre && w.director == m.director
    ensures w.year == (if m.year.Some? then GivenYear(m.year.value) else NullYear)
    ensures TruthyText(m.posterUrl) ==> w.posterUrl == m.posterUrl.value
    ensures !TruthyText(m.posterUrl) ==> w.posterUrl == v.posterUrl
    ensures w.status == v.status && w.barcode == v.barcode
  {
    v.(title := m.title,
       year := if m.year.Some? then GivenYear(m.year.value) else NullYear,
       genre := m.genre,
       director := m.director,
       posterUrl := if TruthyText(m.posterUrl) then m.posterUrl.value else v.posterUrl)
  }

  /** The result and error branches of `lookupMovie`. A failed reply is a
      key hint when it is a 401 carrying `API_KEY_INVALID` and "not found"
      otherwise; a success reply without a movie body fails to parse and is
      "not found" too. Only a found movie changes the form. */
  function ApplyLookup(v: FormValues, reply: Reply): (r: (FormValues, Notice))
    ensures r.1 == KeyHint <==> !Ok(reply.status) && reply.status == 401 && reply.error == Some(ApiKeyInvalid)
    ensures r.1 == Found <==> Ok(reply.status) && reply.movie.Some?
    ensures r.1 != Found ==> r.0 == v
    ensures r.1 == Found ==> r.0 == Fill(v, reply.movie.value)
  {
    if !Ok(reply.status) then
      if reply.status == 401 && reply.error == Some(ApiKeyInvalid) then (v, KeyHint)
      else (v, NotFound)
    else if reply.movie.Some? then (Fill(v, reply.movie.value), Found)
    else (v, NotFound)
  }

  /** The server never answers a lookup in the way the key-hint branch
      waits for, so that branch is unreachable against this server. */
  lemma NoKeyHintFromServer(v: FormValues, title: string, barcode: string, remote: string -> Fetch)
    ensures ApplyLookup(v, ClientView(HandleLookup(title, barcode, remote))).1 != KeyHint
  {
  }

  /** End to end: a lookup the movie service answers fills the form from
      the service's reply, with an `"N/A"` or empty poster leaving the poster
      input alone; when the service fails or does not know the title, the
      form is unchanged. */
  lemma {:induction false} LookupFillsFromService(v: FormValues, term: string, remote: string -> Fetch)
    requires term != ""
    ensures var (w, notice) := ApplyLookup(v, ClientView(HandleLookup(term, "", remote)));
      && (notice == Found <==> remote(term).Fetched? && remote(term).reply.response != "False")
      && (notice == Found ==>
        var reply := remote(term).reply;
        && w.title == reply.title && w.genre == reply.genre && w.director == reply.director
        && (reply.poster != "N/A" && reply.poster != "" ==> w.posterUrl == reply.poster)
        && (reply.poster == "N/A" || reply.poster == "" ==> w.posterUrl == v.posterUrl))
      && (notice != Found ==> w == v)
  {
    var response := HandleLookup(term, "", remote);
    assert LookupTerm(term, "") == Some(term);
    if response.code == 200 {
      var m := NormaliseMovie(remote(term).reply);
      assert response.body == Movie(m);
    }
  }

  /** The "Search Movie" button: a lookup is sent only for a non-empty
      answer to the prompt, with the answer as the title. */
  function SearchMovie(answer: Option<string>): (r: Option<Request>)
    ensures r.Some? <==> TruthyText(answer)
    ensures r.Some? ==> r.value == Lookup(answer.value, "")
  {
    if TruthyText(answer) then Some(Lookup(answer.value, "")) else None
  }

  /** `handleBarcodeScanned`: the code is stored in the barcode input and
      then looked up as a title. */
  function BarcodeScanned(v: FormValues, code: string): (r: (FormValues, Request))
    ensures r.0.barcode == code
    ensures r.0.(barcode := v.barcode) == v
    ensures r.1 == Lookup(code, "")
  {
    (v.(barcode := code), Lookup(code, ""))
  }

  /** A scanned code stays in the barcode input whatever the lookup of it
      answers, and the server searches for exactly that code. */
  lemma ScannedCodeSurvivesLookup(v: FormValues, code: string, remote: string -> Fetch)
    ensures var (w, req) := BarcodeScanned(v, code);
      && req.Lookup?
      && (code != "" ==> LookupTerm(req.title, req.barcode) == Some(code))
      && (code == "" ==> HandleLookup(req.title, req.barcode, remote).code == 400)
      && ApplyLookup(w, ClientView(HandleLookup(req.title, req.barcode, remote))).0.barcode == code
  {
  }
}
