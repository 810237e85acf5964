/** The `/api/dvds` and `/api/lookup` handlers as functions from a request
    to a status code and a body. The store is reached through a backend
    that is either online (a database) or offline (every store call
    throws); the remote movie service is a function from search term to
    reply. The owner of every store call is an explicit parameter. */
module Routes {
  import opened Base
  import opened Schema
  import opened Storage
  import opened Strings

  /** The database connection: working, or failing on every call. */
  datatype Backend = Online(db: Db) | Offline

  /** The normalised movie record `/api/lookup` answers with. */
  datatype MovieData = MovieData(title: string, year: Option<int>, genre: string, director: string, posterUrl: Option<string>)

  datatype Body =
    | Records(rows: set<Dvd>)
    | Record(row: Dvd)
    | Message(message: string)
    | Invalid(message: string, errors: seq<Field>)
    | Movie(movie: MovieData)
    | NoContent

  datatype Response = Response(code: int, body: Body)

  /** The query parameters of `GET /api/dvds`; an absent parameter is the
      empty string (both are falsy). */
  datatype ListQuery = ListQuery(search: string, status: string, genre: string, year: string)

  /** What the remote movie service answered, by field name of its JSON. */
  datatype OmdbReply = OmdbReply(response: string, title: string, year: string, genre: string, director: string, poster: string)

  /** The outcome of the fetch: the transport or the JSON parse failed, or a
      reply arrived. */
  datatype Fetch = FetchFailed | Fetched(reply: OmdbReply)

  datatype Request =
    | ListDvds(query: ListQuery)
    | GetOne(id: int)
    | CreateOne(body: JsonObject)
    | UpdateOne(id: int, body: JsonObject)
    | DeleteOne(id: int)
    | Lookup(title: string, barcode: string)

  /** The store call the list endpoint makes. */
  datatype ListPlan = BySearch(text: string) | ByFilter(criteria: Criteria) | ListAll

  function Param(s: string): Option<string> {
    if s == "" then None else Some(s)
  }

  /** Precedence of the list endpoint: a search text wins, then any filter
      parameter, else everything. */
  function PlanList(q: ListQuery): (p: ListPlan)
    ensures p.BySearch? <==> q.search != ""
    ensures p.ListAll? <==> q.search == "" && q.status == "" && q.genre == "" && q.year == ""
    ensures p.BySearch? ==> p.text == q.search
    ensures p.ByFilter? ==> p.criteria.status == Param(q.status) && p.criteria.genre == Param(q.genre)
    ensures p.ByFilter? ==> p.criteria.year == (if q.year == "" then None else ParseInt(q.year))
  {
    if q.search != "" then BySearch(q.search)
    else if q.status != "" || q.genre != "" || q.year != "" then
      ByFilter(Criteria(Param(q.status), Param(q.genre), if q.year != "" then ParseInt(q.year) else None))
    else ListAll
  }

  const FetchFailedMessage: string := "Failed to fetch DVDs"
  const NotFoundMessage: string := "DVD not found"
  const InvalidMessage: string := "Invalid DVD data"

  /** `GET /api/dvds` as it is meant to work: every store call scoped to the
      owner, the no-parameter case listing the owner's records. */
  function HandleList(b: Backend, q: ListQuery, owner: string): (r: Response)
    ensures b.Offline? <==> r.code == 500
    ensures b.Online? ==> r.code == 200 && r.body.Records? && r.body.rows <= GetUserDvds(b.db, owner)
    ensures b.Online? && q.search != "" ==> r.body.rows == SearchDvds(b.db, q.search, owner)
    ensures b.Online? && PlanList(q).ByFilter? ==> r.body.rows == FilterDvds(b.db, PlanList(q).criteria, owner)
    ensures b.Online? && PlanList(q).ListAll? ==> r.body.rows == GetUserDvds(b.db, owner)
  {
    if b.Offline? then Response(500, Message(FetchFailedMessage))
    else
      match PlanList(q)
      case BySearch(text) => Response(200, Records(SearchDvds(b.db, text, owner)))
      case ByFilter(c) => Response(200, Records(FilterDvds(b.db, c, owner)))
      case ListAll => Response(200, Records(GetUserDvds(b.db, owner)))
  }

  /** `GET /api/dvds` as written: the no-parameter branch calls a store
      method that `DatabaseStorage` does not define, which throws and lands
      in the handler's catch. */
  function ListAsWritten(b: Backend, q: ListQuery, owner: string): (r: Response)
    ensures PlanList(q).ListAll? ==> r.code == 500
    ensures !PlanList(q).ListAll? ==> r == HandleList(b, q, owner)
  {
    if b.Offline? then Response(500, Message(FetchFailedMessage))
    else
      match PlanList(q)
      case BySearch(text) => Response(200, Records(SearchDvds(b.db, text, owner)))
      case ByFilter(c) => Response(200, Records(FilterDvds(b.db, c, owner)))
      case ListAll => Response(500, Message(FetchFailedMessage))
  }

  /** The list endpoint as written fails on its most common request, a
      plain `GET /api/dvds`, even for an owner with records. */
  lemma ListAsWrittenFailsPlainList(db: Db, owner: string)
    ensures ListAsWritten(Online(db), ListQuery("", "", "", ""), owner).code == 500
    ensures HandleList(Online(db), ListQuery("", "", "", ""), owner) == Response(200, Records(GetUserDvds(db, owner)))
  {
  }

  /** `GET /api/dvds/:id`. */
  function HandleGet(b: Backend, id: int, owner: string): (r: Response)
    ensures r.code == 500 <==> b.Offline?
    ensures r.code == 404 <==> b.Online? && GetDvd(b.db, id, owner).None?
    ensures r.code == 200 <==> b.Online? && GetDvd(b.db, id, owner).Some?
    ensures r.code == 200 ==> r.body == Record(GetDvd(b.db, id, owner).value)
  {
    if b.Offline? then Response(500, Message("Failed to fetch DVD"))
    else
      match GetDvd(b.db, id, owner)
      case None => Response(404, Message(NotFoundMessage))
      case Some(d) => Response(200, Record(d))
  }

  /** `POST /api/dvds`: validation first, and a refused body never reaches
      the store. */
  function HandleCreate(b: Backend, body: JsonObject, owner: string, now: int): (r: (Backend, Response))
    ensures ValidateInsert(body).Failure? ==>
      r == (b, Response(400, Invalid(InvalidMessage, ValidateInsert(body).error)))
    ensures r.1.code == 201 <==>
      ValidateInsert(body).Success? && b.Online? && CreateDvd(b.db, ValidateInsert(body).value, owner, now).Success?
    ensures r.1.code == 201 ==>
      && r.1.body.Record? && Payload(r.1.body.row) == ValidateInsert(body).value
      && r.1.body.row.userId == owner
      && r.0 == Online(CreateDvd(b.db, ValidateInsert(body).value, owner, now).value.0)
    ensures r.1.code != 201 ==> r.0 == b
    ensures r.1.code in {201, 400, 500}
  {
    match ValidateInsert(body)
    case Failure(errs) => (b, Response(400, Invalid(InvalidMessage, errs)))
    case Success(ins) =>
      if b.Offline? then (b, Response(500, Message("Failed to create DVD")))
      else
        match CreateDvd(b.db, ins, owner, now)
        case Failure(_) => (b, Response(500, Message("Failed to create DVD")))
        case Success((db', d)) => (Online(db'), Response(201, Record(d)))
  }

  /** `PATCH /api/dvds/:id`: the partial schema first (400); a patch that
      carries no field makes the store throw (500); then 404 when the store
      finds no such record of the owner. */
  function HandleUpdate(b: Backend, id: int, body: JsonObject, owner: string): (r: (Backend, Response))
    ensures ValidatePatch(body).Failure? ==>
      r == (b, Response(400, Invalid(InvalidMessage, ValidatePatch(body).error)))
    ensures r.1.code == 500 <==>
      ValidatePatch(body).Success? && (b.Offline? || ValidatePatch(body).value == NoChanges)
    ensures r.1.code == 404 <==>
      && ValidatePatch(body).Success? && ValidatePatch(body).value != NoChanges
      && b.Online? && !OwnedBy(b.db, id, owner)
    ensures r.1.code == 200 <==>
      && ValidatePatch(body).Success? && ValidatePatch(body).value != NoChanges
      && b.Online? && OwnedBy(b.db, id, owner)
    ensures r.1.code == 200 ==>
      var (db', d) := UpdateDvd(b.db, id, ValidatePatch(body).value, owner).value;
      r.0 == Online(db') && r.1.body == Record(d.value)
    ensures r.1.code != 200 ==> r.0 == b
  {
    match ValidatePatch(body)
    case Failure(errs) => (b, Response(400, Invalid(InvalidMessage, errs)))
    case Success(p) =>
      if b.Offline? then (b, Response(500, Message("Failed to update DVD")))
      else
        match UpdateDvd(b.db, id, p, owner)
        case Failure(_) => (b, Response(500, Message("Failed to update DVD")))
        case Success((_, None)) => (b, Response(404, Message(NotFoundMessage)))
        case Success((db', Some(d))) => (Online(db'), Response(200, Record(d)))
  }

  /** A body that names no schema field (`{}`, or only keys the schema
      strips) passes validation, and the update then fails with 500 for
      every id, even with the database up. */
  lemma EmptyPatchFails(b: Backend, id: int, body: JsonObject, owner: string)
    requires forall k :: k in body ==> !IsSchemaKey(k)
    ensures ValidatePatch(body) == Success(NoChanges)
    ensures HandleUpdate(b, id, body, owner) == (b, Response(500, Message("Failed to update DVD")))
  {
    forall f: Field
      ensures Key(f) !in body
    {
      assert IsSchemaKey(Key(f));
    }
    assert |Issues(body, true)| == 0;
  }

  /** `DELETE /api/dvds/:id`. */
  function HandleDelete(b: Backend, id: int, owner: string): (r: (Backend, Response))
    ensures r.1.code == 204 <==> b.Online? && OwnedBy(b.db, id, owner)
    ensures r.1.code == 404 <==> b.Online? && !OwnedBy(b.db, id, owner)
    ensures r.1.code == 500 <==> b.Offline?
    ensures r.1.code == 204 ==> r.1.body == NoContent && r.0 == Online(DeleteDvd(b.db, id, owner).0)
    ensures r.1.code != 204 ==> r.0 == b
  {
    if b.Offline? then (b, Response(500, Message("Failed to delete DVD")))
    else
      var (db', deleted) := DeleteDvd(b.db, id, owner);
      if !deleted then (b, Response(404, Message(NotFoundMessage)))
      else (Online(db'), Response(204, NoContent))
  }

  /** The text the lookup searches for: the title when given, otherwise the
      barcode; nothing when neither is given. */
  function LookupTerm(title: string, barcode: string): (t: Option<string>)
    ensures t.None? <==> title == "" && barcode == ""
    ensures t.Some? ==> t.value != "" && (t.value == title || (title == "" && t.value == barcode))
  {
    if title == "" && barcode == "" then None
    else if title != "" then Some(title)
    else Some(barcode)
  }

  /** The remote reply mapped into the internal shape: the year read with
      `parseInt` (`NaN` becomes null), the `"N/A"` poster becomes null. */
  function NormaliseMovie(reply: OmdbReply): (m: MovieData)
    ensures m.posterUrl.None? <==> reply.poster == "N/A"
    ensures m.posterUrl.Some? ==> m.posterUrl.value == reply.poster
    ensures m.title == reply.title && m.genre == reply.genre && m.director == reply.director
    ensures m.year == ParseInt(reply.year)
  {
    MovieData(reply.title, ParseInt(reply.year), reply.genre, reply.director,
      if reply.poster != "N/A" then Some(reply.poster) else None)
  }

  /** `POST /api/lookup`. */
  function HandleLookup(title: string, barcode: string, remote: string -> Fetch): (r: Response)
    ensures r.code == 400 <==> LookupTerm(title, barcode).None?
    ensures r.code == 500 <==> LookupTerm(title, barcode).Some? && remote(LookupTerm(title, barcode).value).FetchFailed?
    ensures r.code == 404 <==>
      && LookupTerm(title, barcode).Some?
      && remote(LookupTerm(title, barcode).value).Fetched?
      && remote(LookupTerm(title, barcode).value).reply.response == "False"
    ensures r.code == 200 ==> r.body == Movie(NormaliseMovie(remote(LookupTerm(title, barcode).value).reply))
    ensures r.code in {200, 400, 404, 500}
  {
    match LookupTerm(title, barcode)
    case None => Response(400, Message("Title or barcode required"))
    case Some(term) =>
      match remote(term)
      case FetchFailed => Response(500, Message("Failed to lookup movie data"))
      case Fetched(reply) =>
        if reply.response == "False" then Response(404, Message("Movie not found"))
        else Response(200, Movie(NormaliseMovie(reply)))
  }

  /** Whether a request may change the store. */
  predicate IsWrite(req: Request) {
    req.CreateOne? || req.UpdateOne? || req.DeleteOne?
  }

  /** The router: one handler per route. */
  function Handle(b: Backend, req: Request, owner: string, now: int, remote: string -> Fetch): (r: (Backend, Response))
    ensures r.1.code in {200, 201, 204, 400, 404, 500}
    ensures !IsWrite(req) ==> r.0 == b
    ensures r.0.Offline? <==> b.Offline?
    ensures b.Online? && Valid(b.db) ==> Valid(r.0.db)
  {
    match req
    case ListDvds(q) => (b, HandleList(b, q, owner))
    case GetOne(id) => (b, HandleGet(b, id, owner))
    case CreateOne(body) => HandleCreate(b, body, owner, now)
    case UpdateOne(id, body) => HandleUpdate(b, id, body, owner)
    case DeleteOne(id) => HandleDelete(b, id, owner)
    case Lookup(title, barcode) => (b, HandleLookup(title, barcode, remote))
  }

  /** A record created over HTTP reads back over HTTP. */
  lemma CreateThenGetOverHttp(db: Db, body: JsonObject, owner: string, now: int)
    requires Valid(db)
    requires HandleCreate(Online(db), body, owner, now).1.code == 201
    ensures var (b', created) := HandleCreate(Online(db), body, owner, now);
      HandleGet(b', created.body.row.id, owner) == Response(200, created.body)
  {
    CreateThenGet(db, ValidateInsert(body).value, owner, now);
  }

  /** Deleting twice answers 204 and then 404. */
  lemma DeleteTwiceOverHttp(db: Db, id: int, owner: string)
    requires OwnedBy(db, id, owner)
    ensures var (b', first) := HandleDelete(Online(db), id, owner);
      first.code == 204 && HandleDelete(b', id, owner).1.code == 404
  {
  }

  /** An invalid patch is refused before the store is consulted: the answer
      is 400 whether or not the record exists and the database is up. */
  lemma UpdateValidatesFirst(b1: Backend, b2: Backend, id1: int, id2: int, body: JsonObject, owner: string, f: Field)
    requires !FieldOk(body, f, true)
    ensures HandleUpdate(b1, id1, body, owner).1 == HandleUpdate(b2, id2, body, owner).1
    ensures HandleUpdate(b1, id1, body, owner).1.code == 400
    ensures f in HandleUpdate(b1, id1, body, owner).1.body.errors
  {
  }
}
