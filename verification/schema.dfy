/** The record shapes shared by client and server (`users`, `dvds`) and the
    insert schema derived from the `dvds` table, with its validation of a
    JSON request body. */
module Schema {
  import opened Base

  /** A row of the `dvds` table. `id`, `userId`, `title` and `status` are
      required; every other column may be null. `createdAt` is the
      store-assigned timestamp. */
  datatype Dvd = Dvd(
    id: nat,
    userId: string,
    title: string,
    year: Option<int>,
    genre: Option<string>,
    director: Option<string>,
    status: string,
    posterUrl: Option<string>,
    barcode: Option<string>,
    createdAt: Option<int>)

  /** The insert payload: a `Dvd` without the store-assigned `id`, `userId`
      and `createdAt`. `status` is free text at this level. */
  datatype InsertDvd = InsertDvd(
    title: string,
    year: Option<int>,
    genre: Option<string>,
    director: Option<string>,
    status: string,
    posterUrl: Option<string>,
    barcode: Option<string>)

  /** A partial insert payload. `None` means "field not given"; for a
      nullable column `Some(None)` means "set it to null". */
  datatype Patch = Patch(
    title: Option<string>,
    year: Option<Option<int>>,
    genre: Option<Option<string>>,
    director: Option<Option<string>>,
    status: Option<string>,
    posterUrl: Option<Option<string>>,
    barcode: Option<Option<string>>)

  /** A row of the `users` table: `id` is the primary key, `email` is unique
      among non-null emails. */
  datatype User = User(
    id: string,
    email: Option<string>,
    firstName: Option<string>,
    lastName: Option<string>,
    profileImageUrl: Option<string>,
    createdAt: Option<int>,
    updatedAt: Option<int>)

  /** The insert payload of the `users` table (`upsertUser`'s argument): the
      identity fields; the timestamps are store-assigned. Each optional
      field is `None` when the key is left out (`undefined`) and `Some(None)`
      when it is given as null. */
  datatype UpsertUser = UpsertUser(
    id: string,
    email: Option<Option<string>>,
    firstName: Option<Option<string>>,
    lastName: Option<Option<string>>,
    profileImageUrl: Option<Option<string>>)

  /** The two statuses the application documents and the form enforces. */
  const Owned: string := "owned"
  const Wishlist: string := "wishlist"

  /** A JSON value as the request body parser delivers it. Numbers are split
      into integers and non-integral numbers; the contents of arrays and
      objects never matter to the schema. */
  datatype Json = JNull | JBool(b: bool) | JInt(i: int) | JFraction | JString(s: string) | JArray | JObject

  type JsonObject = map<string, Json>

  /** The fields of the insert schema. */
  datatype Field = Title | Year | Genre | Director | Status | PosterUrl | Barcode

  /** The insert schema's fields, in the table's column order (the order in
      which validation reports its issues). */
  const InsertFields: seq<Field> := [Title, Year, Genre, Director, Status, PosterUrl, Barcode]

  /** The JSON key of a field. */
  function Key(f: Field): string {
    match f
    case Title => "title"
    case Year => "year"
    case Genre => "genre"
    case Director => "director"
    case Status => "status"
    case PosterUrl => "posterUrl"
    case Barcode => "barcode"
  }

  /** The JSON keys the schema knows. */
  predicate IsSchemaKey(k: string) {
    k == "title" || k == "year" || k == "genre" || k == "director"
    || k == "status" || k == "posterUrl" || k == "barcode"
  }

  function Get(body: JsonObject, f: Field): Option<Json> {
    if Key(f) in body then Some(body[Key(f)]) else None
  }

  /** Whether a field's value passes the schema. In the partial schema every
      field may be left out; a nullable column also takes `null`. */
  predicate FieldOk(body: JsonObject, f: Field, partial: bool) {
    var v := Get(body, f);
    match f
    case Title => (v.None? && partial) || (v.Some? && v.value.JString?)
    case Status => (v.None? && partial) || (v.Some? && v.value.JString?)
    case Year => v.None? || v.value.JNull? || v.value.JInt?
    case _ => v.None? || v.value.JNull? || v.value.JString?
  }

  /** The fields that fail, in column order. */
  function Issues(body: JsonObject, partial: bool): (errs: seq<Field>)
    ensures forall f :: f in errs <==> !FieldOk(body, f, partial)
  {
    Flag(body, Title, partial) + Flag(body, Year, partial) + Flag(body, Genre, partial)
    + Flag(body, Director, partial) + Flag(body, Status, partial)
    + Flag(body, PosterUrl, partial) + Flag(body, Barcode, partial)
  }

  function Flag(body: JsonObject, f: Field, partial: bool): (errs: seq<Field>)
    ensures forall g :: g in errs <==> g == f && !FieldOk(body, f, partial)
  {
    if FieldOk(body, f, partial) then [] else [f]
  }

  /** The text of an accepted text field, `None` for null or absent. */
  function TextOf(v: Option<Json>): Option<string> {
    if v.Some? && v.value.JString? then Some(v.value.s) else None
  }

  function IntegerOf(v: Option<Json>): Option<int> {
    if v.Some? && v.value.JInt? then Some(v.value.i) else None
  }

  /** `insertDvdSchema.safeParse(body)`: unknown keys are stripped, the
      required text columns must be strings, the nullable ones strings or
      null, `year` an integer or null. */
  function ValidateInsert(body: JsonObject): (r: Result<InsertDvd, seq<Field>>)
    ensures r.Failure? <==> exists f :: !FieldOk(body, f, false)
    ensures r.Failure? ==> |r.error| > 0 && forall f :: f in r.error <==> !FieldOk(body, f, false)
    ensures r.Success? ==> Get(body, Title) == Some(JString(r.value.title))
    ensures r.Success? ==> Get(body, Status) == Some(JString(r.value.status))
    ensures r.Success? ==> forall f :: Get(EncodeInsert(r.value), f) == if Key(f) in body then Get(body, f) else Some(JNull)
  {
    var errs := Issues(body, false);
    if |errs| > 0 then Failure(errs)
    else
      assert FieldOk(body, Title, false) && FieldOk(body, Status, false);
      var d := InsertDvd(
        TextOf(Get(body, Title)).value,
        IntegerOf(Get(body, Year)),
        TextOf(Get(body, Genre)),
        TextOf(Get(body, Director)),
        TextOf(Get(body, Status)).value,
        TextOf(Get(body, PosterUrl)),
        TextOf(Get(body, Barcode)));
      forall f: Field
        ensures Get(EncodeInsert(d), f) == if Key(f) in body then Get(body, f) else Some(JNull)
      {
        assert FieldOk(body, f, false);
      }
      Success(d)
  }

  /** A given nullable field as a patch entry: `Some(None)` for null. */
  function PatchText(body: JsonObject, f: Field): Option<Option<string>> {
    if Key(f) in body then Some(TextOf(Get(body, f))) else None
  }

  /** `insertDvdSchema.partial().safeParse(body)`. */
  function ValidatePatch(body: JsonObject): (r: Result<Patch, seq<Field>>)
    ensures r.Failure? <==> exists f :: !FieldOk(body, f, true)
    ensures r.Failure? ==> |r.error| > 0 && forall f :: f in r.error <==> !FieldOk(body, f, true)
    ensures r.Success? ==> forall f :: Key(f) in body <==> PatchMentions(r.value, f)
    ensures r.Success? ==> forall f :: PatchEntry(r.value, f) == Get(body, f)
  {
    var errs := Issues(body, true);
    if |errs| > 0 then Failure(errs)
    else
      assert FieldOk(body, Title, true) && FieldOk(body, Status, true);
      var p := Patch(
        if Key(Title) in body then TextOf(Get(body, Title)) else None,
        if Key(Year) in body then Some(IntegerOf(Get(body, Year))) else None,
        PatchText(body, Genre),
        PatchText(body, Director),
        if Key(Status) in body then TextOf(Get(body, Status)) else None,
        PatchText(body, PosterUrl),
        PatchText(body, Barcode));
      forall f: Field
        ensures PatchEntry(p, f) == Get(body, f)
      {
        assert FieldOk(body, f, true);
      }
      Success(p)
  }

  /** The JSON value a patch carries for a field, as the client would send
      it: absent when the patch leaves the field alone, `null` for a null. */
  function PatchEntry(p: Patch, f: Field): Option<Json> {
    match f
    case Title => if p.title.Some? then Some(JString(p.title.value)) else None
    case Year => if p.year.Some? then Some(if p.year.value.Some? then JInt(p.year.value.value) else JNull) else None
    case Genre => if p.genre.Some? then Some(TextJson(p.genre.value)) else None
    case Director => if p.director.Some? then Some(TextJson(p.director.value)) else None
    case Status => if p.status.Some? then Some(JString(p.status.value)) else None
    case PosterUrl => if p.posterUrl.Some? then Some(TextJson(p.posterUrl.value)) else None
    case Barcode => if p.barcode.Some? then Some(TextJson(p.barcode.value)) else None
  }

  /** Whether a patch carries a value (possibly null) for the field. */
  predicate PatchMentions(p: Patch, f: Field) {
    match f
    case Title => p.title.Some?
    case Year => p.year.Some?
    case Genre => p.genre.Some?
    case Director => p.director.Some?
    case Status => p.status.Some?
    case PosterUrl => p.posterUrl.Some?
    case Barcode => p.barcode.Some?
  }

  function TextJson(s: Option<string>): Json {
    if s.Some? then JString(s.value) else JNull
  }

  /** The JSON object a client sends for an insert payload; null columns
      are sent as `null`. */
  function EncodeInsert(d: InsertDvd): JsonObject {
    map[
      "title" := JString(d.title),
      "year" := (if d.year.Some? then JInt(d.year.value) else JNull),
      "genre" := TextJson(d.genre),
      "director" := TextJson(d.director),
      "status" := JString(d.status),
      "posterUrl" := TextJson(d.posterUrl),
      "barcode" := TextJson(d.barcode)]
  }

  /** Every insert payload survives encoding and validation unchanged. */
  lemma ValidateEncodeInsert(d: InsertDvd)
    ensures ValidateInsert(EncodeInsert(d)) == Success(d)
  {
    var body := EncodeInsert(d);
    forall f: Field
      ensures FieldOk(body, f, false)
    {
    }
    assert |Issues(body, false)| == 0;
  }

  /** Keys outside the insert schema (among them the store-assigned `id`,
      `userId` and `createdAt`) are ignored by validation. */
  lemma ValidateIgnoresUnknownKeys(body: JsonObject, key: string, v: Json)
    requires !IsSchemaKey(key)
    ensures ValidateInsert(body[key := v]) == ValidateInsert(body)
    ensures ValidatePatch(body[key := v]) == ValidatePatch(body)
  {
    var body' := body[key := v];
    forall f: Field
      ensures Get(body', f) == Get(body, f) && (Key(f) in body' <==> Key(f) in body)
    {
      assert IsSchemaKey(Key(f));
      assert Key(f) != key;
    }
    forall f: Field, partial: bool
      ensures Flag(body', f, partial) == Flag(body, f, partial)
    {
    }
    assert Issues(body', false) == Issues(body, false);
    assert Issues(body', true) == Issues(body, true);
  }

  /** A body the insert schema accepts is also a valid partial update. */
  lemma InsertValidIsPatchValid(body: JsonObject)
    requires ValidateInsert(body).Success?
    ensures ValidatePatch(body).Success?
  {
  }

  /** At the store level `status` is free text: validation accepts a value
      other than the two documented ones. */
  lemma StatusIsFreeText()
    ensures ValidateInsert(map["title" := JString("Heat"), "status" := JString("lent")]).Success?
  {
    var body := map["title" := JString("Heat"), "status" := JString("lent")];
    forall f: Field
      ensures FieldOk(body, f, false)
    {
    }
  }

  /** A missing title is reported, and a body without both required text
      fields is refused. */
  lemma MissingTitleRefused(body: JsonObject)
    requires "title" !in body
    ensures ValidateInsert(body).Failure?
    ensures Title in ValidateInsert(body).error
  {
    assert !FieldOk(body, Title, false);
  }
}
