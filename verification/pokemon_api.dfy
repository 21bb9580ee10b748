/**
 * The `pokemon` endpoint: GET lists or fetches rows, POST creates a row
 * (optionally storing an uploaded image first), PUT updates the scalar
 * columns of a row, DELETE removes a row; every other method is refused.
 *
 * Each branch is specified by a predicate relating the table before, the
 * table after and the response; the handler methods are proved against them.
 */
module PokemonApi {
  import opened Wrappers
  import opened Php
  import opened Records
  import opened Http
  import opened Tables

  /**
   * Fields as `$_POST` (create) or the parsed PUT body (update) holds them;
   * a missing field is None. `id` and `imagenUrlExistente` are only read by PUT.
   */
  datatype PokemonFields = PokemonFields(
    id: Option<string>,
    numeroPokemon: Option<string>,
    nombre: Option<string>,
    tipo: Option<string>,
    nivel: Option<string>,
    habilidad: Option<string>,
    imagenUrlExistente: Option<string>)

  /** `$_FILES['imagen']`: not sent at all, or sent with PHP's upload error code. */
  datatype FileField = NotSent | Sent(error: nat, name: string)

  const UPLOAD_ERR_OK: nat := 0
  const UPLOAD_ERR_NO_FILE: nat := 4

  /**
   * What the clock, the hash and the filesystem contribute to an upload:
   * `uniqueStem` stands for `md5(time() . $nombre)`, `uploadDir` for the
   * absolute image directory, `dirReady` for "exists or was created" and
   * `moveOk` for the result of `move_uploaded_file`.
   */
  datatype UploadEnv = UploadEnv(uniqueStem: string, uploadDir: string, dirReady: bool, moveOk: bool)

  /** The outcome of `handleImageUpload`. */
  datatype Upload = NoImage | Stored(path: string) | Failed(error: string)

  /** A complete request to the endpoint. */
  datatype PokemonRequest = PokemonRequest(
    verb: Method,
    query: Option<string>,     // $_GET['id']
    post: PokemonFields,       // $_POST
    file: FileField,           // $_FILES['imagen']
    put: PokemonFields)        // parse_str(php://input)

  const IMAGE_ROOT := "public/images/pokemon"
  const IMAGE_DIR := IMAGE_ROOT + "/"

  const MSG_CREATE_REQUIRED := "El número, nombre y tipo del Pokémon son obligatorios."
  const MSG_CREATED := "Pokémon registrado con éxito."
  const MSG_NOT_FOUND := "Pokémon no encontrado."
  const MSG_UPDATE_REQUIRED := "ID, número, nombre y tipo del Pokémon son obligatorios para actualizar."
  const MSG_UPDATED := "Pokémon actualizado con éxito."
  const MSG_DELETE_REQUIRED := "ID de Pokémon es obligatorio para eliminar."
  const MSG_DELETED := "Pokémon eliminado con éxito."

  // ---------------------------------------------------------------------------
  // Validation

  /** What a row written by this endpoint looks like: positive number, non-empty trimmed name and type. */
  predicate WellFormed(p: Pokemon) {
    && p.numeroPokemon > 0
    && !Empty(p.nombre) && !Empty(p.tipo)
    && NoEdgeSpace(p.nombre) && NoEdgeSpace(p.tipo) && NoEdgeSpace(p.habilidad)
  }

  /** The check shared by create and update: trimmed name and type not `empty()`, number positive. */
  predicate ValidFields(f: PokemonFields) {
    !Empty(TextField(f.nombre)) && !Empty(TextField(f.tipo)) && IntField(f.numeroPokemon, 0) > 0
  }

  /**
   * The values create and update read: text trimmed, `numero_pokemon`
   * defaulting to 0 and `nivel` to 1, no image. The fields pass validation
   * exactly when these values form a well-formed row.
   */
  function Decode(f: PokemonFields): (p: Pokemon)
    ensures ValidFields(f) <==> WellFormed(p)
    ensures p.imagenUrl.None?
  {
    Pokemon(IntField(f.numeroPokemon, 0), TextField(f.nombre), TextField(f.tipo),
            IntField(f.nivel, 1), TextField(f.habilidad), None)
  }

  /** A missing `numero_pokemon` defaults to 0 and is therefore rejected. */
  lemma MissingNumeroRejected(f: PokemonFields)
    requires f.numeroPokemon.None?
    ensures !ValidFields(f)
  {
  }

  // ---------------------------------------------------------------------------
  // Image intake

  /**
   * `handleImageUpload`: nothing to do without a file or with "no file"; a
   * stored path under the public image directory when the upload is clean and
   * the move succeeds; a failure otherwise.
   */
  function HandleImageUpload(file: FileField, env: UploadEnv): (u: Upload)
    ensures u.NoImage? <==> file.NotSent? || file.error == UPLOAD_ERR_NO_FILE
    ensures u.Stored? <==> file.Sent? && file.error == UPLOAD_ERR_OK && env.dirReady && env.moveOk
    ensures u.Stored? ==> |IMAGE_DIR| <= |u.path| && u.path[..|IMAGE_DIR|] == IMAGE_DIR
  {
    match file
    case NotSent => NoImage
    case Sent(code, name) =>
      if code == UPLOAD_ERR_OK then
        if !env.dirReady then Failed("Error al crear el directorio de imágenes: " + env.uploadDir)
        else if !env.moveOk then Failed("Error al mover el archivo. Revise los permisos de la carpeta: " + env.uploadDir)
        else Stored(IMAGE_DIR + env.uniqueStem + "." + ToLower(Extension(name)))
      else if code != UPLOAD_ERR_NO_FILE then
        Failed("Error de subida de archivo: Código " + DecimalString(code))
      else NoImage
  }

  /**
   * A stored image keeps the uploaded file's extension, lower-cased: read back
   * with `pathinfo`, the stored path's file name is the generated stem, a dot
   * and that extension.
   */
  lemma StoredPathForm(file: FileField, env: UploadEnv)
    requires HandleImageUpload(file, env).Stored?
    requires '.' !in env.uniqueStem && '/' !in env.uniqueStem
    ensures var path := HandleImageUpload(file, env).path;
      && Extension(path) == ToLower(Extension(file.name))
      && Basename(path) == env.uniqueStem + "." + Extension(path)
  {
    var ext := ToLower(Extension(file.name));
    ToLowerKeeps(Extension(file.name), '.');
    ToLowerKeeps(Extension(file.name), '/');
    var fileName := env.uniqueStem + ['.'] + ext;
    Regroup(IMAGE_ROOT, ['/'], env.uniqueStem, ['.'], ext);
    AfterLastAppend(IMAGE_ROOT, '/', fileName);
    AfterLastAppend(env.uniqueStem, '.', ext);
  }

  lemma Regroup<T>(a: seq<T>, b: seq<T>, c: seq<T>, d: seq<T>, e: seq<T>)
    ensures a + b + c + d + e == a + b + (c + d + e)
  {
  }

  function ImageUrl(u: Upload): Option<string> {
    if u.Stored? then Some(u.path) else None
  }

  // ---------------------------------------------------------------------------
  // Branch specifications

  /** `rows` is every row of `s`, each once, in descending key order. */
  ghost predicate ListsTable(s: TableState<Pokemon>, rows: seq<PokemonRow>) {
    && (forall i, j :: 0 <= i < j < |rows| ==> rows[i].id > rows[j].id)
    && (forall i :: 0 <= i < |rows| ==> rows[i].id in s.rows && s.rows[rows[i].id] == rows[i].fields)
    && (forall k :: k in s.rows ==> exists i :: 0 <= i < |rows| && rows[i].id == k)
  }

  /** GET: a truthy `id` selects one row or 404; otherwise the whole table, newest first. */
  ghost predicate GetSpec(s: TableState<Pokemon>, query: Option<string>, resp: Response) {
    if !EmptyField(query) then
      var id := IntVal(query.value);
      resp == if id in s.rows then Response(200, PokemonJson(PokemonRow(id, s.rows[id])))
              else Response(404, ErrorOnly(MSG_NOT_FOUND))
    else
      resp.status == 200 && resp.body.PokemonList? && ListsTable(s, resp.body.rows)
  }

  /**
   * POST: 400 without touching the table when validation fails; 500 without
   * touching the table when the upload fails; otherwise one new row under the
   * next key holding the decoded fields and the image path (null without
   * image), and 201 with that key.
   */
  ghost predicate CreateSpec(s0: TableState<Pokemon>, s1: TableState<Pokemon>, f: PokemonFields,
                             file: FileField, env: UploadEnv, resp: Response) {
    if !ValidFields(f) then
      resp == Response(400, Failure(MSG_CREATE_REQUIRED)) && s1 == s0
    else
      var upload := HandleImageUpload(file, env);
      if upload.Failed? then
        resp == Response(500, Failure(upload.error)) && s1 == s0
      else
        var id := s0.nextId;
        var row := Decode(f).(imagenUrl := ImageUrl(upload));
        && s1 == TableState(s0.rows[id := row], id + 1)
        && resp == Response(201, Created(MSG_CREATED, id, ImageUrl(upload)))
  }

  /** The row after the UPDATE statement: the five scalar columns replaced, the image kept. */
  function Revised(p: Pokemon, f: PokemonFields): (q: Pokemon)
    ensures q.imagenUrl == p.imagenUrl
    ensures q == Decode(f).(imagenUrl := p.imagenUrl)
  {
    var d := Decode(f);
    p.(numeroPokemon := d.numeroPokemon, nombre := d.nombre, tipo := d.tipo,
       nivel := d.nivel, habilidad := d.habilidad)
  }

  /**
   * PUT: 400 without touching the table on an empty id or invalid fields;
   * otherwise the row with that key (if any) is revised and the answer is
   * 200 whether or not such a row exists. `imagen_url_existente` plays no part.
   */
  ghost predicate UpdateSpec(s0: TableState<Pokemon>, s1: TableState<Pokemon>, f: PokemonFields, resp: Response) {
    if EmptyField(f.id) || !ValidFields(f) then
      resp == Response(400, ErrorOnly(MSG_UPDATE_REQUIRED)) && s1 == s0
    else
      var id := IntVal(f.id.value);
      && resp == Response(200, Success(MSG_UPDATED))
      && s1 == TableState(if id in s0.rows then s0.rows[id := Revised(s0.rows[id], f)] else s0.rows, s0.nextId)
  }

  /** DELETE: 400 on an empty id; otherwise the row goes, and the answer is 200 if there was one, else 404. */
  ghost predicate DeleteSpec(s0: TableState<Pokemon>, s1: TableState<Pokemon>, query: Option<string>, resp: Response) {
    if EmptyField(query) then
      resp == Response(400, ErrorOnly(MSG_DELETE_REQUIRED)) && s1 == s0
    else
      var id := IntVal(query.value);
      && s1 == TableState(s0.rows - {id}, s0.nextId)
      && resp == if id in s0.rows then Response(200, Success(MSG_DELETED))
                 else Response(404, Failure(MSG_NOT_FOUND))
  }

  /** The endpoint as a whole: dispatch on the HTTP method. */
  ghost predicate HandledBy(s0: TableState<Pokemon>, s1: TableState<Pokemon>, req: PokemonRequest,
                            env: UploadEnv, resp: Response) {
    match req.verb
    case OPTIONS => resp == PREFLIGHT && s1 == s0
    case GET => GetSpec(s0, req.query, resp) && s1 == s0
    case POST => CreateSpec(s0, s1, req.post, req.file, env, resp)
    case PUT => UpdateSpec(s0, s1, req.put, resp)
    case DELETE => DeleteSpec(s0, s1, req.query, resp)
    case Other(_) => resp == METHOD_NOT_ALLOWED && s1 == s0
  }

  // ---------------------------------------------------------------------------
  // Handlers

  method Get(t: Table<Pokemon>, query: Option<string>) returns (resp: Response)
    requires t.Valid()
    ensures GetSpec(t.State(), query, resp)
  {
    if !EmptyField(query) {
      var id := IntVal(query.value);
      if id in t.rows {
        resp := Response(200, PokemonJson(PokemonRow(id, t.rows[id])));
      } else {
        resp := Response(404, ErrorOnly(MSG_NOT_FOUND));
      }
    } else {
      var ids := t.IdsDescending();
      var m := t.rows;
      var rows := seq(|ids|, i requires 0 <= i < |ids| => PokemonRow(ids[i], m[ids[i]]));
      forall k | k in m ensures exists i :: 0 <= i < |rows| && rows[i].id == k {
        var i :| 0 <= i < |ids| && ids[i] == k;
        assert rows[i].id == k;
      }
      resp := Response(200, PokemonList(rows));
    }
  }

  method Create(t: Table<Pokemon>, f: PokemonFields, file: FileField, env: UploadEnv) returns (resp: Response)
    requires t.Valid()
    modifies t
    ensures t.Valid()
    ensures CreateSpec(old(t.State()), t.State(), f, file, env, resp)
  {
    if !ValidFields(f) {
      return Response(400, Failure(MSG_CREATE_REQUIRED));
    }
    var upload := HandleImageUpload(file, env);
    if upload.Failed? {
      return Response(500, Failure(upload.error));
    }
    var url := ImageUrl(upload);
    var id := t.Insert(Decode(f).(imagenUrl := url));
    resp := Response(201, Created(MSG_CREATED, id, url));
  }

  method Update(t: Table<Pokemon>, f: PokemonFields) returns (resp: Response)
    requires t.Valid()
    modifies t
    ensures t.Valid()
    ensures UpdateSpec(old(t.State()), t.State(), f, resp)
  {
    if EmptyField(f.id) || !ValidFields(f) {
      return Response(400, ErrorOnly(MSG_UPDATE_REQUIRED));
    }
    var id := IntVal(f.id.value);
    var _ := t.Update(id, p => Revised(p, f));
    resp := Response(200, Success(MSG_UPDATED));
  }

  method Delete(t: Table<Pokemon>, query: Option<string>) returns (resp: Response)
    requires t.Valid()
    modifies t
    ensures t.Valid()
    ensures DeleteSpec(old(t.State()), t.State(), query, resp)
  {
    if EmptyField(query) {
      return Response(400, ErrorOnly(MSG_DELETE_REQUIRED));
    }
    var affected := t.Delete(IntVal(query.value));
    if affected > 0 {
      resp := Response(200, Success(MSG_DELETED));
    } else {
      resp := Response(404, Failure(MSG_NOT_FOUND));
    }
  }

  method Handle(t: Table<Pokemon>, req: PokemonRequest, env: UploadEnv) returns (resp: Response)
    requires t.Valid()
    modifies t
    ensures t.Valid()
    ensures HandledBy(old(t.State()), t.State(), req, env, resp)
  {
    match req.verb
    case OPTIONS => resp := PREFLIGHT;
    case GET => resp := Get(t, req.query);
    case POST => resp := Create(t, req.post, req.file, env);
    case PUT => resp := Update(t, req.put);
    case DELETE => resp := Delete(t, req.query);
    case Other(_) => resp := METHOD_NOT_ALLOWED;
  }

  // ---------------------------------------------------------------------------
  // Properties across requests

  /** Every row the endpoint writes is well formed, so a table holding only such rows keeps doing so. */
  lemma WritesKeepRowsWellFormed(s0: TableState<Pokemon>, s1: TableState<Pokemon>, req: PokemonRequest,
                                 env: UploadEnv, resp: Response)
    requires HandledBy(s0, s1, req, env, resp)
    requires forall k :: k in s0.rows ==> WellFormed(s0.rows[k])
    ensures forall k :: k in s1.rows ==> WellFormed(s1.rows[k])
  {
  }

  /** PUT never changes an image and never adds or removes a row. */
  lemma UpdateKeepsImagesAndKeys(s0: TableState<Pokemon>, s1: TableState<Pokemon>, f: PokemonFields, resp: Response)
    requires UpdateSpec(s0, s1, f, resp)
    ensures s1.rows.Keys == s0.rows.Keys && s1.nextId == s0.nextId
    ensures forall k :: k in s1.rows ==> s1.rows[k].imagenUrl == s0.rows[k].imagenUrl
    ensures forall k :: k in s1.rows && k != IntVal(f.id.GetOr("")) ==> s1.rows[k] == s0.rows[k]
  {
    if !(EmptyField(f.id) || !ValidFields(f)) {
      var id := IntVal(f.id.value);
      if id in s0.rows {
        RevisedRowFrame(s0, s1, id, Revised(s0.rows[id], f));
      }
    }
  }

  /** Replacing one row by a revision with the same image keeps keys, counter, images and the other rows. */
  lemma RevisedRowFrame(s0: TableState<Pokemon>, s1: TableState<Pokemon>, id: int, q: Pokemon)
    requires id in s0.rows && q.imagenUrl == s0.rows[id].imagenUrl
    requires s1 == TableState(s0.rows[id := q], s0.nextId)
    ensures s1.rows.Keys == s0.rows.Keys && s1.nextId == s0.nextId
    ensures forall k :: k in s1.rows ==> s1.rows[k].imagenUrl == s0.rows[k].imagenUrl
    ensures forall k :: k in s1.rows && k != id ==> s1.rows[k] == s0.rows[k]
  {
  }

  /** Deleting the same id twice: the first 200 is followed by a 404. */
  lemma DeleteTwice(s0: TableState<Pokemon>, s1: TableState<Pokemon>, s2: TableState<Pokemon>,
                    query: Option<string>, r1: Response, r2: Response)
    requires DeleteSpec(s0, s1, query, r1) && DeleteSpec(s1, s2, query, r2)
    requires r1.status == 200
    ensures r2 == Response(404, Failure(MSG_NOT_FOUND)) && s2 == s1
  {
  }

  /** A positive key written in decimal is a truthy `id` that selects that key. */
  lemma DecimalIdSelects(id: int)
    requires id >= 1
    ensures !EmptyField(Some(DecimalString(id))) && IntVal(DecimalString(id)) == id
  {
    EmptyDecimalIffZero(id);
    IntValOfDecimal(id);
  }

  /** After a successful create, GET with the returned key yields the decoded fields and the image path. */
  lemma CreateThenGet(s0: TableState<Pokemon>, s1: TableState<Pokemon>, f: PokemonFields, file: FileField,
                      env: UploadEnv, created: Response, got: Response)
    requires ValidState(s0)
    requires CreateSpec(s0, s1, f, file, env, created) && created.status == 201
    requires GetSpec(s1, Some(DecimalString(created.body.id)), got)
    ensures got == Response(200, PokemonJson(PokemonRow(created.body.id, Decode(f).(imagenUrl := created.body.imagenUrl))))
  {
    DecimalIdSelects(created.body.id);
  }

  /** A GET for a key that was deleted answers 404. */
  lemma DeleteThenGet(s0: TableState<Pokemon>, s1: TableState<Pokemon>, id: int, deleted: Response, got: Response)
    requires id >= 1
    requires DeleteSpec(s0, s1, Some(DecimalString(id)), deleted)
    requires GetSpec(s1, Some(DecimalString(id)), got)
    ensures id !in s1.rows && (deleted.status == 200 <==> id in s0.rows)
    ensures got == Response(404, ErrorOnly(MSG_NOT_FOUND))
  {
    DecimalIdSelects(id);
  }

  /**
   * A form whose numbers are decimal renderings and whose texts have no
   * strippable edge decodes to exactly those numbers and texts.
   */
  lemma DecodePlainForm(f: PokemonFields, numero: nat, nivel: nat)
    requires f.numeroPokemon == Some(DecimalString(numero)) && f.nivel == Some(DecimalString(nivel))
    requires f.nombre.Some? && f.tipo.Some? && f.habilidad.Some?
    requires NoEdgeSpace(f.nombre.value) && NoEdgeSpace(f.tipo.value) && NoEdgeSpace(f.habilidad.value)
    ensures Decode(f) == Pokemon(numero, f.nombre.value, f.tipo.value, nivel, f.habilidad.value, None)
  {
    IntValOfDecimal(numero);
    IntValOfDecimal(nivel);
    TrimOfTrimmed(f.nombre.value);
    TrimOfTrimmed(f.tipo.value);
    TrimOfTrimmed(f.habilidad.value);
  }

  /** The form a client sends to create Pikachu: number 25, level 5, no image. */
  const PIKACHU := PokemonFields(None, Some("25"), Some("Pikachu"), Some("Eléctrico"), Some("5"), Some("Estático"), None)

  /** Pikachu's form passes validation and decodes to the row it describes. */
  lemma PikachuDecodes()
    ensures ValidFields(PIKACHU)
    ensures Decode(PIKACHU) == Pokemon(25, "Pikachu", "Eléctrico", 5, "Estático", None)
  {
    assert DecimalString(25) == "25" && DecimalString(5) == "5";
    DecodePlainForm(PIKACHU, 25, 5);
  }

  /**
   * Create from a valid form without an image, edit every field with another
   * valid form, read, delete, read again: 201 with a null image, 200, the
   * edited values still without image, 200, 404.
   */
  lemma CreateEditDeleteLifecycle(s0: TableState<Pokemon>, s1: TableState<Pokemon>, s2: TableState<Pokemon>,
                                  s3: TableState<Pokemon>, f: PokemonFields, e: PokemonFields, env: UploadEnv,
                                  created: Response, updated: Response, got: Response, deleted: Response, gone: Response)
    requires ValidState(s0) && ValidFields(f) && ValidFields(e)
    requires CreateSpec(s0, s1, f, NotSent, env, created)
    requires UpdateSpec(s1, s2, e.(id := Some(DecimalString(s0.nextId))), updated)
    requires GetSpec(s2, Some(DecimalString(s0.nextId)), got)
    requires DeleteSpec(s2, s3, Some(DecimalString(s0.nextId)), deleted)
    requires GetSpec(s3, Some(DecimalString(s0.nextId)), gone)
    ensures created == Response(201, Created(MSG_CREATED, s0.nextId, None))
    ensures updated == Response(200, Success(MSG_UPDATED))
    ensures got == Response(200, PokemonJson(PokemonRow(s0.nextId, Decode(e))))
    ensures deleted == Response(200, Success(MSG_DELETED))
    ensures gone == Response(404, ErrorOnly(MSG_NOT_FOUND))
  {
    var id := s0.nextId;
    var edit := e.(id := Some(DecimalString(id)));
    DecimalIdSelects(id);
    assert Decode(edit) == Decode(e) && ValidFields(edit);
    assert s1.rows[id] == Decode(f);
    assert s2.rows[id] == Revised(s1.rows[id], edit);
  }
}
