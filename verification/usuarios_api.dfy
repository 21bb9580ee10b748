/**
 * The `usuarios` administration endpoint: GET lists or fetches users without
 * their password column, DELETE removes a user, PUT edits a user after
 * checking that the new email is not held by anyone else, rehashing the
 * password only when a new one is given. POST and unknown methods are refused.
 */
module UsuariosApi {
  import opened Wrappers
  import opened Php
  import opened Records
  import opened Http
  import opened Tables
  import opened Passwords

  /** The parsed PUT body; a missing field is None. */
  datatype UsuarioFields = UsuarioFields(
    id: Option<string>,
    nombre: Option<string>,
    email: Option<string>,
    telefono: Option<string>,
    password: Option<string>)

  datatype UsuariosRequest = UsuariosRequest(
    verb: Method,
    query: Option<string>,     // $_GET['id']
    put: UsuarioFields)        // parse_str(php://input)

  const MSG_NOT_FOUND := "Usuario no encontrado."
  const MSG_DELETE_REQUIRED := "ID de usuario es obligatorio para eliminar."
  const MSG_DELETED := "Usuario eliminado con éxito."
  const MSG_ID_REQUIRED := "ID de usuario es obligatorio."
  const MSG_FIELDS_REQUIRED := "Nombre y email son obligatorios."
  const MSG_EMAIL_TAKEN := "El email ya está registrado en otro usuario."
  const MSG_UPDATED := "Usuario actualizado con éxito."
  const MSG_UNCHANGED := "Usuario no encontrado o no hubo cambios."

  // ---------------------------------------------------------------------------
  // Branch specifications

  /** `rows` is the public part of every user of `s`, each once, in descending key order. */
  ghost predicate ListsUsers(s: TableState<Usuario>, rows: seq<UsuarioRow>) {
    && (forall i, j :: 0 <= i < j < |rows| ==> rows[i].id > rows[j].id)
    && (forall i :: 0 <= i < |rows| ==> rows[i].id in s.rows && rows[i] == PublicRow(rows[i].id, s.rows[rows[i].id]))
    && (forall k :: k in s.rows ==> exists i :: 0 <= i < |rows| && rows[i].id == k)
  }

  /** GET: a non-empty `id` selects one user's public columns or 404; otherwise every user, newest first. */
  ghost predicate GetSpec(s: TableState<Usuario>, query: Option<string>, resp: Response) {
    if !EmptyField(query) then
      var id := IntVal(query.value);
      resp == if id in s.rows then Response(200, UsuarioJson(PublicRow(id, s.rows[id])))
              else Response(404, ErrorOnly(MSG_NOT_FOUND))
    else
      resp.status == 200 && resp.body.UsuarioList? && ListsUsers(s, resp.body.users)
  }

  /** DELETE: 400 on an empty id; otherwise the row goes, and the answer is 200 if there was one, else 404. */
  ghost predicate DeleteSpec(s0: TableState<Usuario>, s1: TableState<Usuario>, query: Option<string>, resp: Response) {
    if EmptyField(query) then
      resp == Response(400, ErrorOnly(MSG_DELETE_REQUIRED)) && s1 == s0
    else
      var id := IntVal(query.value);
      && s1 == TableState(s0.rows - {id}, s0.nextId)
      && resp == if id in s0.rows then Response(200, Success(MSG_DELETED))
                 else Response(404, Failure(MSG_NOT_FOUND))
  }

  /** `SELECT id FROM usuarios WHERE email = ? AND id != ?` finds a row. */
  predicate EmailHeldByOther(users: map<int, Usuario>, email: string, id: int) {
    exists k :: k in users && k != id && users[k].email == email
  }

  /**
   * The row after the UPDATE statement: name, email and phone replaced by
   * their trimmed values; the password replaced by the hash of the given one
   * when that is not `empty()`, kept otherwise.
   */
  function Edited(u: Usuario, f: UsuarioFields, h: Hasher): (v: Usuario)
    ensures v.nombre == TextField(f.nombre) && v.email == TextField(f.email) && v.telefono == TextField(f.telefono)
    ensures v.password == if EmptyField(f.password) then u.password else h.hash(f.password.value)
  {
    var password := f.password.GetOr("");
    var u' := u.(nombre := TextField(f.nombre), email := TextField(f.email), telefono := TextField(f.telefono));
    if !Empty(password) then u'.(password := h.hash(password)) else u'
  }

  /** PUT gets past its three checks and reaches the UPDATE statement. */
  predicate Edits(s0: TableState<Usuario>, f: UsuarioFields) {
    && !EmptyField(f.id)
    && !Empty(TextField(f.nombre)) && !Empty(TextField(f.email))
    && !EmailHeldByOther(s0.rows, TextField(f.email), IntVal(f.id.value))
  }

  /**
   * PUT: 400 on an empty id, then 400 on an empty trimmed name or email, then
   * 409 when another user holds the email, all three leaving the table alone;
   * otherwise the row with that key (if any) is edited, and the answer is 200
   * only if its stored value actually changed, else 404.
   */
  ghost predicate UpdateSpec(s0: TableState<Usuario>, s1: TableState<Usuario>, f: UsuarioFields, h: Hasher, resp: Response) {
    if EmptyField(f.id) then
      resp == Response(400, Failure(MSG_ID_REQUIRED)) && s1 == s0
    else if Empty(TextField(f.nombre)) || Empty(TextField(f.email)) then
      resp == Response(400, Failure(MSG_FIELDS_REQUIRED)) && s1 == s0
    else
      var id := IntVal(f.id.value);
      if EmailHeldByOther(s0.rows, TextField(f.email), id) then
        resp == Response(409, Failure(MSG_EMAIL_TAKEN)) && s1 == s0
      else
        && s1 == TableState(if id in s0.rows then s0.rows[id := Edited(s0.rows[id], f, h)] else s0.rows, s0.nextId)
        && resp == if id in s0.rows && Edited(s0.rows[id], f, h) != s0.rows[id]
                   then Response(200, Success(MSG_UPDATED))
                   else Response(404, Failure(MSG_UNCHANGED))
  }

  /** The endpoint as a whole: GET, DELETE and PUT are served, OPTIONS answered, the rest refused. */
  ghost predicate HandledBy(s0: TableState<Usuario>, s1: TableState<Usuario>, req: UsuariosRequest, h: Hasher, resp: Response) {
    match req.verb
    case OPTIONS => resp == PREFLIGHT && s1 == s0
    case GET => GetSpec(s0, req.query, resp) && s1 == s0
    case DELETE => DeleteSpec(s0, s1, req.query, resp)
    case PUT => UpdateSpec(s0, s1, req.put, h, resp)
    case _ => resp == METHOD_NOT_ALLOWED && s1 == s0
  }

  // ---------------------------------------------------------------------------
  // Handlers

  method Get(t: Table<Usuario>, query: Option<string>) returns (resp: Response)
    requires t.Valid()
    ensures GetSpec(t.State(), query, resp)
  {
    if !EmptyField(query) {
      var id := IntVal(query.value);
      if id in t.rows {
        resp := Response(200, UsuarioJson(PublicRow(id, t.rows[id])));
      } else {
        resp := Response(404, ErrorOnly(MSG_NOT_FOUND));
      }
    } else {
      var ids := t.IdsDescending();
      var m := t.rows;
      var rows := seq(|ids|, i requires 0 <= i < |ids| => PublicRow(ids[i], m[ids[i]]));
      forall k | k in m ensures exists i :: 0 <= i < |rows| && rows[i].id == k {
        var i :| 0 <= i < |ids| && ids[i] == k;
        assert rows[i].id == k;
      }
      resp := Response(200, UsuarioList(rows));
    }
  }

  method Delete(t: Table<Usuario>, query: Option<string>) returns (resp: Response)
    requires t.Valid()
    modifies t
    ensures t.Valid()
    ensures DeleteSpec(old(t.State()), t.State(), query, resp)
  {
    if EmptyField(query) {
      return Response(400, ErrorOnly(MSG_DELETE_REQUIRED));
    }
    var affected := t.Delete(IntVal(query.value));
    if affected > 0 {
      resp := Response(200, Success(MSG_DELETED));
    } else {
      resp := Response(404, Failure(MSG_NOT_FOUND));
    }
  }

  method Update(t: Table<Usuario>, f: UsuarioFields, h: Hasher) returns (resp: Response)
    requires t.Valid()
    modifies t
    ensures t.Valid()
    ensures UpdateSpec(old(t.State()), t.State(), f, h, resp)
  {
    if EmptyField(f.id) {
      return Response(400, Failure(MSG_ID_REQUIRED));
    }
    var nombre := TextField(f.nombre);
    var email := TextField(f.email);
    if Empty(nombre) || Empty(email) {
      return Response(400, Failure(MSG_FIELDS_REQUIRED));
    }
    var id := IntVal(f.id.value);
    if EmailHeldByOther(t.rows, email, id) {
      return Response(409, Failure(MSG_EMAIL_TAKEN));
    }
    var affected := t.Update(id, u => Edited(u, f, h));
    if affected > 0 {
      resp := Response(200, Success(MSG_UPDATED));
    } else {
      resp := Response(404, Failure(MSG_UNCHANGED));
    }
  }

  method Handle(t: Table<Usuario>, req: UsuariosRequest, h: Hasher) returns (resp: Response)
    requires t.Valid()
    modifies t
    ensures t.Valid()
    ensures HandledBy(old(t.State()), t.State(), req, h, resp)
  {
    match req.verb
    case OPTIONS => resp := PREFLIGHT;
    case GET => resp := Get(t, req.query);
    case DELETE => resp := Delete(t, req.query);
    case PUT => resp := Update(t, req.put, h);
    case _ => resp := METHOD_NOT_ALLOWED;
  }

  // ---------------------------------------------------------------------------
  // Properties

  /** An edit never makes two users share an email. */
  lemma UpdateKeepsEmailsUnique(s0: TableState<Usuario>, s1: TableState<Usuario>, f: UsuarioFields, h: Hasher, resp: Response)
    requires UpdateSpec(s0, s1, f, h, resp)
    requires UniqueEmails(s0.rows)
    ensures UniqueEmails(s1.rows)
  {
    if s1 != s0 {
      var id := IntVal(f.id.value);
      assert id in s0.rows;
      var v := Edited(s0.rows[id], f, h);
      assert s1.rows == s0.rows[id := v];
      StoreKeepsEmailsUnique(s0.rows, id, v);
    }
  }

  /**
   * The conflict query refuses exactly the edits that would leave two users
   * sharing an email: with unique emails before, storing `u` under `id` keeps
   * them unique if and only if no user under another key holds `u.email`.
   */
  lemma ConflictExactlyWhenShared(users: map<int, Usuario>, id: int, u: Usuario)
    requires UniqueEmails(users)
    ensures EmailHeldByOther(users, u.email, id) <==> !UniqueEmails(users[id := u])
  {
    if EmailHeldByOther(users, u.email, id) {
      var k :| k in users && k != id && users[k].email == u.email;
      assert users[id := u][k].email == users[id := u][id].email;
    } else {
      StoreKeepsEmailsUnique(users, id, u);
    }
  }

  /** Submitting a user's own current email is not a conflict when emails are unique. */
  lemma OwnEmailIsNoConflict(users: map<int, Usuario>, id: int)
    requires UniqueEmails(users) && id in users
    ensures !EmailHeldByOther(users, users[id].email, id)
  {
  }

  /** An edit keeps the set of keys and the counter, and every row but the addressed one. */
  lemma UpdateFrame(s0: TableState<Usuario>, s1: TableState<Usuario>, f: UsuarioFields, h: Hasher, resp: Response)
    requires UpdateSpec(s0, s1, f, h, resp)
    ensures s1.rows.Keys == s0.rows.Keys && s1.nextId == s0.nextId
    ensures forall k :: k in s1.rows && k != IntVal(f.id.GetOr("")) ==> s1.rows[k] == s0.rows[k]
  {
    if Edits(s0, f) {
      var id := IntVal(f.id.value);
      if id in s0.rows {
        RewriteFrame(s0, s1, id, Edited(s0.rows[id], f, h));
      }
    }
  }

  /** Without a new password no stored hash changes, whatever the answer. */
  lemma UpdateKeepsPasswordsWithoutNewOne(s0: TableState<Usuario>, s1: TableState<Usuario>, f: UsuarioFields, h: Hasher, resp: Response)
    requires UpdateSpec(s0, s1, f, h, resp)
    requires EmptyField(f.password)
    ensures forall k :: k in s1.rows ==> k in s0.rows && s1.rows[k].password == s0.rows[k].password
  {
    if Edits(s0, f) {
      var id := IntVal(f.id.value);
      if id in s0.rows {
        var v := Edited(s0.rows[id], f, h);
        assert v.password == s0.rows[id].password;
        RewriteFrame(s0, s1, id, v);
      }
    }
  }

  /**
   * A 200 answer means the addressed user existed and now holds exactly the
   * submitted trimmed fields, with the new password's hash when one was given.
   */
  lemma UpdateSuccess(s0: TableState<Usuario>, s1: TableState<Usuario>, f: UsuarioFields, h: Hasher, resp: Response)
    requires UpdateSpec(s0, s1, f, h, resp)
    requires resp.status == 200
    ensures f.id.Some? && IntVal(f.id.value) in s0.rows && s1.rows != s0.rows
    ensures var id := IntVal(f.id.value);
      && id in s1.rows
      && s1.rows[id].nombre == TextField(f.nombre) && s1.rows[id].email == TextField(f.email)
      && s1.rows[id].telefono == TextField(f.telefono)
      && s1.rows[id].password == if EmptyField(f.password) then s0.rows[id].password else h.hash(f.password.value)
  {
    var id := IntVal(f.id.value);
    assert s1.rows[id] == Edited(s0.rows[id], f, h);
  }

  /** Deleting the same id twice: the first 200 is followed by a 404. */
  lemma DeleteTwice(s0: TableState<Usuario>, s1: TableState<Usuario>, s2: TableState<Usuario>,
                    query: Option<string>, r1: Response, r2: Response)
    requires DeleteSpec(s0, s1, query, r1) && DeleteSpec(s1, s2, query, r2)
    requires r1.status == 200
    ensures r2 == Response(404, Failure(MSG_NOT_FOUND)) && s2 == s1
  {
  }
}
