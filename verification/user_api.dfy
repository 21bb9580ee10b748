/**
 * The public authentication endpoint. The JSON body names an `action`:
 * `register` stores a new user with a hashed password unless the email is
 * already taken; `login` looks the email up and checks the password against
 * the stored hash. Every answer but the preflight carries a `success` flag.
 */
module UserApi {
  import opened Wrappers
  import opened Php
  import opened Records
  import opened Http
  import opened Tables
  import opened Passwords

  /** The decoded JSON body; a missing member (or a body that is not JSON) is None. */
  datatype AuthBody = AuthBody(
    action: Option<string>,
    nombre: Option<string>,
    email: Option<string>,
    password: Option<string>,
    telefono: Option<string>)

  datatype AuthRequest = AuthRequest(verb: Method, body: AuthBody)

  const MSG_NO_ACTION := "Acción no especificada."
  const MSG_UNKNOWN_ACTION := "Acción no reconocida."
  const MSG_REGISTER_REQUIRED := "Nombre, email y contraseña son obligatorios."
  const MSG_EMAIL_TAKEN := "El email ya está registrado."
  const MSG_REGISTERED := "Usuario registrado con éxito."
  const MSG_LOGIN_REQUIRED := "Email y contraseña son obligatorios."
  const MSG_LOGIN_OK := "Login exitoso."
  const MSG_BAD_CREDENTIALS := "Email o contraseña incorrectos."

  /** The password exactly as sent: it is never trimmed. */
  function RawPassword(b: AuthBody): string {
    b.password.GetOr("")
  }

  /** `SELECT id FROM usuarios WHERE email = ?` finds a row. */
  predicate EmailTaken(users: map<int, Usuario>, email: string) {
    exists k :: k in users && users[k].email == email
  }

  /**
   * The registration check refuses exactly the emails whose insertion under a
   * fresh key would leave two users sharing one.
   */
  lemma TakenExactlyWhenShared(users: map<int, Usuario>, id: int, u: Usuario)
    requires UniqueEmails(users) && id !in users
    ensures EmailTaken(users, u.email) <==> !UniqueEmails(users[id := u])
  {
    if EmailTaken(users, u.email) {
      var k :| k in users && users[k].email == u.email;
      assert users[id := u][k].email == users[id := u][id].email;
    } else {
      StoreKeepsEmailsUnique(users, id, u);
    }
  }

  /** Registration refuses an email exactly when login, over the same table, would find a user holding it. */
  lemma TakenExactlyWhenLoginFinds(s: TableState<Usuario>, email: string)
    requires ValidState(s)
    ensures EmailTaken(s.rows, email) <==> FirstWithEmail(s.rows, email, 1, s.nextId).Some?
  {
    if EmailTaken(s.rows, email) {
      var k :| k in s.rows && s.rows[k].email == email;
      assert 1 <= k < s.nextId;
    }
  }

  // ---------------------------------------------------------------------------
  // register

  /** The row `register` inserts: trimmed name, email and phone, and the hash of the raw password. */
  function NewUser(b: AuthBody, h: Hasher): Usuario {
    Usuario(TextField(b.nombre), TextField(b.email), h.hash(RawPassword(b)), TextField(b.telefono))
  }

  /**
   * register: 400 when the trimmed name, the trimmed email or the raw password
   * is `empty()`; 409 when a user already has the email; otherwise the new
   * user takes the next key and the answer is 201.
   */
  ghost predicate RegisterSpec(s0: TableState<Usuario>, s1: TableState<Usuario>, b: AuthBody, h: Hasher, resp: Response) {
    if Empty(TextField(b.nombre)) || Empty(TextField(b.email)) || Empty(RawPassword(b)) then
      resp == Response(400, Failure(MSG_REGISTER_REQUIRED)) && s1 == s0
    else if EmailTaken(s0.rows, TextField(b.email)) then
      resp == Response(409, Failure(MSG_EMAIL_TAKEN)) && s1 == s0
    else
      && s1 == TableState(s0.rows[s0.nextId := NewUser(b, h)], s0.nextId + 1)
      && resp == Response(201, Success(MSG_REGISTERED))
  }

  method Register(t: Table<Usuario>, b: AuthBody, h: Hasher) returns (resp: Response)
    requires t.Valid()
    modifies t
    ensures t.Valid()
    ensures RegisterSpec(old(t.State()), t.State(), b, h, resp)
  {
    var nombre := TextField(b.nombre);
    var email := TextField(b.email);
    var password := RawPassword(b);
    var telefono := TextField(b.telefono);
    if Empty(nombre) || Empty(email) || Empty(password) {
      return Response(400, Failure(MSG_REGISTER_REQUIRED));
    }
    if EmailTaken(t.rows, email) {
      return Response(409, Failure(MSG_EMAIL_TAKEN));
    }
    var _ := t.Insert(Usuario(nombre, email, h.hash(password), telefono));
    resp := Response(201, Success(MSG_REGISTERED));
  }

  // ---------------------------------------------------------------------------
  // login

  /** The first row, by key within [lo, hi), whose email is `email` (what `fetch_assoc` returns first). */
  function FirstWithEmail(users: map<int, Usuario>, email: string, lo: int, hi: int): (r: Option<int>)
    ensures r.Some? ==> lo <= r.value < hi && r.value in users && users[r.value].email == email
    ensures r.Some? ==> forall j :: lo <= j < r.value && j in users ==> users[j].email != email
    ensures r.None? ==> forall j :: lo <= j < hi && j in users ==> users[j].email != email
    decreases hi - lo
  {
    if lo >= hi then None
    else if lo in users && users[lo].email == email then Some(lo)
    else FirstWithEmail(users, email, lo + 1, hi)
  }

  /**
   * login: 400 when the trimmed email or the raw password is `empty()`;
   * 200 with the identity of the first user holding that email when the
   * password verifies against that user's hash; 401 otherwise, with one
   * message whether the email is unknown or the password wrong.
   */
  function Login(s: TableState<Usuario>, b: AuthBody, h: Hasher): (r: Response)
    ensures r.status == 400 <==> Empty(TextField(b.email)) || Empty(RawPassword(b))
    ensures r.status == 400 ==> r == Response(400, Failure(MSG_LOGIN_REQUIRED))
    ensures r.status == 200 || r.status == 400 || r == Response(401, Failure(MSG_BAD_CREDENTIALS))
    ensures r.status == 200 ==>
      && r.body.LoggedIn? && r.body.message == MSG_LOGIN_OK
      && var id := r.body.identity.id;
      && id in s.rows && s.rows[id].email == TextField(b.email)
      && h.verify(RawPassword(b), s.rows[id].password)
      && r.body.identity == Identity(id, s.rows[id].nombre, s.rows[id].email)
  {
    var email := TextField(b.email);
    var password := RawPassword(b);
    if Empty(email) || Empty(password) then
      Response(400, Failure(MSG_LOGIN_REQUIRED))
    else
      match FirstWithEmail(s.rows, email, 1, s.nextId)
      case Some(id) =>
        if h.verify(password, s.rows[id].password) then
          Response(200, LoggedIn(MSG_LOGIN_OK, Identity(id, s.rows[id].nombre, s.rows[id].email)))
        else
          Response(401, Failure(MSG_BAD_CREDENTIALS))
      case None =>
        Response(401, Failure(MSG_BAD_CREDENTIALS))
  }

  // ---------------------------------------------------------------------------
  // The endpoint

  /**
   * OPTIONS is answered at once; any other method (POST is not enforced)
   * dispatches on `action`: missing is 400, `register` and `login` run, any
   * other value is 400.
   */
  ghost predicate HandledBy(s0: TableState<Usuario>, s1: TableState<Usuario>, req: AuthRequest, h: Hasher, resp: Response) {
    if req.verb == OPTIONS then
      resp == PREFLIGHT && s1 == s0
    else
      match req.body.action
      case None => resp == Response(400, Failure(MSG_NO_ACTION)) && s1 == s0
      case Some(action) =>
        if action == "register" then RegisterSpec(s0, s1, req.body, h, resp)
        else if action == "login" then resp == Login(s0, req.body, h) && s1 == s0
        else resp == Response(400, Failure(MSG_UNKNOWN_ACTION)) && s1 == s0
  }

  method Handle(t: Table<Usuario>, req: AuthRequest, h: Hasher) returns (resp: Response)
    requires t.Valid()
    modifies t
    ensures t.Valid()
    ensures HandledBy(old(t.State()), t.State(), req, h, resp)
  {
    if req.verb == OPTIONS {
      return PREFLIGHT;
    }
    match req.body.action
    case None =>
      resp := Response(400, Failure(MSG_NO_ACTION));
    case Some(action) =>
      if action == "register" {
        resp := Register(t, req.body, h);
      } else if action == "login" {
        resp := Login(t.State(), req.body, h);
      } else {
        resp := Response(400, Failure(MSG_UNKNOWN_ACTION));
      }
  }

  // ---------------------------------------------------------------------------
  // Properties

  /** register never makes two users share an email. */
  lemma RegisterKeepsEmailsUnique(s0: TableState<Usuario>, s1: TableState<Usuario>, b: AuthBody, h: Hasher, resp: Response)
    requires ValidState(s0)
    requires RegisterSpec(s0, s1, b, h, resp)
    requires UniqueEmails(s0.rows)
    ensures ValidState(s1)
    ensures UniqueEmails(s1.rows)
  {
    var email := TextField(b.email);
    if !(Empty(TextField(b.nombre)) || Empty(email) || Empty(RawPassword(b)) || EmailTaken(s0.rows, email)) {
      var u := NewUser(b, h);
      assert u.email == email;
      StoreKeepsEmailsUnique(s0.rows, s0.nextId, u);
    }
  }

  /** Registering the same body twice: the second attempt is a 409 and stores nothing. */
  lemma RegisterTwice(s0: TableState<Usuario>, s1: TableState<Usuario>, s2: TableState<Usuario>,
                      b: AuthBody, h: Hasher, r1: Response, r2: Response)
    requires RegisterSpec(s0, s1, b, h, r1) && RegisterSpec(s1, s2, b, h, r2)
    requires r1.status == 201
    ensures r2 == Response(409, Failure(MSG_EMAIL_TAKEN)) && s2 == s1
  {
    assert s1.rows[s0.nextId].email == TextField(b.email);
  }

  /**
   * With unique emails, login succeeds exactly when some user holds the
   * trimmed email and the raw password verifies against that user's hash,
   * and it answers with that user's identity.
   */
  lemma LoginExactlyWhenCredentialsMatch(s: TableState<Usuario>, b: AuthBody, h: Hasher, k: int)
    requires ValidState(s) && UniqueEmails(s.rows)
    requires !Empty(RawPassword(b))
    requires k in s.rows && s.rows[k].email == TextField(b.email) && !Empty(s.rows[k].email)
    ensures Login(s, b, h).status == 200 <==> h.verify(RawPassword(b), s.rows[k].password)
    ensures Login(s, b, h).status == 200 ==>
              Login(s, b, h).body.identity == Identity(k, s.rows[k].nombre, s.rows[k].email)
  {
    var r := FirstWithEmail(s.rows, TextField(b.email), 1, s.nextId);
    assert r.Some?;
  }

  /** A user who just registered can log in with the same email and password, and gets the new key back. */
  lemma RegisterThenLogin(s0: TableState<Usuario>, s1: TableState<Usuario>, b: AuthBody, h: Hasher, r: Response)
    requires ValidState(s0) && Sound(h)
    requires RegisterSpec(s0, s1, b, h, r) && r.status == 201
    ensures Login(s1, b, h) == Response(200, LoggedIn(MSG_LOGIN_OK, Identity(s0.nextId, TextField(b.nombre), TextField(b.email))))
  {
    var email := TextField(b.email);
    var u := NewUser(b, h);
    assert s1 == TableState(s0.rows[s0.nextId := u], s0.nextId + 1);
    assert !EmailTaken(s0.rows, email);
    OnlyHolderIsFirst(s1.rows, email, s0.nextId, 1, s1.nextId);
    assert h.verify(RawPassword(b), u.password);
  }

  /** When exactly one user in range holds an email, the lookup finds that user. */
  lemma OnlyHolderIsFirst(users: map<int, Usuario>, email: string, id: int, lo: int, hi: int)
    requires lo <= id < hi && id in users && users[id].email == email
    requires forall k :: k in users && k != id ==> users[k].email != email
    ensures FirstWithEmail(users, email, lo, hi) == Some(id)
  {
  }
}
