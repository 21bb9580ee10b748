/** The rows of the two tables and the shapes in which the API returns them. */
module Records {
  import opened Wrappers

  /** A row of the `pokemon` table, without its identity key. */
  datatype Pokemon = Pokemon(
    numeroPokemon: int,
    nombre: string,
    tipo: string,
    nivel: int,
    habilidad: string,
    imagenUrl: Option<string>)

  /** A `pokemon` row as GET returns it: every column, the key included. */
  datatype PokemonRow = PokemonRow(id: int, fields: Pokemon)

  /** A row of the `usuarios` table, without its key; `password` holds the stored hash. */
  datatype Usuario = Usuario(nombre: string, email: string, password: string, telefono: string)

  /** A `usuarios` row as GET returns it: the password column is not selected. */
  datatype UsuarioRow = UsuarioRow(id: int, nombre: string, email: string, telefono: string)

  /** The identity a successful login returns. */
  datatype Identity = Identity(id: int, nombre: string, email: string)

  function PublicRow(id: int, u: Usuario): UsuarioRow {
    UsuarioRow(id, u.nombre, u.email, u.telefono)
  }

  /** Whether a stored email is used by at most one user. */
  ghost predicate UniqueEmails(users: map<int, Usuario>) {
    forall i, j :: i in users && j in users && users[i].email == users[j].email ==> i == j
  }

  /** Storing a user under `id` keeps emails unique when no user under another key holds its email. */
  lemma StoreKeepsEmailsUnique(users: map<int, Usuario>, id: int, u: Usuario)
    requires UniqueEmails(users)
    requires forall k :: k in users && k != id ==> users[k].email != u.email
    ensures UniqueEmails(users[id := u])
  {
    var after := users[id := u];
    forall i, j | i in after && j in after && after[i].email == after[j].email
      ensures i == j
    {
      if i != id && j != id {
        assert after[i] == users[i] && after[j] == users[j];
      }
    }
  }
}
