/**
 * The response envelope of every handler: a status code and exactly one JSON
 * value, one constructor per shape the handlers emit.
 */
module Http {
  import opened Wrappers
  import opened Records

  /**
   * The request method. `Other` stands for every method besides the five
   * named ones, so its `name` is never "GET", "POST", "PUT", "DELETE" or
   * "OPTIONS" (see `Recognised`).
   */
  datatype Method = GET | POST | PUT | DELETE | OPTIONS | Other(name: string)

  /** A method value as the server reads it: `Other` never spells one of the five named methods. */
  predicate Recognised(m: Method) {
    m.Other? ==> m.name !in ["GET", "POST", "PUT", "DELETE", "OPTIONS"]
  }

  datatype Json =
    | NoBody                                                   // preflight answer: status only
    | PokemonJson(row: PokemonRow)                             // bare row
    | PokemonList(rows: seq<PokemonRow>)                       // bare array of rows
    | UsuarioJson(user: UsuarioRow)
    | UsuarioList(users: seq<UsuarioRow>)
    | Created(message: string, id: int, imagenUrl: Option<string>)  // {success: true, message, id, imagen_url}
    | Success(message: string)                                 // {success: true, message}
    | LoggedIn(message: string, identity: Identity)            // {success: true, message, user}
    | Failure(error: string)                                   // {success: false, error}
    | ErrorOnly(error: string)                                 // {error}

  datatype Response = Response(status: int, body: Json)

  /** The `success` member of a body: absent (undefined in the browser) for bare values and `{error}`. */
  function SuccessFlag(body: Json): Option<bool> {
    match body
    case Created(_, _, _) => Some(true)
    case Success(_) => Some(true)
    case LoggedIn(_, _) => Some(true)
    case Failure(_) => Some(false)
    case _ => None
  }

  /** `response.ok` in the browser. */
  predicate IsOk(r: Response) {
    200 <= r.status < 300
  }

  const METHOD_NOT_ALLOWED := Response(405, ErrorOnly("Método no permitido."))
  const PREFLIGHT := Response(200, NoBody)
}
