# Pokédex administration: a verified model

The system is a small Pokédex web application. It has three parts:

- Three PHP endpoints over a MySQL database:
  - `api/pokemon.php` manages the `pokemon` table (list, detail, create with an optional image upload, update, delete).
  - `api/usuarios.php` is the user administration endpoint (list, detail, edit with an email-conflict check and optional password change, delete).
  - `api/user.php` is the public authentication endpoint (`register` and `login`).
- A React page, `src/PokedexDisplay.jsx`, that shows the Pokémon as styled cards.
- A modal, `src/CardCustomization.jsx`, that edits each card's style and keeps it in the browser's `localStorage`.

This project models those parts in Dafny and proves what they promise.

- **Tables (`table.dfy`).** Each table is a `Table` object. It holds a map from AUTO_INCREMENT key to row and the next key to hand out. Its `Insert`, `Delete` and `Update` methods mirror the three SQL statements, including MySQL's `affected_rows`, which counts only rows whose value actually changed.
- **Request handlers (`pokemon_api.dfy`, `usuarios_api.dfy`, `user_api.dfy`).**
  - Each branch of each handler is a method on the table. It is proved against a predicate that relates the table before, the table after and the response: status code and JSON body.
  - Properties that span several requests are lemmas over those predicates. Examples: create then get, delete twice, register then login, email uniqueness.
  - `login` only reads, so it is a function of the table.
- **PHP built-ins (`php.dfy`).** The built-ins the handlers depend on are written out: `empty()` (true for `""` and `"0"`), `trim()`, the `(int)` cast of a request string, `strtolower()` and `pathinfo()`'s extension.
- **Password hashing (`passwords.dfy`).** `password_hash` and `password_verify` are a pair of functions passed in. The only fact assumed about them is that a password verifies against its own hash, and it appears as an explicit precondition named `Sound`.
- **Browser side (`card_store.dfy`, `pokedex_display.dfy`, `card_customization.dfy`).**
  - A `LocalStorage` object holds the stored map. It may also hold nothing, or text that does not parse.
  - A `PokedexDisplay` object holds the page's state: style map, selected Pokémon and error.
  - A `CardCustomization` object holds the modal's style record. Its `onSave` callback is the page's `HandleConfigSave`.
  - Pure functions give what a card shows.

`api/user.php:19` advertises `Access-Control-Allow-Methods: POST, OPTIONS`, but the handler never checks the method: any method other than OPTIONS reaches the `action` dispatch. The model follows the code (`UserApi.HandledBy`).

Resetting a card's style in the modal deletes its entry from storage. The modal then calls `onSave` with the default style, and the page writes its whole map back, so the entry is re-created holding the default. The model keeps both writes. `Customization.ResetShowsDefault` proves that the modal and the card both show the default afterwards.

## Model

| member | source | states |
|---|---|---|
| Php.Trim | api/pokemon.php:127-130 | neither end of `trim()`'s result is a space, tab, newline, carriage return, NUL or vertical tab |
| Php.TrimSpec | api/pokemon.php:127-130 | the input is `trim()`'s result padded on both sides with such characters, and the result is empty exactly when the input consists only of them |
| Php.TrimLeftStrips | api/pokemon.php:127-130 | the left-trimmed string is a suffix of the input, and everything dropped before it is strippable |
| Php.TrimRightStrips | api/pokemon.php:127-130 | the right-trimmed string is a prefix of the input, and everything dropped after it is strippable |
| Php.TrimIdempotent | api/usuarios.php:107-109 | trimming an already trimmed field changes nothing |
| Php.EmptyAfterTrim | api/pokemon.php:134 | a trimmed field is `empty()` exactly when it held only strippable characters or a lone "0" between them |
| Php.DecimalString | api/pokemon.php:84 | the decimal rendering of a number is non-empty, all digits and has no leading zero |
| Php.IntValOfDecimal | api/pokemon.php:126 | the `(int)` cast reads a decimal rendering back as the number it renders |
| Php.DigitPrefixIsLongest | api/pokemon.php:126 | the digits the `(int)` cast reads are a prefix of what follows the sign, and the next character, if any, is not a digit |
| Php.EmptyDecimalIffZero | api/pokemon.php:214 | the rendering of a key is `empty()` exactly when the key is 0, so every positive key passes the `empty($id)` guard |
| Php.Empty | api/pokemon.php:134 | `empty()` holds only for strings of at most one character, and the `(int)` cast reads every such string as 0 |
| Php.IntVal | api/pokemon.php:126 | the `(int)` cast reads a non-empty string of digits as its decimal value, and gives a negative number only after a leading minus sign |
| Php.IntField | api/pokemon.php:126-129 | `(int)($field ?? default)`: a missing field gives the default, an `empty()` one 0, and a string of digits its decimal value |
| Php.TextField | api/pokemon.php:127-130 | `trim($field ?? '')`: no strippable character at either end, and "" for a missing field |
| Php.ToLower | api/pokemon.php:61 | `strtolower()` maps each character by itself, leaves no upper-case ASCII letter and keeps the length |
| Php.AfterLast | api/pokemon.php:61 | the part after the last occurrence of a character is absent exactly when the character does not occur, and is otherwise a suffix free of it preceded by it |
| Php.AfterLastAppend | api/pokemon.php:74-79 | in `a + c + b` with no `c` in `b`, what follows the last `c` is `b` |
| Php.Extension | api/pokemon.php:61 | `pathinfo`'s extension is the suffix after the last dot of the file name, contains neither dot nor slash, and is empty when the file name has no dot |
| Tables.KeysBelow | api/pokemon.php:111 | the keys of a table listed strictly descending, each key below the bound exactly once |
| Tables.RewriteFrame | api/usuarios.php:154-162 | rewriting one existing row keeps the set of keys, the counter and every other row |
| Records.StoreKeepsEmailsUnique | api/usuarios.php:124-148 | storing a user under a key keeps emails unique when no user under another key holds its email |
| Tables.Table.IdsDescending | api/usuarios.php:55 | the table's keys in `ORDER BY id DESC` order, every key present exactly once |
| Tables.Table.Insert | api/pokemon.php:146-160 | INSERT stores the row under the next key, which no row held, adds nothing else and advances the counter |
| Tables.Table.Delete | api/pokemon.php:220-237 | DELETE removes the key's row and reports 1 affected row exactly when there was one |
| Tables.Table.Update | api/usuarios.php:154-178 | UPDATE rewrites only the key's row and reports 1 affected row exactly when that row existed and its value changed |
| PokemonApi.Decode | api/pokemon.php:126-134 | the fields read for create and update (trimmed text, `numero_pokemon` defaulting to 0, `nivel` to 1) pass validation exactly when they form a well-formed row; no image is set |
| PokemonApi.MissingNumeroRejected | api/pokemon.php:126 | an absent `numero_pokemon` defaults to 0 and the request is rejected |
| PokemonApi.HandleImageUpload | api/pokemon.php:57-87 | no image exactly when no file was sent or the code is "no file"; a stored path exactly when the upload is clean, the directory is ready and the move succeeds, and the path lies under `public/images/pokemon/`; every other case is a failure |
| PokemonApi.StoredPathForm | api/pokemon.php:61-79 | a stored image's file name is the generated stem, a dot and the uploaded file's extension lower-cased |
| PokemonApi.Revised | api/pokemon.php:181-198 | an updated row takes the five submitted scalar columns and keeps its image, whatever `imagen_url_existente` says |
| PokemonApi.Get | api/pokemon.php:90-122 | a truthy `id` answers the row or 404; otherwise every row once, in descending key order |
| PokemonApi.Create | api/pokemon.php:124-169 | invalid fields give 400 and a failed upload 500, neither writing anything; otherwise one row with the decoded fields and image path under the next key, and 201 with that key |
| PokemonApi.Update | api/pokemon.php:171-208 | empty id or invalid fields give 400 without change; otherwise the addressed row (if any) is revised and the answer is 200 even when no row has that key |
| PokemonApi.Delete | api/pokemon.php:210-243 | empty id gives 400; otherwise the row goes and the answer is 200 if it existed, 404 if not |
| PokemonApi.Handle | api/pokemon.php:26-247 | dispatch: OPTIONS answers 200 with no body, the four methods run their branch, any other method gets 405 and nothing changes |
| PokemonApi.WritesKeepRowsWellFormed | api/pokemon.php:134-184 | if every row has a positive number and non-empty trimmed name and type, every request keeps it so |
| PokemonApi.UpdateKeepsImagesAndKeys | api/pokemon.php:182-198 | an update never changes an image, never adds or removes a row and leaves every other row alone |
| PokemonApi.DeleteTwice | api/pokemon.php:231-237 | after a 200 delete the same delete answers 404 and changes nothing |
| PokemonApi.DecimalIdSelects | api/pokemon.php:92-95 | a positive key written in decimal is a truthy `id` that selects exactly that key |
| PokemonApi.CreateThenGet | api/pokemon.php:94-160 | GET with the key a create returned yields exactly the decoded fields and the returned image path |
| PokemonApi.DeleteThenGet | api/pokemon.php:94-237 | after a delete the key is gone and GET answers 404; the delete was 200 exactly when the row existed |
| PokemonApi.CreateEditDeleteLifecycle | api/pokemon.php:124-243 | create from a valid form without image (201 with the next key and a null image), edit it with another valid form (200), read it (exactly the edited values, still no image), delete it (200), read it again (404) |
| PokemonApi.DecodePlainForm | api/pokemon.php:126-131 | a form whose numbers are decimal renderings and whose texts have no strippable edge decodes to exactly those numbers and texts, with no image |
| PokemonApi.PikachuDecodes | api/pokemon.php:126-134 | the form for Pikachu (number "25", level "5", type "Eléctrico") passes validation and decodes to number 25, level 5, the three texts unchanged and no image |
| UsuariosApi.Edited | api/usuarios.php:151-169 | an edited user takes the trimmed name, email and phone, and the hash of the new password when one is given, else keeps the old hash |
| UsuariosApi.Get | api/usuarios.php:29-66 | a non-empty `id` answers that user's id, name, email and phone or 404; otherwise every user once in descending key order; the password column is never part of an answer |
| UsuariosApi.Delete | api/usuarios.php:69-100 | empty id gives 400; otherwise the row goes and the answer is 200 if it existed, 404 if not |
| UsuariosApi.Update | api/usuarios.php:103-185 | empty id, then empty name or email, give 400; an email held by a user with another key gives 409; none of these change anything; otherwise the addressed row is edited, and 200 only if it changed, else 404 |
| UsuariosApi.Handle | api/usuarios.php:16-189 | dispatch: OPTIONS answers 200, GET/DELETE/PUT run their branch, POST and everything else get 405 with no change |
| UsuariosApi.UpdateKeepsEmailsUnique | api/usuarios.php:124-148 | if no two users share an email before an edit, none do after |
| UsuariosApi.ConflictExactlyWhenShared | api/usuarios.php:124-148 | with unique emails, the `email = ? AND id != ?` query finds a row exactly when storing the edited user under its key would make two users share an email |
| UsuariosApi.OwnEmailIsNoConflict | api/usuarios.php:125 | resubmitting one's own email is not a conflict when emails are unique |
| UsuariosApi.UpdateFrame | api/usuarios.php:154-162 | an edit keeps the set of keys and the counter, and every row except the addressed one |
| UsuariosApi.UpdateKeepsPasswordsWithoutNewOne | api/usuarios.php:151-163 | without a new password no stored hash changes |
| UsuariosApi.UpdateSuccess | api/usuarios.php:151-174 | a 200 means the user existed, changed, and now holds the submitted trimmed fields and, when given, the new password's hash |
| UsuariosApi.DeleteTwice | api/usuarios.php:88-93 | after a 200 delete the same delete answers 404 and changes nothing |
| UserApi.Register | api/user.php:62-119 | empty trimmed name or email or empty raw password give 400; an email already stored gives 409; neither writes; otherwise one row with the trimmed fields and the password's hash under the next key, and 201 with no password in the body |
| UserApi.FirstWithEmail | api/user.php:133-137 | finds the least key in range whose row has the email, or reports that none has |
| UserApi.Login | api/user.php:122-155 | 400 exactly when the trimmed email or raw password is empty; 200 only for a user holding that email whose hash the password verifies, answering just that user's id, name and email; every other outcome is the one identical 401 |
| UserApi.Handle | api/user.php:22-161 | OPTIONS answers 200; a missing `action` or one other than `register`/`login` gives 400 and leaves the table alone; `login` never writes |
| UserApi.TakenExactlyWhenShared | api/user.php:75-95 | with unique emails, the `email = ?` query finds a row exactly when inserting the new user under a fresh key would make two users share an email |
| UserApi.TakenExactlyWhenLoginFinds | api/user.php:76-137 | over a table whose keys are below the counter, registration finds the email taken exactly when login's lookup of the same email finds a user |
| UserApi.RegisterKeepsEmailsUnique | api/user.php:75-113 | registration keeps the table's keys valid and never makes two users share an email |
| UserApi.RegisterTwice | api/user.php:90-95 | registering the same body twice: the second attempt is 409 and writes nothing |
| UserApi.LoginExactlyWhenCredentialsMatch | api/user.php:133-155 | with unique emails, login with a user's email succeeds exactly when the password verifies against that user's hash, and answers that user's identity |
| UserApi.RegisterThenLogin | api/user.php:99-151 | right after a successful registration, login with the same email and password answers 200 with the new key, name and email |
| Pokedex.DefaultCardConfigComplete | src/PokedexDisplay.jsx:21-36 | the page's default style defines all fourteen fields |
| Pokedex.Lookup | src/PokedexDisplay.jsx:164-166 | the stored record for an id when there is one (never completed from the default), else the default style |
| Pokedex.LookupAfterPut | src/PokedexDisplay.jsx:149-166 | after putting a record under an id, lookup of that id gives it and every other id looks up as before |
| Pokedex.CardStyles | src/PokedexDisplay.jsx:169-178 | the card's background is a 135-degree gradient from the first to the second colour when `useGradient` is truthy, else the first colour; text colour and font as stored |
| Pokedex.DefaultCardStyles | src/PokedexDisplay.jsx:169-178 | a Pokémon without an entry gets the #667eea to #764ba2 gradient, white text and Arial |
| Pokedex.FlatBackground | src/PokedexDisplay.jsx:172-174 | with the gradient switched off the background is the first colour alone |
| Pokedex.DisplayNumber | src/PokedexDisplay.jsx:284 | the badge shows `numero_pokemon` when it is non-zero, else the key |
| Pokedex.ListedRowsShowNumero | src/PokedexDisplay.jsx:435 | every row the list endpoint returns for a table kept well-formed shows its own positive number, never the key |
| Pokedex.SliderTrack | src/PokedexDisplay.jsx:421-423 | the track is twice as long as the list, and slide `i` shows the Pokémon at `i` modulo the list's length |
| Pokedex.SliderCountMatchesTrack | src/PokedexDisplay.jsx:416-423 | `--pokemon-count` is the decimal rendering of the number of slides on the track, and its digits' value is that number |
| Pokedex.SliderWidthMatchesTrack | src/PokedexDisplay.jsx:417-423 | `--single-set-width` is decimal digits followed by "px", with value 160 times the number of slides in one copy of the list (half the track) |
| Pokedex.DeleteErrorMessage | src/PokedexDisplay.jsx:113-114 | the error shown for a refused delete is never empty: the server's error, or the fixed fallback |
| Pokedex.ServerDeleteAccepted | src/PokedexDisplay.jsx:104-114 | the page's delete of a listed key is accepted (`ok` and `success`) exactly when the key is in the table, and a refusal shows "Pokémon no encontrado." |
| Pokedex.PokedexDisplay.Mount | src/PokedexDisplay.jsx:58-71 | the page starts with the stored map, or `{}` when nothing readable is stored, nothing selected and no error, in sync with storage |
| Pokedex.PokedexDisplay.HandlePokemonClick | src/PokedexDisplay.jsx:134-136 | clicking selects the Pokémon and changes nothing else |
| Pokedex.PokedexDisplay.HandleConfigSave | src/PokedexDisplay.jsx:149-161 | the record is put under the id in the page's map, every other entry kept, and that whole map is written to storage |
| Pokedex.PokedexDisplay.HandleDelete | src/PokedexDisplay.jsx:98-126 | unconfirmed, nothing happens; accepted, the selection is cleared exactly when the selected Pokémon has the deleted id; refused, the error is set and the selection kept |
| Customization.DefaultsAgree | src/CardCustomization.jsx:4-19 | the modal's default equals the page's default field for field, and defines all fourteen fields |
| Customization.Loaded | src/CardCustomization.jsx:37-58 | the loaded style has every field; each field the saved entry has comes from it, every other from the default; with nothing stored, unparseable text or no entry it is the default |
| Customization.WithField | src/CardCustomization.jsx:60-65 | a change sets exactly the one field to the new value and leaves every other field as it was |
| Customization.SaveInto | src/CardCustomization.jsx:71-83 | the save writes the record under the id and keeps every other id's entry; over unparseable text it writes a map holding only this entry |
| Customization.SaveThenLoad | src/CardCustomization.jsx:43-83 | loading after saving a complete record for an id gives that record back |
| Customization.SaveKeepsOthers | src/CardCustomization.jsx:82-83 | saving under one id leaves what every other id loads unchanged |
| Customization.PageWriteAgrees | src/CardCustomization.jsx:82-84 | while the page mirrors storage, the modal's write and the page's following write store the same map |
| Customization.ModalMatchesCard | src/CardCustomization.jsx:43-46 | while the page mirrors storage and its record for the id is complete, the modal opens with the style the card shows |
| Customization.ResetShowsDefault | src/CardCustomization.jsx:91-105 | after a reset both the modal's load and the page's lookup give the default style |
| Customization.CardCustomization.constructor | src/CardCustomization.jsx:35 | the modal starts with the default style |
| Customization.CardCustomization.Load | src/CardCustomization.jsx:37-58 | when open on a Pokémon the modal's style becomes the loaded style for its id; otherwise it is kept |
| Customization.CardCustomization.HandleChange | src/CardCustomization.jsx:60-65 | the modal's style becomes the one-field change of the old one |
| Customization.CardCustomization.HandleSave | src/CardCustomization.jsx:67-86 | without a Pokémon nothing changes; otherwise the record is put under its id in storage and in the page's map, every other entry kept |
| Customization.CardCustomization.HandleReset | src/CardCustomization.jsx:88-107 | without a Pokémon nothing changes; otherwise the modal's style and the stored and page entries for the id all become the default |

## Left out

- Storage failures are not modelled: the 500 answers of every `prepare`/`execute` failure, the connection setup in `conexion.php`, and an INSERT that fails after an image was stored, which leaves an orphaned file. The model's tables always succeed.
- CORS headers are left out. The OPTIONS preflight is modelled only as a bare 200.
- The `set_error_handler` and `register_shutdown_function` machinery, which turns PHP warnings and fatals into JSON 500 answers, is left out. One example is a request field sent as an array and passed to `trim()`.
- Request fields are optional strings.
  - Arrays in form data are left out.
  - So are JSON numbers, booleans and `null` in the authentication body, such as a numeric `action`.
  - A body that is not JSON is modelled as one with every member missing.
- Php.IntVal: the exponent and fraction forms of the `(int)` cast ("1e3") are not modelled, because the handlers' fields are decimal integers; clamping on overflow is not modelled either.
- Requests are handled one at a time: each request is one atomic step on the tables. The email check is a SELECT followed by a separate INSERT or UPDATE with no transaction (`api/user.php:76-113`, `api/usuarios.php:124-162`). Two concurrent requests can both pass the check, and then two users share an email. That race is not modelled, so `UserApi.RegisterKeepsEmailsUnique`, `UsuariosApi.UpdateKeepsEmailsUnique` and the two `...ExactlyWhenShared` lemmas hold only for requests handled one after another.
- MySQL collation is not modelled. The model compares emails exactly: no case-insensitive or trailing-space-insensitive matching.
- UserApi.FirstWithEmail: `fetch_assoc` returns the first matching row in an unspecified order; the model takes the least key, which matters only when two users share an email.
- UsuariosApi.Edited: `password_hash` salts, so real hashes of the same password differ, but here the hash is a fixed function; resubmitting the stored password with otherwise identical fields therefore counts as "no change" (404) in the model, where the server would answer 200.
- The image upload's clock, `md5` and filesystem calls are parameters: the generated stem, the upload directory, whether the directory is ready, and whether the move succeeded.
- JSON column types are not modelled. The list endpoint may deliver numbers as strings, so a `numero_pokemon` of "0" would be truthy in the browser; rows are modelled with integer columns.
- The React rendering, `fetch`, `alert`, navigation and list reloading (`cargarPokemones`) are left out. So are the other style getters of the page (`getHeaderStyles`, `getNumberBadgeStyles`, `getImageContainerStyles`, `getStatRowStyles`), the theme toggle, and the remaining form and list components.
- In the browser's storage, only the cases that matter to the store are modelled:
  - Stored text that parses to something other than an object, such as `null`, is not modelled.
  - Neither are values other than strings and booleans inside a style record, or keys outside the fourteen fields.
  - Neither are storage quota errors.
- Pokedex.PokedexDisplay.HandleDelete: a response whose body is not JSON and a network failure are not modelled; the server's answer is a parameter.
- Pokedex.PokedexDisplay.HandleConfigSave: React's batched state update and the render-time snapshot of `pokemonConfigs` are taken to be the same map, as they are when events are handled one at a time.
- Synchronisation between the page and storage assumes no other tab writes `pokemonCardConfigs`.
