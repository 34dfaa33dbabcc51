# Library inventory server — Dafny model

This project models the server side of a small library service (`BibliotecaServer`).
The server keeps an ordered list of books (`Livro`: author, title, genre, copy
count) and serves one client's requests, each introduced by an opcode:

- 1 lists every book under its index;
- 2 rents a copy;
- 3 returns a copy;
- 4 registers a new book;
- 5 ends the session without a reply;
- any other opcode is answered with the empty string.

After every change the server rewrites its JSON data file with the whole list.

The model has six modules:

- `Options`: the optional value.
- `Decimal`: the `%d` rendering of an integer and its parse.
- `Books`: the book value `Book`, its fixed text rendering, and the class `Livro`. `Livro` has the mutable field `qntExemplares` and the two counter methods.
- `Catalog`: the specification of the catalog operations on values. It covers rent, return, register, the listing text, the record conversion used for the data file, and the total number of copies on the shelf.
- `Protocol`: decoded requests, the opcode switch `Step` and the session `Serve`. `Serve` answers requests up to the first opcode 5.
- `Server`: the class `Servidor`. It holds `livros: seq<Livro>` and the abstract contents of the data file (`arquivo`). Its methods are proved against `Catalog` and `Protocol`.

Requests are modelled as already-decoded values (`Protocol.Request`). A `Rent` or
`Return` carries the index the server reads after the opcode. A `Register` carries
genre, title, copies and author, in the order the client sends them. `Other`
carries an opcode that no case of the switch handles.

Three behaviours of the code are easy to miss. The model keeps the first two as written and leaves the third out (see "## Left out"):

- A data file that cannot be read or parsed at start-up is not fatal. `inicializar` catches the exception and the server starts with an empty list (`Servidor.constructor` with `documento == None`).
- The JSON records are hash maps, so the code fixes no key order. The model's `BookRecord` is a value with named fields, and no key order is modelled.
- A failed write of the data file is not swallowed. The `IOException` leaves `alugar`/`devolver`/`cadastrar` and ends the session. The model leaves write failures out (see below).

## Model

| member | source | states |
|---|---|---|
| `Decimal.NatToDecimal` | BibliotecaServer/src/entities/Livro.java:43-44 | the digits of a count are non-empty, all decimal digits, with no leading zero |
| `Decimal.IntToDecimal` | BibliotecaServer/src/entities/Livro.java:43-44 | `%d` output is non-empty and starts with '-' exactly for negative values |
| `Decimal.NatToDecimalValue` | BibliotecaServer/src/entities/Livro.java:43-44 | the digits of `n` read back as `n` |
| `Decimal.DecimalRoundTrip` | BibliotecaServer/src/entities/Livro.java:43-44 | parsing the `%d` rendering of any integer gives that integer back |
| `Decimal.DecimalInjective` | BibliotecaServer/src/entities/Livro.java:43-44 | two integers render alike iff they are equal |
| `Books.Book.Alugado` | BibliotecaServer/src/entities/Livro.java:33-35 | renting a book value gives exactly one copy fewer, with no floor; author, title and genre are kept |
| `Books.Book.Devolvido` | BibliotecaServer/src/entities/Livro.java:37-39 | returning a book value gives exactly one copy more, with no cap; author, title and genre are kept |
| `Books.RentReturnInverse` | BibliotecaServer/src/entities/Livro.java:33-39 | a rent followed by a return, or a return followed by a rent, restores the book |
| `Books.RenderLines` | BibliotecaServer/src/entities/Livro.java:43-44 | the rendering is the four lines "Titulo: t \n", "Autor: a \n", "Genero: g \n", "Exemplares: n\n\n" in this order |
| `Books.RenderRoundTrip` | BibliotecaServer/src/entities/Livro.java:41-45 | when the text fields hold no line break, the rendering parses back to the same author, title, genre and count, so it loses nothing |
| `Books.Livro.constructor` | BibliotecaServer/src/entities/Livro.java:10-31 | the arguments are stored in the order autor, titulo, genero, qntExemplares, and each getter returns its own one |
| `Books.Livro.Alugar` | BibliotecaServer/src/entities/Livro.java:33-35 | the count drops by exactly 1, with no guard; the other three fields are unchanged |
| `Books.Livro.Devolver` | BibliotecaServer/src/entities/Livro.java:37-39 | the count grows by exactly 1; the other three fields are unchanged |
| `Books.Livro.ToString` | BibliotecaServer/src/entities/Livro.java:41-45 | reading only the object, it renders a text that parses back to the object's fields when these have no line break |
| `Catalog.Rent` | BibliotecaServer/src/entities/Servidor.java:234-250 | bad index: "Índice inválido." and no change; no copies left (≤ 0): the unavailable message and no change; otherwise "Livro alugado com sucesso!", that book's count drops by exactly 1 and every other entry and field is unchanged |
| `Catalog.Return` | BibliotecaServer/src/entities/Servidor.java:258-271 | bad index: "Índice inválido." and no change; otherwise "Livro devolvido com sucesso!", that book's count grows by exactly 1 with no cap and every other entry is unchanged |
| `Catalog.Register` | BibliotecaServer/src/entities/Servidor.java:280-292 | always "Novo livro cadastrado com sucesso"; exactly one book is appended at index old-size with genre, title, copies and author in their own fields; the prefix is unchanged; nothing is validated |
| `Catalog.RentThenReturn` | BibliotecaServer/src/entities/Servidor.java:234-271 | a successful rent is undone by a return at the same index |
| `Catalog.ReturnThenRent` | BibliotecaServer/src/entities/Servidor.java:234-271 | a return on a book with a non-negative count is undone by a rent at the same index |
| `Catalog.RentReturnKeepStocked` | BibliotecaServer/src/entities/Servidor.java:241-245 | the copies > 0 guard means rent, and return too, never take a count below zero |
| `Catalog.RegisterStocked` | BibliotecaServer/src/entities/Servidor.java:282-287 | register keeps every count non-negative iff the registered count is non-negative |
| `Catalog.RentTotal` | BibliotecaServer/src/entities/Servidor.java:238-249 | a successful rent takes exactly one copy off the whole shelf; a refused one takes none |
| `Catalog.ReturnTotal` | BibliotecaServer/src/entities/Servidor.java:262-270 | a return at a valid index puts exactly one copy back on the shelf; a bad index changes nothing |
| `Catalog.RegisterTotal` | BibliotecaServer/src/entities/Servidor.java:282-291 | registering adds exactly the new book's copies to the shelf |
| `Catalog.ListingExtend` | BibliotecaServer/src/entities/Servidor.java:218-222 | one loop step, the "Index: i" line followed by the book's rendering, extends the listing of the first i books to the first i + 1 |
| `Catalog.ListingAppend` | BibliotecaServer/src/entities/Servidor.java:214-225 | the listing of a catalog with one more book is the old listing followed by that book's entry under index old-size |
| `Catalog.ListingAt` | BibliotecaServer/src/entities/Servidor.java:214-225 | the book at position k appears in the listing under "Index: k", after the books before it and before the books after it |
| `Catalog.ToInt32` | BibliotecaServer/src/entities/Servidor.java:117-119 | the `(int)` cast of the stored `long` gives a 32-bit value congruent to it modulo 2^32, and equal to it when it fits |
| `Catalog.SaveLoadRoundTrip` | BibliotecaServer/src/entities/Servidor.java:346-358 | saving the books as records and loading them back gives the same books in the same order iff every count fits in a Java `int` |
| `Catalog.LoadSaveRoundTrip` | BibliotecaServer/src/entities/Servidor.java:110-121 | loading records whose counts fit in an `int` and saving them gives the same records |
| `Protocol.OpcodeDecides` | BibliotecaServer/src/entities/Servidor.java:190-206 | the opcode alone determines which operation a request is |
| `Protocol.Step` | BibliotecaServer/src/entities/Servidor.java:190-207 | an opcode outside 1 to 4 answers "" and leaves the catalog unchanged; a list request changes nothing |
| `Protocol.FirstQuit` | BibliotecaServer/src/entities/Servidor.java:158-160 | gives the position of the first opcode 5: no earlier request has it, and it is the end of the input when there is none |
| `Protocol.ServeResponds` | BibliotecaServer/src/entities/Servidor.java:154-167 | the session sends exactly one response per request before the first opcode 5, and it quits iff the input holds an opcode 5 |
| `Protocol.ServeInOrder` | BibliotecaServer/src/entities/Servidor.java:154-167 | response k is the answer to request k, given in the catalog that requests 0..k-1 left |
| `Protocol.ServeFinal` | BibliotecaServer/src/entities/Servidor.java:154-167 | the session ends with the catalog that all requests before the first opcode 5 leave |
| `Protocol.QuitEndsSession` | BibliotecaServer/src/entities/Servidor.java:158-160 | requests after the first opcode 5 are never read: appending more changes neither the responses nor the catalog |
| `Protocol.RentUntilUnavailable` | BibliotecaServer/src/entities/Servidor.java:238-249 | on a one-book catalog with 2 copies, three rents of index 0 answer success, success, unavailable and leave 0 copies |
| `Protocol.RegisterThenList` | BibliotecaServer/src/entities/Servidor.java:280-292 | a register followed by a list answers the register message, then the old listing plus the new book's entry at index old-size |
| `Server.Servidor.constructor` | BibliotecaServer/src/entities/Servidor.java:78-85 | the server starts with the books loaded from the file's records, or with none when the file could not be read, each held by a freshly created object |
| `Server.Servidor.ProcessarLivros` | BibliotecaServer/src/entities/Servidor.java:110-121 | appends one fresh book object per record, in record order, with the count cast to `int`; existing books are untouched |
| `Server.Servidor.ObterDadosLivros` | BibliotecaServer/src/entities/Servidor.java:346-358 | returns one record per book, in catalog order, carrying title, author, genre and count; it changes nothing |
| `Server.Servidor.AtualizarArquivoJSON` | BibliotecaServer/src/entities/Servidor.java:311-325 | the data file afterwards holds exactly the records of the current catalog |
| `Server.Servidor.Listar` | BibliotecaServer/src/entities/Servidor.java:214-225 | returns the header followed by "Index: i" and the rendering of book i for i = 0..size-1 in catalog order, without changing anything |
| `Server.Servidor.Alugar` | BibliotecaServer/src/entities/Servidor.java:234-250 | the reply and the new catalog are those of `Catalog.Rent`; the list of book objects stays the same; the file is rewritten exactly when the catalog changed |
| `Server.Servidor.Devolver` | BibliotecaServer/src/entities/Servidor.java:258-271 | the reply and the new catalog are those of `Catalog.Return`; the file is rewritten exactly when the catalog changed |
| `Server.Servidor.Cadastrar` | BibliotecaServer/src/entities/Servidor.java:280-292 | the reply and the new catalog are those of `Catalog.Register`, with the new entry a fresh object; the file is rewritten |
| `Server.Servidor.MenuOpcao` | BibliotecaServer/src/entities/Servidor.java:190-207 | the reply and the new catalog are those of `Protocol.Step`, so unknown opcodes answer "" without change; the file is rewritten exactly when the catalog changed |
| `Protocol.UnwrittenUnchanged` | BibliotecaServer/src/entities/Servidor.java:154-167 | a session in which no request before the quit changed the catalog (so the file is never rewritten) ends with the catalog it started with |
| `Protocol.RentReturnWrites` | BibliotecaServer/src/entities/Servidor.java:234-271 | a successful rent followed by the return of the same book leaves the catalog as it was, yet the data file is still rewritten |
| `Server.Servidor.ProcessarMensagens` | BibliotecaServer/src/entities/Servidor.java:154-167 | the responses, the final catalog and whether the client quit are those of `Protocol.Serve`; the file is rewritten with the final catalog exactly when some request before the quit changed the catalog (`Protocol.Writes`), even if a later one undid the change, and is otherwise left as it was; earlier book objects are kept and new ones are fresh |

## Left out

- Sockets: listening, accepting, closing and the client-IP lookup (`criarSocket`, `esperarClientes`, `fecharRecursos`, `getClienteIP`, `iniciar`). This is network I/O.
- Binary framing (`readInt`, `readUTF`, `writeUTF`). Requests enter as decoded `Protocol.Request` values, and responses leave as the strings `Serve` returns.
- `Protocol.ServeResponds`: assumes every reply can be sent. `writeUTF` (BibliotecaServer/src/entities/Servidor.java:165) refuses a string whose modified UTF-8 encoding is longer than 65535 bytes, so a listing of a large catalog ends the session with an exception and no reply; the model does not bound reply lengths, because it does not model the wire encoding.
- Input that ends before an opcode 5 ends the session in the model (`quit == false`). In the code this is an `EOFException` that ends the session the same way.
- File I/O, the json-simple parser and the Gson pretty-printer (`lerArquivoJSON`, `formatarJson`, the `FileWriter`). The data file is modelled by its list of book records, `arquivo`.
- A failed write of the data file is not modelled. In the code it raises an `IOException` that ends the session after the in-memory change has been made.
- Some malformed data files are not modelled. Each of these fails with an unchecked exception inside the constructor:
  - a file without the key `livros`;
  - a `titulo`, `autor` or `genero` that holds a non-string JSON value;
  - an `exemplares` that is missing, `null` or not an integer.
- A record whose `titulo`, `autor` or `genero` is missing or JSON `null` is not modelled. The `(String)` cast at BibliotecaServer/src/entities/Servidor.java:114-116 yields `null` without an exception. The book loads with a null field, which the listing shows as "null". `Catalog.BookRecord` holds only strings.
- Catalog.FromRecord: record counts are assumed to fit a Java `long`. The JSON parser throws on an integer literal beyond the 64-bit range, but `BookRecord.exemplares` is unbounded and `FromRecord` casts any value to `int`.
- Console logging (`System.out.println`, `printStackTrace`). It is not part of any response.
- The getters and setters of `porta` and `nomeArquivo`. They only read or assign a field; the constructor records both.
- The client program `BibliotecaCliente/src/main/Cliente.java`. It is an interactive menu that sends well-formed requests.
- Books.Livro.Devolver: does not model the 32-bit wrap-around of `qntExemplares++` at `Integer.MAX_VALUE`. Counts are unbounded integers, on the assumption that no count reaches the `int` limits. `qntExemplares--` cannot wrap through the server, because rent first requires a count > 0.
- Catalog.Return: states the unbounded increment; the same wrap-around assumption as `Books.Livro.Devolver` applies.
- The `%d` rendering assumes ASCII digits. A default locale with other digit characters is not modelled.
