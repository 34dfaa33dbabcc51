/**
 * The session protocol (`menuOpcao` and the `processarMensagens` loop) over
 * requests already decoded from the wire: each request is one opcode with the
 * arguments the server reads after it.
 */
module Protocol {
  import opened Books
  import opened Catalog

  /** One request as the server reads it off the connection. */
  datatype Message =
    | List                                                                 // opcode 1
    | Rent(index: int)                                                     // opcode 2
    | Return(index: int)                                                   // opcode 3
    | Register(genero: string, titulo: string, exemplares: int, autor: string)  // opcode 4
    | Quit                                                                 // opcode 5
    | Other(opcode: int)                                                   // any other opcode

  /** A well-formed request: `Other` carries only an opcode that no case of the switch claims. */
  type Request = m: Message | m.Other? ==> m.opcode < 1 || 5 < m.opcode witness List

  /** The 32-bit opcode that introduces the request on the wire. */
  function Opcode(m: Message): int {
    match m
    case List => 1
    case Rent(_) => 2
    case Return(_) => 3
    case Register(_, _, _, _) => 4
    case Quit => 5
    case Other(op) => op
  }

  /** The opcode alone tells which request a well-formed request is. */
  lemma OpcodeDecides(r: Request, r': Request)
    requires Opcode(r) == Opcode(r')
    ensures r.List? == r'.List? && r.Rent? == r'.Rent? && r.Return? == r'.Return?
    ensures r.Register? == r'.Register? && r.Quit? == r'.Quit? && r.Other? == r'.Other?
    ensures r.Other? ==> r == r'
  {
  }

  /**
   * `menuOpcao`: runs the operation the opcode selects. Any opcode other than
   * 1 to 4 (5 included, were it ever dispatched) answers "" and changes nothing.
   */
  function Step(cat: seq<Book>, r: Request): (o: Outcome)
    ensures Opcode(r) !in {1, 2, 3, 4} ==> o == Outcome(cat, "")
    ensures r.List? ==> o.books == cat
  {
    match r
    case List => Outcome(cat, Listing(cat))
    case Rent(i) => Catalog.Rent(cat, i)
    case Return(i) => Catalog.Return(cat, i)
    case Register(g, t, n, a) => Catalog.Register(cat, g, t, n, a)
    case Quit => Outcome(cat, "")
    case Other(_) => Outcome(cat, "")
  }

  /** Where a session ends: the books then, the responses sent, and whether the client quit. */
  datatype Session = Session(books: seq<Book>, responses: seq<string>, quit: bool)

  /**
   * `processarMensagens` over the requests the client sends: one response per
   * request up to the first `Quit`, which ends the session unanswered. Input
   * that runs out before a `Quit` ends the session too (the read fails).
   */
  function Serve(cat: seq<Book>, input: seq<Request>): Session
    decreases |input|
  {
    if input == [] then Session(cat, [], false)
    else if input[0].Quit? then Session(cat, [], true)
    else
      var o := Step(cat, input[0]);
      var rest := Serve(o.books, input[1..]);
      Session(rest.books, [o.reply] + rest.responses, rest.quit)
  }

  /**
   * Whether some request before the first `Quit` changes the catalog: each such
   * request rewrites the data file, even when a later one undoes its change.
   */
  function Writes(cat: seq<Book>, input: seq<Request>): bool
    decreases |input|
  {
    if input == [] || input[0].Quit? then false
    else
      var o := Step(cat, input[0]);
      o.books != cat || Writes(o.books, input[1..])
  }

  /** One request that is not `Quit` answers first, then the session goes on from its catalog. */
  lemma ServeWritesStep(cat: seq<Book>, input: seq<Request>)
    requires input != [] && !input[0].Quit?
    ensures var o := Step(cat, input[0]);
      var rest := Serve(o.books, input[1..]);
      Serve(cat, input) == Session(rest.books, [o.reply] + rest.responses, rest.quit)
      && Writes(cat, input) == (o.books != cat || Writes(o.books, input[1..]))
  {
  }

  /** A session in which no request rewrites the data file ends with the catalog it started with. */
  lemma {:induction false} UnwrittenUnchanged(cat: seq<Book>, input: seq<Request>)
    requires !Writes(cat, input)
    ensures Serve(cat, input).books == cat
    decreases |input|
  {
    if input != [] && !input[0].Quit? {
      UnwrittenUnchanged(Step(cat, input[0]).books, input[1..]);
    }
  }

  /** A successful rent followed by the return that undoes it still rewrites the data file. */
  lemma RentReturnWrites(cat: seq<Book>, i: int)
    requires Catalog.Rent(cat, i).reply == MsgRented
    ensures Writes(cat, [Rent(i), Return(i)])
    ensures Serve(cat, [Rent(i), Return(i)]).books == cat
  {
    var input: seq<Request> := [Rent(i), Return(i)];
    var o := Catalog.Rent(cat, i);
    assert Step(cat, input[0]) == o;
    assert o.books[i].exemplares != cat[i].exemplares;
    RentThenReturn(cat, i);
    assert input[1..] == [Return(i)];
    assert [Return(i)][1..] == [];
    assert Serve(cat, input).books == Serve(o.books, [Return(i)]).books;
  }

  /** The position of the first `Quit` in `input`, or `|input|` when there is none. */
  function FirstQuit(input: seq<Request>): (n: nat)
    ensures n <= |input|
    ensures forall k :: 0 <= k < n ==> !input[k].Quit?
    ensures n < |input| ==> input[n].Quit?
  {
    if input == [] || input[0].Quit? then 0 else 1 + FirstQuit(input[1..])
  }

  /** The catalog after running `rs` one after another, whatever they are. */
  function Replay(cat: seq<Book>, rs: seq<Request>): seq<Book>
    decreases |rs|
  {
    if rs == [] then cat else Replay(Step(cat, rs[0]).books, rs[1..])
  }

  /** Exactly one response per request before the first `Quit`, and the session quits iff there is one. */
  lemma {:induction false} ServeResponds(cat: seq<Book>, input: seq<Request>)
    ensures |Serve(cat, input).responses| == FirstQuit(input)
    ensures Serve(cat, input).quit <==> FirstQuit(input) < |input|
    decreases |input|
  {
    if input != [] && !input[0].Quit? {
      ServeResponds(Step(cat, input[0]).books, input[1..]);
    }
  }

  /**
   * Response `k` is what request `k` answers in the catalog the earlier requests
   * left, and the session ends with the catalog all requests before the `Quit` leave.
   */
  lemma {:induction false} ServeInOrder(cat: seq<Book>, input: seq<Request>, k: nat)
    requires k < FirstQuit(input)
    ensures |Serve(cat, input).responses| > k
    ensures Serve(cat, input).responses[k] == Step(Replay(cat, input[..k]), input[k]).reply
    decreases |input|
  {
    ServeResponds(cat, input);
    if k > 0 {
      var o := Step(cat, input[0]);
      ServeInOrder(o.books, input[1..], k - 1);
      assert input[..k][1..] == input[1..][..k - 1];
    }
  }

  /** The session ends with the catalog that the requests before the first `Quit` leave. */
  lemma {:induction false} ServeFinal(cat: seq<Book>, input: seq<Request>)
    ensures Serve(cat, input).books == Replay(cat, input[..FirstQuit(input)])
    decreases |input|
  {
    if input != [] && !input[0].Quit? {
      ServeFinal(Step(cat, input[0]).books, input[1..]);
      assert input[..FirstQuit(input)][1..] == input[1..][..FirstQuit(input[1..])];
    }
  }

  /** Nothing after the first `Quit` is read: appending requests changes nothing. */
  lemma {:induction false} QuitEndsSession(cat: seq<Book>, input: seq<Request>, more: seq<Request>)
    requires FirstQuit(input) < |input|
    ensures Serve(cat, input + more) == Serve(cat, input)
    decreases |input|
  {
    if !input[0].Quit? {
      assert (input + more)[1..] == input[1..] + more;
      QuitEndsSession(Step(cat, input[0]).books, input[1..], more);
    }
  }

  /** Two rents of a two-copy book succeed and the third is refused. */
  lemma RentUntilUnavailable()
    ensures
      var dune := Book("Herbert", "Dune", "SciFi", 2);
      var s := Serve([dune], [Rent(0), Rent(0), Rent(0)]);
      s.responses == [MsgRented, MsgRented, MsgUnavailable]
      && s.books == [dune.(exemplares := 0)] && !s.quit
  {
  }


  /** Two requests in a row are answered in order, the second in the catalog the first left. */
  lemma ServeTwo(cat: seq<Book>, r1: Request, r2: Request)
    requires !r1.Quit? && !r2.Quit?
    ensures Serve(cat, [r1, r2]).responses == [Step(cat, r1).reply, Step(Step(cat, r1).books, r2).reply]
  {
    var o1 := Step(cat, r1);
    var o2 := Step(o1.books, r2);
    assert [r1, r2][1..] == [r2];
    assert [r2][1..] == [];
    assert Serve(o2.books, []) == Session(o2.books, [], false);
    assert Serve(o1.books, [r2]) == Session(o2.books, [o2.reply], false);
  }

  /** A book registered in a session is listed, in the next response, last and at index old-size. */
  lemma RegisterThenList(cat: seq<Book>, r: Request)
    requires r.Register?
    ensures Serve(cat, [r, List]).responses
      == [MsgRegistered, Listing(cat) + Entry(|cat|, Book(r.autor, r.titulo, r.genero, r.exemplares))]
  {
    var b := Book(r.autor, r.titulo, r.genero, r.exemplares);
    ServeTwo(cat, r, List);
    ListingAppend(cat, b);
    assert Step(cat + [b], List).reply == Listing(cat + [b]);
  }
}
