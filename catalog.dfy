/**
 * The catalog as a value: the ordered list of books the server holds, addressed
 * by zero-based position, and what each of the server's operations does to it.
 * These functions are the specification the `Servidor` methods are proved against.
 */
module Catalog {
  import opened Decimal
  import opened Books

  const MsgInvalidIndex: string := "\U{CD}ndice inv\U{E1}lido."
  const MsgUnavailable: string := "Este livro n\U{E3}o est\U{E1} dispon\U{ED}vel para aluguel."
  const MsgRented: string := "Livro alugado com sucesso!"
  const MsgReturned: string := "Livro devolvido com sucesso!"
  const MsgRegistered: string := "Novo livro cadastrado com sucesso"
  const ListHeader: string := "\n=========== LIVROS ===========\n"

  /** The catalog after an operation, and the text sent back to the client. */
  datatype Outcome = Outcome(books: seq<Book>, reply: string)

  predicate InRange(cat: seq<Book>, i: int) {
    0 <= i < |cat|
  }

  /** Every entry other than `i` is the same in both catalogs, and they have the same length. */
  predicate SameExcept(cat: seq<Book>, cat': seq<Book>, i: int) {
    |cat'| == |cat| && forall j :: 0 <= j < |cat| && j != i ==> cat'[j] == cat[j]
  }

  /** Renting the book at position `i` (`alugar`). */
  function Rent(cat: seq<Book>, i: int): (o: Outcome)
    ensures !InRange(cat, i) ==> o == Outcome(cat, MsgInvalidIndex)
    ensures InRange(cat, i) && cat[i].exemplares <= 0 ==> o == Outcome(cat, MsgUnavailable)
    ensures InRange(cat, i) && cat[i].exemplares > 0 ==>
      o.reply == MsgRented && SameExcept(cat, o.books, i) && o.books[i] == cat[i].Alugado()
  {
    if !InRange(cat, i) then Outcome(cat, MsgInvalidIndex)
    else if cat[i].exemplares <= 0 then Outcome(cat, MsgUnavailable)
    else Outcome(cat[i := cat[i].Alugado()], MsgRented)
  }

  /** Returning a copy of the book at position `i` (`devolver`): bounds check only. */
  function Return(cat: seq<Book>, i: int): (o: Outcome)
    ensures !InRange(cat, i) ==> o == Outcome(cat, MsgInvalidIndex)
    ensures InRange(cat, i) ==>
      o.reply == MsgReturned && SameExcept(cat, o.books, i) && o.books[i] == cat[i].Devolvido()
  {
    if !InRange(cat, i) then Outcome(cat, MsgInvalidIndex)
    else Outcome(cat[i := cat[i].Devolvido()], MsgReturned)
  }

  /**
   * Registering a new book (`cadastrar`), with the arguments in the order the
   * client sends them; nothing is validated.
   */
  function Register(cat: seq<Book>, genero: string, titulo: string, exemplares: int, autor: string): (o: Outcome)
    ensures o.reply == MsgRegistered
    ensures |o.books| == |cat| + 1 && o.books[..|cat|] == cat
    ensures o.books[|cat|] == Book(autor, titulo, genero, exemplares)
  {
    Outcome(cat + [Book(autor, titulo, genero, exemplares)], MsgRegistered)
  }

  /** A successful rent is undone by a return at the same position. */
  lemma RentThenReturn(cat: seq<Book>, i: int)
    requires Rent(cat, i).reply == MsgRented
    ensures Return(Rent(cat, i).books, i) == Outcome(cat, MsgReturned)
  {
  }

  /** A return is undone by a rent at the same position, unless the count was negative. */
  lemma ReturnThenRent(cat: seq<Book>, i: int)
    requires InRange(cat, i) && cat[i].exemplares >= 0
    ensures Rent(Return(cat, i).books, i) == Outcome(cat, MsgRented)
  {
  }

  // ---------------------------------------------------------------------------
  // No count below zero

  /** Every copy count is non-negative. */
  predicate Stocked(cat: seq<Book>) {
    forall j :: 0 <= j < |cat| ==> cat[j].exemplares >= 0
  }

  /** Rent and return never take a count below zero. */
  lemma RentReturnKeepStocked(cat: seq<Book>, i: int)
    requires Stocked(cat)
    ensures Stocked(Rent(cat, i).books)
    ensures Stocked(Return(cat, i).books)
  {
  }

  /** Register keeps the counts non-negative exactly when the new count is non-negative. */
  lemma RegisterStocked(cat: seq<Book>, genero: string, titulo: string, exemplares: int, autor: string)
    requires Stocked(cat)
    ensures Stocked(Register(cat, genero, titulo, exemplares, autor).books) <==> exemplares >= 0
  {
  }

  // ---------------------------------------------------------------------------
  // Copies on the shelf

  /** The number of copies on the shelf over the whole catalog. */
  function TotalCopies(cat: seq<Book>): int {
    if cat == [] then 0 else cat[0].exemplares + TotalCopies(cat[1..])
  }

  lemma {:induction false} TotalCopiesUpdate(cat: seq<Book>, i: int, b: Book)
    requires InRange(cat, i)
    ensures TotalCopies(cat[i := b]) == TotalCopies(cat) - cat[i].exemplares + b.exemplares
    decreases |cat|
  {
    if i > 0 {
      assert cat[i := b][1..] == cat[1..][i - 1 := b];
      TotalCopiesUpdate(cat[1..], i - 1, b);
    }
  }

  lemma {:induction false} TotalCopiesAppend(cat: seq<Book>, b: Book)
    ensures TotalCopies(cat + [b]) == TotalCopies(cat) + b.exemplares
    decreases |cat|
  {
    if cat != [] {
      assert (cat + [b])[1..] == cat[1..] + [b];
      TotalCopiesAppend(cat[1..], b);
    }
  }

  /** A successful rent takes exactly one copy off the shelf; a refused one none. */
  lemma RentTotal(cat: seq<Book>, i: int)
    ensures TotalCopies(Rent(cat, i).books)
      == if Rent(cat, i).reply == MsgRented then TotalCopies(cat) - 1 else TotalCopies(cat)
  {
    if Rent(cat, i).reply == MsgRented {
      TotalCopiesUpdate(cat, i, cat[i].Alugado());
    }
  }

  /** A successful return puts exactly one copy back; a refused one none. */
  lemma ReturnTotal(cat: seq<Book>, i: int)
    ensures TotalCopies(Return(cat, i).books)
      == if InRange(cat, i) then TotalCopies(cat) + 1 else TotalCopies(cat)
  {
    if InRange(cat, i) {
      TotalCopiesUpdate(cat, i, cat[i].Devolvido());
    }
  }

  /** Registering adds the new book's copies to the shelf. */
  lemma RegisterTotal(cat: seq<Book>, genero: string, titulo: string, exemplares: int, autor: string)
    ensures TotalCopies(Register(cat, genero, titulo, exemplares, autor).books) == TotalCopies(cat) + exemplares
  {
    TotalCopiesAppend(cat, Book(autor, titulo, genero, exemplares));
  }

  // ---------------------------------------------------------------------------
  // Listing (`listar`)

  /** The lines for the book at position `i`: its index, then its rendering. */
  function Entry(i: nat, b: Book): string {
    "Index: " + IntToDecimal(i) + "\n" + b.Render()
  }

  /** The entries of `bs`, numbered from `start`. */
  function EntriesFrom(start: nat, bs: seq<Book>): string
    decreases |bs|
  {
    if bs == [] then "" else Entry(start, bs[0]) + EntriesFrom(start + 1, bs[1..])
  }

  /** The text `listar` sends: a header, then every book under its index, in catalog order. */
  function Listing(cat: seq<Book>): string {
    ListHeader + EntriesFrom(0, cat)
  }

  lemma {:induction false} EntriesConcat(start: nat, xs: seq<Book>, ys: seq<Book>)
    ensures EntriesFrom(start, xs + ys) == EntriesFrom(start, xs) + EntriesFrom(start + |xs|, ys)
    decreases |xs|
  {
    if xs != [] {
      assert (xs + ys)[1..] == xs[1..] + ys;
      EntriesConcat(start + 1, xs[1..], ys);
    } else {
      assert xs + ys == ys;
    }
  }

  /** The entries of a catalog with one more book end with that book's entry. */
  lemma EntriesSnoc(bs: seq<Book>, b: Book)
    ensures EntriesFrom(0, bs + [b]) == EntriesFrom(0, bs) + Entry(|bs|, b)
  {
    EntriesConcat(0, bs, [b]);
    EntriesSingle(|bs|, b);
  }

  lemma EntriesSingle(start: nat, b: Book)
    ensures EntriesFrom(start, [b]) == Entry(start, b)
  {
    var e := Entry(start, b);
    assert [b][1..] == [];
    assert EntriesFrom(start, [b]) == e + EntriesFrom(start + 1, []);
    EmptyRight(e);
  }

  lemma EmptyRight(a: string)
    ensures a + "" == a
  {
  }

  /** A book appended to the catalog is listed last, under index old-size. */
  lemma ListingAppend(cat: seq<Book>, b: Book)
    ensures Listing(cat + [b]) == Listing(cat) + Entry(|cat|, b)
  {
    EntriesSnoc(cat, b);
    ConcatAssoc3(ListHeader, EntriesFrom(0, cat), Entry(|cat|, b));
  }

  /** The listing grows one entry at a time: the index line, then the book's rendering. */
  lemma ListingExtend(done: seq<Book>, b: Book)
    ensures Listing(done) + ("Index: " + IntToDecimal(|done|) + "\n") + b.Render() == Listing(done + [b])
  {
    ListingAppend(done, b);
    var line := "Index: " + IntToDecimal(|done|) + "\n";
    assert Entry(|done|, b) == line + b.Render();
    ConcatAssoc3(Listing(done), line, b.Render());
  }

  /**
   * The listing shows the book at position `k` under "Index: k", after the
   * books before it and before the books after it.
   */
  lemma ListingAt(cat: seq<Book>, k: nat)
    requires k < |cat|
    ensures Listing(cat) == Listing(cat[..k]) + Entry(k, cat[k]) + EntriesFrom(k + 1, cat[k + 1..])
  {
    var rest := cat[k..];
    assert cat == cat[..k] + rest;
    EntriesConcat(0, cat[..k], rest);
    var before, e, after := EntriesFrom(0, cat[..k]), Entry(k, cat[k]), EntriesFrom(k + 1, cat[k + 1..]);
    assert EntriesFrom(0, cat) == before + EntriesFrom(k, rest);
    assert rest[0] == cat[k] && rest[1..] == cat[k + 1..];
    assert EntriesFrom(k, rest) == e + after;
    assert Listing(cat) == ListHeader + (before + (e + after));
    ConcatAssoc(ListHeader, before, e, after);
  }

  lemma ConcatAssoc3(a: string, b: string, c: string)
    ensures a + (b + c) == a + b + c
  {
  }

  lemma ConcatAssoc(a: string, b: string, c: string, d: string)
    ensures a + (b + (c + d)) == a + b + c + d
  {
  }

  // ---------------------------------------------------------------------------
  // Persistence records (`obterDadosLivros` / `processarLivros`)

  /** A book as it is stored under the key `livros` of the data file. */
  datatype BookRecord = BookRecord(titulo: string, autor: string, genero: string, exemplares: int)

  const Int32Modulus: int := 0x1_0000_0000

  predicate InInt32(x: int) {
    -0x8000_0000 <= x < 0x8000_0000
  }

  /** Java's `(int)` cast of a `long`: keeps the low 32 bits as a two's-complement value. */
  function ToInt32(x: int): (r: int)
    ensures InInt32(r)
    ensures (r - x) % Int32Modulus == 0
    ensures InInt32(x) ==> r == x
  {
    (x + 0x8000_0000) % Int32Modulus - 0x8000_0000
  }

  function ToRecord(b: Book): BookRecord {
    BookRecord(b.titulo, b.autor, b.genero, b.exemplares)
  }

  function FromRecord(r: BookRecord): Book {
    Book(r.autor, r.titulo, r.genero, ToInt32(r.exemplares))
  }

  /** The records written to the data file, one per book, in catalog order. */
  function ToRecords(bs: seq<Book>): (rs: seq<BookRecord>)
    ensures |rs| == |bs|
  {
    seq(|bs|, j requires 0 <= j < |bs| => ToRecord(bs[j]))
  }

  /** The books loaded from the data file's records, in file order. */
  function FromRecords(rs: seq<BookRecord>): (bs: seq<Book>)
    ensures |bs| == |rs|
  {
    seq(|rs|, j requires 0 <= j < |rs| => FromRecord(rs[j]))
  }

  predicate CountsInInt32(bs: seq<Book>) {
    forall j :: 0 <= j < |bs| ==> InInt32(bs[j].exemplares)
  }

  /**
   * Saving the catalog and loading it back gives the same books in the same
   * order exactly when every count fits the 32 bits of a Java `int`.
   */
  lemma SaveLoadRoundTrip(bs: seq<Book>)
    ensures FromRecords(ToRecords(bs)) == bs <==> CountsInInt32(bs)
  {
  }

  /** Loading records and saving them back reproduces the records when their counts fit. */
  lemma LoadSaveRoundTrip(rs: seq<BookRecord>)
    requires forall j :: 0 <= j < |rs| ==> InInt32(rs[j].exemplares)
    ensures ToRecords(FromRecords(rs)) == rs
  {
  }
}
