/**
 * One book of the library (`Livro`): author, title, genre and the number of
 * copies on the shelf. `Book` is its value; `Livro` is the object the server
 * keeps in its list and updates in place when a copy is rented or returned.
 */
module Books {
  import opened Options
  import opened Decimal

  datatype Book = Book(autor: string, titulo: string, genero: string, exemplares: int)
  {
    /** The book with one copy fewer on the shelf; nothing else changes. */
    function Alugado(): (b: Book)
      ensures b.exemplares == exemplares - 1
      ensures b.autor == autor && b.titulo == titulo && b.genero == genero
    {
      this.(exemplares := exemplares - 1)
    }

    /** The book with one copy more on the shelf; nothing else changes. */
    function Devolvido(): (b: Book)
      ensures b.exemplares == exemplares + 1
      ensures b.autor == autor && b.titulo == titulo && b.genero == genero
    {
      this.(exemplares := exemplares + 1)
    }

    /** The fixed textual rendering of a book, as `toString` formats it. */
    function Render(): string
    {
      "Titulo: " + titulo + " \nAutor: " + autor + " \nGenero: " + genero
        + " \nExemplares: " + IntToDecimal(exemplares) + "\n\n"
    }
  }

  /** Returning a rented copy restores the book, and renting a returned one too. */
  lemma RentReturnInverse(b: Book)
    ensures b.Alugado().Devolvido() == b
    ensures b.Devolvido().Alugado() == b
  {
  }

  /** Position of the first line break in `s`, or `|s|` when there is none. */
  function NewlineAt(s: string): (k: nat)
    ensures k <= |s|
    ensures k < |s| ==> s[k] == '\n'
    ensures forall i :: 0 <= i < k ==> s[i] != '\n'
  {
    if s == [] || s[0] == '\n' then 0 else 1 + NewlineAt(s[1..])
  }

  /**
   * Reads one line `key + value + " \n"` of a rendering, giving the value and
   * the text after the line break.
   */
  function TakeField(key: string, s: string): (r: Option<(string, string)>)
    ensures r.Some? ==> s == key + r.value.0 + " \n" + r.value.1
  {
    if key <= s then
      var rest := s[|key|..];
      var k := NewlineAt(rest);
      if 1 <= k < |rest| && rest[k - 1] == ' ' then
        assert rest == rest[..k - 1] + " \n" + rest[k + 1..];
        Some((rest[..k - 1], rest[k + 1..]))
      else None
    else None
  }

  /** Reads a rendering back into the book it shows. */
  function ParseRender(s: string): Option<Book>
  {
    match TakeField("Titulo: ", s)
    case None => None
    case Some((t, s1)) =>
      match TakeField("Autor: ", s1)
      case None => None
      case Some((a, s2)) =>
        match TakeField("Genero: ", s2)
        case None => None
        case Some((g, s3)) =>
          if "Exemplares: " <= s3 && |s3| >= 14 && s3[|s3| - 2..] == "\n\n" then
            var digits := s3[12..|s3| - 2];
            match ParseDecimal(digits)
            case None => None
            case Some(n) => Some(Book(a, t, g, n))
          else None
  }

  predicate NoLineBreak(s: string) {
    '\n' !in s
  }

  lemma {:induction false} NewlineAfter(x: string, y: string)
    requires NoLineBreak(x)
    ensures NewlineAt(x + "\n" + y) == |x|
    decreases |x|
  {
    if x != [] {
      assert (x + "\n" + y)[1..] == x[1..] + "\n" + y;
      NewlineAfter(x[1..], y);
    }
  }

  lemma TakeFieldOf(key: string, v: string, rest: string)
    requires NoLineBreak(v)
    ensures TakeField(key, key + v + " \n" + rest) == Some((v, rest))
  {
    var s := key + v + " \n" + rest;
    assert key <= s;
    var tail := s[|key|..];
    assert tail == (v + " ") + "\n" + rest;
    NewlineAfter(v + " ", rest);
    var k := NewlineAt(tail);
    assert k == |v| + 1;
    assert tail[k - 1] == ' ';
    assert tail[..k - 1] == v;
    assert tail[k + 1..] == rest;
  }

  /** The rendering is four lines, each a key, a value and " \n", the last ending in a blank line. */
  lemma RenderLines(b: Book)
    ensures b.Render()
      == "Titulo: " + b.titulo + " \n" + ("Autor: " + b.autor + " \n" + ("Genero: " + b.genero + " \n"
         + ("Exemplares: " + IntToDecimal(b.exemplares) + "\n\n")))
  {
    assert " \nAutor: " == " \n" + "Autor: ";
    assert " \nGenero: " == " \n" + "Genero: ";
    assert " \nExemplares: " == " \n" + "Exemplares: ";
    Regroup("Titulo: ", b.titulo, " \n", "Autor: ", b.autor, "Genero: ", b.genero,
      "Exemplares: ", IntToDecimal(b.exemplares), "\n\n");
  }

  lemma Regroup(k1: string, v1: string, nl: string, k2: string, v2: string, k3: string, v3: string,
                k4: string, d: string, e: string)
    ensures k1 + v1 + (nl + k2) + v2 + (nl + k3) + v3 + (nl + k4) + d + e
         == k1 + v1 + nl + (k2 + v2 + nl + (k3 + v3 + nl + (k4 + d + e)))
  {
  }

  /**
   * When title, author and genre hold no line break, the rendering determines
   * the book: parsing it gives the book back.
   */
  lemma RenderRoundTrip(b: Book)
    requires NoLineBreak(b.titulo) && NoLineBreak(b.autor) && NoLineBreak(b.genero)
    ensures ParseRender(b.Render()) == Some(b)
  {
    var d := IntToDecimal(b.exemplares);
    var s3 := "Exemplares: " + d + "\n\n";
    var s2 := "Genero: " + b.genero + " \n" + s3;
    var s1 := "Autor: " + b.autor + " \n" + s2;
    RenderLines(b);
    TakeFieldOf("Titulo: ", b.titulo, s1);
    TakeFieldOf("Autor: ", b.autor, s2);
    TakeFieldOf("Genero: ", b.genero, s3);
    assert "Exemplares: " <= s3;
    assert s3[|s3| - 2..] == "\n\n";
    assert s3[12..|s3| - 2] == d;
    DecimalRoundTrip(b.exemplares);
  }

  /** The book object the server keeps: its copy count is updated in place. */
  class Livro {
    var autor: string
    var titulo: string
    var genero: string
    var qntExemplares: int

    constructor (autor: string, titulo: string, genero: string, qntExemplares: int)
      ensures Value() == Book(autor, titulo, genero, qntExemplares)
      ensures GetAutor() == autor && GetTitulo() == titulo
      ensures GetGenero() == genero && GetExemplares() == qntExemplares
    {
      this.autor := autor;
      this.titulo := titulo;
      this.genero := genero;
      this.qntExemplares := qntExemplares;
    }

    function GetAutor(): string reads this { autor }
    function GetTitulo(): string reads this { titulo }
    function GetGenero(): string reads this { genero }
    function GetExemplares(): int reads this { qntExemplares }

    /** The book this object currently holds. */
    function Value(): Book
      reads this
    {
      Book(autor, titulo, genero, qntExemplares)
    }

    /** Takes one copy off the shelf; there is no floor here, the caller guards it. */
    method Alugar()
      modifies this
      ensures Value() == old(Value()).Alugado()
      ensures qntExemplares == old(qntExemplares) - 1
      ensures autor == old(autor) && titulo == old(titulo) && genero == old(genero)
    {
      qntExemplares := qntExemplares - 1;
    }

    /** Puts one copy back on the shelf; there is no upper bound. */
    method Devolver()
      modifies this
      ensures Value() == old(Value()).Devolvido()
      ensures qntExemplares == old(qntExemplares) + 1
      ensures autor == old(autor) && titulo == old(titulo) && genero == old(genero)
    {
      qntExemplares := qntExemplares + 1;
    }

    /** The book as text; reading it changes nothing. */
    function ToString(): (s: string)
      reads this
      ensures NoLineBreak(titulo) && NoLineBreak(autor) && NoLineBreak(genero) ==> ParseRender(s) == Some(Value())
    {
      if NoLineBreak(titulo) && NoLineBreak(autor) && NoLineBreak(genero) then
        RenderRoundTrip(Value());
        Value().Render()
      else
        Value().Render()
    }
  }
}
