/**
 * The server (`Servidor`): it holds the list of book objects, answers one
 * client's decoded requests, and rewrites the data file after every change.
 */
module Server {
  import opened Options
  import opened Decimal
  import opened Books
  import opened Catalog
  import opened Protocol

  class Servidor {
    var porta: int
    var nomeArquivo: string
    /** The books, addressed by position; each is updated in place. */
    var livros: seq<Livro>
    /**
     * What the data file holds: the records under its key `livros`, or None when
     * it could not be read at start-up and has not been written since.
     */
    var arquivo: Option<seq<BookRecord>>

    /** No book object appears at two positions, so updating one changes only its own entry. */
    ghost predicate Valid()
      reads this
    {
      forall i, j :: 0 <= i < j < |livros| ==> livros[i] != livros[j]
    }

    /** The catalog the book objects currently hold. */
    function Contents(): (bs: seq<Book>)
      reads this`livros, livros
      ensures |bs| == |livros|
      ensures forall i :: 0 <= i < |livros| ==> bs[i] == livros[i].Value()
    {
      var ls := livros;
      seq(|ls|, i reads ls requires 0 <= i < |ls| => ls[i].Value())
    }

    /**
     * Builds the server from the data file as read: `documento` is the list under
     * the key `livros`, or None when reading or parsing the file failed, in which
     * case the server starts with no books.
     */
    constructor (porta: int, nomeArquivo: string, documento: Option<seq<BookRecord>>)
      ensures Valid()
      ensures Contents() == if documento.Some? then FromRecords(documento.value) else []
      ensures forall j :: 0 <= j < |livros| ==> fresh(livros[j])
      ensures this.porta == porta && this.nomeArquivo == nomeArquivo && arquivo == documento
    {
      this.porta := porta;
      this.nomeArquivo := nomeArquivo;
      livros := [];
      arquivo := documento;
      new;
      if documento.Some? {
        ProcessarLivros(documento.value);
      }
    }

    /** Appends a book for each record, in order, with its count cast to a Java `int`. */
    method ProcessarLivros(registros: seq<BookRecord>)
      requires Valid()
      modifies this`livros
      ensures Valid()
      ensures Contents() == old(Contents()) + FromRecords(registros)
      ensures old(livros) <= livros
      ensures forall j :: |old(livros)| <= j < |livros| ==> fresh(livros[j])
    {
      var k := 0;
      while k < |registros|
        invariant 0 <= k <= |registros|
        invariant Valid()
        invariant |livros| == |old(livros)| + k && old(livros) <= livros
        invariant forall j :: |old(livros)| <= j < |livros| ==> fresh(livros[j])
        invariant Contents() == old(Contents()) + FromRecords(registros[..k])
      {
        var livro := registros[k];
        var exemplares := ToInt32(livro.exemplares);
        var novo := new Livro(livro.autor, livro.titulo, livro.genero, exemplares);
        livros := livros + [novo];
        k := k + 1;
      }
      assert registros[..k] == registros;
    }

    /** The records to write to the data file: one per book, in catalog order. */
    method ObterDadosLivros() returns (jsonArray: seq<BookRecord>)
      ensures jsonArray == ToRecords(Contents())
    {
      jsonArray := [];
      var k := 0;
      while k < |livros|
        invariant 0 <= k <= |livros|
        invariant |jsonArray| == k
        invariant forall j :: 0 <= j < k ==> jsonArray[j] == ToRecord(livros[j].Value())
      {
        var livro := livros[k];
        jsonArray := jsonArray + [BookRecord(livro.GetTitulo(), livro.GetAutor(), livro.GetGenero(), livro.GetExemplares())];
        k := k + 1;
      }
    }

    /** Rewrites the data file with the whole catalog. */
    method AtualizarArquivoJSON()
      modifies this`arquivo
      ensures arquivo == Some(ToRecords(Contents()))
    {
      var jsonArray := ObterDadosLivros();
      arquivo := Some(jsonArray);
    }

    /** The text of the list request: a header, then each book under its index. */
    method Listar() returns (res: string)
      ensures res == Listing(Contents())
    {
      var index := 0;
      res := ListHeader;
      while index < |livros|
        invariant 0 <= index <= |livros|
        invariant res == Listing(Contents()[..index])
      {
        ListingExtend(Contents()[..index], livros[index].Value());
        res := res + ("Index: " + IntToDecimal(index) + "\n");
        res := res + livros[index].ToString();
        assert Contents()[..index + 1] == Contents()[..index] + [livros[index].Value()];
        index := index + 1;
      }
      assert Contents()[..index] == Contents();
    }

    /** Rents one copy of the book at `index`, refusing a bad index or a book with no copies left. */
    method Alugar(index: int) returns (resposta: string)
      requires Valid()
      modifies this`arquivo, livros
      ensures Valid() && livros == old(livros)
      ensures Outcome(Contents(), resposta) == Catalog.Rent(old(Contents()), index)
      ensures arquivo == if Contents() != old(Contents()) then Some(ToRecords(Contents())) else old(arquivo)
    {
      if index < 0 || index >= |livros| {
        return MsgInvalidIndex;
      }
      var livro := livros[index];
      if livro.GetExemplares() <= 0 {
        return MsgUnavailable;
      }
      livro.Alugar();
      assert Contents()[index].exemplares != old(Contents())[index].exemplares;
      AtualizarArquivoJSON();
      return MsgRented;
    }

    /** Returns one copy of the book at `index`, refusing only a bad index. */
    method Devolver(index: int) returns (resposta: string)
      requires Valid()
      modifies this`arquivo, livros
      ensures Valid() && livros == old(livros)
      ensures Outcome(Contents(), resposta) == Catalog.Return(old(Contents()), index)
      ensures arquivo == if Contents() != old(Contents()) then Some(ToRecords(Contents())) else old(arquivo)
    {
      if index < 0 || index >= |livros| {
        return MsgInvalidIndex;
      }
      var livro := livros[index];
      livro.Devolver();
      assert Contents()[index].exemplares != old(Contents())[index].exemplares;
      AtualizarArquivoJSON();
      return MsgReturned;
    }

    /** Registers a new book at the end of the list; nothing is validated. */
    method Cadastrar(genero: string, titulo: string, exemplares: int, autor: string) returns (resposta: string)
      requires Valid()
      modifies this`livros, this`arquivo
      ensures Valid()
      ensures Outcome(Contents(), resposta) == Catalog.Register(old(Contents()), genero, titulo, exemplares, autor)
      ensures old(livros) <= livros && |livros| == |old(livros)| + 1 && fresh(livros[|old(livros)|])
      ensures arquivo == Some(ToRecords(Contents()))
    {
      var novo := new Livro(autor, titulo, genero, exemplares);
      livros := livros + [novo];
      AtualizarArquivoJSON();
      return MsgRegistered;
    }

    /**
     * `menuOpcao`: runs the operation the request's opcode selects and gives the
     * text to send back; an opcode outside 1 to 4 answers "" and changes nothing.
     * The data file is rewritten exactly when the catalog changed.
     */
    method MenuOpcao(key: Request) returns (resposta: string)
      requires Valid()
      modifies this`livros, this`arquivo, livros
      ensures Valid()
      ensures Outcome(Contents(), resposta) == Step(old(Contents()), key)
      ensures old(livros) <= livros
      ensures forall j :: |old(livros)| <= j < |livros| ==> fresh(livros[j])
      ensures arquivo == if Contents() != old(Contents()) then Some(ToRecords(Contents())) else old(arquivo)
    {
      match key
      case List =>
        resposta := Listar();
      case Rent(index) =>
        resposta := Alugar(index);
      case Return(index) =>
        resposta := Devolver(index);
      case Register(genero, titulo, exemplares, autor) =>
        resposta := Cadastrar(genero, titulo, exemplares, autor);
        assert |Contents()| != |old(Contents())|;
      case Quit =>
        resposta := "";
      case Other(_) =>
        resposta := "";
    }

    /**
     * `processarMensagens`: answers each request in turn until the client sends
     * opcode 5, which ends the session without a response, or the input runs out.
     */
    method ProcessarMensagens(input: seq<Request>) returns (responses: seq<string>, quit: bool)
      requires Valid()
      modifies this`livros, this`arquivo, livros
      ensures Valid()
      ensures Session(Contents(), responses, quit) == Serve(old(Contents()), input)
      ensures arquivo == if Writes(old(Contents()), input) then Some(ToRecords(Contents())) else old(arquivo)
      ensures old(livros) <= livros
      ensures forall j :: |old(livros)| <= j < |livros| ==> fresh(livros[j])
    {
      responses := [];
      quit := false;
      ghost var start, cat, written := Contents(), Contents(), false;
      var k := 0;
      while k < |input|
        invariant 0 <= k <= |input|
        invariant Valid()
        invariant old(livros) <= livros
        invariant forall j :: |old(livros)| <= j < |livros| ==> fresh(livros[j])
        invariant !quit
        invariant cat == Contents()
        invariant var rest := Serve(cat, input[k..]);
          Serve(start, input) == Session(rest.books, responses + rest.responses, rest.quit)
        invariant Writes(start, input) == (written || Writes(cat, input[k..]))
        invariant arquivo == if written then Some(ToRecords(cat)) else old(arquivo)
      {
        var mensagemRecebida := input[k];
        if mensagemRecebida.Quit? {
          quit := true;
          break;
        }
        ghost var o := Step(cat, mensagemRecebida);
        ServeWritesStep(cat, input[k..]);
        assert input[k..][1..] == input[k + 1..];
        var resposta := MenuOpcao(mensagemRecebida);
        written := written || o.books != cat;
        cat := o.books;
        responses := responses + [resposta];
        k := k + 1;
      }
    }
  }
}
