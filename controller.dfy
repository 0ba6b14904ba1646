/** The coordinator of the library (`Controller.Biblioteca`): field
 *  validation, the catalogue, patron and loan operations over the three
 *  registries and their on-screen lists, and the search filters. */
module Controller {
  import opened JavaLang
  import opened Lists
  import opened Text
  import opened Model
  import Dates

  // ============================================================ messages

  /** The texts of the exceptions the coordinator throws itself. */
  const CampiNonValidi: string := "Campi non validi!"
  const LibroGiaPresente: string := "Libro già presente"
  const LibroInPrestito: string := "Impossibile eliminare: Libro in prestito"
  const UtenteGiaRegistrato: string := "Utente già registrato"
  const UtenteConPrestiti: string := "Impossibile eliminare: Utente possiede prestiti attivi"
  const DatiNonValidi: string := "Dati non validi"
  const CopieNonDisponibili: string := "Copie del libro non disponibili"
  const TroppiPrestiti: string := "L'utente selezionato è già a carico di 3 prestiti"
  const PrestitoNonTrovato: string := "Prestito non trovato per la rimozione."

  // ============================================================ field rules

  /** `^\d{13}$`: exactly thirteen ASCII digits; no check digit is verified. */
  predicate IsbnValid(isbn: string)
  {
    |isbn| == 13 && forall i :: 0 <= i < |isbn| ==> IsAsciiDigit(isbn[i])
  }

  /** `^\d{10}$` */
  predicate MatricolaValid(m: string)
  {
    |m| == 10 && forall i :: 0 <= i < |m| ==> IsAsciiDigit(m[i])
  }

  /** A character of `[\p{L}\p{N}'":\-.,?! ]`. */
  predicate IsTitleChar(c: char)
  {
    IsLetter(c) || IsNumber(c) || c in "'\":-.,?! "
  }

  /** A character of `[\p{L}' ]`. */
  predicate IsNameChar(c: char)
  {
    IsLetter(c) || c == '\'' || c == ' '
  }

  /** The trimmed title matches `^[\p{L}\p{N}'":\-.,?! ]+$`. */
  predicate TitleValid(titolo: string)
  {
    var t := Trim(titolo);
    |t| > 0 && forall i :: 0 <= i < |t| ==> IsTitleChar(t[i])
  }

  /** `^[\p{L}' ]+$` */
  predicate NameValid(n: string)
  {
    |n| > 0 && forall i :: 0 <= i < |n| ==> IsNameChar(n[i])
  }

  /** Both trimmed names of an author match `^[\p{L}' ]+$`. */
  predicate AutoreValid(a: Autore)
    reads a
  {
    NameValid(Trim(a.nome)) && NameValid(Trim(a.cognome))
  }

  /** The book fields `checkValiditaCampiLibro` accepts. Negative copy counts
   *  are not rejected, only more available than owned. */
  predicate CampiLibroValidi(titolo: string, autori: seq<Autore>, anno: int, isbn: string,
                             copieTot: int, copieDisp: int)
    reads autori
  {
    && IsbnValid(isbn)
    && copieTot >= copieDisp
    && anno > 0
    && TitleValid(titolo)
    && forall i :: 0 <= i < |autori| ==> AutoreValid(autori[i])
  }

  /** The check `checkValiditaCampiLibro` evidently means: the counts it
   *  compares also have no negative available copies. */
  predicate CampiLibroCorretti(titolo: string, autori: seq<Autore>, anno: int, isbn: string,
                               copieTot: int, copieDisp: int)
    reads autori
  {
    CampiLibroValidi(titolo, autori, anno, isbn, copieTot, copieDisp) && copieDisp >= 0
  }

  /** Every listed book has between none and all of its copies available,
   *  as the design requires of every book. */
  ghost predicate CopiesInRange(lib: seq<Libro>)
    reads lib
  {
    forall i :: 0 <= i < |lib| ==> 0 <= lib[i].numCopieDisponibili <= lib[i].numCopieTotali
  }

  /** A title, an ISBN and a year the checks accept, with -1 copies owned
   *  and -1 available: the check as written lets the counts through, the
   *  intended one does not. */
  lemma NegativeCopiesPass()
    ensures CampiLibroValidi("Titolo", [], 2020, "9788800000000", -1, -1)
    ensures !CampiLibroCorretti("Titolo", [], 2020, "9788800000000", -1, -1)
  {
    TrimOfTrimmed("Titolo");
  }

  // ------------------------------------------------------------ e-mail

  const Dominio: string := "@studenti.unisa.it"

  /** A character of `[\p{L}']`. */
  predicate IsLocalChar(c: char)
  {
    IsLetter(c) || c == '\''
  }

  /** Letters or apostrophes at positions 2 to m-1 of `p`, and at least one
   *  digit, and only digits, from m to the end. */
  predicate LettersThenDigits(p: string, m: int)
  {
    && 3 <= m < |p|
    && (forall i :: 2 <= i < m ==> IsLocalChar(p[i]))
    && (forall i :: m <= i < |p| ==> IsAsciiDigit(p[i]))
  }

  /** `^[A-Za-z]\.[\p{L}']+\d+` on the part before the domain, with the point
   *  where the letters give way to the digits made explicit. */
  ghost predicate LocalPartMatches(p: string)
  {
    |p| >= 4 && IsAsciiLetter(p[0]) && p[1] == '.' && exists m :: LettersThenDigits(p, m)
  }

  /** `^[A-Za-z]\.[\p{L}']+\d+@studenti\.unisa\.it$` */
  ghost predicate EmailMatches(e: string)
  {
    |e| >= |Dominio| && e[|e| - |Dominio|..] == Dominio && LocalPartMatches(e[..|e| - |Dominio|])
  }

  /** The number of `[\p{L}']` characters `s` starts with. */
  function LocalRun(s: string): (k: nat)
    ensures k <= |s|
    ensures forall i :: 0 <= i < k ==> IsLocalChar(s[i])
    ensures k < |s| ==> !IsLocalChar(s[k])
  {
    if s == [] || !IsLocalChar(s[0]) then 0 else 1 + LocalRun(s[1..])
  }

  /** The scanner for the part before the domain: the letter run is taken
   *  as long as it goes, and the rest must be digits. */
  predicate LocalPartValid(p: string)
  {
    && |p| >= 4 && IsAsciiLetter(p[0]) && p[1] == '.'
    && var m := 2 + LocalRun(p[2..]);
       3 <= m < |p| && forall i :: m <= i < |p| ==> IsAsciiDigit(p[i])
  }

  predicate EmailValid(e: string)
  {
    |e| >= |Dominio| && e[|e| - |Dominio|..] == Dominio && LocalPartValid(e[..|e| - |Dominio|])
  }

  /** The scanner accepts exactly what the pattern matches: digits are never
   *  letters, so the only possible split point is the end of the letter run. */
  lemma LocalPartValidIff(p: string)
    ensures LocalPartValid(p) <==> LocalPartMatches(p)
  {
    if |p| >= 4 && IsAsciiLetter(p[0]) && p[1] == '.' {
      var m := 2 + LocalRun(p[2..]);
      if LocalPartValid(p) {
        assert LettersThenDigits(p, m);
      }
      if LocalPartMatches(p) {
        var m' :| LettersThenDigits(p, m');
        assert forall i :: 0 <= i < m' - 2 ==> IsLocalChar(p[2..][i]);
        assert !IsLocalChar(p[2..][m' - 2]);
      }
    }
  }

  lemma EmailValidIff(e: string)
    ensures EmailValid(e) <==> EmailMatches(e)
  {
    if |e| >= |Dominio| {
      LocalPartValidIff(e[..|e| - |Dominio|]);
    }
  }

  // ============================================================ loan counts

  /** Loans in `ps` on the book object `b`. */
  function LoansOf(ps: seq<Prestito>, b: Libro): nat
    reads ps`libro
  {
    Count(LoanBooks(ps), b)
  }

  /** Loans in `ps` held by the patron object `u`. */
  function LoansBy(ps: seq<Prestito>, u: Utente): nat
    reads ps`utente
  {
    Count(LoanPatrons(ps), u)
  }

  /** A book's counters agree with the ledger: every copy not available is
   *  out on a loan, and a book with a copy out has no negative count. */
  ghost predicate Balanced(b: Libro, ps: seq<Prestito>)
    reads b, ps
  {
    && b.numCopieDisponibili + LoansOf(ps, b) == b.numCopieTotali
    && (LoansOf(ps, b) > 0 ==> b.numCopieDisponibili >= 0)
  }

  /** A patron's counter is the number of loans they hold, at most three. */
  ghost predicate WithinLimit(u: Utente, ps: seq<Prestito>)
    reads u, ps
  {
    u.numPrestitiAttivi == LoansBy(ps, u) && u.numPrestitiAttivi <= 3
  }

  /** The patron object, book object and due date of each loan, in order. */
  function LoanRefs(ps: seq<Prestito>): (r: seq<(Utente, Libro, Dates.Date)>)
    reads ps
    ensures |r| == |ps|
    ensures forall i {:trigger r[i]} :: 0 <= i < |ps| ==> r[i] == (ps[i].utente, ps[i].libro, ps[i].dataRestituzione)
  {
    if ps == [] then [] else [(ps[0].utente, ps[0].libro, ps[0].dataRestituzione)] + LoanRefs(ps[1..])
  }

  /** The catalogue `lib`, the patrons `cli` and the ledger `ps` fit together:
   *  ISBNs and matricolas are unique, no two loans are of the same book to
   *  the same patron until the same date, every loan is on a listed book by
   *  a listed patron, and each book's and patron's counters agree with the
   *  loans. */
  ghost predicate Consistent(lib: seq<Libro>, cli: seq<Utente>, ps: seq<Prestito>)
    reads lib, cli, ps
  {
    && Distinct(Isbns(lib))
    && Distinct(Matricole(cli))
    && Distinct(LoanRefs(ps))
    && (forall i :: 0 <= i < |ps| ==> ps[i].libro in lib && ps[i].utente in cli)
    && (forall i {:trigger Balanced(lib[i], ps)} :: 0 <= i < |lib| ==> Balanced(lib[i], ps))
    && (forall i {:trigger WithinLimit(cli[i], ps)} :: 0 <= i < |cli| ==> WithinLimit(cli[i], ps))
  }

  /** Consistency depends on the listed objects alone. */
  twostate lemma ConsistentFrame(lib: seq<Libro>, new cli: seq<Utente>, new ps: seq<Prestito>)
    requires old(allocated(cli)) && old(allocated(ps))
    requires old(Consistent(lib, cli, ps)) && unchanged(lib) && unchanged(cli) && unchanged(ps)
    ensures Consistent(lib, cli, ps)
  {
  }

  /** In consistent records the loans' business keys (matricola, ISBN, due
   *  date) are unique too: different loans differ in their patron, their
   *  book or their date, and different listed patrons and books differ in
   *  their keys. */
  lemma ConsistentKeys(lib: seq<Libro>, cli: seq<Utente>, ps: seq<Prestito>)
    requires Consistent(lib, cli, ps)
    ensures Distinct(LoanKeys(ps))
  {
    var keys := LoanKeys(ps);
    forall i, j | 0 <= i < j < |ps| ensures keys[i] != keys[j] {
      assert LoanRefs(ps)[i] != LoanRefs(ps)[j];
      if ps[i].utente != ps[j].utente {
        MatricoleTell(cli, ps[i].utente, ps[j].utente);
      } else if ps[i].libro != ps[j].libro {
        IsbnsTell(lib, ps[i].libro, ps[j].libro);
      }
    }
  }

  /** Two different patrons of a list with unique matricolas have different
   *  matricolas. */
  lemma MatricoleTell(cli: seq<Utente>, u: Utente, v: Utente)
    requires Distinct(Matricole(cli)) && u in cli && v in cli && u != v
    ensures u.matricola != v.matricola
  {
    var a :| 0 <= a < |cli| && cli[a] == u;
    var b :| 0 <= b < |cli| && cli[b] == v;
    assert Matricole(cli)[a] != Matricole(cli)[b];
  }

  /** Two different books of a list with unique ISBNs have different ISBNs. */
  lemma IsbnsTell(lib: seq<Libro>, l: Libro, m: Libro)
    requires Distinct(Isbns(lib)) && l in lib && m in lib && l != m
    ensures l.isbn != m.isbn
  {
    var a :| 0 <= a < |lib| && lib[a] == l;
    var b :| 0 <= b < |lib| && lib[b] == m;
    assert Isbns(lib)[a] != Isbns(lib)[b];
  }

  /** A loan whose key the ledger does not hold refers to a patron, book and
   *  date no recorded loan refers to. */
  lemma NewKeyNewRefs(ps: seq<Prestito>, u: Utente, l: Libro, d: Dates.Date)
    ensures LoanKey(u.matricola, l.isbn, d) !in LoanKeys(ps) ==> (u, l, d) !in LoanRefs(ps)
  {
    if LoanKey(u.matricola, l.isbn, d) !in LoanKeys(ps) {
      forall i | 0 <= i < |ps| ensures LoanRefs(ps)[i] != (u, l, d) {
        assert LoanKeys(ps)[i] != LoanKey(u.matricola, l.isbn, d);
      }
    }
  }

  /** A book whose ISBN a list lacks is not in it. */
  lemma UnlistedIsbn(lib: seq<Libro>, l: Libro)
    requires l.isbn !in Isbns(lib)
    ensures l !in lib
  {
    forall i | 0 <= i < |lib| ensures lib[i] != l {
      assert Isbns(lib)[i] == lib[i].isbn;
    }
  }

  /** A patron whose matricola a list lacks is not in it. */
  lemma UnlistedMatricola(cli: seq<Utente>, u: Utente)
    requires u.matricola !in Matricole(cli)
    ensures u !in cli
  {
    forall i | 0 <= i < |cli| ensures cli[i] != u {
      assert Matricole(cli)[i] == cli[i].matricola;
    }
  }

  /** What the counters then say: no book has more available copies than
   *  it owns, no patron holds a negative number of loans or more than three,
   *  and "in prestito" for a book or a patron means exactly that some loan
   *  refers to it. */
  lemma ConsistentCounters(lib: seq<Libro>, cli: seq<Utente>, ps: seq<Prestito>)
    requires Consistent(lib, cli, ps)
    ensures forall i :: 0 <= i < |lib| ==>
              && lib[i].numCopieDisponibili <= lib[i].numCopieTotali
              && (lib[i].IsLibroInPrestito() <==> exists j :: 0 <= j < |ps| && ps[j].libro == lib[i])
    ensures forall i :: 0 <= i < |cli| ==>
              && 0 <= cli[i].numPrestitiAttivi <= 3
              && (cli[i].InPrestito() <==> exists j :: 0 <= j < |ps| && ps[j].utente == cli[i])
  {
    forall i | 0 <= i < |lib|
      ensures lib[i].numCopieDisponibili <= lib[i].numCopieTotali
      ensures lib[i].IsLibroInPrestito() <==> exists j :: 0 <= j < |ps| && ps[j].libro == lib[i]
    {
      BookCounters(lib[i], ps);
    }
    forall i | 0 <= i < |cli|
      ensures 0 <= cli[i].numPrestitiAttivi <= 3
      ensures cli[i].InPrestito() <==> exists j :: 0 <= j < |ps| && ps[j].utente == cli[i]
    {
      PatronCounters(cli[i], ps);
    }
  }

  lemma BookCounters(b: Libro, ps: seq<Prestito>)
    requires Balanced(b, ps)
    ensures b.numCopieDisponibili <= b.numCopieTotali
    ensures b.IsLibroInPrestito() <==> exists j :: 0 <= j < |ps| && ps[j].libro == b
  {
    if b.IsLibroInPrestito() {
      var j := IndexOf(LoanBooks(ps), b);
      assert ps[j].libro == b;
    } else {
      forall j | 0 <= j < |ps| ensures ps[j].libro != b {
        assert LoanBooks(ps)[j] == ps[j].libro;
      }
    }
  }

  lemma PatronCounters(u: Utente, ps: seq<Prestito>)
    requires WithinLimit(u, ps)
    ensures 0 <= u.numPrestitiAttivi <= 3
    ensures u.InPrestito() <==> exists j :: 0 <= j < |ps| && ps[j].utente == u
  {
    if u.InPrestito() {
      var j := IndexOf(LoanPatrons(ps), u);
      assert ps[j].utente == u;
    } else {
      forall j | 0 <= j < |ps| ensures ps[j].utente != u {
        assert LoanPatrons(ps)[j] == ps[j].utente;
      }
    }
  }

  /** A book out on some loan has fewer copies available than it owns, and
   *  a patron holding some loan has at least one counted. */
  lemma LoanedCountersRoom(lib: seq<Libro>, cli: seq<Utente>, ps: seq<Prestito>, i: nat)
    requires Consistent(lib, cli, ps) && i < |ps|
    ensures ps[i].libro.numCopieDisponibili < ps[i].libro.numCopieTotali
    ensures ps[i].utente.numPrestitiAttivi >= 1
  {
    var jb :| 0 <= jb < |lib| && lib[jb] == ps[i].libro;
    var ju :| 0 <= ju < |cli| && cli[ju] == ps[i].utente;
    BookOnLoan(lib[jb], ps, i);
    PatronOnLoan(cli[ju], ps, i);
  }

  /** What the predicates the operations test mean in consistent records:
   *  a listed book is available exactly when fewer copies are out than it
   *  owns and "in prestito" exactly when some are out; a listed patron is
   *  at the limit exactly when they hold three loans and "in prestito"
   *  exactly when they hold one. */
  lemma LoanGates(lib: seq<Libro>, cli: seq<Utente>, ps: seq<Prestito>, b: Libro, u: Utente)
    requires Consistent(lib, cli, ps) && b in lib && u in cli
    ensures b.IsDisponibile() <==> LoansOf(ps, b) < b.numCopieTotali
    ensures b.IsLibroInPrestito() <==> LoansOf(ps, b) > 0
    ensures u.LimitePrestiti() <==> LoansBy(ps, u) == 3
    ensures u.InPrestito() <==> LoansBy(ps, u) > 0
  {
    var i :| 0 <= i < |lib| && lib[i] == b;
    var j :| 0 <= j < |cli| && cli[j] == u;
    assert Balanced(lib[i], ps) && WithinLimit(cli[j], ps);
  }

  lemma BookOnLoan(b: Libro, ps: seq<Prestito>, i: nat)
    requires Balanced(b, ps) && i < |ps| && ps[i].libro == b
    ensures b.numCopieDisponibili < b.numCopieTotali
  {
    assert LoanBooks(ps)[i] == b;
  }

  lemma PatronOnLoan(u: Utente, ps: seq<Prestito>, i: nat)
    requires WithinLimit(u, ps) && i < |ps| && ps[i].utente == u
    ensures u.numPrestitiAttivi >= 1
  {
    assert LoanPatrons(ps)[i] == u;
  }

  /** A new book with every copy available can join a consistent catalogue
   *  when its ISBN is new. */
  lemma ConsistentAddBook(lib: seq<Libro>, cli: seq<Utente>, ps: seq<Prestito>, l: Libro)
    requires Consistent(lib, cli, ps)
    requires l !in lib && l.isbn !in Isbns(lib) && l.numCopieDisponibili == l.numCopieTotali
    ensures Consistent(lib + [l], cli, ps)
  {
    var lib' := lib + [l];
    assert Isbns(lib') == Isbns(lib) + [l.isbn];
    DistinctAppend(Isbns(lib), l.isbn);
    assert LoansOf(ps, l) == 0 by {
      assert forall j :: 0 <= j < |ps| ==> LoanBooks(ps)[j] != l;
    }
    forall i | 0 <= i < |lib'| ensures Balanced(lib'[i], ps) {
      if i < |lib| {
        assert lib'[i] == lib[i];
      }
    }
  }

  /** A new patron with no loans can join consistent records when the
   *  matricola is new. */
  lemma ConsistentAddPatron(lib: seq<Libro>, cli: seq<Utente>, ps: seq<Prestito>, u: Utente)
    requires Consistent(lib, cli, ps)
    requires u !in cli && u.matricola !in Matricole(cli) && u.numPrestitiAttivi == 0
    ensures Consistent(lib, cli + [u], ps)
  {
    var cli' := cli + [u];
    assert Matricole(cli') == Matricole(cli) + [u.matricola];
    DistinctAppend(Matricole(cli), u.matricola);
    assert LoansBy(ps, u) == 0 by {
      assert forall j :: 0 <= j < |ps| ==> LoanPatrons(ps)[j] != u;
    }
    forall i | 0 <= i < |cli'| ensures WithinLimit(cli'[i], ps) {
      if i < |cli| {
        assert cli'[i] == cli[i];
      }
    }
  }

  /** A book no loan refers to can leave consistent records. */
  lemma ConsistentRemoveBook(lib: seq<Libro>, cli: seq<Utente>, ps: seq<Prestito>, k: nat)
    requires Consistent(lib, cli, ps)
    requires k < |lib| && LoansOf(ps, lib[k]) == 0
    ensures Consistent(RemoveAt(lib, k), cli, ps)
  {
    var r := RemoveAt(lib, k);
    IsbnsRemoveAt(lib, k);
    DistinctRemoveAt(Isbns(lib), k);
    forall j | 0 <= j < |ps| ensures ps[j].libro in r {
      assert LoanBooks(ps)[j] != lib[k];
      InRemoveAt(lib, k, ps[j].libro);
    }
    forall i | 0 <= i < |r| ensures Balanced(r[i], ps) {
      assert r[i] == lib[if i < k then i else i + 1];
    }
  }

  /** A patron holding no loan can leave consistent records. */
  lemma ConsistentRemovePatron(lib: seq<Libro>, cli: seq<Utente>, ps: seq<Prestito>, k: nat)
    requires Consistent(lib, cli, ps)
    requires k < |cli| && LoansBy(ps, cli[k]) == 0
    ensures Consistent(lib, RemoveAt(cli, k), ps)
  {
    var r := RemoveAt(cli, k);
    MatricoleRemoveAt(cli, k);
    DistinctRemoveAt(Matricole(cli), k);
    forall j | 0 <= j < |ps| ensures ps[j].utente in r {
      assert LoanPatrons(ps)[j] != cli[k];
      InRemoveAt(cli, k, ps[j].utente);
    }
    forall i | 0 <= i < |r| ensures WithinLimit(r[i], ps) {
      assert r[i] == cli[if i < k then i else i + 1];
    }
  }

  /** Every book keeps its ISBN and total, and all but `l` their available
   *  count. */
  twostate predicate SameBooksBut(lib: seq<Libro>, new l: Libro)
    reads lib
  {
    forall i :: 0 <= i < |lib| ==>
      && lib[i].isbn == old(lib[i].isbn)
      && lib[i].numCopieTotali == old(lib[i].numCopieTotali)
      && (lib[i] != l ==> lib[i].numCopieDisponibili == old(lib[i].numCopieDisponibili))
  }

  /** Every patron keeps the matricola, and all but `u` their loan count. */
  twostate predicate SamePatronsBut(cli: seq<Utente>, new u: Utente)
    reads cli
  {
    forall i :: 0 <= i < |cli| ==>
      && cli[i].matricola == old(cli[i].matricola)
      && (cli[i] != u ==> cli[i].numPrestitiAttivi == old(cli[i].numPrestitiAttivi))
  }

  twostate lemma BooksKeptListed(lib: seq<Libro>, new l: Libro)
    requires forall b :: b in lib ==>
               && b.isbn == old(b.isbn)
               && b.numCopieTotali == old(b.numCopieTotali)
               && (b != l ==> b.numCopieDisponibili == old(b.numCopieDisponibili))
    ensures SameBooksBut(lib, l)
  {
  }

  twostate lemma PatronsKeptListed(cli: seq<Utente>, new u: Utente)
    requires forall c :: c in cli ==>
               && c.matricola == old(c.matricola)
               && (c != u ==> c.numPrestitiAttivi == old(c.numPrestitiAttivi))
    ensures SamePatronsBut(cli, u)
  {
  }

  /** While the loans stay put, so do their columns, and so do the books'
   *  and patrons' keys. */
  twostate lemma SameColumns(lib: seq<Libro>, new cli: seq<Utente>, new ps: seq<Prestito>, new l: Libro, new u: Utente)
    requires old(allocated(cli)) && old(allocated(ps))
    requires unchanged(ps) && SameBooksBut(lib, l) && SamePatronsBut(cli, u)
    ensures Isbns(lib) == old(Isbns(lib))
    ensures Matricole(cli) == old(Matricole(cli))
    ensures LoanBooks(ps) == old(LoanBooks(ps))
    ensures LoanPatrons(ps) == old(LoanPatrons(ps))
    ensures LoanRefs(ps) == old(LoanRefs(ps))
  {
  }

  /** Recording a new loan `p` of listed book `l` to listed patron `u`, with
   *  one copy fewer available and one loan more for the patron, keeps the
   *  records consistent; `old` is the state just before the counters move. */
  twostate lemma ConsistentAddLoan(lib: seq<Libro>, new cli: seq<Utente>, new ps: seq<Prestito>,
                                   new p: Prestito, new l: Libro, new u: Utente)
    requires old(allocated(cli)) && old(allocated(ps))
    requires old(Consistent(lib, cli, ps))
    requires (u, l, p.dataRestituzione) !in old(LoanRefs(ps))
    requires l in lib && u in cli
    requires unchanged(ps) && p.libro == l && p.utente == u
    requires old(l.numCopieDisponibili) > 0 && l.numCopieDisponibili == old(l.numCopieDisponibili) - 1
    requires old(u.numPrestitiAttivi) < 3 && u.numPrestitiAttivi == old(u.numPrestitiAttivi) + 1
    requires SameBooksBut(lib, l) && SamePatronsBut(cli, u)
    ensures Consistent(lib, cli, ps + [p])
  {
    SameColumns(lib, cli, ps, l, u);
    RefsAppend(lib, cli, ps, p);
    DistinctRefsAppend(ps, p);
    LoanAddedKeepsCounts(ps, p);
    BooksBalancedAfterAdd(lib, ps, p, l);
    PatronsWithinLimitAfterAdd(cli, ps, p, u);
  }

  /** With every loan, key and counter as it was, consistent records stay
   *  consistent. */
  twostate lemma ConsistentKeepCounters(lib: seq<Libro>, new cli: seq<Utente>, new ps: seq<Prestito>,
                                        new l: Libro, new u: Utente)
    requires old(allocated(cli)) && old(allocated(ps)) && old(allocated(l)) && old(allocated(u))
    requires old(Consistent(lib, cli, ps)) && unchanged(ps)
    requires l.numCopieDisponibili == old(l.numCopieDisponibili)
    requires u.numPrestitiAttivi == old(u.numPrestitiAttivi)
    requires SameBooksBut(lib, l) && SamePatronsBut(cli, u)
    ensures Consistent(lib, cli, ps)
  {
    SameColumns(lib, cli, ps, l, u);
    forall i | 0 <= i < |lib| ensures Balanced(lib[i], ps) {
      BalancedKept(lib[i], ps);
    }
    forall i | 0 <= i < |cli| ensures WithinLimit(cli[i], ps) {
      WithinLimitKept(cli[i], ps);
    }
  }

  twostate lemma BalancedKept(b: Libro, new ps: seq<Prestito>)
    requires old(allocated(ps))
    requires old(Balanced(b, ps)) && unchanged(ps)
    requires b.numCopieTotali == old(b.numCopieTotali)
    requires b.numCopieDisponibili == old(b.numCopieDisponibili)
    ensures Balanced(b, ps)
  {
    assert LoansOf(ps, b) == old(LoansOf(ps, b));
  }

  twostate lemma WithinLimitKept(c: Utente, new ps: seq<Prestito>)
    requires old(allocated(ps))
    requires old(WithinLimit(c, ps)) && unchanged(ps)
    requires c.numPrestitiAttivi == old(c.numPrestitiAttivi)
    ensures WithinLimit(c, ps)
  {
    assert LoansBy(ps, c) == old(LoansBy(ps, c));
  }

  /** Appending a loan on a listed book by a listed patron keeps every
   *  loan's book and patron listed. */
  lemma RefsAppend(lib: seq<Libro>, cli: seq<Utente>, ps: seq<Prestito>, p: Prestito)
    requires forall i :: 0 <= i < |ps| ==> ps[i].libro in lib && ps[i].utente in cli
    requires p.libro in lib && p.utente in cli
    ensures forall i :: 0 <= i < |ps| + 1 ==> (ps + [p])[i].libro in lib && (ps + [p])[i].utente in cli
  {
    forall i | 0 <= i < |ps| + 1 ensures (ps + [p])[i].libro in lib && (ps + [p])[i].utente in cli {
      if i < |ps| {
        assert (ps + [p])[i] == ps[i];
      }
    }
  }

  /** Appending a loan with a patron, book and date no loan has keeps them
   *  unique. */
  lemma DistinctRefsAppend(ps: seq<Prestito>, p: Prestito)
    requires Distinct(LoanRefs(ps)) && (p.utente, p.libro, p.dataRestituzione) !in LoanRefs(ps)
    ensures Distinct(LoanRefs(ps + [p]))
  {
    LoanRefsAppend(ps, p);
    DistinctAppend(LoanRefs(ps), (p.utente, p.libro, p.dataRestituzione));
  }

  twostate lemma BooksBalancedAfterAdd(lib: seq<Libro>, new ps: seq<Prestito>, new p: Prestito, new l: Libro)
    requires old(allocated(ps)) && old(allocated(l))
    requires old(forall i :: 0 <= i < |lib| ==> Balanced(lib[i], ps))
    requires unchanged(ps) && p.libro == l
    requires old(l.numCopieDisponibili) > 0 && l.numCopieDisponibili == old(l.numCopieDisponibili) - 1
    requires SameBooksBut(lib, l)
    ensures forall i :: 0 <= i < |lib| ==> Balanced(lib[i], ps + [p])
  {
    forall i | 0 <= i < |lib| ensures Balanced(lib[i], ps + [p]) {
      BalancedAfterAdd(lib[i], ps, p);
    }
  }

  twostate lemma PatronsWithinLimitAfterAdd(cli: seq<Utente>, new ps: seq<Prestito>, new p: Prestito, new u: Utente)
    requires old(allocated(cli)) && old(allocated(ps)) && old(allocated(u))
    requires old(forall i :: 0 <= i < |cli| ==> WithinLimit(cli[i], ps))
    requires unchanged(ps) && p.utente == u
    requires old(u.numPrestitiAttivi) < 3 && u.numPrestitiAttivi == old(u.numPrestitiAttivi) + 1
    requires SamePatronsBut(cli, u)
    ensures forall i :: 0 <= i < |cli| ==> WithinLimit(cli[i], ps + [p])
  {
    forall i | 0 <= i < |cli| ensures WithinLimit(cli[i], ps + [p]) {
      WithinLimitAfterAdd(cli[i], ps, p);
    }
  }

  twostate lemma BalancedAfterAdd(b: Libro, new ps: seq<Prestito>, new p: Prestito)
    requires old(allocated(ps))
    requires old(Balanced(b, ps)) && unchanged(ps)
    requires b.numCopieTotali == old(b.numCopieTotali)
    requires p.libro != b ==> b.numCopieDisponibili == old(b.numCopieDisponibili)
    requires p.libro == b ==> old(b.numCopieDisponibili) > 0 && b.numCopieDisponibili == old(b.numCopieDisponibili) - 1
    ensures Balanced(b, ps + [p])
  {
    assert LoansOf(ps, b) == old(LoansOf(ps, b));
    LoanAddedKeepsCounts(ps, p);
  }

  twostate lemma WithinLimitAfterAdd(c: Utente, new ps: seq<Prestito>, new p: Prestito)
    requires old(allocated(ps))
    requires old(WithinLimit(c, ps)) && unchanged(ps)
    requires p.utente != c ==> c.numPrestitiAttivi == old(c.numPrestitiAttivi)
    requires p.utente == c ==> old(c.numPrestitiAttivi) < 3 && c.numPrestitiAttivi == old(c.numPrestitiAttivi) + 1
    ensures WithinLimit(c, ps + [p])
  {
    assert LoansBy(ps, c) == old(LoansBy(ps, c));
    LoanAddedKeepsCounts(ps, p);
  }

  /** Taking back loan `k`, with one copy more available for its book and one
   *  loan fewer for its patron, keeps the records consistent. */
  twostate lemma ConsistentRemoveLoan(lib: seq<Libro>, new cli: seq<Utente>, new ps: seq<Prestito>, new k: nat,
                                      new l: Libro, new u: Utente)
    requires old(allocated(cli)) && old(allocated(ps))
    requires old(Consistent(lib, cli, ps))
    requires k < |ps| && unchanged(ps) && ps[k].libro == l && ps[k].utente == u
    requires l.numCopieDisponibili == old(l.numCopieDisponibili) + 1
    requires u.numPrestitiAttivi == old(u.numPrestitiAttivi) - 1
    requires SameBooksBut(lib, l) && SamePatronsBut(cli, u)
    ensures Consistent(lib, cli, RemoveAt(ps, k))
  {
    SameColumns(lib, cli, ps, l, u);
    RefsRemoveAt(lib, cli, ps, k);
    DistinctRefsRemoveAt(ps, k);
    BooksBalancedAfterRemove(lib, ps, k, l);
    PatronsWithinLimitAfterRemove(cli, ps, k, u);
  }

  /** Dropping a loan keeps every remaining loan's book and patron listed. */
  lemma RefsRemoveAt(lib: seq<Libro>, cli: seq<Utente>, ps: seq<Prestito>, k: nat)
    requires k < |ps|
    requires forall i :: 0 <= i < |ps| ==> ps[i].libro in lib && ps[i].utente in cli
    ensures forall i :: 0 <= i < |ps| - 1 ==> RemoveAt(ps, k)[i].libro in lib && RemoveAt(ps, k)[i].utente in cli
  {
  }

  lemma DistinctRefsRemoveAt(ps: seq<Prestito>, k: nat)
    requires k < |ps| && Distinct(LoanRefs(ps))
    ensures Distinct(LoanRefs(RemoveAt(ps, k)))
  {
    LoanRefsRemoveAt(ps, k);
    DistinctRemoveAt(LoanRefs(ps), k);
  }

  lemma LoanRefsAppend(ps: seq<Prestito>, p: Prestito)
    ensures LoanRefs(ps + [p]) == LoanRefs(ps) + [(p.utente, p.libro, p.dataRestituzione)]
  {
    var a, b := LoanRefs(ps + [p]), LoanRefs(ps) + [(p.utente, p.libro, p.dataRestituzione)];
    forall i | 0 <= i < |a| ensures a[i] == b[i] {
      if i < |ps| {
        assert (ps + [p])[i] == ps[i];
      }
    }
  }

  lemma LoanRefsRemoveAt(ps: seq<Prestito>, k: nat)
    requires k < |ps|
    ensures LoanRefs(RemoveAt(ps, k)) == RemoveAt(LoanRefs(ps), k)
  {
    var a, b := LoanRefs(RemoveAt(ps, k)), RemoveAt(LoanRefs(ps), k);
    forall i | 0 <= i < |a| ensures a[i] == b[i] {
      assert RemoveAt(ps, k)[i] == ps[if i < k then i else i + 1];
    }
  }

  twostate lemma BooksBalancedAfterRemove(lib: seq<Libro>, new ps: seq<Prestito>, new k: nat, new l: Libro)
    requires old(allocated(ps))
    requires old(forall i :: 0 <= i < |lib| ==> Balanced(lib[i], ps))
    requires k < |ps| && ps[k].libro == l && unchanged(ps)
    requires l.numCopieDisponibili == old(l.numCopieDisponibili) + 1
    requires SameBooksBut(lib, l)
    ensures forall i :: 0 <= i < |lib| ==> Balanced(lib[i], RemoveAt(ps, k))
  {
    forall i | 0 <= i < |lib| ensures Balanced(lib[i], RemoveAt(ps, k)) {
      BalancedAfterRemove(lib[i], ps, k);
    }
  }

  twostate lemma PatronsWithinLimitAfterRemove(cli: seq<Utente>, new ps: seq<Prestito>, new k: nat, new u: Utente)
    requires old(allocated(cli)) && old(allocated(ps))
    requires old(forall i :: 0 <= i < |cli| ==> WithinLimit(cli[i], ps))
    requires k < |ps| && ps[k].utente == u && unchanged(ps)
    requires u.numPrestitiAttivi == old(u.numPrestitiAttivi) - 1
    requires SamePatronsBut(cli, u)
    ensures forall i :: 0 <= i < |cli| ==> WithinLimit(cli[i], RemoveAt(ps, k))
  {
    forall i | 0 <= i < |cli| ensures WithinLimit(cli[i], RemoveAt(ps, k)) {
      WithinLimitAfterRemove(cli[i], ps, k);
    }
  }

  twostate lemma BalancedAfterRemove(b: Libro, new ps: seq<Prestito>, new k: nat)
    requires old(allocated(ps))
    requires k < |ps| && old(Balanced(b, ps)) && unchanged(ps)
    requires b.numCopieTotali == old(b.numCopieTotali)
    requires ps[k].libro != b ==> b.numCopieDisponibili == old(b.numCopieDisponibili)
    requires ps[k].libro == b ==> b.numCopieDisponibili == old(b.numCopieDisponibili) + 1
    ensures Balanced(b, RemoveAt(ps, k))
  {
    assert LoansOf(ps, b) == old(LoansOf(ps, b));
    LoanRemovedKeepsCounts(ps, k);
    if ps[k].libro == b {
      assert LoanBooks(ps)[k] == b;
    }
  }

  twostate lemma WithinLimitAfterRemove(c: Utente, new ps: seq<Prestito>, new k: nat)
    requires old(allocated(ps))
    requires k < |ps| && old(WithinLimit(c, ps)) && unchanged(ps)
    requires ps[k].utente != c ==> c.numPrestitiAttivi == old(c.numPrestitiAttivi)
    requires ps[k].utente == c ==> c.numPrestitiAttivi == old(c.numPrestitiAttivi) - 1
    ensures WithinLimit(c, RemoveAt(ps, k))
  {
    assert LoansBy(ps, c) == old(LoansBy(ps, c));
    LoanRemovedKeepsCounts(ps, k);
    if ps[k].utente == c {
      assert LoanPatrons(ps)[k] == c;
    }
  }

  lemma LoanKeysAppend(ps: seq<Prestito>, p: Prestito)
    ensures LoanKeys(ps + [p]) == LoanKeys(ps) + [p.Key()]
  {
    assert forall i :: 0 <= i < |ps| ==> (ps + [p])[i] == ps[i];
  }

  /** Appending a loan adds one to its book's and its patron's loan counts
   *  and leaves every other count alone. */
  lemma LoanAddedKeepsCounts(ps: seq<Prestito>, p: Prestito)
    ensures forall b: Libro {:trigger LoansOf(ps + [p], b)} ::
              LoansOf(ps + [p], b) == LoansOf(ps, b) + (if p.libro == b then 1 else 0)
    ensures forall u: Utente {:trigger LoansBy(ps + [p], u)} ::
              LoansBy(ps + [p], u) == LoansBy(ps, u) + (if p.utente == u then 1 else 0)
  {
    assert LoanBooks(ps + [p]) == LoanBooks(ps) + [p.libro];
    assert LoanPatrons(ps + [p]) == LoanPatrons(ps) + [p.utente];
    forall b: Libro {
      CountAppend(LoanBooks(ps), p.libro, b);
    }
    forall u: Utente {
      CountAppend(LoanPatrons(ps), p.utente, u);
    }
  }

  /** Removing a loan takes one from its book's and its patron's loan counts
   *  and leaves every other count alone. */
  lemma LoanRemovedKeepsCounts(ps: seq<Prestito>, k: nat)
    requires k < |ps|
    ensures forall b: Libro {:trigger LoansOf(RemoveAt(ps, k), b)} ::
              LoansOf(RemoveAt(ps, k), b) == LoansOf(ps, b) - (if ps[k].libro == b then 1 else 0)
    ensures forall u: Utente {:trigger LoansBy(RemoveAt(ps, k), u)} ::
              LoansBy(RemoveAt(ps, k), u) == LoansBy(ps, u) - (if ps[k].utente == u then 1 else 0)
  {
    assert LoanBooks(RemoveAt(ps, k)) == RemoveAt(LoanBooks(ps), k);
    assert LoanPatrons(RemoveAt(ps, k)) == RemoveAt(LoanPatrons(ps), k);
    forall b: Libro {
      CountRemoveAt(LoanBooks(ps), k, b);
    }
    forall u: Utente {
      CountRemoveAt(LoanPatrons(ps), k, u);
    }
  }

  // ============================================================ view updates

  /** `view.set(view.indexOf(l), l)`: the entry equal to `l` is replaced by
   *  `l` itself; with no equal entry `indexOf` gives -1 and `set` throws. */
  function SetLibro(s: seq<Libro>, l: Libro): (r: Result<seq<Libro>>)
    reads s`isbn, l`isbn
    ensures r.Err? <==> l.isbn !in Isbns(s)
    ensures r.Err? ==> r.exc == IndexOutOfBounds(-1)
    ensures r.Ok? ==> |r.value| == |s| && l in r.value && Isbns(r.value) == Isbns(s)
  {
    var k := IndexOf(Isbns(s), l.isbn);
    if k < 0 then Err(IndexOutOfBounds(k))
    else
      IsbnsUpdate(s, k, l);
      Ok(s[k := l])
  }

  /** `view.set(view.indexOf(u), u)` on the patron list. */
  function SetUtente(s: seq<Utente>, u: Utente): (r: Result<seq<Utente>>)
    reads s`matricola, u`matricola
    ensures r.Err? <==> u.matricola !in Matricole(s)
    ensures r.Err? ==> r.exc == IndexOutOfBounds(-1)
    ensures r.Ok? ==> |r.value| == |s| && u in r.value && Matricole(r.value) == Matricole(s)
  {
    var k := IndexOf(Matricole(s), u.matricola);
    if k < 0 then Err(IndexOutOfBounds(k))
    else
      MatricoleUpdate(s, k, u);
      Ok(s[k := u])
  }

  lemma IsbnsUpdate(s: seq<Libro>, k: nat, l: Libro)
    requires k < |s| && s[k].isbn == l.isbn
    ensures Isbns(s[k := l]) == Isbns(s)
  {
    var r := s[k := l];
    assert forall i :: 0 <= i < |s| ==> Isbns(r)[i] == Isbns(s)[i];
  }

  lemma MatricoleUpdate(s: seq<Utente>, k: nat, u: Utente)
    requires k < |s| && s[k].matricola == u.matricola
    ensures Matricole(s[k := u]) == Matricole(s)
  {
    var r := s[k := u];
    assert forall i :: 0 <= i < |s| ==> Matricole(r)[i] == Matricole(s)[i];
  }

  /** Replacing a listed book by itself leaves a list with unique ISBNs as it is. */
  lemma SetLibroListed(s: seq<Libro>, l: Libro)
    requires l in s && Distinct(Isbns(s))
    ensures SetLibro(s, l) == Ok(s)
  {
    var i :| 0 <= i < |s| && s[i] == l;
    IndexOfDistinct(Isbns(s), i);
    assert s[i := l] == s;
  }

  lemma SetUtenteListed(s: seq<Utente>, u: Utente)
    requires u in s && Distinct(Matricole(s))
    ensures SetUtente(s, u) == Ok(s)
  {
    var i :| 0 <= i < |s| && s[i] == u;
    IndexOfDistinct(Matricole(s), i);
    assert s[i := u] == s;
  }

  // ============================================================ search

  /** The book filter: every book for a null or empty query; otherwise the
   *  books whose title, author list text or ISBN contains the lower-cased
   *  query once lower-cased. */
  predicate LibroMatches(l: Libro, search: Option<string>)
    reads l, l.autori
  {
    || search.None?
    || search.value == []
    || var q := ToLower(search.value);
       || Contains(ToLower(l.titolo), q)
       || Contains(ToLower(AuthorsText(l.autori)), q)
       || Contains(ToLower(l.isbn), q)
  }

  /** The patron filter: every patron for a null or empty query; otherwise
   *  those whose surname or matricola contains it, both lower-cased. */
  predicate UtenteMatches(u: Utente, search: Option<string>)
    reads u
  {
    || search.None?
    || search.value == []
    || var q := ToLower(search.value);
       Contains(ToLower(u.cognome), q) || Contains(ToLower(u.matricola), q)
  }

  /** Every author of every listed book. */
  function AutoriOf(s: seq<Libro>): set<Autore>
    reads s
  {
    if s == [] then {} else (set a | a in s[0].autori) + AutoriOf(s[1..])
  }

  /** The books of `s` the filter keeps, in their order. */
  function FilterLibri(s: seq<Libro>, search: Option<string>): (r: seq<Libro>)
    reads s, AutoriOf(s)
    ensures |r| <= |s|
    ensures forall i :: 0 <= i < |r| ==> r[i] in s && LibroMatches(r[i], search)
    ensures forall i :: 0 <= i < |s| && LibroMatches(s[i], search) ==> s[i] in r
  {
    if s == [] then []
    else (if LibroMatches(s[0], search) then [s[0]] else []) + FilterLibri(s[1..], search)
  }

  /** The patrons of `s` the filter keeps, in their order. */
  function FilterUtenti(s: seq<Utente>, search: Option<string>): (r: seq<Utente>)
    reads s
    ensures |r| <= |s|
    ensures forall i :: 0 <= i < |r| ==> r[i] in s && UtenteMatches(r[i], search)
    ensures forall i :: 0 <= i < |s| && UtenteMatches(s[i], search) ==> s[i] in r
  {
    if s == [] then []
    else (if UtenteMatches(s[0], search) then [s[0]] else []) + FilterUtenti(s[1..], search)
  }

  /** A null or empty query keeps the whole list, in order. */
  lemma {:induction false} FilterLibriKeepsAll(s: seq<Libro>, search: Option<string>)
    requires search.None? || search == Some("")
    ensures FilterLibri(s, search) == s
  {
    if s != [] {
      FilterLibriKeepsAll(s[1..], search);
      assert s == [s[0]] + s[1..];
    }
  }

  lemma {:induction false} FilterUtentiKeepsAll(s: seq<Utente>, search: Option<string>)
    requires search.None? || search == Some("")
    ensures FilterUtenti(s, search) == s
  {
    if s != [] {
      FilterUtentiKeepsAll(s[1..], search);
      assert s == [s[0]] + s[1..];
    }
  }

  /** The filter keeps order: filtering two lists one after the other is
   *  filtering their concatenation. */
  lemma {:induction false} FilterLibriAppend(s: seq<Libro>, t: seq<Libro>, search: Option<string>)
    ensures FilterLibri(s + t, search) == FilterLibri(s, search) + FilterLibri(t, search)
    decreases |s|
  {
    if s == [] {
      assert s + t == t;
    } else {
      var st := s + t;
      assert st[0] == s[0] && st[1..] == s[1..] + t;
      FilterLibriAppend(s[1..], t, search);
    }
  }

  lemma {:induction false} FilterUtentiAppend(s: seq<Utente>, t: seq<Utente>, search: Option<string>)
    ensures FilterUtenti(s + t, search) == FilterUtenti(s, search) + FilterUtenti(t, search)
    decreases |s|
  {
    if s == [] {
      assert s + t == t;
    } else {
      var st := s + t;
      assert st[0] == s[0] && st[1..] == s[1..] + t;
      FilterUtentiAppend(s[1..], t, search);
    }
  }

  // ============================================================ Biblioteca

  class Biblioteca {
    const libreria: Libreria
    const clienti: Clienti
    const prestiti: Prestiti
    /** The lists the screens show, kept in step with the registries. */
    var obLibreria: seq<Libro>
    var obClienti: seq<Utente>
    var obPrestiti: seq<Prestito>
    /** The queries of the two filtered lists; `None` keeps everything. */
    var filtroLibri: Option<string>
    var filtroUtenti: Option<string>

    /** The patron and loan registries have a list (the constructor gives
     *  them one and nothing takes it away). */
    predicate Ready()
      reads this, clienti, prestiti
    {
      clienti.clienti.Some? && prestiti.prestiti.Some?
    }

    /** Each registry holds what its screen list shows, and the three lists
     *  are consistent: unique keys, loans on listed books by listed patrons,
     *  counters that agree with the loans. */
    ghost predicate Valid()
      reads this, libreria, clienti, prestiti, obLibreria, obClienti, obPrestiti
    {
      && libreria.libreria == obLibreria
      && clienti.clienti == Some(obClienti)
      && prestiti.prestiti == Some(obPrestiti)
      && Consistent(obLibreria, obClienti, obPrestiti)
    }

    /** Validity depends on the registries and the listed objects alone. */
    twostate lemma ValidFrame()
      requires unchanged(this, libreria, clienti, prestiti)
      requires unchanged(old(obLibreria)) && unchanged(old(obClienti)) && unchanged(old(obPrestiti))
      ensures old(Valid()) ==> Valid()
    {
      if old(Valid()) {
        ConsistentFrame(obLibreria, obClienti, obPrestiti);
      }
    }

    /** Starts from three empty registries (what it does when there is no
     *  saved file). */
    constructor ()
      ensures fresh(libreria) && fresh(clienti) && fresh(prestiti)
      ensures obLibreria == [] && obClienti == [] && obPrestiti == []
      ensures filtroLibri == None && filtroUtenti == None
      ensures Ready() && Valid()
    {
      libreria := new Libreria(Some([]));
      clienti := new Clienti(Some([]));
      prestiti := new Prestiti(Some([]));
      obLibreria := [];
      obClienti := [];
      obPrestiti := [];
      filtroLibri := None;
      filtroUtenti := None;
    }

    /** The book list as filtered on screen. */
    function FlLibreria(): seq<Libro>
      reads this, obLibreria, AutoriOf(obLibreria)
    {
      FilterLibri(obLibreria, filtroLibri)
    }

    /** The patron list as filtered on screen. */
    function FlClienti(): seq<Utente>
      reads this, obClienti
    {
      FilterUtenti(obClienti, filtroUtenti)
    }

    /** Sets the book query. */
    method FiltraLibri(search: Option<string>)
      modifies this`filtroLibri
      ensures filtroLibri == search
      ensures forall l :: l in FlLibreria() <==> l in obLibreria && LibroMatches(l, search)
      ensures search.None? || search == Some("") ==> FlLibreria() == obLibreria
    {
      filtroLibri := search;
      if search.None? || search == Some("") {
        FilterLibriKeepsAll(obLibreria, search);
      }
    }

    /** Sets the patron query. */
    method FiltraUtenti(search: Option<string>)
      modifies this`filtroUtenti
      ensures filtroUtenti == search
      ensures forall u :: u in FlClienti() <==> u in obClienti && UtenteMatches(u, search)
      ensures search.None? || search == Some("") ==> FlClienti() == obClienti
    {
      filtroUtenti := search;
      if search.None? || search == Some("") {
        FilterUtentiKeepsAll(obClienti, search);
      }
    }

    /** Decides the book fields, checking the authors one by one. */
    method CheckValiditaCampiLibro(titolo: string, autori: seq<Autore>, anno: Int32, isbn: string,
                                   copieTot: Int32, copieDisp: Int32) returns (ok: bool)
      ensures ok <==> CampiLibroValidi(titolo, autori, anno, isbn, copieTot, copieDisp)
    {
      if !IsbnValid(isbn) || copieTot < copieDisp || anno <= 0 || !TitleValid(titolo) {
        return false;
      }
      for i := 0 to |autori|
        invariant forall j :: 0 <= j < i ==> AutoreValid(autori[j])
      {
        if !NameValid(Trim(autori[i].nome)) || !NameValid(Trim(autori[i].cognome)) {
          return false;
        }
      }
      return true;
    }

    /** Decides the patron fields: names untrimmed, a ten-digit matricola,
     *  a student e-mail and a non-negative count. */
    function CheckValiditaCampiUtente(nome: string, cognome: string, matricola: string, email: string,
                                      numPrestitiAttivi: int): (ok: bool)
      ensures ok <==> && NameValid(nome) && NameValid(cognome) && MatricolaValid(matricola)
                      && EmailMatches(email) && numPrestitiAttivi >= 0
    {
      EmailValidIff(email);
      NameValid(nome) && NameValid(cognome) && MatricolaValid(matricola) && EmailValid(email)
      && numPrestitiAttivi >= 0
    }


    // ---------------------------------------------------------- books

    /** Catalogues a new book: valid fields and a new ISBN, else an
     *  exception and no change. The book has no authors and every copy
     *  available. */
    method AggiungiLibro(titolo: string, autori: seq<Autore>, anno: Int32, isbn: string,
                         copieTot: Int32, copieDisp: Int32) returns (st: Status)
      requires Ready()
      modifies this`obLibreria, libreria
      ensures Ready()
      ensures !CampiLibroValidi(titolo, autori, anno, isbn, copieTot, copieDisp) ==>
                st == Thrown(Exception(CampiNonValidi))
                && obLibreria == old(obLibreria) && libreria.libreria == old(libreria.libreria)
      ensures CampiLibroValidi(titolo, autori, anno, isbn, copieTot, copieDisp)
              && isbn in old(Isbns(libreria.libreria)) ==>
                st == Thrown(Exception(LibroGiaPresente))
                && obLibreria == old(obLibreria) && libreria.libreria == old(libreria.libreria)
      ensures CampiLibroValidi(titolo, autori, anno, isbn, copieTot, copieDisp)
              && isbn !in old(Isbns(libreria.libreria)) ==>
                && st == Done
                && |obLibreria| == |old(obLibreria)| + 1
                && (var l := obLibreria[|obLibreria| - 1];
                    && fresh(l)
                    && obLibreria == old(obLibreria) + [l]
                    && libreria.libreria == old(libreria.libreria) + [l]
                    && l.titolo == titolo && l.autori == [] && l.anno == anno && l.isbn == isbn
                    && l.numCopieTotali == copieTot && l.numCopieDisponibili == copieTot)
      ensures old(Valid()) ==> Valid()
    {
      var ok := CheckValiditaCampiLibro(titolo, autori, anno, isbn, copieTot, copieDisp);
      ValidFrame();
      if !ok {
        return Thrown(Exception(CampiNonValidi));
      }
      var l := new Libro(titolo, autori, anno, isbn, copieTot, copieDisp);
      ValidFrame();
      st := CatalogueBook(l);
    }

    /** `aggiungiLibro` with the intended check: a negative available count
     *  is refused like any other invalid field, and then the catalogue
     *  keeps every book's counts between none and all of its copies. */
    method AggiungiLibroCorretto(titolo: string, autori: seq<Autore>, anno: Int32, isbn: string,
                                 copieTot: Int32, copieDisp: Int32) returns (st: Status)
      requires Ready()
      modifies this`obLibreria, libreria
      ensures Ready()
      ensures !CampiLibroCorretti(titolo, autori, anno, isbn, copieTot, copieDisp) ==>
                st == Thrown(Exception(CampiNonValidi))
                && obLibreria == old(obLibreria) && libreria.libreria == old(libreria.libreria)
      ensures CampiLibroCorretti(titolo, autori, anno, isbn, copieTot, copieDisp) ==>
                && (st == Done <==> isbn !in old(Isbns(libreria.libreria)))
                && (st.Done? ==>
                      && |obLibreria| == |old(obLibreria)| + 1
                      && obLibreria[..|old(obLibreria)|] == old(obLibreria)
                      && obLibreria[|obLibreria| - 1].isbn == isbn
                      && obLibreria[|obLibreria| - 1].numCopieDisponibili == copieTot)
                && (!st.Done? ==> obLibreria == old(obLibreria))
      ensures old(Valid()) && old(CopiesInRange(obLibreria)) ==> Valid() && CopiesInRange(obLibreria)
    {
      if copieDisp < 0 {
        ValidFrame();
        return Thrown(Exception(CampiNonValidi));
      }
      st := AggiungiLibro(titolo, autori, anno, isbn, copieTot, copieDisp);
      if old(CopiesInRange(obLibreria)) && st.Done? {
        var n := |old(obLibreria)|;
        forall i | 0 <= i < |obLibreria|
          ensures 0 <= obLibreria[i].numCopieDisponibili <= obLibreria[i].numCopieTotali
        {
          if i < n {
            assert obLibreria[i] == old(obLibreria)[i];
          }
        }
      }
    }

    /** What `aggiungiLibro` does with the book once it is built: the
     *  catalogue and the screen list gain it unless its ISBN is taken. */
    method CatalogueBook(l: Libro) returns (st: Status)
      modifies this`obLibreria, libreria
      ensures l.isbn in old(Isbns(libreria.libreria)) ==>
                st == Thrown(Exception(LibroGiaPresente))
                && obLibreria == old(obLibreria) && libreria.libreria == old(libreria.libreria)
      ensures l.isbn !in old(Isbns(libreria.libreria)) ==>
                st == Done && obLibreria == old(obLibreria) + [l] && libreria.libreria == old(libreria.libreria) + [l]
      ensures old(Valid()) && l.numCopieDisponibili == l.numCopieTotali ==> Valid()
    {
      if libreria.IsInLibreria(l) {
        st := Thrown(Exception(LibroGiaPresente));
      } else {
        st := libreria.AggiungiLibro(l);
        obLibreria := obLibreria + [l];
      }
      BookAddedKeepsValid(l, st.Done?);
    }

    /** A book with a new ISBN and every copy available, added to both book
     *  lists with nothing else changed, keeps the records valid. */
    twostate lemma BookAddedKeepsValid(l: Libro, new added: bool)
      requires obClienti == old(obClienti) && obPrestiti == old(obPrestiti)
      requires clienti.clienti == old(clienti.clienti) && prestiti.prestiti == old(prestiti.prestiti)
      requires unchanged(old(obLibreria)) && unchanged(obClienti) && unchanged(obPrestiti) && unchanged(l)
      requires added ==> l.isbn !in old(Isbns(libreria.libreria))
      requires obLibreria == if added then old(obLibreria) + [l] else old(obLibreria)
      requires libreria.libreria == if added then old(libreria.libreria) + [l] else old(libreria.libreria)
      ensures old(Valid()) && l.numCopieDisponibili == l.numCopieTotali ==> Valid()
    {
      if old(Valid()) && l.numCopieDisponibili == l.numCopieTotali {
        ConsistentFrame(old(obLibreria), obClienti, obPrestiti);
        if added {
          UnlistedIsbn(old(obLibreria), l);
          ConsistentAddBook(old(obLibreria), obClienti, obPrestiti, l);
        }
      }
    }

    /** Removes a book none of whose copies the given object shows as out;
     *  the registry's own refusal of an unlisted book applies after that. */
    method EliminaLibro(l: Libro) returns (st: Status)
      requires Ready()
      modifies this`obLibreria, libreria
      ensures Ready()
      ensures l.IsLibroInPrestito() ==>
                st == Thrown(Exception(LibroInPrestito))
                && obLibreria == old(obLibreria) && libreria.libreria == old(libreria.libreria)
      ensures !l.IsLibroInPrestito() && l.isbn !in old(Isbns(libreria.libreria)) ==>
                st == Thrown(Exception(LibroNonInLista(l.ToString())))
                && obLibreria == old(obLibreria) && libreria.libreria == old(libreria.libreria)
      ensures !l.IsLibroInPrestito() && l.isbn in old(Isbns(libreria.libreria)) ==>
                st == Done
                && libreria.libreria == old(RemoveLibro(libreria.libreria, l.isbn))
                && obLibreria == old(RemoveLibro(obLibreria, l.isbn))
      ensures old(Valid()) && l in old(obLibreria) ==> Valid() && (st == Done <==> !l.IsLibroInPrestito())
    {
      if l.IsLibroInPrestito() {
        return Thrown(Exception(LibroInPrestito));
      }
      st := UncatalogueBook(l);
      BookRemovedKeepsValid(l, st.Done?);
    }

    /** What `eliminaLibro` does once the book is known not to be out: the
     *  catalogue, which refuses an unlisted or lent book, and then the
     *  screen list drop the book with `l`'s ISBN. */
    method UncatalogueBook(l: Libro) returns (st: Status)
      modifies this`obLibreria, libreria
      ensures l.isbn !in old(Isbns(libreria.libreria)) ==>
                st == Thrown(Exception(LibroNonInLista(l.ToString())))
                && obLibreria == old(obLibreria) && libreria.libreria == old(libreria.libreria)
      ensures l.isbn in old(Isbns(libreria.libreria)) && l.IsLibroInPrestito() ==>
                st == Thrown(Exception(LibroInPrestitoNonEliminabile(l.ToString())))
                && obLibreria == old(obLibreria) && libreria.libreria == old(libreria.libreria)
      ensures l.isbn in old(Isbns(libreria.libreria)) && !l.IsLibroInPrestito() ==>
                st == Done
                && libreria.libreria == old(RemoveLibro(libreria.libreria, l.isbn))
                && obLibreria == old(RemoveLibro(obLibreria, l.isbn))
    {
      var rest := RemoveLibro(obLibreria, l.isbn);
      st := libreria.EliminaLibro(l);
      if st.Done? {
        obLibreria := rest;
      }
    }

    /** A listed book no loan refers to, dropped from both book lists with
     *  nothing else changed, leaves the records valid. */
    twostate lemma BookRemovedKeepsValid(l: Libro, new removed: bool)
      requires obClienti == old(obClienti) && obPrestiti == old(obPrestiti)
      requires clienti.clienti == old(clienti.clienti) && prestiti.prestiti == old(prestiti.prestiti)
      requires unchanged(old(obLibreria)) && unchanged(obClienti) && unchanged(obPrestiti) && unchanged(l)
      requires obLibreria == if removed then old(RemoveLibro(obLibreria, l.isbn)) else old(obLibreria)
      requires libreria.libreria ==
                 if removed then old(RemoveLibro(libreria.libreria, l.isbn)) else old(libreria.libreria)
      ensures old(Valid()) && l in old(obLibreria) ==> l.isbn in old(Isbns(libreria.libreria))
      ensures old(Valid()) && l in old(obLibreria) && !l.IsLibroInPrestito() ==> Valid()
    {
      if old(Valid()) && l in old(obLibreria) {
        var lib := old(obLibreria);
        ConsistentFrame(lib, obClienti, obPrestiti);
        var i :| 0 <= i < |lib| && lib[i] == l;
        assert Isbns(lib)[i] == l.isbn;
        if !l.IsLibroInPrestito() {
          assert old(Isbns(lib)) == Isbns(lib);
          IndexOfDistinct(Isbns(lib), i);
          BookCounters(l, obPrestiti);
          ConsistentRemoveBook(lib, obClienti, obPrestiti, i);
        }
      }
    }

    /** The book edit: the fields are checked, with the one copy count
     *  standing for both counts, then the screen entry equal to `l` is
     *  replaced by `l`; with no such entry `set` throws. */
    method ModificaLibro(l: Libro, titolo: string, autori: seq<Autore>, anno: Int32, isbn: string,
                         copie: Int32) returns (st: Status)
      modifies this`obLibreria
      ensures !CampiLibroValidi(titolo, autori, anno, isbn, copie, copie) ==>
                st == Thrown(Exception(CampiNonValidi)) && obLibreria == old(obLibreria)
      ensures CampiLibroValidi(titolo, autori, anno, isbn, copie, copie) ==>
                var lv := SetLibro(old(obLibreria), l);
                && (lv.Err? ==> st == Thrown(lv.exc) && obLibreria == old(obLibreria))
                && (lv.Ok? ==> st == Done && obLibreria == lv.value)
      ensures old(Valid()) && l in old(obLibreria) ==> Valid()
    {
      var ok := CheckValiditaCampiLibro(titolo, autori, anno, isbn, copie, copie);
      ValidFrame();
      if !ok {
        return Thrown(Exception(CampiNonValidi));
      }
      st := RefreshLibro(l);
      if old(Valid()) && l in old(obLibreria) {
        ValidFrame();
      }
    }

    /** `obLibreria.set(obLibreria.indexOf(l), l)`: the screen entry equal
     *  to `l` becomes `l`; with none, `set` throws. A listed book leaves a
     *  valid list as it is. */
    method RefreshLibro(l: Libro) returns (st: Status)
      modifies this`obLibreria
      ensures var lv := SetLibro(old(obLibreria), l);
              && (lv.Err? ==> st == Thrown(lv.exc) && obLibreria == old(obLibreria))
              && (lv.Ok? ==> st == Done && obLibreria == lv.value)
      ensures l in old(obLibreria) && Distinct(Isbns(old(obLibreria))) ==>
                st == Done && obLibreria == old(obLibreria)
      ensures forall b :: b in old(obLibreria) ==>
                && b.isbn == old(b.isbn) && b.numCopieTotali == old(b.numCopieTotali)
                && b.numCopieDisponibili == old(b.numCopieDisponibili)
      ensures forall c :: c in old(obClienti) ==>
                c.matricola == old(c.matricola) && c.numPrestitiAttivi == old(c.numPrestitiAttivi)
    {
      if l in obLibreria && Distinct(Isbns(obLibreria)) {
        SetLibroListed(obLibreria, l);
      }
      var lv := SetLibro(obLibreria, l);
      if lv.Ok? {
        obLibreria := lv.value;
        st := Done;
      } else {
        st := Thrown(lv.exc);
      }
    }

    /** Starting from the screen lists `cli` and `lib`, the screen entry
     *  equal to patron `u` and then the one equal to book `l` are replaced
     *  by them; the first replacement that finds no entry is reported as
     *  `st` and the rest is skipped. */
    predicate Refreshed(cli: seq<Utente>, lib: seq<Libro>, u: Utente, l: Libro, st: Status)
      reads *
    {
      var cv := SetUtente(cli, u);
      && (cv.Err? ==> st == Thrown(cv.exc) && obClienti == cli && obLibreria == lib)
      && (cv.Ok? ==>
            && obClienti == cv.value
            && (var lv := SetLibro(lib, l);
                && (lv.Err? ==> st == Thrown(lv.exc) && obLibreria == lib)
                && (lv.Ok? ==> st == Done && obLibreria == lv.value)))
    }

    /** `obClienti.set(obClienti.indexOf(u), u)` and then
     *  `obLibreria.set(obLibreria.indexOf(l), l)`: after a loan moves their
     *  counters, the screen entries equal to `u` and `l` become them. The
     *  first `set` that finds no entry throws and the rest is skipped;
     *  listed parties leave valid lists as they are. */
    method RefreshParties(u: Utente, l: Libro) returns (st: Status)
      modifies this`obClienti, this`obLibreria
      ensures Refreshed(old(obClienti), old(obLibreria), u, l, st)
      ensures forall b :: b in old(obLibreria) ==>
                && b.isbn == old(b.isbn) && b.numCopieTotali == old(b.numCopieTotali)
                && b.numCopieDisponibili == old(b.numCopieDisponibili)
      ensures forall c :: c in old(obClienti) ==>
                c.matricola == old(c.matricola) && c.numPrestitiAttivi == old(c.numPrestitiAttivi)
      ensures u in old(obClienti) && Distinct(Matricole(old(obClienti)))
              && l in old(obLibreria) && Distinct(Isbns(old(obLibreria))) ==>
                st == Done && obClienti == old(obClienti) && obLibreria == old(obLibreria) && unchanged(this)
    {
      st := RefreshUtente(u);
      if st.Done? {
        st := RefreshLibro(l);
      }
    }

    // ---------------------------------------------------------- patrons

    /** Registers a new patron with no loans: valid fields and a new
     *  matricola, else an exception and no change. */
    method AggiungiUtente(nome: string, cognome: string, matricola: string, email: string)
      returns (st: Status)
      requires Ready()
      modifies this`obClienti, clienti
      ensures Ready()
      ensures !CheckValiditaCampiUtente(nome, cognome, matricola, email, 0) ==>
                st == Thrown(Exception(CampiNonValidi))
                && obClienti == old(obClienti) && clienti.clienti == old(clienti.clienti)
      ensures CheckValiditaCampiUtente(nome, cognome, matricola, email, 0)
              && matricola in old(Matricole(clienti.clienti.value)) ==>
                st == Thrown(Exception(UtenteGiaRegistrato))
                && obClienti == old(obClienti) && clienti.clienti == old(clienti.clienti)
      ensures CheckValiditaCampiUtente(nome, cognome, matricola, email, 0)
              && matricola !in old(Matricole(clienti.clienti.value)) ==>
                && st == Done
                && |obClienti| == |old(obClienti)| + 1
                && (var u := obClienti[|obClienti| - 1];
                    && fresh(u)
                    && obClienti == old(obClienti) + [u]
                    && clienti.clienti == Some(old(clienti.clienti.value) + [u])
                    && u.nome == nome && u.cognome == cognome && u.matricola == matricola
                    && u.email == email && u.numPrestitiAttivi == 0)
      ensures old(Valid()) ==> Valid()
    {
      if !CheckValiditaCampiUtente(nome, cognome, matricola, email, 0) {
        return Thrown(Exception(CampiNonValidi));
      }
      var u := new Utente(nome, cognome, matricola, email, 0);
      ValidFrame();
      st := EnrolPatron(u);
    }

    /** What `aggiungiUtente` does with the patron once built: the registry
     *  and the screen list gain them unless the matricola is taken. */
    method EnrolPatron(u: Utente) returns (st: Status)
      requires Ready()
      modifies this`obClienti, clienti
      ensures Ready()
      ensures u.matricola in old(Matricole(clienti.clienti.value)) ==>
                st == Thrown(Exception(UtenteGiaRegistrato))
                && obClienti == old(obClienti) && clienti.clienti == old(clienti.clienti)
      ensures u.matricola !in old(Matricole(clienti.clienti.value)) ==>
                st == Done && obClienti == old(obClienti) + [u]
                && clienti.clienti == Some(old(clienti.clienti.value) + [u])
      ensures old(Valid()) && u.numPrestitiAttivi == 0 ==> Valid()
    {
      var registered := clienti.EsisteUtente(u);
      if registered.value {
        st := Thrown(Exception(UtenteGiaRegistrato));
      } else {
        st := clienti.AggiungiUtente(u);
        obClienti := obClienti + [u];
      }
      PatronAddedKeepsValid(u, st.Done?);
    }

    /** A patron with a new matricola and no loans, added to both patron
     *  lists with nothing else changed, keeps the records valid. */
    twostate lemma PatronAddedKeepsValid(u: Utente, new added: bool)
      requires old(clienti.clienti).Some?
      requires obLibreria == old(obLibreria) && obPrestiti == old(obPrestiti)
      requires libreria.libreria == old(libreria.libreria) && prestiti.prestiti == old(prestiti.prestiti)
      requires unchanged(obLibreria) && unchanged(old(obClienti)) && unchanged(obPrestiti) && unchanged(u)
      requires added ==> u.matricola !in old(Matricole(clienti.clienti.value))
      requires obClienti == if added then old(obClienti) + [u] else old(obClienti)
      requires clienti.clienti == if added then Some(old(clienti.clienti.value) + [u]) else old(clienti.clienti)
      ensures old(Valid()) && u.numPrestitiAttivi == 0 ==> Valid()
    {
      if old(Valid()) && u.numPrestitiAttivi == 0 {
        ConsistentFrame(obLibreria, old(obClienti), obPrestiti);
        if added {
          UnlistedMatricola(old(obClienti), u);
          ConsistentAddPatron(obLibreria, old(obClienti), obPrestiti, u);
        }
      }
    }

    /** Removes a patron whom the given object shows with no active loan;
     *  the registry's own refusal of an unlisted patron applies after that. */
    method EliminaUtente(u: Utente) returns (st: Status)
      requires Ready()
      modifies this`obClienti, clienti
      ensures Ready()
      ensures u.InPrestito() ==>
                st == Thrown(Exception(UtenteConPrestiti))
                && obClienti == old(obClienti) && clienti.clienti == old(clienti.clienti)
      ensures !u.InPrestito() && u.matricola !in old(Matricole(clienti.clienti.value)) ==>
                st == Thrown(Exception(UtenteNonInLista(u.ToString())))
                && obClienti == old(obClienti) && clienti.clienti == old(clienti.clienti)
      ensures !u.InPrestito() && u.matricola in old(Matricole(clienti.clienti.value)) ==>
                st == Done
                && clienti.clienti == Some(old(RemoveUtente(clienti.clienti.value, u.matricola)))
                && obClienti == old(RemoveUtente(obClienti, u.matricola))
      ensures old(Valid()) && u in old(obClienti) ==> Valid() && (st == Done <==> !u.InPrestito())
    {
      if u.InPrestito() {
        return Thrown(Exception(UtenteConPrestiti));
      }
      st := DeregisterPatron(u);
      PatronRemovedKeepsValid(u, st.Done?);
    }

    /** What `eliminaUtente` does once the patron is known to hold no loan:
     *  the registry, which refuses an unlisted patron, and then the screen
     *  list drop the patron with `u`'s matricola. */
    method DeregisterPatron(u: Utente) returns (st: Status)
      requires Ready()
      modifies this`obClienti, clienti
      ensures Ready()
      ensures u.matricola !in old(Matricole(clienti.clienti.value)) ==>
                st == Thrown(Exception(UtenteNonInLista(u.ToString())))
                && obClienti == old(obClienti) && clienti.clienti == old(clienti.clienti)
      ensures u.matricola in old(Matricole(clienti.clienti.value)) ==>
                st == Done
                && clienti.clienti == Some(old(RemoveUtente(clienti.clienti.value, u.matricola)))
                && obClienti == old(RemoveUtente(obClienti, u.matricola))
    {
      var rest := RemoveUtente(obClienti, u.matricola);
      st := clienti.EliminaUtente(u);
      if st.Done? {
        obClienti := rest;
      }
    }

    /** A listed patron holding no loan, dropped from both patron lists with
     *  nothing else changed, leaves the records valid. */
    twostate lemma PatronRemovedKeepsValid(u: Utente, new removed: bool)
      requires obLibreria == old(obLibreria) && obPrestiti == old(obPrestiti)
      requires libreria.libreria == old(libreria.libreria) && prestiti.prestiti == old(prestiti.prestiti)
      requires unchanged(obLibreria) && unchanged(old(obClienti)) && unchanged(obPrestiti) && unchanged(u)
      requires old(clienti.clienti).Some?
      requires obClienti == if removed then old(RemoveUtente(obClienti, u.matricola)) else old(obClienti)
      requires clienti.clienti ==
                 if removed then Some(old(RemoveUtente(clienti.clienti.value, u.matricola))) else old(clienti.clienti)
      ensures old(Valid()) && u in old(obClienti) ==> u.matricola in old(Matricole(clienti.clienti.value))
      ensures old(Valid()) && u in old(obClienti) && !u.InPrestito() ==> Valid()
    {
      if old(Valid()) && u in old(obClienti) {
        var cli := old(obClienti);
        ConsistentFrame(obLibreria, cli, obPrestiti);
        var i :| 0 <= i < |cli| && cli[i] == u;
        assert Matricole(cli)[i] == u.matricola;
        if !u.InPrestito() {
          assert old(Matricole(cli)) == Matricole(cli);
          IndexOfDistinct(Matricole(cli), i);
          PatronCounters(u, obPrestiti);
          ConsistentRemovePatron(obLibreria, cli, obPrestiti, i);
        }
      }
    }

    /** The patron edit: the fields are checked with the count taken as 0,
     *  then the screen entry equal to `u` is replaced by `u`; with no such
     *  entry `set` throws. */
    method ModificaUtente(u: Utente, nome: string, cognome: string, matricola: string, email: string)
      returns (st: Status)
      modifies this`obClienti
      ensures !CheckValiditaCampiUtente(nome, cognome, matricola, email, 0) ==>
                st == Thrown(Exception(CampiNonValidi)) && obClienti == old(obClienti)
      ensures CheckValiditaCampiUtente(nome, cognome, matricola, email, 0) ==>
                var cv := SetUtente(old(obClienti), u);
                && (cv.Err? ==> st == Thrown(cv.exc) && obClienti == old(obClienti))
                && (cv.Ok? ==> st == Done && obClienti == cv.value)
      ensures old(Valid()) && u in old(obClienti) ==> Valid()
    {
      if !CheckValiditaCampiUtente(nome, cognome, matricola, email, 0) {
        return Thrown(Exception(CampiNonValidi));
      }
      st := RefreshUtente(u);
      if old(Valid()) && u in old(obClienti) {
        ValidFrame();
      }
    }

    /** `obClienti.set(obClienti.indexOf(u), u)`: the screen entry equal to
     *  `u` becomes `u`; with none, `set` throws. A listed patron leaves a
     *  valid list as it is. */
    method RefreshUtente(u: Utente) returns (st: Status)
      modifies this`obClienti
      ensures var cv := SetUtente(old(obClienti), u);
              && (cv.Err? ==> st == Thrown(cv.exc) && obClienti == old(obClienti))
              && (cv.Ok? ==> st == Done && obClienti == cv.value)
      ensures u in old(obClienti) && Distinct(Matricole(old(obClienti))) ==>
                st == Done && obClienti == old(obClienti)
      ensures forall b :: b in old(obLibreria) ==>
                && b.isbn == old(b.isbn) && b.numCopieTotali == old(b.numCopieTotali)
                && b.numCopieDisponibili == old(b.numCopieDisponibili)
      ensures forall c :: c in old(obClienti) ==>
                c.matricola == old(c.matricola) && c.numPrestitiAttivi == old(c.numPrestitiAttivi)
    {
      if u in obClienti && Distinct(Matricole(obClienti)) {
        SetUtenteListed(obClienti, u);
      }
      var cv := SetUtente(obClienti, u);
      if cv.Ok? {
        obClienti := cv.value;
        st := Done;
      } else {
        st := Thrown(cv.exc);
      }
    }

    // ---------------------------------------------------------- loans

    /** Lends book `l` to patron `u` until `data`. Checks, in order: no
     *  argument missing, a copy available, fewer than three loans, and a new
     *  loan for the ledger; the first failure throws and changes nothing.
     *  Then the loan is recorded, the book loses an available copy, the
     *  patron gains a loan, and each screen entry equal to `u` or `l` is
     *  replaced by it; with no such entry `set` throws after the counters
     *  have already moved. */
    method AggiungiPrestito(u: Utente?, l: Libro?, data: Option<Dates.Date>) returns (st: Status)
      requires Ready()
      modifies this`obPrestiti, this`obClienti, this`obLibreria, prestiti,
               (if l == null then {} else {l})`numCopieDisponibili,
               (if u == null then {} else {u})`numPrestitiAttivi
      ensures Ready()
      ensures u == null || l == null || data.None? ==>
                st == Thrown(Exception(DatiNonValidi)) && unchanged(this, prestiti)
      ensures u != null && l != null && data.Some? && old(l.numCopieDisponibili) <= 0 ==>
                st == Thrown(Exception(CopieNonDisponibili)) && unchanged(this, prestiti, l, u)
      ensures u != null && l != null && data.Some? && old(l.numCopieDisponibili) > 0
              && old(u.numPrestitiAttivi) >= 3 ==>
                st == Thrown(Exception(TroppiPrestiti))
                && unchanged(this, prestiti, l, u)
      ensures u != null && l != null && data.Some? && old(l.numCopieDisponibili) > 0
              && old(u.numPrestitiAttivi) < 3
              && old(LoanKey(u.matricola, l.isbn, data.value)) in old(LoanKeys(prestiti.prestiti.value)) ==>
                st == Thrown(Exception(PrestitoDuplicato))
                && unchanged(this, prestiti, l, u)
      ensures u != null && l != null && data.Some? && old(l.numCopieDisponibili) > 0
              && old(u.numPrestitiAttivi) < 3
              && old(LoanKey(u.matricola, l.isbn, data.value)) !in old(LoanKeys(prestiti.prestiti.value)) ==>
                && |obPrestiti| == |old(obPrestiti)| + 1
                && (var p := obPrestiti[|obPrestiti| - 1];
                    && fresh(p) && p.utente == u && p.libro == l && p.dataRestituzione == data.value
                    && LoanLent(p, l, u, st))
      ensures u != null && l != null && old(Valid()) && u in old(obClienti) && l in old(obLibreria) ==>
                Valid() && (st.Thrown? ==> !st.exc.IndexOutOfBounds?)
      ensures u != null && l != null && data.Some? && old(l.IsDisponibile()) ==>
                (st == Thrown(Exception(TroppiPrestiti)) <==> old(u.LimitePrestiti()))
    {
      if u == null || l == null || data.None? {
        return Thrown(Exception(DatiNonValidi));
      }
      if l.numCopieDisponibili <= 0 {
        return Thrown(Exception(CopieNonDisponibili));
      }
      if u.numPrestitiAttivi >= 3 {
        return Thrown(Exception(TroppiPrestiti));
      }
      NewKeyNewRefs(prestiti.prestiti.value, u, l, data.value);
      st := LendLoan(u, l, data.value);
      if old(Valid()) && u in old(obClienti) && l in old(obLibreria) {
        LoanAddedKeepsValid(u, l, data.value, st);
      }
    }

    /** What lending `p` leaves behind: both loan lists with `p` appended,
     *  one available copy fewer of book `l` and one loan more for patron
     *  `u`, and the screen entries equal to the patron and then the book
     *  replaced by them (a failed replacement is reported and stops
     *  there). */
    twostate predicate LoanLent(new p: Prestito, l: Libro, u: Utente, new st: Status)
      reads *
    {
      && obPrestiti == old(obPrestiti) + [p]
      && old(prestiti.prestiti).Some?
      && prestiti.prestiti == Some(old(prestiti.prestiti.value) + [p])
      && l.numCopieDisponibili == old(l.numCopieDisponibili) - 1
      && u.numPrestitiAttivi == old(u.numPrestitiAttivi) + 1
      && Refreshed(old(obClienti), old(obLibreria), u, l, st)
    }

    /** `aggiungiPrestito` once book `l` and patron `u` are known to have
     *  room: a loan until `d` is built, the ledger, which refuses a
     *  duplicate, and the screen list gain it, the counters move and the
     *  screen entries of the patron and the book are replaced by them. */
    method LendLoan(u: Utente, l: Libro, d: Dates.Date) returns (st: Status)
      requires Ready()
      requires l.numCopieDisponibili > 0 && u.numPrestitiAttivi < 3
      modifies this`obPrestiti, this`obClienti, this`obLibreria, prestiti,
               l`numCopieDisponibili, u`numPrestitiAttivi
      ensures Ready()
      ensures old(LoanKey(u.matricola, l.isbn, d)) in old(LoanKeys(prestiti.prestiti.value)) ==>
                st == Thrown(Exception(PrestitoDuplicato))
                && unchanged(this, prestiti, l, u)
      ensures old(LoanKey(u.matricola, l.isbn, d)) !in old(LoanKeys(prestiti.prestiti.value)) ==>
                && |obPrestiti| == |old(obPrestiti)| + 1
                && (var p := obPrestiti[|obPrestiti| - 1];
                    && fresh(p) && p.utente == u && p.libro == l && p.dataRestituzione == d
                    && LoanLent(p, l, u, st))
      ensures st.Thrown? ==> st.exc.IndexOutOfBounds? || st.exc == Exception(PrestitoDuplicato)
      ensures RegistriesKept()
      ensures forall b :: b in old(obLibreria) ==>
                && b.isbn == old(b.isbn)
                && b.numCopieTotali == old(b.numCopieTotali)
                && (b != l ==> b.numCopieDisponibili == old(b.numCopieDisponibili))
      ensures forall c :: c in old(obClienti) ==>
                && c.matricola == old(c.matricola)
                && (c != u ==> c.numPrestitiAttivi == old(c.numPrestitiAttivi))
    {
      var p;
      st, p := RecordLoan(u, l, d);
      if st.Done? {
        st := RefreshParties(u, l);
      }
    }

    /** What `aggiungiPrestito` does with the loan it builds: the ledger,
     *  which refuses a duplicate, and the screen list gain it, then its book
     *  loses an available copy and its patron gains a loan. */
    method RecordLoan(u: Utente, l: Libro, d: Dates.Date) returns (st: Status, p: Prestito)
      requires Ready()
      requires l.numCopieDisponibili > 0 && u.numPrestitiAttivi < 3
      modifies this`obPrestiti, prestiti, l`numCopieDisponibili, u`numPrestitiAttivi
      ensures Ready()
      ensures fresh(p) && p.utente == u && p.libro == l && p.dataRestituzione == d
      ensures old(LoanKey(u.matricola, l.isbn, d)) in old(LoanKeys(prestiti.prestiti.value)) ==>
                st == Thrown(Exception(PrestitoDuplicato))
                && unchanged(this, prestiti, l, u)
      ensures RegistriesKept()
      ensures forall b :: b in old(obLibreria) ==>
                && b.isbn == old(b.isbn)
                && b.numCopieTotali == old(b.numCopieTotali)
                && (b != l ==> b.numCopieDisponibili == old(b.numCopieDisponibili))
      ensures forall c :: c in old(obClienti) ==>
                && c.matricola == old(c.matricola)
                && (c != u ==> c.numPrestitiAttivi == old(c.numPrestitiAttivi))
      ensures old(LoanKey(u.matricola, l.isbn, d)) !in old(LoanKeys(prestiti.prestiti.value)) ==>
                && st == Done
                && obPrestiti == old(obPrestiti) + [p]
                && prestiti.prestiti == Some(old(prestiti.prestiti.value) + [p])
                && l.numCopieDisponibili == old(l.numCopieDisponibili) - 1
                && u.numPrestitiAttivi == old(u.numPrestitiAttivi) + 1
    {
      p := new Prestito(u, l, d);
      assert p.Key() == old(LoanKey(u.matricola, l.isbn, d));
      assert LoanKeys(prestiti.prestiti.value) == old(LoanKeys(prestiti.prestiti.value));
      st := FileLoan(p);
    }

    /** The built loan `p` goes to the ledger, which refuses a duplicate,
     *  and then to the screen list, with the counters moved. */
    method FileLoan(p: Prestito) returns (st: Status)
      requires Ready()
      requires p.libro.numCopieDisponibili > 0 && p.utente.numPrestitiAttivi < 3
      modifies this`obPrestiti, prestiti, p.libro`numCopieDisponibili, p.utente`numPrestitiAttivi
      ensures Ready()
      ensures old(p.Key()) in old(LoanKeys(prestiti.prestiti.value)) ==>
                st == Thrown(Exception(PrestitoDuplicato))
                && unchanged(this, prestiti, p.libro, p.utente)
      ensures RegistriesKept()
      ensures forall b :: b in old(obLibreria) ==>
                && b.isbn == old(b.isbn)
                && b.numCopieTotali == old(b.numCopieTotali)
                && (b != p.libro ==> b.numCopieDisponibili == old(b.numCopieDisponibili))
      ensures forall c :: c in old(obClienti) ==>
                && c.matricola == old(c.matricola)
                && (c != p.utente ==> c.numPrestitiAttivi == old(c.numPrestitiAttivi))
      ensures old(p.Key()) !in old(LoanKeys(prestiti.prestiti.value)) ==>
                && st == Done
                && obPrestiti == old(obPrestiti) + [p]
                && prestiti.prestiti == Some(old(prestiti.prestiti.value) + [p])
                && p.libro.numCopieDisponibili == old(p.libro.numCopieDisponibili) - 1
                && p.utente.numPrestitiAttivi == old(p.utente.numPrestitiAttivi) + 1
    {
      st := prestiti.AggiungiPrestito(p);
      if st.Done? {
        AppendAndCount(p);
      }
    }

    /** The screen side of a loan once the ledger holds it: the screen list
     *  gains `p`, its book loses an available copy and its patron gains a
     *  loan, and nothing else moves. */
    method AppendAndCount(p: Prestito)
      requires p.libro.numCopieDisponibili > 0 && p.utente.numPrestitiAttivi < 3
      modifies this`obPrestiti, p.libro`numCopieDisponibili, p.utente`numPrestitiAttivi
      ensures obPrestiti == old(obPrestiti) + [p]
      ensures p.libro.numCopieDisponibili == old(p.libro.numCopieDisponibili) - 1
      ensures p.utente.numPrestitiAttivi == old(p.utente.numPrestitiAttivi) + 1
      ensures forall b :: b in old(obLibreria) ==>
                && b.isbn == old(b.isbn)
                && b.numCopieTotali == old(b.numCopieTotali)
                && (b != p.libro ==> b.numCopieDisponibili == old(b.numCopieDisponibili))
      ensures forall c :: c in old(obClienti) ==>
                && c.matricola == old(c.matricola)
                && (c != p.utente ==> c.numPrestitiAttivi == old(c.numPrestitiAttivi))
    {
      obPrestiti := obPrestiti + [p];
      var _ := p.libro.DiminuisciCopie();
      p.utente.IncrementaPrestitiAttivi();
    }

    /** A new loan of listed book `l` to listed patron `u`, each with room
     *  for it: lending it keeps valid records valid, and every screen entry
     *  it replaces is there; a refused duplicate changes nothing. */
    twostate lemma LoanAddedKeepsValid(new u: Utente, new l: Libro, d: Dates.Date, new st: Status)
      requires old(allocated(u)) && old(allocated(l))
      requires old(Valid()) && u in old(obClienti) && l in old(obLibreria)
      requires old(l.numCopieDisponibili > 0 && u.numPrestitiAttivi < 3)
      requires old(LoanKey(u.matricola, l.isbn, d) !in LoanKeys(prestiti.prestiti.value) ==>
                   (u, l, d) !in LoanRefs(prestiti.prestiti.value))
      requires RegistriesKept()
      requires forall b :: b in old(obLibreria) ==>
                 && b.isbn == old(b.isbn)
                 && b.numCopieTotali == old(b.numCopieTotali)
                 && (b != l ==> b.numCopieDisponibili == old(b.numCopieDisponibili))
      requires forall c :: c in old(obClienti) ==>
                 && c.matricola == old(c.matricola)
                 && (c != u ==> c.numPrestitiAttivi == old(c.numPrestitiAttivi))
      requires old(LoanKey(u.matricola, l.isbn, d)) in old(LoanKeys(prestiti.prestiti.value)) ==>
                 st == Thrown(Exception(PrestitoDuplicato))
                 && unchanged(this, prestiti, l, u)
      requires old(LoanKey(u.matricola, l.isbn, d)) !in old(LoanKeys(prestiti.prestiti.value)) ==>
                 && |obPrestiti| == |old(obPrestiti)| + 1
                 && (var p := obPrestiti[|obPrestiti| - 1];
                     && fresh(p) && p.utente == u && p.libro == l && p.dataRestituzione == d
                     && LoanLent(p, l, u, st))
      ensures Valid() && (st.Thrown? ==> !st.exc.IndexOutOfBounds?)
    {
      var lib, cli, ps := old(obLibreria), old(obClienti), old(obPrestiti);
      BooksKeptListed(lib, l);
      PatronsKeptListed(cli, u);
      if old(LoanKey(u.matricola, l.isbn, d)) in old(LoanKeys(prestiti.prestiti.value)) {
        ConsistentKeepCounters(lib, cli, ps, l, u);
      } else {
        var p := obPrestiti[|obPrestiti| - 1];
        SameColumns(lib, cli, ps, l, u);
        SetUtenteListed(cli, u);
        SetLibroListed(lib, l);
        ConsistentAddLoan(lib, cli, ps, p, l, u);
      }
    }

    /** Takes back loan `p` when the screen lists an equal loan: the ledger
     *  drops it, its book gains an available copy, its patron loses a loan,
     *  and the screen entries equal to them are replaced by them. */
    method RestituisciPrestito(p: Prestito?) returns (st: Status)
      requires Ready()
      modifies this`obPrestiti, this`obClienti, this`obLibreria, prestiti,
               (if p == null then {} else {p.libro})`numCopieDisponibili,
               (if p == null then {} else {p.utente})`numPrestitiAttivi
      ensures Ready()
      ensures p == null ==>
                st == Thrown(Exception(PrestitoNonTrovato)) && unchanged(this, prestiti)
      ensures p != null && old(p.Key()) !in old(LoanKeys(obPrestiti)) ==>
                st == Thrown(Exception(PrestitoNonTrovato))
                && unchanged(this, prestiti, p.libro, p.utente)
      ensures p != null && old(p.Key()) in old(LoanKeys(obPrestiti))
              && old(p.Key()) !in old(LoanKeys(prestiti.prestiti.value)) ==>
                && st == Thrown(Exception(PrestitoAssente))
                && obPrestiti == old(obPrestiti) && prestiti.prestiti == old(prestiti.prestiti)
                && obClienti == old(obClienti) && obLibreria == old(obLibreria)
                && p.libro.numCopieDisponibili == old(p.libro.numCopieDisponibili)
                && p.utente.numPrestitiAttivi == old(p.utente.numPrestitiAttivi)
      ensures p != null && old(p.Key()) in old(LoanKeys(obPrestiti))
              && old(p.Key()) in old(LoanKeys(prestiti.prestiti.value)) ==>
                LoanTakenBack(p, st)
      ensures p != null && old(Valid()) && p in old(obPrestiti) ==>
                && Valid() && st == Done
                && old(p.libro).numCopieDisponibili == old(p.libro.numCopieDisponibili) + 1
                && old(p.utente).numPrestitiAttivi == old(p.utente.numPrestitiAttivi) - 1
    {
      if p == null {
        return Thrown(Exception(PrestitoNonTrovato));
      }
      OnLoan(p);
      if p.Key() !in LoanKeys(obPrestiti) {
        return Thrown(Exception(PrestitoNonTrovato));
      }
      st := ReturnLoan(p);
      if old(Valid()) && p in old(obPrestiti) {
        LoanRemovedKeepsValid(p, st);
      }
    }

    /** The book and patron registries and every loan of the screen list
     *  are as they were. */
    twostate predicate RegistriesKept()
      reads *
    {
      && unchanged(libreria, clienti) && unchanged(old(obPrestiti))
    }

    /** What taking back loan `p` leaves behind: both loan lists without
     *  it, one more available copy of its book and one loan less for its
     *  patron (as Java `int`s), and the screen entries equal to the patron
     *  and then the book replaced by them (a failed replacement is reported
     *  and stops there). */
    twostate predicate LoanTakenBack(p: Prestito, new st: Status)
      reads *
    {
      && old(prestiti.prestiti).Some?
      && prestiti.prestiti == Some(old(RemovePrestito(prestiti.prestiti.value, p.Key())))
      && obPrestiti == old(RemovePrestito(obPrestiti, p.Key()))
      && p.libro.numCopieDisponibili == Inc(old(p.libro.numCopieDisponibili))
      && p.utente.numPrestitiAttivi == Dec(old(p.utente.numPrestitiAttivi))
      && Refreshed(old(obClienti), old(obLibreria), p.utente, p.libro, st)
    }

    /** `restituisciPrestito` once the screen lists a loan equal to `p`:
     *  the ledger drops it, the counters move and the screen entries of its
     *  patron and book are replaced by them. */
    method ReturnLoan(p: Prestito) returns (st: Status)
      requires Ready()
      modifies this`obPrestiti, this`obClienti, this`obLibreria, prestiti,
               p.libro`numCopieDisponibili, p.utente`numPrestitiAttivi
      ensures Ready()
      ensures old(p.Key()) !in old(LoanKeys(prestiti.prestiti.value)) ==>
                && st == Thrown(Exception(PrestitoAssente))
                && obPrestiti == old(obPrestiti) && prestiti.prestiti == old(prestiti.prestiti)
                && obClienti == old(obClienti) && obLibreria == old(obLibreria)
                && p.libro.numCopieDisponibili == old(p.libro.numCopieDisponibili)
                && p.utente.numPrestitiAttivi == old(p.utente.numPrestitiAttivi)
      ensures old(p.Key()) in old(LoanKeys(prestiti.prestiti.value)) ==>
                LoanTakenBack(p, st)
      ensures RegistriesKept()
      ensures forall b :: b in old(obLibreria) ==>
                && b.isbn == old(b.isbn)
                && b.numCopieTotali == old(b.numCopieTotali)
                && (b != p.libro ==> b.numCopieDisponibili == old(b.numCopieDisponibili))
      ensures forall c :: c in old(obClienti) ==>
                && c.matricola == old(c.matricola)
                && (c != p.utente ==> c.numPrestitiAttivi == old(c.numPrestitiAttivi))
    {
      st := TakeBackLoan(p);
      if st.Done? {
        label dropped:
        st := RefreshParties(p.utente, p.libro);
        assert p.libro == old@dropped(p.libro) && p.utente == old@dropped(p.utente);
        assert p.libro.numCopieDisponibili == old@dropped(p.libro.numCopieDisponibili);
        assert p.utente.numPrestitiAttivi == old@dropped(p.utente.numPrestitiAttivi);
        assert obPrestiti == old@dropped(obPrestiti) && prestiti.prestiti == old@dropped(prestiti.prestiti);
      }
    }

    /** The screen side of a return once the ledger has dropped loan `p`:
     *  the screen list becomes `rest`, the book of `p` gains an available
     *  copy and its patron loses a loan, and nothing else moves. */
    method DropAndCount(p: Prestito, rest: seq<Prestito>)
      modifies this`obPrestiti, p.libro`numCopieDisponibili, p.utente`numPrestitiAttivi
      ensures obPrestiti == rest
      ensures p.libro.numCopieDisponibili == Inc(old(p.libro.numCopieDisponibili))
      ensures p.utente.numPrestitiAttivi == Dec(old(p.utente.numPrestitiAttivi))
      ensures forall b :: b in old(obLibreria) ==>
                && b.isbn == old(b.isbn)
                && b.numCopieTotali == old(b.numCopieTotali)
                && (b != p.libro ==> b.numCopieDisponibili == old(b.numCopieDisponibili))
      ensures forall c :: c in old(obClienti) ==>
                && c.matricola == old(c.matricola)
                && (c != p.utente ==> c.numPrestitiAttivi == old(c.numPrestitiAttivi))
    {
      obPrestiti := rest;
      p.libro.AumentaCopie();
      p.utente.DecrementaPrestitiAttivi();
    }

    /** What `restituisciPrestito` does once the screen shows the loan: the
     *  ledger, which refuses a loan it does not hold, and the screen list
     *  drop it, then its book gains an available copy and its patron loses
     *  a loan. */
    method TakeBackLoan(p: Prestito) returns (st: Status)
      requires Ready()
      modifies this`obPrestiti, prestiti, p.libro`numCopieDisponibili, p.utente`numPrestitiAttivi
      ensures Ready()
      ensures old(p.Key()) !in old(LoanKeys(prestiti.prestiti.value)) ==>
                && st == Thrown(Exception(PrestitoAssente))
                && obPrestiti == old(obPrestiti) && prestiti.prestiti == old(prestiti.prestiti)
                && p.libro.numCopieDisponibili == old(p.libro.numCopieDisponibili)
                && p.utente.numPrestitiAttivi == old(p.utente.numPrestitiAttivi)
      ensures RegistriesKept()
      ensures forall b :: b in old(obLibreria) ==>
                && b.isbn == old(b.isbn)
                && b.numCopieTotali == old(b.numCopieTotali)
                && (b != p.libro ==> b.numCopieDisponibili == old(b.numCopieDisponibili))
      ensures forall c :: c in old(obClienti) ==>
                && c.matricola == old(c.matricola)
                && (c != p.utente ==> c.numPrestitiAttivi == old(c.numPrestitiAttivi))
      ensures old(p.Key()) in old(LoanKeys(prestiti.prestiti.value)) ==>
                && st == Done
                && prestiti.prestiti == Some(old(RemovePrestito(prestiti.prestiti.value, p.Key())))
                && obPrestiti == old(RemovePrestito(obPrestiti, p.Key()))
                && p.libro.numCopieDisponibili == Inc(old(p.libro.numCopieDisponibili))
                && p.utente.numPrestitiAttivi == Dec(old(p.utente.numPrestitiAttivi))
    {
      var rest := RemovePrestito(obPrestiti, p.Key());
      st := prestiti.RimuoviPrestito(p);
      if st.Done? {
        DropAndCount(p, rest);
      }
    }

    /** A loan of valid records has its key listed and no other loan has
     *  that key; it is on a listed book by a listed patron, its book has a
     *  copy out and its patron a loan counted. */
    lemma OnLoan(p: Prestito)
      ensures Valid() && p in obPrestiti ==>
                && p.Key() in LoanKeys(obPrestiti) && Distinct(LoanKeys(obPrestiti))
                && p.utente in obClienti && p.libro in obLibreria
                && p.libro.numCopieDisponibili < p.libro.numCopieTotali
                && p.utente.numPrestitiAttivi >= 1
    {
      if Valid() && p in obPrestiti {
        var i :| 0 <= i < |obPrestiti| && obPrestiti[i] == p;
        ConsistentKeys(obLibreria, obClienti, obPrestiti);
        assert LoanKeys(obPrestiti)[i] == p.Key();
        LoanedCountersRoom(obLibreria, obClienti, obPrestiti, i);
      }
    }

    /** A listed loan, dropped from both loan lists while its book gains a
     *  copy and its patron loses a loan, with the screen entries of both then
     *  replaced by themselves, leaves valid records valid. */
    twostate lemma LoanRemovedKeepsValid(p: Prestito, new st: Status)
      requires old(Valid()) && p in old(obPrestiti)
      requires old(Distinct(LoanKeys(obPrestiti))
                   && p.utente in obClienti && p.libro in obLibreria
                   && p.libro.numCopieDisponibili < p.libro.numCopieTotali
                   && p.utente.numPrestitiAttivi >= 1)
      requires LoanTakenBack(p, st) && RegistriesKept()
      requires forall b :: b in old(obLibreria) ==>
                 && b.isbn == old(b.isbn)
                 && b.numCopieTotali == old(b.numCopieTotali)
                 && (b != p.libro ==> b.numCopieDisponibili == old(b.numCopieDisponibili))
      requires forall c :: c in old(obClienti) ==>
                 && c.matricola == old(c.matricola)
                 && (c != p.utente ==> c.numPrestitiAttivi == old(c.numPrestitiAttivi))
      ensures Valid() && st == Done
    {
      var lib, cli, ps := old(obLibreria), old(obClienti), old(obPrestiti);
      var k :| 0 <= k < |ps| && ps[k] == p;
      IndexOfDistinct(old(LoanKeys(obPrestiti)), k);
      BooksKeptListed(lib, p.libro);
      PatronsKeptListed(cli, p.utente);
      SameColumns(lib, cli, ps, p.libro, p.utente);
      SetUtenteListed(cli, p.utente);
      SetLibroListed(lib, p.libro);
      ConsistentRemoveLoan(lib, cli, ps, k, p.libro, p.utente);
    }

    /** A new loan of a listed book to a listed patron, each with room for
     *  it, followed by the return of that loan: both succeed, and the book's
     *  available copies and the patron's active loans end as they began. */
    method LendThenReturn(u: Utente, l: Libro, d: Dates.Date) returns (lent: Status, returned: Status)
      requires Ready() && Valid()
      requires u in obClienti && l in obLibreria
      requires l.numCopieDisponibili > 0 && u.numPrestitiAttivi < 3
      requires LoanKey(u.matricola, l.isbn, d) !in LoanKeys(obPrestiti)
      modifies this`obPrestiti, this`obClienti, this`obLibreria, prestiti,
               l`numCopieDisponibili, u`numPrestitiAttivi
      ensures lent == Done && returned == Done && Valid()
      ensures l.numCopieDisponibili == old(l.numCopieDisponibili)
      ensures u.numPrestitiAttivi == old(u.numPrestitiAttivi)
    {
      assert LoanKey(u.matricola, l.isbn, d) !in LoanKeys(prestiti.prestiti.value);
      lent := AggiungiPrestito(u, l, Some(d));
      var p := obPrestiti[|obPrestiti| - 1];
      assert lent == Done && Valid() && p in obPrestiti && p.libro == l && p.utente == u;
      assert l.numCopieDisponibili == old(l.numCopieDisponibili) - 1;
      assert u.numPrestitiAttivi == old(u.numPrestitiAttivi) + 1;
      assert LoanKeys(obPrestiti)[|obPrestiti| - 1] == p.Key();
      label mid:
      returned := RestituisciPrestito(p);
    }
  }

  /** `aggiungiLibro` as written, on a new library: the book with -1 copies
   *  owned and -1 available is catalogued, and the records are valid with
   *  a negative available count in them. */
  method NegativeCopiesCatalogued() returns (b: Biblioteca, st: Status)
    ensures st == Done && b.Valid()
    ensures |b.obLibreria| == 1 && b.obLibreria[0].numCopieDisponibili == -1
    ensures !CopiesInRange(b.obLibreria)
  {
    b := new Biblioteca();
    NegativeCopiesPass();
    st := b.AggiungiLibro("Titolo", [], 2020, "9788800000000", -1, -1);
  }
}
