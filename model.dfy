/** The lending domain: authors, books, patrons and loans, and the three
 *  registries that hold them (the Java package `Model`). Entities are
 *  mutable objects shared by reference; every list is a sequence value
 *  held in a field. */
module Model {
  import opened JavaLang
  import opened Lists
  import Dates

  // ================================================================= messages

  /** The texts of the exceptions the entities and registries throw. */
  function AutoreGiaPresente(autore: string): string
  {
    "L'autore " + autore + " è già presente in questo libro."
  }

  function AutoreAssente(autore: string): string
  {
    "L'autore " + autore + " non è presente in questo libro."
  }

  const CopieEsaurite: string := "Non ci sono copie disponibili di questo libro per il prestito."

  function LibroDuplicato(libro: string): string
  {
    "ERRORE DUPLICATO: Libro" + libro + " già presente."
  }

  function LibroNonInLista(libro: string): string
  {
    "IMPOSSIBILE ELIMINARE LIBRO! Libro : " + libro + " non presente nella lista!"
  }

  function LibroInPrestitoNonEliminabile(libro: string): string
  {
    "IMPOSSIBILE ELIMINARE LIBRO! Libro : " + libro + " in prestito!"
  }

  function UtenteDuplicato(utente: string): string
  {
    "ERRORE DUPLICATO: Utente " + utente + " già presente."
  }

  function UtenteNonInLista(utente: string): string
  {
    "IMPOSSIBILE ELIMINARE UTENTE! Utente : " + utente + " non presente nella lista!"
  }

  const PrestitoDuplicato: string := "ERRORE DUPLICATO: Il prestito risulta già registrato nel sistema."
  const PrestitoAssente: string := "ERRORE RIMOZIONE: Il prestito da rimuovere non è presente"

  // =================================================================== Autore

  /** An author of a book. */
  class Autore {
    var nome: string
    var cognome: string

    constructor (nome: string, cognome: string)
      ensures this.nome == nome && this.cognome == cognome
    {
      this.nome := nome;
      this.cognome := cognome;
    }

    /** Replaces the first name, and nothing else. */
    method SetNome(nome: string)
      modifies this`nome
      ensures this.nome == nome
    {
      this.nome := nome;
    }

    /** Replaces the last name, and nothing else. */
    method SetCognome(cognome: string)
      modifies this`cognome
      ensures this.cognome == cognome
    {
      this.cognome := cognome;
    }

    /** First name, one space, last name. */
    function ToString(): string
      reads this
    {
      nome + " " + cognome
    }

    /** The pair `equals` compares. */
    function Key(): (string, string)
      reads this
    {
      (nome, cognome)
    }

    /** `equals`: an author with the same first and last name; never `null`
     *  nor an object of another class. */
    predicate Equals(o: object?)
      reads this, o
    {
      o is Autore && (o as Autore).nome == nome && (o as Autore).cognome == cognome
    }

    function HashCode(): Int32
      reads this
    {
      Wrap(31 * 7 + StringHash(nome) + StringHash(cognome))
    }
  }

  /** Author equality is name equality: reflexive, symmetric, false against
   *  `null` and other classes, and equal authors hash alike. */
  lemma AutoreEquality(a: Autore, b: Autore, other: Libro)
    ensures a.Equals(a)
    ensures a.Equals(b) <==> a.nome == b.nome && a.cognome == b.cognome
    ensures a.Equals(b) <==> a.Key() == b.Key()
    ensures a.Equals(b) ==> b.Equals(a) && a.HashCode() == b.HashCode()
    ensures !a.Equals(null) && !a.Equals(other)
  {
  }

  /** The authors' name pairs, in order. */
  function AuthorKeys(s: seq<Autore>): (r: seq<(string, string)>)
    reads s
    ensures |r| == |s|
    ensures forall i {:trigger r[i]} :: 0 <= i < |s| ==> r[i] == s[i].Key()
  {
    if s == [] then [] else [s[0].Key()] + AuthorKeys(s[1..])
  }

  /** Appending an author appends its name pair. */
  lemma AuthorKeysAppend(s: seq<Autore>, a: Autore)
    ensures AuthorKeys(s + [a]) == AuthorKeys(s) + [a.Key()]
  {
  }

  /** `List.toString` of an author list: `[a, b, c]`. */
  function AuthorsText(s: seq<Autore>): string
    reads s
  {
    "[" + AuthorsJoined(s) + "]"
  }

  function AuthorsJoined(s: seq<Autore>): string
    reads s
  {
    if s == [] then ""
    else if |s| == 1 then s[0].ToString()
    else s[0].ToString() + ", " + AuthorsJoined(s[1..])
  }

  // ==================================================================== Libro

  /** A catalogued title, with its copy counters. */
  class Libro {
    var titolo: string
    var autori: seq<Autore>
    var anno: Int32
    var isbn: string
    var numCopieTotali: Int32
    var numCopieDisponibili: Int32

    /** A new book has no authors and every copy available, whatever author
     *  list and available count are passed in. */
    constructor (titolo: string, autori: seq<Autore>, anno: Int32, isbn: string,
                 numCopieTotali: Int32, numCopieDisponibili: Int32)
      ensures this.titolo == titolo && this.autori == [] && this.anno == anno && this.isbn == isbn
      ensures this.numCopieTotali == numCopieTotali && this.numCopieDisponibili == numCopieTotali
    {
      this.titolo := titolo;
      this.autori := [];
      this.anno := anno;
      this.isbn := isbn;
      this.numCopieTotali := numCopieTotali;
      this.numCopieDisponibili := numCopieTotali;
    }

    method SetTitolo(titolo: string)
      modifies this`titolo
      ensures this.titolo == titolo
    {
      this.titolo := titolo;
    }

    /** Stores a copy of the list: later changes to the caller's list are not seen. */
    method SetAutori(autori: seq<Autore>)
      modifies this`autori
      ensures this.autori == autori
    {
      this.autori := autori;
    }

    method SetAnno(anno: Int32)
      modifies this`anno
      ensures this.anno == anno
    {
      this.anno := anno;
    }

    method SetIsbn(isbn: string)
      modifies this`isbn
      ensures this.isbn == isbn
    {
      this.isbn := isbn;
    }

    method SetNumCopieTotali(n: Int32)
      modifies this`numCopieTotali
      ensures numCopieTotali == n
    {
      numCopieTotali := n;
    }

    method SetNumCopieDisponibili(n: Int32)
      modifies this`numCopieDisponibili
      ensures numCopieDisponibili == n
    {
      numCopieDisponibili := n;
    }

    /** Appends an author no equal of whom is listed yet; otherwise throws
     *  and leaves the list as it was. */
    method AggiungiAutore(a: Autore) returns (st: Status)
      modifies this`autori
      ensures a.Key() !in old(AuthorKeys(autori)) ==> st == Done && autori == old(autori) + [a]
      ensures a.Key() in old(AuthorKeys(autori)) ==>
                st == Thrown(Exception(AutoreGiaPresente(a.ToString())))
                && autori == old(autori)
    {
      if a.Key() !in AuthorKeys(autori) {
        autori := autori + [a];
        st := Done;
      } else {
        st := Thrown(Exception(AutoreGiaPresente(a.ToString())));
      }
    }

    /** Removes the first author equal to `a`, keeping the others in order;
     *  throws and changes nothing when there is none. */
    method RimuoviAutore(a: Autore) returns (st: Status)
      modifies this`autori
      ensures a.Key() !in old(AuthorKeys(autori)) ==>
                st == Thrown(Exception(AutoreAssente(a.ToString())))
                && autori == old(autori)
      ensures a.Key() in old(AuthorKeys(autori)) ==>
                st == Done
                && autori == RemoveAt(old(autori), IndexOf(old(AuthorKeys(autori)), a.Key()))
    {
      if a.Key() !in AuthorKeys(autori) {
        st := Thrown(Exception(AutoreAssente(a.ToString())));
      } else {
        autori := RemoveAt(autori, IndexOf(AuthorKeys(autori), a.Key()));
        st := Done;
      }
    }

    /** Some copy is out: fewer available than owned. */
    predicate IsLibroInPrestito()
      reads this
    {
      numCopieTotali > numCopieDisponibili
    }

    /** Some copy can be lent. */
    predicate IsDisponibile()
      reads this
    {
      numCopieDisponibili > 0
    }

    /** One more available copy, with no check against the total (and the
     *  `int` wrap-around of `++`). */
    method AumentaCopie()
      modifies this`numCopieDisponibili
      ensures numCopieDisponibili == Inc(old(numCopieDisponibili))
      ensures old(numCopieDisponibili) < MaxInt ==> numCopieDisponibili == old(numCopieDisponibili) + 1
    {
      numCopieDisponibili := Inc(numCopieDisponibili);
    }

    /** One copy fewer available when some are; otherwise throws and changes
     *  nothing. It never takes the count below zero. */
    method DiminuisciCopie() returns (st: Status)
      modifies this`numCopieDisponibili
      ensures old(numCopieDisponibili) > 0 ==>
                st == Done && numCopieDisponibili == old(numCopieDisponibili) - 1
      ensures old(numCopieDisponibili) <= 0 ==>
                st == Thrown(Exception(CopieEsaurite))
                && numCopieDisponibili == old(numCopieDisponibili)
      ensures old(numCopieDisponibili) >= 0 ==> numCopieDisponibili >= 0
      ensures st == Done <==> old(IsDisponibile())
    {
      if numCopieDisponibili > 0 {
        numCopieDisponibili := numCopieDisponibili - 1;
        st := Done;
      } else {
        st := Thrown(Exception(CopieEsaurite));
      }
    }

    /** `Titolo (Autori : [a, b]) [ISBN: n]` and a line break. */
    function ToString(): string
      reads this, autori
    {
      titolo + " (Autori : " + AuthorsText(autori) + ") [ISBN: " + isbn + "]\n"
    }

    /** `equals`: a book with the same ISBN, whatever its other fields. */
    predicate Equals(o: object?)
      reads this, o
    {
      o is Libro && (o as Libro).isbn == isbn
    }

    function HashCode(): Int32
      reads this
    {
      Wrap(31 * 7 + StringHash(isbn))
    }
  }

  /** Book equality and hash depend on the ISBN alone. */
  lemma LibroEquality(l: Libro, m: Libro, other: Utente)
    ensures l.Equals(l)
    ensures l.Equals(m) <==> l.isbn == m.isbn
    ensures l.Equals(m) ==> m.Equals(l) && l.HashCode() == m.HashCode()
    ensures !l.Equals(null) && !l.Equals(other)
  {
  }

  // =================================================================== Utente

  /** A registered patron, with the number of loans they hold. */
  class Utente {
    var nome: string
    var cognome: string
    var matricola: string
    var email: string
    var numPrestitiAttivi: Int32

    constructor (nome: string, cognome: string, matricola: string, email: string, numPrestitiAttivi: Int32)
      ensures this.nome == nome && this.cognome == cognome && this.matricola == matricola
      ensures this.email == email && this.numPrestitiAttivi == numPrestitiAttivi
    {
      this.nome := nome;
      this.cognome := cognome;
      this.matricola := matricola;
      this.email := email;
      this.numPrestitiAttivi := numPrestitiAttivi;
    }

    method SetNome(nome: string)
      modifies this`nome
      ensures this.nome == nome
    {
      this.nome := nome;
    }

    method SetCognome(cognome: string)
      modifies this`cognome
      ensures this.cognome == cognome
    {
      this.cognome := cognome;
    }

    method SetMatricola(matricola: string)
      modifies this`matricola
      ensures this.matricola == matricola
    {
      this.matricola := matricola;
    }

    method SetEmail(email: string)
      modifies this`email
      ensures this.email == email
    {
      this.email := email;
    }

    method SetNumPrestitiAttivi(n: Int32)
      modifies this`numPrestitiAttivi
      ensures numPrestitiAttivi == n
    {
      numPrestitiAttivi := n;
    }

    /** The patron has reached the limit of three loans. */
    predicate LimitePrestiti()
      reads this
    {
      numPrestitiAttivi >= 3
    }

    /** The patron holds some loan. */
    predicate InPrestito()
      reads this
    {
      numPrestitiAttivi > 0
    }

    /** One more active loan; no cap is applied here. */
    method IncrementaPrestitiAttivi()
      modifies this`numPrestitiAttivi
      ensures numPrestitiAttivi == Inc(old(numPrestitiAttivi))
      ensures old(numPrestitiAttivi) < MaxInt ==> numPrestitiAttivi == old(numPrestitiAttivi) + 1
    {
      numPrestitiAttivi := Inc(numPrestitiAttivi);
    }

    /** One active loan fewer; no floor is applied here. */
    method DecrementaPrestitiAttivi()
      modifies this`numPrestitiAttivi
      ensures numPrestitiAttivi == Dec(old(numPrestitiAttivi))
      ensures old(numPrestitiAttivi) > MinInt ==> numPrestitiAttivi == old(numPrestitiAttivi) - 1
    {
      numPrestitiAttivi := Dec(numPrestitiAttivi);
    }

    /** `nome cognome (Matr: m, Email: e) - Prestiti Attivi: n` */
    function ToString(): string
      reads this
    {
      nome + " " + cognome + " (Matr: " + matricola + ", Email: " + email
      + ") - Prestiti Attivi: " + IntText(numPrestitiAttivi)
    }

    /** `equals`: a patron with the same matricola, whatever their other fields. */
    predicate Equals(o: object?)
      reads this, o
    {
      o is Utente && (o as Utente).matricola == matricola
    }

    function HashCode(): Int32
      reads this
    {
      Wrap(31 * 7 + StringHash(matricola))
    }
  }

  /** Patron equality and hash depend on the matricola alone. */
  lemma UtenteEquality(u: Utente, v: Utente, other: Libro)
    ensures u.Equals(u)
    ensures u.Equals(v) <==> u.matricola == v.matricola
    ensures u.Equals(v) ==> v.Equals(u) && u.HashCode() == v.HashCode()
    ensures !u.Equals(null) && !u.Equals(other)
  {
  }

  /** The rendering ends with the active-loan count, which can be read back. */
  lemma UtenteToString(u: Utente)
    ensures var t := IntText(u.numPrestitiAttivi);
            |t| <= |u.ToString()| && u.ToString()[|u.ToString()| - |t|..] == t
            && IntValue(t) == u.numPrestitiAttivi
  {
    IntTextRoundTrip(u.numPrestitiAttivi);
  }

  // ================================================================= Prestito

  /** What identifies a loan: the patron's matricola, the book's ISBN and the
   *  due date. */
  datatype LoanKey = LoanKey(matricola: string, isbn: string, due: Dates.Date)

  /** A copy of a book lent to a patron until a due date. */
  class Prestito {
    var utente: Utente
    var libro: Libro
    var dataRestituzione: Dates.Date

    constructor (utente: Utente, libro: Libro, dataRestituzione: Dates.Date)
      ensures this.utente == utente && this.libro == libro && this.dataRestituzione == dataRestituzione
    {
      this.utente := utente;
      this.libro := libro;
      this.dataRestituzione := dataRestituzione;
    }

    method SetUtente(utente: Utente)
      modifies this`utente
      ensures this.utente == utente
    {
      this.utente := utente;
    }

    method SetLibro(libro: Libro)
      modifies this`libro
      ensures this.libro == libro
    {
      this.libro := libro;
    }

    method SetDataRestituzione(d: Dates.Date)
      modifies this`dataRestituzione
      ensures dataRestituzione == d
    {
      dataRestituzione := d;
    }

    /** The loan is late: `today` is strictly after the due date. */
    predicate ControllaRitardo(today: Dates.Date)
      reads this
    {
      Dates.IsAfter(today, dataRestituzione)
    }

    /** `Prestito: titolo a nome cognome. --- Scadenza: yyyy-MM-dd (Ritardo: SI|NO)` */
    function ToString(today: Dates.Date): (r: string)
      reads this, utente, libro
      ensures ControllaRitardo(today) ==> |r| >= 13 && r[|r| - 13..] == "(Ritardo: SI)"
      ensures !ControllaRitardo(today) ==> |r| >= 13 && r[|r| - 13..] == "(Ritardo: NO)"
    {
      WithLateFlag("Prestito: " + libro.titolo + " a " + utente.nome + " " + utente.cognome
                   + ". --- Scadenza: " + Dates.IsoText(dataRestituzione) + " ",
                   ControllaRitardo(today))
    }

    /** The triple `equals` compares. */
    function Key(): LoanKey
      reads this`utente, this`libro, this`dataRestituzione, utente`matricola, libro`isbn
    {
      LoanKey(utente.matricola, libro.isbn, dataRestituzione)
    }

    /** `equals`: a loan whose patron, book and due date are each equal. */
    predicate Equals(o: object?)
      reads this, utente, libro, o, PartiesOf(o)
    {
      o is Prestito
      && utente.Equals((o as Prestito).utente)
      && libro.Equals((o as Prestito).libro)
      && dataRestituzione == (o as Prestito).dataRestituzione
    }

    function HashCode(): Int32
      reads this, utente, libro
    {
      LoanHash(utente.HashCode(), libro.HashCode(), Dates.DateHash(dataRestituzione))
    }
  }

  /** `31 * hash + hu + hl + hd` with `hash` 7, as a Java `int`. */
  function LoanHash(hu: Int32, hl: Int32, hd: Int32): Int32
  {
    Wrap(31 * 7 + hu + hl + hd)
  }

  /** `front` followed by the late flag in parentheses. */
  function WithLateFlag(front: string, late: bool): (r: string)
    ensures |r| >= 13 && r[|r| - 13..] == (if late then "(Ritardo: SI)" else "(Ritardo: NO)")
  {
    front + "(Ritardo: " + (if late then "SI" else "NO") + ")"
  }

  /** The patron and book of `o` when it is a loan. */
  function PartiesOf(o: object?): set<object>
    reads o
  {
    if o is Prestito then {(o as Prestito).utente, (o as Prestito).libro} else {}
  }

  /** Loan equality is key equality: reflexive, symmetric, false against
   *  `null` and other classes, and equal loans hash alike. */
  lemma PrestitoEquality(p: Prestito, q: Prestito, other: Libro)
    ensures p.Equals(p)
    ensures p.Equals(q) <==> p.Key() == q.Key()
    ensures p.Equals(q) ==> q.Equals(p) && p.HashCode() == q.HashCode()
    ensures !p.Equals(null) && !p.Equals(other)
  {
    if p.Equals(q) {
      PrestitoHashAlike(p, q);
    }
  }

  /** Loans with the same key hash alike. */
  lemma PrestitoHashAlike(p: Prestito, q: Prestito)
    requires p.Key() == q.Key()
    ensures p.HashCode() == q.HashCode()
  {
    UtenteEquality(p.utente, q.utente, p.libro);
    LibroEquality(p.libro, q.libro, p.utente);
  }

  // ============================================================== key columns

  /** The ISBNs of a list of books, in order. */
  function Isbns(s: seq<Libro>): (r: seq<string>)
    reads s`isbn
    ensures |r| == |s|
    ensures forall i {:trigger r[i]} :: 0 <= i < |s| ==> r[i] == s[i].isbn
  {
    if s == [] then [] else [s[0].isbn] + Isbns(s[1..])
  }

  /** The matricolas of a list of patrons, in order. */
  function Matricole(s: seq<Utente>): (r: seq<string>)
    reads s`matricola
    ensures |r| == |s|
    ensures forall i {:trigger r[i]} :: 0 <= i < |s| ==> r[i] == s[i].matricola
  {
    if s == [] then [] else [s[0].matricola] + Matricole(s[1..])
  }

  /** The patrons and the books a list of loans refers to. */
  function UtentiOf(s: seq<Prestito>): set<Utente>
    reads s`utente
  {
    if s == [] then {} else {s[0].utente} + UtentiOf(s[1..])
  }

  function LibriOf(s: seq<Prestito>): set<Libro>
    reads s`libro
  {
    if s == [] then {} else {s[0].libro} + LibriOf(s[1..])
  }

  /** The keys of a list of loans, in order. */
  function LoanKeys(s: seq<Prestito>): (r: seq<LoanKey>)
    reads s`utente, s`libro, s`dataRestituzione, UtentiOf(s)`matricola, LibriOf(s)`isbn
    ensures |r| == |s|
    ensures forall i {:trigger r[i]} :: 0 <= i < |s| ==> r[i] == s[i].Key()
  {
    if s == [] then [] else [s[0].Key()] + LoanKeys(s[1..])
  }

  /** The books of a list of loans, in order. */
  function LoanBooks(s: seq<Prestito>): (r: seq<Libro>)
    reads s`libro
    ensures |r| == |s|
    ensures forall i {:trigger r[i]} :: 0 <= i < |s| ==> r[i] == s[i].libro
  {
    if s == [] then [] else [s[0].libro] + LoanBooks(s[1..])
  }

  /** The patrons of a list of loans, in order. */
  function LoanPatrons(s: seq<Prestito>): (r: seq<Utente>)
    reads s`utente
    ensures |r| == |s|
    ensures forall i {:trigger r[i]} :: 0 <= i < |s| ==> r[i] == s[i].utente
  {
    if s == [] then [] else [s[0].utente] + LoanPatrons(s[1..])
  }

  /** The key columns commute with removing a position. */
  lemma IsbnsRemoveAt(s: seq<Libro>, k: nat)
    requires k < |s|
    ensures Isbns(RemoveAt(s, k)) == RemoveAt(Isbns(s), k)
  {
  }

  lemma MatricoleRemoveAt(s: seq<Utente>, k: nat)
    requires k < |s|
    ensures Matricole(RemoveAt(s, k)) == RemoveAt(Matricole(s), k)
  {
  }

  lemma LoanKeysRemoveAt(s: seq<Prestito>, k: nat)
    requires k < |s|
    ensures LoanKeys(RemoveAt(s, k)) == RemoveAt(LoanKeys(s), k)
  {
  }

  /** `List.remove(Object)` on books: drops the first book with that ISBN. */
  function RemoveLibro(s: seq<Libro>, isbn: string): (r: seq<Libro>)
    reads s`isbn
  {
    var k := IndexOf(Isbns(s), isbn);
    if k < 0 then s else RemoveAt(s, k)
  }

  /** `List.remove(Object)` on patrons: drops the first patron with that matricola. */
  function RemoveUtente(s: seq<Utente>, matricola: string): (r: seq<Utente>)
    reads s`matricola
  {
    var k := IndexOf(Matricole(s), matricola);
    if k < 0 then s else RemoveAt(s, k)
  }

  /** `List.remove(Object)` on loans: drops the first loan with that key. */
  function RemovePrestito(s: seq<Prestito>, key: LoanKey): (r: seq<Prestito>)
    reads s`utente, s`libro, s`dataRestituzione, UtentiOf(s)`matricola, LibriOf(s)`isbn
  {
    var k := IndexOf(LoanKeys(s), key);
    if k < 0 then s else RemoveAt(s, k)
  }

  /** Removing by key from a list whose keys are unique keeps the keys unique,
   *  makes the key absent, and keeps every other entry. */
  lemma RemoveByKey<T, K>(s: seq<T>, keys: seq<K>, key: K, k: int)
    requires |keys| == |s| && k == IndexOf(keys, key)
    ensures k >= 0 && Distinct(keys) ==> Distinct(RemoveAt(keys, k)) && key !in RemoveAt(keys, k)
  {
    if k >= 0 && Distinct(keys) {
      DistinctRemoveAt(keys, k);
    }
  }

  // ================================================================= Libreria

  /** The catalogue. */
  class Libreria {
    var libreria: seq<Libro>

    /** A copy of the given list, or an empty catalogue for `null`. */
    constructor (libreria: Option<seq<Libro>>)
      ensures libreria.Some? ==> this.libreria == libreria.value
      ensures libreria.None? ==> this.libreria == []
    {
      this.libreria := if libreria.Some? then libreria.value else [];
    }

    /** The no-argument constructor: an empty catalogue. */
    constructor Default()
      ensures libreria == []
    {
      libreria := [];
    }

    /** `contains`: some stored book equals `l`, that is, has its ISBN. */
    predicate IsInLibreria(l: Libro)
      reads this, libreria, l
      ensures IsInLibreria(l) <==> exists i :: 0 <= i < |libreria| && l.Equals(libreria[i])
    {
      assert forall i :: 0 <= i < |libreria| ==> (l.Equals(libreria[i]) <==> Isbns(libreria)[i] == l.isbn);
      l.isbn in Isbns(libreria)
    }

    /** Appends a book whose ISBN is new; otherwise throws and changes nothing.
     *  Unique ISBNs stay unique. */
    method AggiungiLibro(l: Libro) returns (st: Status)
      modifies this
      ensures old(IsInLibreria(l)) ==>
                st == Thrown(Exception(LibroDuplicato(l.ToString())))
                && libreria == old(libreria)
      ensures !old(IsInLibreria(l)) ==> st == Done && libreria == old(libreria) + [l]
      ensures Distinct(old(Isbns(libreria))) ==> Distinct(Isbns(libreria))
    {
      if IsInLibreria(l) {
        st := Thrown(Exception(LibroDuplicato(l.ToString())));
      } else {
        DistinctAppend(Isbns(libreria), l.isbn);
        assert Isbns(libreria + [l]) == Isbns(libreria) + [l.isbn];
        libreria := libreria + [l];
        st := Done;
      }
    }

    /** Removes the stored book with `l`'s ISBN, keeping the others in order.
     *  Throws and changes nothing when there is none, or when `l` itself has
     *  copies out on loan. */
    method EliminaLibro(l: Libro) returns (st: Status)
      modifies this
      ensures !old(IsInLibreria(l)) ==>
                st == Thrown(Exception(LibroNonInLista(l.ToString())))
                && libreria == old(libreria)
      ensures old(IsInLibreria(l)) && l.IsLibroInPrestito() ==>
                st == Thrown(Exception(LibroInPrestitoNonEliminabile(l.ToString())))
                && libreria == old(libreria)
      ensures old(IsInLibreria(l)) && !l.IsLibroInPrestito() ==>
                st == Done && libreria == RemoveAt(old(libreria), IndexOf(old(Isbns(libreria)), l.isbn))
      ensures Distinct(old(Isbns(libreria))) ==>
                Distinct(Isbns(libreria)) && (st == Done ==> !IsInLibreria(l))
    {
      if !IsInLibreria(l) {
        st := Thrown(Exception(LibroNonInLista(l.ToString())));
        return;
      }
      if l.IsLibroInPrestito() {
        st := Thrown(Exception(LibroInPrestitoNonEliminabile(l.ToString())));
        return;
      }
      var k := IndexOf(Isbns(libreria), l.isbn);
      RemoveByKey(libreria, Isbns(libreria), l.isbn, k);
      IsbnsRemoveAt(libreria, k);
      libreria := RemoveAt(libreria, k);
      st := Done;
    }

    /** The one-argument edit is empty: it changes nothing. */
    method ModificaLibro(l: Libro)
      ensures unchanged(this, l)
    {
    }
  }

  // ================================================================== Clienti

  /** The patron registry. Its list is the one it was built from, `null`
   *  included. */
  class Clienti {
    var clienti: Option<seq<Utente>>

    /** Keeps the given list itself: no copy, and `null` stays `null`. */
    constructor (clienti: Option<seq<Utente>>)
      ensures this.clienti == clienti
    {
      this.clienti := clienti;
    }

    /** The stored patrons, for reads clauses. */
    function Stored(): seq<Utente>
      reads this
    {
      if clienti.Some? then clienti.value else []
    }

    /** Membership by matricola; a `null` list throws. */
    function EsisteUtente(u: Utente): (r: Result<bool>)
      reads this, Stored(), u
      ensures clienti.None? ==> r == Err(NullDereference)
      ensures clienti.Some? ==>
                r.Ok? && (r.value <==> exists i :: 0 <= i < |clienti.value| && u.Equals(clienti.value[i]))
    {
      if clienti.None? then Err(NullDereference)
      else
        assert forall i :: 0 <= i < |clienti.value| ==>
          (u.Equals(clienti.value[i]) <==> Matricole(clienti.value)[i] == u.matricola);
        Ok(u.matricola in Matricole(clienti.value))
    }

    /** Appends a patron whose matricola is new; otherwise throws and changes
     *  nothing. Unique matricolas stay unique. */
    method AggiungiUtente(u: Utente) returns (st: Status)
      modifies this
      ensures old(clienti).None? ==> st == Thrown(NullDereference) && clienti == old(clienti)
      ensures old(clienti).Some? && u.matricola in old(Matricole(clienti.value)) ==>
                st == Thrown(Exception(UtenteDuplicato(u.ToString())))
                && clienti == old(clienti)
      ensures old(clienti).Some? && u.matricola !in old(Matricole(clienti.value)) ==>
                st == Done && clienti == Some(old(clienti.value) + [u])
      ensures old(clienti).Some? && Distinct(old(Matricole(clienti.value))) ==>
                clienti.Some? && Distinct(Matricole(clienti.value))
    {
      if clienti.None? {
        return Thrown(NullDereference);
      }
      var s := clienti.value;
      if u.matricola in Matricole(s) {
        return Thrown(Exception(UtenteDuplicato(u.ToString())));
      }
      DistinctAppend(Matricole(s), u.matricola);
      assert Matricole(s + [u]) == Matricole(s) + [u.matricola];
      clienti := Some(s + [u]);
      st := Done;
    }

    /** Removes the stored patron with `u`'s matricola, keeping the others in
     *  order; throws and changes nothing when there is none. */
    method EliminaUtente(u: Utente) returns (st: Status)
      modifies this
      ensures old(clienti).None? ==> st == Thrown(NullDereference) && clienti == old(clienti)
      ensures old(clienti).Some? && u.matricola !in old(Matricole(clienti.value)) ==>
                st == Thrown(Exception(UtenteNonInLista(u.ToString())))
                && clienti == old(clienti)
      ensures old(clienti).Some? && u.matricola in old(Matricole(clienti.value)) ==>
                st == Done
                && clienti == Some(RemoveAt(old(clienti.value), IndexOf(old(Matricole(clienti.value)), u.matricola)))
      ensures old(clienti).Some? && Distinct(old(Matricole(clienti.value))) ==>
                clienti.Some? && Distinct(Matricole(clienti.value))
                && (st == Done ==> u.matricola !in Matricole(clienti.value))
    {
      if clienti.None? {
        return Thrown(NullDereference);
      }
      var s := clienti.value;
      if u.matricola !in Matricole(s) {
        return Thrown(Exception(UtenteNonInLista(u.ToString())));
      }
      var k := IndexOf(Matricole(s), u.matricola);
      RemoveByKey(s, Matricole(s), u.matricola, k);
      MatricoleRemoveAt(s, k);
      clienti := Some(RemoveAt(s, k));
      st := Done;
    }

    /** The one-argument edit is empty: it changes nothing. */
    method ModificaUtente(u: Utente)
      ensures unchanged(this, u)
    {
    }
  }

  // ================================================================= Prestiti

  /** The loan ledger. Its list is the one it was built from, `null` included. */
  class Prestiti {
    var prestiti: Option<seq<Prestito>>

    /** Keeps the given list itself: no copy, and `null` stays `null`. */
    constructor (prestiti: Option<seq<Prestito>>)
      ensures this.prestiti == prestiti
    {
      this.prestiti := prestiti;
    }

    function Stored(): seq<Prestito>
      reads this
    {
      if prestiti.Some? then prestiti.value else []
    }

    /** Appends a loan with a new (patron, book, due date) key; otherwise
     *  throws and changes nothing. Unique keys stay unique. */
    method AggiungiPrestito(p: Prestito) returns (st: Status)
      modifies this
      ensures old(prestiti).None? ==> st == Thrown(NullDereference) && prestiti == old(prestiti)
      ensures old(prestiti).Some? && old(p.Key()) in old(LoanKeys(prestiti.value)) ==>
                st == Thrown(Exception(PrestitoDuplicato))
                && unchanged(this)
      ensures old(prestiti).Some? && old(p.Key()) !in old(LoanKeys(prestiti.value)) ==>
                st == Done && prestiti == Some(old(prestiti.value) + [p])
      ensures old(prestiti).Some? && Distinct(old(LoanKeys(prestiti.value))) ==>
                prestiti.Some? && Distinct(LoanKeys(prestiti.value))
    {
      if prestiti.None? {
        return Thrown(NullDereference);
      }
      var s := prestiti.value;
      if p.Key() in LoanKeys(s) {
        return Thrown(Exception(PrestitoDuplicato));
      }
      DistinctAppend(LoanKeys(s), p.Key());
      assert LoanKeys(s + [p]) == LoanKeys(s) + [p.Key()];
      prestiti := Some(s + [p]);
      st := Done;
    }

    /** Removes the stored loan with `p`'s key, keeping the others in order;
     *  throws and changes nothing when there is none. */
    method RimuoviPrestito(p: Prestito) returns (st: Status)
      modifies this
      ensures old(prestiti).None? ==> st == Thrown(NullDereference) && prestiti == old(prestiti)
      ensures old(prestiti).Some? && old(p.Key()) !in old(LoanKeys(prestiti.value)) ==>
                st == Thrown(Exception(PrestitoAssente))
                && unchanged(this)
      ensures old(prestiti).Some? && old(p.Key()) in old(LoanKeys(prestiti.value)) ==>
                st == Done
                && prestiti == Some(old(RemovePrestito(prestiti.value, p.Key())))
      ensures old(prestiti).Some? && Distinct(old(LoanKeys(prestiti.value))) ==>
                prestiti.Some? && Distinct(LoanKeys(prestiti.value))
                && (st == Done ==> p.Key() !in LoanKeys(prestiti.value))
    {
      if prestiti.None? {
        return Thrown(NullDereference);
      }
      var s := prestiti.value;
      if p.Key() !in LoanKeys(s) {
        return Thrown(Exception(PrestitoAssente));
      }
      var k := IndexOf(LoanKeys(s), p.Key());
      RemoveByKey(s, LoanKeys(s), p.Key(), k);
      LoanKeysRemoveAt(s, k);
      prestiti := Some(RemoveAt(s, k));
      st := Done;
    }
  }
}
