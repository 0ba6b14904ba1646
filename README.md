# University library lending — a Dafny model

This project models the in-memory core of a university library's lending
system written in Java. The system has two packages.

- **`Model`** holds the entities and the registries:
  - the entities: authors (`Autore`), books (`Libro`), patrons (`Utente`) and loans (`Prestito`);
  - the registries: the catalogue (`Libreria`), the patron registry (`Clienti`) and the loan ledger (`Prestiti`).
- **`Controller`** holds two things:
  - the coordinator `Biblioteca`. It validates form fields, keeps the registries and the lists shown on screen in step, and moves the book and patron counters when a loan is made or returned;
  - the author parser `parseAutori` of the main window.

The Dafny files follow the Java packages:

| file | models |
|---|---|
| `java_lang.dfy` | Java `int` (32-bit wrap-around), `null` as `Option`, exceptions as a `Status`/`Result` outcome, `String.hashCode`, decimal `int` text |
| `lists.dfy` | the `ArrayList` operations the registries use (`indexOf`, `remove`), uniqueness and counting |
| `text.dfy` | `trim`, `toLowerCase`, `contains`, `lastIndexOf`, `split(",")` and the regular-expression character classes |
| `dates.dfy` | `LocalDate` as an epoch day: `isAfter`, `toString`, `hashCode` |
| `model.dfy` | module `Model`: the classes `Autore`, `Libro`, `Utente`, `Prestito`, `Libreria`, `Clienti`, `Prestiti` |
| `controller.dfy` | module `Controller`: field rules, the class `Biblioteca`, the filters |
| `main_controller.dfy` | module `MainController`: `parseAutori` |

How Java constructs are modelled:

- **Mutable objects.** Entities are Dafny classes whose setters change one field each and say so in their `modifies` clause.
- **Lists.** Every list is a `seq` held in a field and reassigned. A list that may be `null` is an `Option<seq<…>>`.
- **Equality.** `equals` is the business key: (nome, cognome) for an author, the ISBN for a book, the matricola for a patron, and (matricola, ISBN, due date) for a loan. Membership, duplicate checks and removal go through these keys, as `ArrayList.contains`/`indexOf`/`remove` do in Java.
- **Exceptions.** A method that can throw returns a `Status`: `Done` or `Thrown(exc)`, with the exact message text. Every refusal is stated together with the unchanged state.
- **Shared objects.** The coordinator's `Valid()` invariant says three things:
  - each registry holds exactly what its screen list shows;
  - ISBNs, matricolas and loans are unique;
  - every loan is on a listed book by a listed patron, each book has `available + loans on it == total` (the available count can be negative for a book with no loan; see "## Findings"), and each patron has `count == loans held <= 3`.
- **Preserving `Valid()`.** Every operation proves that it keeps `Valid()` whenever the objects it is given are the listed ones, which is how the screens call it. Every operation also states its exact effect for every other input, including the Java edge cases:
  - a deletion guard reads the argument's counters, not the stored object's;
  - `obList.set(obList.indexOf(x), x)` throws `IndexOutOfBounds(-1)` after the counters have already moved, when no equal entry is listed.
- **The clock.** `LocalDate.now()` is a `today` parameter.

Source versus documentation:

- `Clienti` and `Prestiti` have empty method bodies in this revision of the source. `Biblioteca` calls `esisteUtente`, `getClienti` and `getPrestiti`, which they do not declare. The model gives these methods what their doc comments and their unit tests describe, on the pattern of `Libreria`:
  - add refuses a duplicate key and changes nothing;
  - remove refuses a missing key;
  - membership is by key.
  The message texts of those refusals are the ones the unit tests expect (src/test/java/test/ClientiTest.java:80 and 110, src/test/java/test/PrestitiTest.java:101 and 130).
- `Libro`'s constructor ignores its author list and its available-copies argument. A new book has no authors and every copy available. The model follows the code, not the test that expects the list to be kept.

## Model

| member | source | states |
|---|---|---|
| JavaLang.WrapTwosComplement | src/main/java/Model/Utente.java:80-89 | Java `int` arithmetic: the wrapped value is the two's-complement reduction modulo 2^32 and differs from the exact value by a multiple of 2^32 |
| JavaLang.IncDecWrap | src/main/java/Model/Utente.java:80-89 | `x + 1` and `x - 1` on an `int` are the wrapped sums, and each undoes the other for every `int`, `MAX_VALUE` and `MIN_VALUE` included |
| JavaLang.NatTextRoundTrip | src/main/java/Model/Utente.java:96-99 | the decimal text of a count is digits only and reads back as the same number |
| JavaLang.IntTextRoundTrip | src/main/java/Model/Utente.java:96-99 | the decimal text of an `int` starts with `-` exactly when it is negative and reads back as the same number |
| Text.TrimShape | src/main/java/Controller/Biblioteca.java:137-141 | `trim()` gives the contiguous middle of the text, with no character up to U+0020 at either end; it is empty exactly when every character is up to U+0020 |
| Text.TrimIdempotent | src/main/java/Controller/MainController.java:622 | trimming twice is trimming once |
| Text.TrimPadded | src/main/java/Controller/MainController.java:622 | text with trimmable padding on either side trims to the text |
| Text.ToLower | src/main/java/Controller/Biblioteca.java:104-106 | `toLowerCase()` keeps the length and lowers each character on its own |
| Text.LastIndexOf | src/main/java/Controller/MainController.java:624 | `lastIndexOf` is -1 exactly when the character is absent; otherwise the character is there and nowhere after it |
| Text.LastIndexOfSplit | src/main/java/Controller/MainController.java:624 | in `a + c + b` with no `c` in `b`, the last `c` sits right after `a` |
| Text.SplitAll | src/main/java/Controller/MainController.java:619 | splitting at every comma gives comma-free pieces that join back to the text |
| Text.SplitJoin | src/main/java/Controller/MainController.java:619 | comma-free pieces joined with commas split back into the same pieces |
| Text.DropTrailingEmpty | src/main/java/Controller/MainController.java:619 | the pieces `split` keeps are a prefix, everything dropped is empty, and the last kept piece is not empty |
| Text.JavaSplit | src/main/java/Controller/MainController.java:619 | `split(",")`: the whole text when it has no comma; otherwise a prefix of the comma-separated pieces with the trailing empty pieces dropped |
| Dates.Civil | src/main/java/Model/Prestito.java:57-63 | the calendar date of an epoch day has a month in 1..12 and a day in 1..31 |
| Dates.CivilRoundTrip | src/main/java/Model/Prestito.java:57-63 | the calendar date of every epoch day counts back to that same day by the independent `toEpochDay` formula, so different days give different dates |
| Dates.EraRoundTrip | src/main/java/Model/Prestito.java:57-63 | within a 400-year era, the date of each day counts back to that day |
| Dates.DayOfYearInRange | src/main/java/Model/Prestito.java:57-63 | the year within the era chosen for a day leaves between 0 and 365 days of that year, so the month is one of the twelve |
| Dates.EraDays | src/main/java/Model/Prestito.java:57-63 | a date some years into an era counts as the era's days before it plus its day within the era |
| Dates.EpochDay | src/main/java/Model/Prestito.java:57-63 | epoch day 0 is 1 January 1970 |
| Model.Autore.constructor | src/main/java/Model/Autore.java:21-24 | a new author has the given first and last name |
| Model.Autore.SetNome | src/main/java/Model/Autore.java:33 | only the first name changes, to the argument |
| Model.Autore.SetCognome | src/main/java/Model/Autore.java:36 | only the last name changes, to the argument |
| Model.AutoreEquality | src/main/java/Model/Autore.java:53-70 | an author equals itself; two authors are equal exactly when both names are equal; equality is symmetric and equal authors hash alike; no author equals `null` or a book |
| Model.AuthorKeysAppend | src/main/java/Model/Libro.java:81-90 | appending an author appends its (nome, cognome) key |
| Model.Libro.constructor | src/main/java/Model/Libro.java:23-30 | a new book has the given title, year, ISBN and total, no authors, and as many available copies as the total, whatever authors and available count were passed |
| Model.Libro.SetTitolo | src/main/java/Model/Libro.java:51 | only the title changes |
| Model.Libro.SetAutori | src/main/java/Model/Libro.java:54-56 | only the author list changes; it becomes a copy of the argument (a sequence value) |
| Model.Libro.SetAnno | src/main/java/Model/Libro.java:59 | only the year changes |
| Model.Libro.SetIsbn | src/main/java/Model/Libro.java:62 | only the ISBN changes |
| Model.Libro.SetNumCopieTotali | src/main/java/Model/Libro.java:65-67 | only the total changes |
| Model.Libro.SetNumCopieDisponibili | src/main/java/Model/Libro.java:70-72 | only the available count changes |
| Model.Libro.AggiungiAutore | src/main/java/Model/Libro.java:81-90 | an author with a new (nome, cognome) is appended; an equal author already listed throws "già presente" and leaves the list as it was |
| Model.Libro.RimuoviAutore | src/main/java/Model/Libro.java:100-109 | the first listed author equal to the argument is removed and the others keep their order; an absent author throws "non è presente" and leaves the list as it was |
| Model.Libro.AumentaCopie | src/main/java/Model/Libro.java:132-135 | the available count goes up by exactly one as a Java `int`, with no check against the total |
| Model.Libro.DiminuisciCopie | src/main/java/Model/Libro.java:125-149 | a positive available count goes down by one; otherwise it throws and nothing changes, so a non-negative count never becomes negative; it succeeds exactly when `isDisponibile` held before |
| Model.LibroEquality | src/main/java/Model/Libro.java:163-178 | books are equal exactly when their ISBNs are equal; equality is reflexive and symmetric, equal books hash alike, and no book equals `null` or a patron |
| Model.Utente.constructor | src/main/java/Model/Utente.java:19-25 | a new patron has the five given fields |
| Model.Utente.SetNome | src/main/java/Model/Utente.java:43 | only the first name changes |
| Model.Utente.SetCognome | src/main/java/Model/Utente.java:46 | only the last name changes |
| Model.Utente.SetMatricola | src/main/java/Model/Utente.java:49 | only the matricola changes |
| Model.Utente.SetEmail | src/main/java/Model/Utente.java:52 | only the e-mail changes |
| Model.Utente.SetNumPrestitiAttivi | src/main/java/Model/Utente.java:55 | only the loan count changes |
| Model.Utente.IncrementaPrestitiAttivi | src/main/java/Model/Utente.java:80-82 | the count goes up by exactly one as a Java `int`, with no cap |
| Model.Utente.DecrementaPrestitiAttivi | src/main/java/Model/Utente.java:87-89 | the count goes down by exactly one as a Java `int`, with no floor |
| Model.UtenteEquality | src/main/java/Model/Utente.java:105-120 | patrons are equal exactly when their matricolas are equal; equality is reflexive and symmetric, equal patrons hash alike, and no patron equals `null` or a book |
| Model.UtenteToString | src/main/java/Model/Utente.java:96-99 | `toString` ends with the decimal loan count, which reads back as the count |
| Model.Prestito.constructor | src/main/java/Model/Prestito.java:20-24 | a new loan has the given patron, book and due date |
| Model.Prestito.SetUtente | src/main/java/Model/Prestito.java:36 | only the patron changes |
| Model.Prestito.SetLibro | src/main/java/Model/Prestito.java:39 | only the book changes |
| Model.Prestito.SetDataRestituzione | src/main/java/Model/Prestito.java:42 | only the due date changes |
| Model.Prestito.ToString | src/main/java/Model/Prestito.java:57-63 | the text ends with "(Ritardo: SI)" when the loan is late on the given day and with "(Ritardo: NO)" otherwise |
| Model.PrestitoEquality | src/main/java/Model/Prestito.java:70-79 | loans are equal exactly when their (patron's matricola, book's ISBN, due date) keys are equal; equality is reflexive and symmetric, equal loans hash alike, and no loan equals `null` or a book |
| Model.PrestitoHashAlike | src/main/java/Model/Prestito.java:85-88 | loans with the same key have the same hash code |
| Model.Libreria.constructor | src/main/java/Model/Libreria.java:18-24 | a catalogue built from a list holds a copy of it; one built from `null` is empty |
| Model.Libreria.Default | src/main/java/Model/Libreria.java:27-29 | a catalogue built with no argument is empty |
| Model.Libreria.IsInLibreria | src/main/java/Model/Libreria.java:85-87 | true exactly when some stored book equals the argument, i.e. has its ISBN |
| Model.Libreria.AggiungiLibro | src/main/java/Model/Libreria.java:43-48 | an equal book already stored throws the duplicate message and changes nothing; otherwise the book is appended; unique ISBNs stay unique |
| Model.Libreria.EliminaLibro | src/main/java/Model/Libreria.java:58-66 | an unlisted book throws "non presente", and a book the argument shows as lent throws "in prestito", both with no change; otherwise the stored book with that ISBN is removed and the rest keep their order, after which it is no longer listed |
| Model.Libreria.ModificaLibro | src/main/java/Model/Libreria.java:76-77 | changes nothing |
| Model.Clienti.constructor | src/main/java/Model/Clienti.java:18-20 | keeps the given list itself, `null` included |
| Model.Clienti.EsisteUtente | src/main/java/Controller/Biblioteca.java:237 | with a list, true exactly when some stored patron equals the argument; with a `null` list, the failure of a call on `null` |
| Model.Clienti.AggiungiUtente | src/main/java/Model/Clienti.java:22-32 | a new matricola is appended; a listed one throws and changes nothing; `null` throws; unique matricolas stay unique |
| Model.Clienti.EliminaUtente | src/main/java/Model/Clienti.java:34-43 | the patron with that matricola is removed and the rest keep their order, after which the matricola is gone; an absent matricola throws and changes nothing |
| Model.Clienti.ModificaUtente | src/main/java/Model/Clienti.java:45-53 | changes nothing |
| Model.Prestiti.constructor | src/main/java/Model/Prestiti.java:17-19 | keeps the given list itself, `null` included |
| Model.Prestiti.AggiungiPrestito | src/main/java/Model/Prestiti.java:22-30 | a loan with a new (matricola, ISBN, due date) key is appended; an equal loan throws and changes nothing; unique keys stay unique |
| Model.Prestiti.RimuoviPrestito | src/main/java/Model/Prestiti.java:32-41 | the loan with that key is removed and the rest keep their order, after which the key is gone; an absent loan throws and changes nothing |
| Controller.LocalPartValidIff | src/main/java/Controller/Biblioteca.java:163 | the scanner for the part before `@` accepts exactly `[A-Za-z]\.[\p{L}']+\d+` |
| Controller.EmailValidIff | src/main/java/Controller/Biblioteca.java:163 | the e-mail check accepts exactly that local part followed by `@studenti.unisa.it` |
| Controller.ConsistentKeys | src/main/java/Controller/Biblioteca.java:286 | in consistent records no two loans share a key |
| Controller.ConsistentCounters | src/main/java/Controller/Biblioteca.java:280-323 | in consistent records every listed book has available ≤ total and is on loan exactly when some loan is on it, and every listed patron has a count in 0..3 that is positive exactly when some loan is theirs |
| Controller.LoanedCountersRoom | src/main/java/Controller/Biblioteca.java:314-318 | a listed loan's book has a copy out and its patron a loan counted |
| Controller.LoanGates | src/main/java/Model/Libro.java:116-127 | in consistent records a listed book is `isDisponibile` exactly when fewer copies are out on loans than it owns and `isLibroInPrestito` exactly when some are; a listed patron is at `limitePrestiti` exactly when holding three loans and `inPrestito` exactly when holding one |
| Controller.NegativeCopiesPass | src/main/java/Controller/Biblioteca.java:135-145 | the book check as written accepts -1 copies owned and -1 available; the intended check refuses them |
| Controller.NegativeCopiesCatalogued | src/main/java/Controller/Biblioteca.java:182-192 | on a new library, `aggiungiLibro` with -1 copies owned and -1 available succeeds and leaves valid records holding a book with -1 copies available |
| Controller.ConsistentAddBook | src/main/java/Controller/Biblioteca.java:185-190 | appending a book with a new ISBN and every copy available keeps the records consistent |
| Controller.ConsistentAddPatron | src/main/java/Controller/Biblioteca.java:235-240 | appending a patron with a new matricola and no loans keeps the records consistent |
| Controller.ConsistentRemoveBook | src/main/java/Controller/Biblioteca.java:204-208 | removing a book that no loan is on keeps the records consistent |
| Controller.ConsistentRemovePatron | src/main/java/Controller/Biblioteca.java:251-255 | removing a patron who holds no loan keeps the records consistent |
| Controller.ConsistentAddLoan | src/main/java/Controller/Biblioteca.java:285-290 | a new loan appended while its book loses one available copy and its patron gains one loan keeps the records consistent |
| Controller.ConsistentRemoveLoan | src/main/java/Controller/Biblioteca.java:311-318 | a loan removed while its book gains one available copy and its patron loses one loan keeps the records consistent |
| Controller.LoanAddedKeepsCounts | src/main/java/Controller/Biblioteca.java:286-287 | appending a loan adds one to the loans on its book and by its patron, and to no other |
| Controller.LoanRemovedKeepsCounts | src/main/java/Controller/Biblioteca.java:311-312 | removing a loan takes one from the loans on its book and by its patron, and from no other |
| Controller.SetLibro | src/main/java/Controller/Biblioteca.java:292 | `set(indexOf(l), l)` throws `IndexOutOfBounds(-1)` exactly when no entry has `l`'s ISBN; otherwise the list keeps its length and ISBNs and holds `l` |
| Controller.SetUtente | src/main/java/Controller/Biblioteca.java:291 | `set(indexOf(u), u)` throws `IndexOutOfBounds(-1)` exactly when no entry has `u`'s matricola; otherwise the list keeps its length and matricolas and holds `u` |
| Controller.SetLibroListed | src/main/java/Controller/Biblioteca.java:292 | with unique ISBNs, replacing a listed book by itself leaves the list as it is |
| Controller.SetUtenteListed | src/main/java/Controller/Biblioteca.java:291 | with unique matricolas, replacing a listed patron by themselves leaves the list as it is |
| Controller.FilterLibri | src/main/java/Controller/Biblioteca.java:100-108 | the filtered books are listed books that match the query, and every listed book that matches is kept |
| Controller.FilterUtenti | src/main/java/Controller/Biblioteca.java:115-123 | the filtered patrons are listed patrons that match the query, and every listed patron that matches is kept |
| Controller.FilterLibriKeepsAll | src/main/java/Controller/Biblioteca.java:102 | a null or empty query keeps every book, in order |
| Controller.FilterUtentiKeepsAll | src/main/java/Controller/Biblioteca.java:117 | a null or empty query keeps every patron, in order |
| Controller.FilterLibriAppend | src/main/java/Controller/Biblioteca.java:100-108 | filtering preserves order: the filter of two runs of books is the filter of the first followed by that of the second |
| Controller.FilterUtentiAppend | src/main/java/Controller/Biblioteca.java:115-123 | filtering preserves order: the filter of two runs of patrons is the filter of the first followed by that of the second |
| Controller.Biblioteca.constructor | src/main/java/Controller/Biblioteca.java:43-51 | starts from three new, empty registries and empty screen lists |
| Controller.Biblioteca.FiltraLibri | src/main/java/Controller/Biblioteca.java:100-108 | sets the book query; a book is then shown exactly when it is listed and its title, author text or ISBN contains the lowered query; a null or empty query shows every book |
| Controller.Biblioteca.FiltraUtenti | src/main/java/Controller/Biblioteca.java:115-123 | sets the patron query; a patron is then shown exactly when they are listed and their surname or matricola contains the lowered query; a null or empty query shows every patron |
| Controller.Biblioteca.CheckValiditaCampiLibro | src/main/java/Controller/Biblioteca.java:135-146 | true exactly when the ISBN is 13 ASCII digits, total ≥ available, year > 0, the trimmed title is non-empty title characters, and every author's trimmed names are non-empty name characters |
| Controller.Biblioteca.CheckValiditaCampiUtente | src/main/java/Controller/Biblioteca.java:158-165 | true exactly when both untrimmed names are non-empty name characters, the matricola is 10 ASCII digits, the e-mail has the student form, and the count is ≥ 0 |
| Controller.Biblioteca.AggiungiLibro | src/main/java/Controller/Biblioteca.java:182-192 | invalid fields throw "Campi non validi!" and a taken ISBN throws "Libro già presente", both with no change; otherwise a new book with no authors and every copy available is appended to the catalogue and the screen list; valid records stay valid |
| Controller.Biblioteca.AggiungiLibroCorretto | src/main/java/Controller/Biblioteca.java:135-192 | with the intended check, a negative available count is refused like any other invalid field; otherwise it acts as `aggiungiLibro`, and records that are valid with every book's available count in 0..total stay so |
| Controller.Biblioteca.CatalogueBook | src/main/java/Controller/Biblioteca.java:187-190 | the built book is refused when its ISBN is taken, otherwise appended to both book lists |
| Controller.Biblioteca.BookAddedKeepsValid | src/main/java/Controller/Biblioteca.java:189-190 | a new-ISBN book with every copy available, added to both book lists, keeps the records valid |
| Controller.Biblioteca.EliminaLibro | src/main/java/Controller/Biblioteca.java:204-210 | a book the argument shows as lent throws "Libro in prestito" and an unlisted one "non presente", both with no change; otherwise both book lists drop the book with that ISBN; for a listed book, records stay valid and the removal succeeds exactly when no copy is out |
| Controller.Biblioteca.UncatalogueBook | src/main/java/Controller/Biblioteca.java:207-208 | the catalogue's own refusals apply, then both book lists drop the book with that ISBN |
| Controller.Biblioteca.BookRemovedKeepsValid | src/main/java/Controller/Biblioteca.java:207-208 | a listed book with no copy out, dropped from both book lists, leaves the records valid |
| Controller.Biblioteca.ModificaLibro | src/main/java/Controller/Biblioteca.java:212-218 | invalid fields (one count for both) throw "Campi non validi!" with no change; otherwise the screen entry equal to the book is replaced by it, or `set` throws; a listed book keeps valid records valid |
| Controller.Biblioteca.RefreshLibro | src/main/java/Controller/Biblioteca.java:216 | the screen entry equal to the book becomes it, or `set(-1, …)` throws; a listed book leaves the list unchanged and no counter moves |
| Controller.Biblioteca.RefreshParties | src/main/java/Controller/Biblioteca.java:291-292 | the patron's and then the book's screen entries are replaced, stopping at the first `set` that fails; listed parties leave everything as it is |
| Controller.Biblioteca.AggiungiUtente | src/main/java/Controller/Biblioteca.java:232-242 | invalid fields throw "Campi non validi!" and a taken matricola throws "Utente già registrato", both with no change; otherwise a new patron with no loans is appended to the registry and the screen list; valid records stay valid |
| Controller.Biblioteca.EnrolPatron | src/main/java/Controller/Biblioteca.java:237-240 | the built patron is refused when the matricola is taken, otherwise appended to both patron lists |
| Controller.Biblioteca.PatronAddedKeepsValid | src/main/java/Controller/Biblioteca.java:239-240 | a new-matricola patron with no loans, added to both patron lists, keeps the records valid |
| Controller.Biblioteca.EliminaUtente | src/main/java/Controller/Biblioteca.java:251-257 | a patron the argument shows with loans throws "Utente possiede prestiti attivi" and an unlisted one throws, both with no change; otherwise both patron lists drop the patron with that matricola; for a listed patron, records stay valid and removal succeeds exactly when they hold no loan |
| Controller.Biblioteca.DeregisterPatron | src/main/java/Controller/Biblioteca.java:254-255 | the registry's refusal of an unlisted patron applies, then both patron lists drop the patron with that matricola |
| Controller.Biblioteca.PatronRemovedKeepsValid | src/main/java/Controller/Biblioteca.java:254-255 | a listed patron with no loans, dropped from both patron lists, leaves the records valid |
| Controller.Biblioteca.ModificaUtente | src/main/java/Controller/Biblioteca.java:260-266 | invalid fields throw "Campi non validi!" with no change; otherwise the screen entry equal to the patron is replaced by them, or `set` throws; a listed patron keeps valid records valid |
| Controller.Biblioteca.RefreshUtente | src/main/java/Controller/Biblioteca.java:264 | the screen entry equal to the patron becomes them, or `set(-1, …)` throws; a listed patron leaves the list unchanged and no counter moves |
| Controller.Biblioteca.AggiungiPrestito | src/main/java/Controller/Biblioteca.java:280-295 | in this order, a missing argument, no available copy, three loans already, and a duplicate loan each throw their message and change nothing; otherwise a new loan is appended to both loan lists, the book loses one available copy, the patron gains one loan, and the screen entries are refreshed; for listed parties, records stay valid and no `set` fails; with an available copy, it refuses with the three-loan message exactly when the patron is at `limitePrestiti` |
| Controller.Biblioteca.LendLoan | src/main/java/Controller/Biblioteca.java:285-292 | with room on both sides: a duplicate throws with no change, otherwise the loan is made and both parties refreshed, and only their counters move |
| Controller.Biblioteca.RecordLoan | src/main/java/Controller/Biblioteca.java:285-290 | the built loan goes to both loan lists with the counters moved by one, or a duplicate throws with no change |
| Controller.Biblioteca.FileLoan | src/main/java/Controller/Biblioteca.java:286-290 | the ledger, which refuses a duplicate, then the screen list take the loan, and the counters move by one |
| Controller.Biblioteca.AppendAndCount | src/main/java/Controller/Biblioteca.java:287-290 | the screen list gains the loan, its book loses one available copy and its patron gains one loan, and no other counter moves |
| Controller.Biblioteca.LoanAddedKeepsValid | src/main/java/Controller/Biblioteca.java:285-292 | a new loan of a listed book to a listed patron, each with room, keeps the records valid, and every `set` finds its entry |
| Controller.Biblioteca.RestituisciPrestito | src/main/java/Controller/Biblioteca.java:307-323 | a loan not on screen throws "Prestito non trovato per la rimozione." with no change; otherwise both loan lists drop it, its book gains one available copy, its patron loses one loan, and the entries are refreshed; a listed loan of valid records always succeeds, keeps them valid, and moves the counters by exactly one |
| Controller.Biblioteca.ReturnLoan | src/main/java/Controller/Biblioteca.java:311-320 | the ledger's refusal of an unknown loan changes nothing; otherwise the loan is taken back and both parties refreshed, and only their counters move |
| Controller.Biblioteca.TakeBackLoan | src/main/java/Controller/Biblioteca.java:311-318 | the ledger then the screen list drop the loan, its book gains a copy and its patron loses a loan, or the ledger refuses and nothing changes |
| Controller.Biblioteca.DropAndCount | src/main/java/Controller/Biblioteca.java:312-318 | the screen list becomes the remaining loans, the book gains a copy and the patron loses a loan as Java `int`s, and no other counter moves |
| Controller.Biblioteca.OnLoan | src/main/java/Controller/Biblioteca.java:308-318 | a loan of valid records is listed with a unique key, on a listed book with a copy out, by a listed patron with a loan counted |
| Controller.Biblioteca.LoanRemovedKeepsValid | src/main/java/Controller/Biblioteca.java:311-320 | taking back a listed loan of valid records leaves them valid and succeeds |
| Controller.Biblioteca.LendThenReturn | src/main/java/Controller/Biblioteca.java:280-323 | lending a listed book with a free copy to a listed patron under the limit, then returning that loan: both succeed, the records stay valid, and both counters end where they began |
| MainController.ParseAutori | src/main/java/Controller/MainController.java:612-638 | the authors are fresh objects whose (nome, cognome) pairs are those `ParsedAuthors` gives: none for `null` or blank text, else one per non-blank comma-separated segment, in order |
| MainController.NewAutori | src/main/java/Controller/MainController.java:621-636 | the loop builds one fresh author per segment that is non-blank once trimmed, in segment order |
| MainController.NewAutore | src/main/java/Controller/MainController.java:624-634 | a fresh author named by the two sides of the segment's last space, or by the whole segment when it has no space |
| MainController.AuthorsOfSegments | src/main/java/Controller/MainController.java:621-636 | the segments yield at most one author each |
| MainController.AuthorsOfSegmentsAppend | src/main/java/Controller/MainController.java:621-636 | segments are read in order: the authors of two runs of segments are those of the first run followed by those of the second |
| MainController.OneSegment | src/main/java/Controller/MainController.java:622-623 | a segment blank once trimmed yields no author, any other yields exactly one |
| MainController.EmptySegments | src/main/java/Controller/MainController.java:622-623 | empty segments yield no authors |
| MainController.SplitTailIrrelevant | src/main/java/Controller/MainController.java:619 | the trailing empty pieces that `split` drops would yield no author: non-blank text yields the authors of all its comma-separated pieces |
| MainController.ParsedAuthorsBound | src/main/java/Controller/MainController.java:615-617 | `null` or blank text yields no author; otherwise no more authors than `split(",")` gives pieces |
| MainController.AuthorOfShape | src/main/java/Controller/MainController.java:624-633 | for a trimmed non-blank segment: the first name is never empty and is the whole segment when it has no space; the last name is empty exactly then and never contains a space; both names are trimmed |
| MainController.AuthorOfJoined | src/main/java/Controller/MainController.java:630-633 | `nome + " " + cognome` names (nome, cognome) when neither is padded and the last name has no space |
| MainController.SegmentRoundTrip | src/main/java/Controller/MainController.java:622-634 | one written-out author, with or without a leading space, reads back as itself |
| MainController.SegmentsRoundTrip | src/main/java/Controller/MainController.java:621-636 | the first k written-out authors read back as themselves |
| MainController.NamesRoundTrip | src/main/java/Controller/MainController.java:612-638 | well-formed names written as `Nome Cognome, Nome Cognome, …` are parsed back into the same names in the same order |
| MainController.AuthorsTextRoundTrip | src/main/java/Model/Autore.java:42-45 | authors with well-formed names, written by `Autore.toString` and joined by `", "` as `List.toString` joins them, are parsed back by `parseAutori` into the same names in the same order |
| MainController.AuthorsJoinedText | src/main/java/Model/Autore.java:42-45 | the authors' `toString` texts joined by `", "` are their names written as `Nome Cognome, Nome Cognome, …` |
| MainController.JoinedTail | src/main/java/Model/Autore.java:42-45 | from any author after the first, the written-out names joined by commas are one space and then the authors' texts joined by `", "` |

## Left out

- Persistence: `salvaSuFile` and `caricaDaFile` (src/main/java/Controller/Biblioteca.java:334-361) are Java serialization and file I/O. The constructor is modelled as the path with no saved file.
- Controller.Biblioteca.AggiungiLibro: after the change in memory the source calls `salvaSuFile` (Biblioteca.java:191). As written that save always throws "Errore nel salvataggio dei dati": `writeObject(clienti)` fails because `Clienti` does not implement `Serializable` (nor do `Prestiti`, `Libro`, `Utente`, `Prestito` and `Autore`). The model returns `Done` with the change made.
- Controller.Biblioteca.EliminaLibro: the same save after a successful removal (Biblioteca.java:209) always throws in the source; the model returns `Done` with the change made.
- Controller.Biblioteca.ModificaLibro: the same save at the end (Biblioteca.java:217) always throws in the source; the model returns `Done` when the refresh succeeds.
- Controller.Biblioteca.AggiungiUtente: the same save after the patron is added (Biblioteca.java:241) always throws in the source; the model returns `Done` with the change made.
- Controller.Biblioteca.EliminaUtente: the same save after the patron is removed (Biblioteca.java:256) always throws in the source; the model returns `Done` with the change made.
- Controller.Biblioteca.ModificaUtente: the same save at the end (Biblioteca.java:265) always throws in the source; the model returns `Done` when the refresh succeeds.
- Controller.Biblioteca.AggiungiPrestito: the same save after the loan is made (Biblioteca.java:294) always throws in the source; the model returns `Done` with the change made.
- Controller.Biblioteca.RestituisciPrestito: the same save after the loan is returned (Biblioteca.java:322) always throws in the source; the model returns `Done` with the change made.
- `null` strings: every `String` field is a Dafny string, never `null`. In the source `Libro.equals` is false against a book whose ISBN is `null` (Libro.java:170) and `hashCode` would throw. `Biblioteca`'s field checks never let a `null` field through.
- The JavaFX user interface: everything in `MainController.java` except `parseAutori`, and all of `AccessoController.java` and `View/Main.java`.
- `ObservableList`/`FilteredList` change notification. Each screen list is a sequence kept in step with its registry. The filtered list is the order-preserving filter of that sequence.
- `Clienti.cercaPerMatricola` and `Clienti.cercaPerCognome` only throw `UnsupportedOperationException` in the source.
- `autoriToString` is called by the main window and by a test but is not defined in `Libro`, so it is not part of this model.
- Controller.Biblioteca.ModificaLibro: the 6-argument `libreria.modificaLibro` it calls does not exist. The model checks the fields, then refreshes the screen entry; the field edit itself is not modelled.
- Controller.Biblioteca.ModificaUtente: the 5-argument `clienti.modificaUtente` it calls does not exist. The model checks the fields, then refreshes the screen entry; the field edit itself is not modelled.
- MainController.ParseAutori: the loop body is a separate method (`NewAutori`, with `NewAutore` for one segment). The Java `ArrayList` it fills is a sequence.
- Exact hash values are modelled as Java computes them for text in the Basic Multilingual Plane. A character outside it counts as one unit, not as a surrogate pair. Only the agreement of equal objects' hashes is proved.
- `\p{L}`, `\p{N}` and `toLowerCase` are exact up to U+00FF. Above that, no character is a letter or a number and none is lowered. Locale-specific lowering is not modelled.
- The system clock: `LocalDate.now()` is the `today` parameter of `controllaRitardo` and `toString`.
- Aliasing of Java list objects: `Clienti` and `Prestiti` keep the list they are given, but the model holds it as a value. A later change through another reference to the same `ArrayList` is not visible to them.
- Concurrency: the source is single-threaded JavaFX code, and every operation is modelled as one sequential step.

## Findings

| source | as written | input that shows it | evidently intended | confidence | as-written member | corrected member |
|---|---|---|---|---|---|---|
| src/main/java/Controller/Biblioteca.java:137 | `checkValiditaCampiLibro` rejects only `copieTot < copieDisp`, so negative copy counts pass and `aggiungiLibro` catalogues a book with a negative available count | `aggiungiLibro("Titolo", [], 2020, "9788800000000", -1, -1)` on an empty library | every book has between 0 and all of its copies available; the check also rejects `copieDisp < 0` | high (not executed) | Controller.NegativeCopiesCatalogued | Controller.Biblioteca.AggiungiLibroCorretto |

The operations keep the check as the source writes it, so `Valid()` promises a non-negative available count only for a book with a copy out on loan (`Controller.Balanced`). `Controller.Biblioteca.AggiungiLibroCorretto` is the intended add. It proves that records that are valid, with every available count between 0 and the total, stay that way. Lending only takes a positive count down by one. Returning raises the count of a book on loan, which stays at most its total.
