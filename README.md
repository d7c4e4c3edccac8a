# ab-hub task manager: a Dafny model of its core

ab-hub is a desktop task manager with a Tk login screen. Users register and log in against a users table. They then see their tasks sorted into three sections: "Anteriores" (past), "Actuales" (today) and "Posteriores" (future).

This project models the parts of the application that decide something:

- the form predicates of `validaciones.py`;
- the date helpers of `fechas.py`;
- the salted password hashes, registration and login of `src/auth_service.py`;
- adding and listing tasks in `src/task_service.py`;
- the message catalog of `src/mensajes_adapter.py`;
- the in-memory user list of `src/registro.py`;
- from `login_screen.py`:
  - the reading of a typed due date (`_parse_due_date`);
  - the task board (`_build_task_sections`);
  - the checks the login, registration and task forms make before they call the services.

Modules, one per source file, plus the library behaviour they rely on:

| module | file | models |
|---|---|---|
| `Wrappers` | wrappers.dfy | Python's `None`-or-value |
| `Texto` | texto.dfy | `str.isspace`/`isalpha`/`isdigit`/`strip`/`lower`/`replace`/`split`/`partition`, `int(text)`, `str(int)` and the `0Nd` format |
| `Calendario` | calendario.dfy | `datetime.date`: which triples are dates, `toordinal()`, `<` |
| `LecturaFecha` | lectura_fecha.dfy | `datetime.strptime(...).date()` for the four formats the board tries |
| `Ordenacion` | ordenacion.dfy | `list.sort(key=...)` as a stable insertion sort under a total preorder |
| `Validaciones` | validaciones.dfy | `validaciones.py` |
| `Fechas` | fechas.dfy | `fechas.py` |
| `MensajesAdapter` | mensajes_adapter.dfy | `src/mensajes_adapter.py` |
| `AuthService` | auth_service.dfy | `src/auth_service.py`; the users table is the class `UsersTable` holding a map |
| `TaskService` | task_service.dfy | `src/task_service.py`; the tasks table is the class `TasksTable` holding a sequence |
| `Registro` | registro.dfy | `src/registro.py`; the module-level list is the class `ListaUsuarios` |
| `LoginScreen` | login_screen.dfy | the board, the due-date reader and the three forms of `login_screen.py` |

The outside world enters as parameters:

- SHA-256 is an arbitrary function `sha`, and the `uuid4().hex` salt is a 32-hex-digit parameter.
- `datetime.now()` is `ahora` (a date plus the microseconds since its midnight), and `date.today()` is `hoy`.
- Whether a database call raises, and at which step, is the parameter `falla`.
- Whether `_load_user_profile` finds the profile is the boolean `perfil`.

What the code does that its names and comments do not suggest:

- An address with two `@` is valid: the code splits at the first one. See `Validaciones.DosArrobas`.
- A stored hash must contain exactly one `$`: `stored.split("$")` is unpacked into two names.
- `agregar_tarea` takes no `done` flag and always stores `done = 0`.
- `actualizar_tarea` does not exist in `src/task_service.py`.
- "dd/mm" gets the current year only when the trimmed text has exactly five characters and contains a `/`.
- `formatear_fecha` also accepts `-` as a separator.

## Model

| member | source | states |
|---|---|---|
| Validaciones.EsTextoVacio | validaciones.py:8-11 | `None` is blank; a text is blank exactly when every character is whitespace (its `strip()` is empty) |
| Validaciones.EsCorreoValido | validaciones.py:14-21 | `None` and text without `@` are invalid; valid exactly when the first `@` is not at position 0 and the text after it contains a `.` |
| Validaciones.CorreoPorPartes | validaciones.py:20-21 | for a local part without `@`, `local@dominio` is valid exactly when the local part is non-empty and the domain has a dot, whatever else the domain holds |
| Validaciones.EjemplosCorreo | validaciones.py:14-21 | "a@b.co" is valid; "@b.co", "a@bco" and "a.b" are not |
| Validaciones.DosArrobas | validaciones.py:20-21 | "a@b@c.d" is valid: only the first `@` splits, so a second one is accepted |
| Validaciones.EsContrasenaValida | validaciones.py:24-32 | `None` and text shorter than 8 are invalid; valid exactly when the length is at least 8 and there is a letter and a digit |
| Validaciones.TieneLetra | validaciones.py:30 | `any(c.isalpha())`: true exactly when some character is a letter |
| Validaciones.TieneDigito | validaciones.py:31 | `any(c.isdigit())`: true exactly when some character is a digit |
| Validaciones.LetraYDigito | validaciones.py:28-32 | eight characters or more with a letter and a digit anywhere make a valid password |
| Validaciones.SinDigito | validaciones.py:31-32 | a text without digits is never a valid password |
| Validaciones.EjemplosContrasena | validaciones.py:24-32 | "abc12345" is valid; "abcdefgh" and "1234567" are not |
| Validaciones.EjemplosTextoVacio | validaciones.py:8-11 | `None`, "" and " \t\n" are blank; " a " is not |
| Fechas.Partes | fechas.py:11-12 | the three parts after mapping `-` to `/` and splitting, when there are exactly three and each is an integer; all three are then non-negative |
| Fechas.FechaDe | fechas.py:11-14 | the date those parts name, only when `datetime(aaaa, mm, dd)` accepts it; always a valid date |
| Fechas.DiasFaltantes | fechas.py:9-15 | 0 when the text names no date; otherwise the floored `(dt - now).days`, which is the ordinal difference minus one whenever `now` is past midnight |
| Fechas.FloorDays | fechas.py:15 | flooring a whole number of days minus a part of a day loses one day exactly when that part is positive |
| Fechas.EstadoDeDias | fechas.py:19-26 | VENCIDO iff d < 0, HOY iff d == 0, PRONTO iff 1 <= d <= 3, A TIEMPO iff d > 3 |
| Fechas.EstadoPorDias | fechas.py:18-26 | HOY for text that names no date; otherwise VENCIDO exactly when the date is before today, or is today and `now` is past midnight |
| Fechas.SinFechaEsHoy | fechas.py:13-14 | text that names no date has 0 days left and is classified HOY |
| Fechas.FormatearFecha | fechas.py:29-34 | the input unchanged when it does not split into three integers (d, m, y); otherwise three decimal fields that split back into the same integers, padded with zeros to exactly 2, 2 and 4 digits, or as wide as the number's own digits when it has more |
| Fechas.FormatoReleido | fechas.py:32 | the zero-padded DD/MM/YYYY text splits into exactly its three padded fields and reads back as the integers it was built from |
| Fechas.FormatearFechaIdempotente | fechas.py:29-34 | formatting the formatted text changes nothing |
| Fechas.GuionComoBarra | fechas.py:31 | `-` is treated exactly like `/` |
| Fechas.MismoFormato | fechas.py:31-32 | two texts equal after mapping `-` to `/` format the same |
| Fechas.PrimeraParteNoEntera | fechas.py:31-34 | a first part that is not an integer makes the text pass through unchanged |
| Fechas.FormatearFechaRellena | fechas.py:32 | "7/9/2025" becomes "07/09/2025" |
| Fechas.FormatearFechaConGuiones | fechas.py:31-32 | "7-9-2025" becomes "07/09/2025" |
| Fechas.FormatearFechaSinCalendario | fechas.py:29-32 | "99/99/2025" keeps its shape, although it names no date |
| Fechas.FormatearFechaDevuelveTexto | fechas.py:33-34 | "not-a-date" is returned unchanged |
| Fechas.HoyCuentaComoVencido | fechas.py:15 | a date equal to today, read after midnight, has -1 days left and is VENCIDO; the corrected status says HOY |
| Fechas.VencidoAlMediodia | fechas.py:15 | "17/10/2026" read at noon on 17 October 2026 is VENCIDO as written and HOY corrected |
| Fechas.DiasFaltantesCorregido | fechas.py:9-15 | corrected days: negative iff the date is before today, zero iff it is today; 0 for text that names no date |
| Fechas.EstadoCorregido | fechas.py:18-26 | corrected status: HOY iff no date or the date is today; VENCIDO iff the date is before today |
| Fechas.CorregidoEsMedianoche | fechas.py:15 | the corrected status is the source's status read exactly at midnight |
| Calendario.DaysInMonth | fechas.py:12 | a month has 28 to 31 days |
| Calendario.MakeDate | fechas.py:12 | the `date` constructor gives a valid date or refuses |
| Calendario.AtMostTotalOrder | login_screen.py:780-785 | date `<=` is total, transitive and antisymmetric, and is the negation of `>` |
| Calendario.YearLength | login_screen.py:780-785 | consecutive years start 365 or 366 ordinal days apart, by the leap rule |
| Calendario.OrdinalOrder | login_screen.py:780-785 | for valid dates, `<` and `==` agree with the ordinals |
| Calendario.OrdinalBefore | login_screen.py:780-785 | an earlier valid date has a smaller ordinal |
| LecturaFecha.CampoDia | login_screen.py:805-807 | a `%d` field has one or two characters, and its digits (after an optional leading space) are a day from 1 to 31 |
| LecturaFecha.CampoMes | login_screen.py:805-807 | a `%m` field has one or two digits worth a month from 1 to 12 |
| LecturaFecha.CampoAnio | login_screen.py:805-807 | a `%Y` or `%y` field is decimal digits worth less than 10000 or 100 |
| LecturaFecha.Siglo | login_screen.py:805 | `%y` reads 00 to 99 as a year from 1969 to 2068 ending in those two digits |
| LecturaFecha.Strptime | login_screen.py:805-807 | a parsed date is valid, and the text splits at the format's separator into three fields |
| LecturaFecha.DiaMesAnioDeCampos | login_screen.py:805-807 | "%d/%m/%Y" on a day, a month and four year digits builds exactly that date when it exists |
| LecturaFecha.Campos | login_screen.py:805-807 | an accepted text is three fields of digits (and a leading blank in a day) joined by the separator, at least four digits long |
| LecturaFecha.CincoNoBastan | login_screen.py:802-807 | no format accepts a text of five characters or fewer |
| LecturaFecha.OtroSeparador | login_screen.py:805-807 | a text a format accepts contains no other separator character |
| LecturaFecha.FormatosExcluyentes | login_screen.py:805 | no text is accepted by two of the four formats |
| LoginScreen.Candidatos | login_screen.py:801-803 | the trimmed text is always the first candidate; a second one exists exactly when the text has five characters and a `/`, and it is that text, a `/` and digits that read as the current year |
| LoginScreen.PrimerFormato | login_screen.py:805-809 | `None` iff no format accepts the candidate; otherwise the date of a format that accepts it |
| LoginScreen.PrimerCandidato | login_screen.py:804-810 | `None` iff no candidate has a format that accepts it; otherwise the date of some candidate's first accepting format |
| LoginScreen.FechaLimite | login_screen.py:795-810 | a returned date is valid; an empty or whitespace-only value gives `None` |
| LoginScreen.FormatoUnico | login_screen.py:805-809 | whichever format accepts a candidate, the first accepting format gives the same date |
| LoginScreen.DiaMesSinAnio | login_screen.py:802-803 | a five-character text with `/` is read only as that text plus "/" and the current year |
| LoginScreen.NingunFormato | login_screen.py:801-803 | no format accepts the five-character candidate itself |
| LoginScreen.FechaLimiteExacta | login_screen.py:801-810 | when any candidate and any format accept, the result is that date: neither the candidate order nor the format order decides anything |
| LoginScreen.AnioEnCurso | login_screen.py:802-803 | a "dd/mm" date falls in the current year |
| LoginScreen.EjemploNavidad | login_screen.py:805-807 | "25/12/2025" is 25 December 2025, whatever today is |
| LoginScreen.ProbarFormatos | login_screen.py:805-809 | the inner loop returns the first accepting format's date, or `None` |
| LoginScreen.ProbarCandidatos | login_screen.py:804-810 | the outer loop returns the first candidate's date, or `None` |
| LoginScreen.ParseDueDate | login_screen.py:795-810 | the method with its loops and early returns computes `FechaLimite` |
| LoginScreen.EntradaDe | login_screen.py:767-777 | a card keeps the row's id and date text; its title is never empty and is the trimmed text when that is not blank; done iff `done` is non-zero; its due date is the reading of the date text |
| LoginScreen.Entradas | login_screen.py:766-777 | one card per row, in order |
| LoginScreen.SeccionDe | login_screen.py:778-785 | Anteriores iff the date is before today; Actuales iff it is today; Posteriores iff there is no date or it is after today |
| LoginScreen.CubetaMiembros | login_screen.py:778-786 | a section's list holds exactly the cards whose date picks that section |
| LoginScreen.CubetasReparten | login_screen.py:766-786 | the three lists together are a permutation of the cards: each card lands in exactly one section |
| LoginScreen.OrdenPasado | login_screen.py:790 | the past key, the date newest first with `date.min` for no date, is a total preorder |
| LoginScreen.OrdenFuturo | login_screen.py:792 | the key (date or `date.max`, title) is a total preorder |
| LoginScreen.Tablero | login_screen.py:762-793 | the three sections together hold as many cards as the listing has rows |
| LoginScreen.TableroCorrecto | login_screen.py:762-793 | the board is a permutation of the cards, each section holds only its dates, and each section is sorted by its key |
| LoginScreen.BuildTaskSections | login_screen.py:762-793 | the loop of appends followed by the sorts builds exactly the board, with the properties above |
| LoginScreen.TableroEstable | login_screen.py:788-792 | cards with equal keys keep their listing order in each section |
| LoginScreen.ParteMiembros | login_screen.py:778-792 | a section of the board holds exactly the cards whose date picks it |
| LoginScreen.EntradaEnTablero | login_screen.py:766-786 | every row's card appears in the section its date picks |
| LoginScreen.SinFechaAlFinal | login_screen.py:792 | in the future section, an undated card is followed only by undated or `date.max` cards, with titles in order |
| LoginScreen.NuevaTareaEnTablero | login_screen.py:766-786 | a task just added for an owner shows up on that owner's board in its section |
| LoginScreen.BlancoNormalizado | login_screen.py:1633-1638 | a trimmed, or trimmed and lower-cased, field is blank exactly when the field as typed was |
| LoginScreen.ValidoNoBlanco | login_screen.py:1638-1644 | a valid address or password is never blank |
| LoginScreen.TextoAviso | login_screen.py:1638-1687 | every error the two forms show starts with `*`; a refusal of the service is its message after the `*` |
| LoginScreen.ValidarLogin | login_screen.py:1632-1646 | "Completa ambos campos" iff a field is blank; else "correo valido" iff the address is invalid; otherwise the service is called with the trimmed, lower-cased address and the password as typed |
| LoginScreen.LoginForm | login_screen.py:1632-1659 | the user is let in iff both checks pass, the service accepts (hash or legacy plain text) and the profile loads; the credentials error shows iff the checks passed and the service refused |
| LoginScreen.ValidarRegistro | login_screen.py:1661-1685 | blank name, then invalid address, then weak password, then mismatched confirmation, each iff the earlier checks passed; otherwise the service is called with the normalised address, the password and the trimmed name |
| LoginScreen.Registrar | login_screen.py:1685-1688 | a form error is kept; a service call succeeds iff the database does not fail and the address is new, stores the hash, and otherwise shows the service's message after "*" |
| LoginScreen.RegisterForm | login_screen.py:1661-1688 | registration succeeds iff all four checks pass, the database does not fail and the address is new; then the table gains the hashed user, otherwise it is unchanged |
| LoginScreen.RegistroRepetido | login_screen.py:1685-1688 | an address already registered shows "*El usuario ya existe" |
| LoginScreen.RegistroLuegoLogin | login_screen.py:1632-1688 | after a successful registration, logging in with the same password and any spelling of the address that normalises the same lets the user in |
| LoginScreen.TextoAvisoTarea | login_screen.py:1112-1130 | the task modal's error boxes show texts without the forms' leading `*` |
| LoginScreen.Campo | login_screen.py:1101-1107 | a modal field is its trimmed text, or empty when that equals the placeholder; empty iff blank or the placeholder |
| LoginScreen.PersistTaskModal | login_screen.py:1096-1141 | nothing happens without an open modal; a missing title is refused first; an edit of a task with an id updates when the date is empty or readable; anything else creates, and needs a readable date; the trimmed title and the done flag are passed on, with the trimmed date text, which an update receives empty when it was blank or the placeholder |
| LoginScreen.ModalCreaTareaConFecha | login_screen.py:1129-1137 | a created task has a trimmed, non-empty title and date, and its card has a due date |
| MensajesAdapter.TExtern | src/mensajes_adapter.py:40-45 | the catalog's template, or the key itself when the catalog lacks it |
| MensajesAdapter.T | src/mensajes_adapter.py:48-60 | returns the key exactly when the catalog lacks it, and the template when it has it |
| MensajesAdapter.TemplatesAreNotKeys | src/mensajes_adapter.py:22-38 | no template equals its own key |
| MensajesAdapter.ClavesDelCatalogo | src/mensajes_adapter.py:22-38 | `_CATALOGO` has exactly the thirteen keys of its literal, each once |
| MensajesAdapter.Keys | src/mensajes_adapter.py:63-65 | exactly the catalog's keys, each once |
| MensajesAdapter.HasKey | src/mensajes_adapter.py:68-70 | true iff the key is among `keys()` |
| MensajesAdapter.Faltantes | src/mensajes_adapter.py:78 | the missing list is no longer than the required list, and none of its keys is in the catalog |
| MensajesAdapter.FaltantesMiembros | src/mensajes_adapter.py:78 | the missing list holds exactly the required keys the catalog lacks |
| MensajesAdapter.FaltantesConcat | src/mensajes_adapter.py:78 | the missing list keeps the order of the required list: it distributes over concatenation |
| MensajesAdapter.Ensure | src/mensajes_adapter.py:73-79 | ok iff every required key is in the catalog; the list is the missing keys |
| MensajesAdapter.EnsureKeys | src/mensajes_adapter.py:63-79 | `ensure(keys())` is `(True, [])` |
| MensajesAdapter.EnsureEjemplo | src/mensajes_adapter.py:73-79 | `ensure(["auth_ok", "hola", "db_error", "adios"])` is `(False, ["hola", "adios"])` |
| MensajesAdapter.Respuestas | src/mensajes_adapter.py:40-45 | `t("auth_ok")` is "Inicio de sesión correcto"; `t("hola")` is "hola" |
| AuthService.HexHasNoDollar | src/auth_service.py:8 | a hex salt contains no `$` |
| AuthService.HashPassword | src/auth_service.py:6-10 | the hash contains exactly one `$`, with the salt before it and `sha(salt + password)` after it |
| AuthService.VerifyPassword | src/auth_service.py:12-18 | false unless the stored value has exactly one `$`; then true iff `sha` of its salt plus the password equals its digest |
| AuthService.VerifyHash | src/auth_service.py:6-18 | a password verifies against its own hash |
| AuthService.VerifyOther | src/auth_service.py:6-18 | another password verifies iff it hashes, under the same salt, to the same digest |
| AuthService.RegistrarEn | src/auth_service.py:22-40 | succeeds iff the database does not fail and the normalised address is new; success stores the hash and answers "auth_ok"; failure leaves the table as it was; an existing address answers "user_exists"; a fault answers "invalid_input"; normalised addresses stay normalised |
| AuthService.NormalizadaUpdate | src/auth_service.py:23-36 | writing under a normalised address keeps every address normalised |
| AuthService.LoginEn | src/auth_service.py:43-63 | succeeds iff there is no fault, the normalised address is present, and the password verifies or equals the stored value; "auth_ok", "invalid_input" and "auth_fail" as the case may be |
| AuthService.UsersTable.constructor | src/auth_service.py:22-40 | the table starts empty |
| AuthService.UsersTable.RegistrarUsuario | src/auth_service.py:22-40 | the new table and the answer are those of `RegistrarEn`; the table stays normalised |
| AuthService.UsersTable.Login | src/auth_service.py:43-63 | the answer is that of `LoginEn` and the table is unchanged |
| AuthService.RegisterThenLogin | src/auth_service.py:22-63 | after a registration, login with the same password and any equivalent spelling of the address succeeds |
| AuthService.RegisterTwice | src/auth_service.py:26-30 | registering the same normalised address again answers "user_exists" and changes nothing |
| AuthService.LoginOtherPassword | src/auth_service.py:55-59 | after registration another password logs in iff it has the same salted digest or equals the stored hash text |
| AuthService.RegisterStoresHash | src/auth_service.py:32-36 | the stored value is a hash the password verifies against, and is not the plain text unless that has exactly one `$` |
| AuthService.FaultsAreInvalidInput | src/auth_service.py:38-63 | a failing database answers "invalid_input" and changes nothing |
| AuthService.LoginUnknown | src/auth_service.py:52-53 | an unknown address answers "auth_fail" |
| TaskService.NuevoId | src/task_service.py:9-12 | the new id is above every id in the table |
| TaskService.DelDuenoCabeza | src/task_service.py:20-22 | a listing row comes from the table's first row or from the rest |
| TaskService.Listado | src/task_service.py:17-23 | at most as many rows as the table, and exactly the rows of the given owner |
| TaskService.ListadoDescendente | src/task_service.py:21 | with growing ids, the listing is ordered by id descending |
| TaskService.ListadoAgregar | src/task_service.py:21 | a row added for the owner comes first in that owner's listing, and the rest is unchanged |
| TaskService.TasksTable.constructor | src/task_service.py:3-23 | the table starts empty |
| TaskService.TasksTable.AgregarTarea | src/task_service.py:3-15 | succeeds iff the normalised address, text and date are non-empty and the insert does not fail; success appends one row with the next id, the normalised fields and `done = 0`; failure changes nothing; ids keep growing |
| TaskService.TasksTable.ListarTareas | src/task_service.py:17-23 | no result (the exception propagates) exactly when the query fails; otherwise exactly the rows of the normalised owner, by id descending; the table is unchanged |
| TaskService.AgregarYListar | src/task_service.py:3-23 | after adding a task, listing for an equivalent address shows it first |
| Registro.PrimeroCon | src/registro.py:20-25 | `None` iff no record has exactly that address; otherwise the first record with it |
| Registro.ListaUsuarios.constructor | src/registro.py:1 | the list starts empty |
| Registro.ListaUsuarios.RegistrarUsuario | src/registro.py:3-10 | exactly one record is appended and the earlier ones are untouched |
| Registro.ListaUsuarios.BuscarUsuario | src/registro.py:20-25 | the loop returns the first record with exactly that address, or `None`, and changes nothing |
| Registro.BuscarTrasRegistrar | src/registro.py:10-25 | after registering, a search for that address finds a record: the new one unless an earlier record had the address |
| Registro.RegistrarNoCambiaOtros | src/registro.py:10-25 | registering does not change a search for another address |
| Registro.Duplicados | src/registro.py:3-10 | the same address can be registered twice; both records are kept and the search finds the first |
| Registro.BusquedaExacta | src/registro.py:23 | the comparison is exact: "Ana@mail.com" does not find "ana@mail.com" |
| Ordenacion.Insertar | login_screen.py:788-792 | inserting adds exactly one element (multiset) |
| Ordenacion.Ordenar | login_screen.py:788-792 | sorting is a permutation |
| Ordenacion.InsertarOrdenada | login_screen.py:788-792 | inserting into a sorted list keeps it sorted |
| Ordenacion.OrdenarOrdena | login_screen.py:788-792 | the sort leaves its elements in key order |
| Ordenacion.InsertarEstable | login_screen.py:788-792 | inserting appends an element to the elements with its key and changes no other such list |
| Ordenacion.OrdenarEstable | login_screen.py:788-792 | the sort is stable: elements with equal keys keep their order |
| Texto.LowerChar | src/auth_service.py:23 | no upper-case letter remains, and an upper-case letter is changed; letters stay letters and whitespace stays whitespace; every other character is unchanged |
| Texto.StripLower | src/auth_service.py:23 | `strip().lower()` is no longer than its input and holds no upper-case letter |
| Texto.Strip | validaciones.py:11 | the result has no whitespace at either end and holds only characters of the input |
| Texto.StripEmptyIffAllSpace | validaciones.py:11 | `strip()` is empty iff every character is whitespace |
| Texto.StripIdempotent | src/task_service.py:4 | stripping twice is stripping once |
| Texto.StripLowerIdempotent | src/auth_service.py:23 | `strip().lower()` twice is once |
| Texto.Replace | fechas.py:11 | same length, each occurrence of the old character replaced and every other character kept; none of the old character remains |
| Texto.Split | src/auth_service.py:15 | at least one part; no part contains the separator |
| Texto.JoinSplit | fechas.py:11 | joining the parts with the separator gives back the text |
| Texto.SplitJoin | fechas.py:11 | splitting separator-free parts joined by the separator gives back the parts |
| Texto.SplitLength | src/auth_service.py:15 | the number of parts is one more than the number of separators |
| Texto.SplitOnce | src/auth_service.py:15 | with exactly one separator, `split` and `partition` agree |
| Texto.Partition | validaciones.py:20 | the text is the head, the separator and the tail; the head has no separator |
| Texto.PartitionAt | validaciones.py:20 | `partition` splits at the first occurrence |
| Texto.ParseInt | fechas.py:12 | `int()` of a text without a minus sign is never negative |
| Texto.ParseDecimal | fechas.py:12 | `int()` of decimal digits is their value |
| Texto.FormatIntRoundTrip | fechas.py:32 | the zero-padded text of a natural number is decimal digits only, and `int()` reads it back as the number |
| Texto.Dec | login_screen.py:803 | `str(n)` of a natural number is decimal digits worth `n`, with no leading zero unless it is "0" |
| Texto.FormatInt | fechas.py:32 | `f"{n:0{w}d}"` of a natural number is exactly `w` wide, or as wide as its digits when they are more; a negative number starts with `-` |
| Texto.StrLeTotal | login_screen.py:792 | string order is total and antisymmetric |
| Texto.StrLeTrans | login_screen.py:792 | string order is transitive |

## Left out

- **Character classes.** They are exact up to U+00FF. Letters and digits above U+00FF are not classified (`IsSpace` covers all of Unicode). `lower()` leaves every character above U+00FF unchanged, where Python lower-cases it ("Ā" to "ā", "İ" to two characters): "ĀNA@x.co" and "āna@x.co" are one account in Python and two in the model.
- **SQLite.** Connections, SQL text, `NULL` columns and the `id` column of `usuarios` are not modelled. Task ids follow the rowid rule "one above the last row" while ids only grow.
- **Hashing and the salt.** `hashlib.sha256` is the parameter `sha` and `uuid4()` is the parameter `salt`; their randomness and collision behaviour are not modelled.
- `ListarTareas`: a failing query is modelled as no result. `_prepare_dashboard_data` (login_screen.py:543-561), which catches it and shows an empty board, is not part of this model.
- `ParseInt`: Python 3.11 and later refuse `int()` of a text with more than 4300 digits (`ValueError`); the model reads any length, so `FormatearFecha` pads such a text where `formatear_fecha` would return it unchanged (`dias_faltantes` gives 0 either way).
- **Console output.** The `print` calls in `src/auth_service.py:39, 62` and `src/registro.py:11` are not modelled. `mostrar_usuarios` only prints, and the script lines at `src/registro.py:32-38` read the console.
- **`t` with keyword arguments.** `str.format` with keyword arguments is not modelled; only the call without them is.
- **`actualizar_tarea`.** It is imported at `login_screen.py:86`, but `src/task_service.py` does not define it, so importing `login_screen.py` raises `ImportError`. `PersistTaskModal` stops at the decision `Actualizar`.
- **The create call's arity.** `agregar_tarea` is called with four arguments at `login_screen.py:1132-1137` but takes three, which would raise `TypeError`. `PersistTaskModal` stops at the decision `Agregar`. `ModalCreaTareaConFecha` and `NuevaTareaEnTablero` relate that decision to the three-argument service.
- **Helpers loaded from "src copy".** `login_screen.py:28-83` loads `validaciones`, `fechas` and `mensajes` from the "src copy" directory at run time. That copy's validators agree with `validaciones.py`, which is what the forms use here. The inline fallbacks at `login_screen.py:49-83` are not modelled.
- **The Tk interface.** Drawing, widgets, scaling, colours, message boxes, the date picker and screen changes are not modelled; the forms return the message they would show.
- **`date.today()` in `_parse_due_date`.** `login_screen.py:764` and `login_screen.py:803` read the clock separately; both are the single parameter `hoy`. A run that crosses midnight between the two reads is not modelled.
- **`_load_user_profile`.** Only whether it returns a profile is modelled, as the parameter `perfil`.
- **`_persist_task_modal` without a logged-in user.** That case folds into the parameter `abierto` together with a missing modal.
- **In-place sorting.** `BuildTaskSections` appends to three sequences in a loop. The `sort` calls are modelled on values by `Ordenacion.Ordenar`, a stable insertion sort, which returns the same list as an in-place `list.sort`.
- LoginScreen.AnioEnCurso: proved only for years from 1000 on. Earlier years print with fewer than four digits, so "%Y" does not read them back.
- **`notify_task.py`, `app_tk_login.py`, `db.py` and `mensajes.py`.** `src/notify_task.py`, `src/app_tk_login.py` and `src/db.py` are not part of this model. `mensajes.py` only wraps text.

## Findings

| source | as written | input that shows it | evidently intended | confidence | as-written member | corrected member |
|---|---|---|---|---|---|---|
| fechas.py:15 | `(dt - datetime.now()).days` floors a negative fraction of a day, so a due date equal to today gives -1 and is classified VENCIDO whenever the clock is past midnight | "17/10/2026" read at 12:00 on 17 October 2026 | a due date equal to today counts 0 days and is classified HOY | not executed | Fechas.HoyCuentaComoVencido, Fechas.VencidoAlMediodia | Fechas.DiasFaltantesCorregido, Fechas.EstadoCorregido |
