/** The task board and the forms of `login_screen.py`: reading a due date typed by the user,
  * sorting the owner's tasks into the "Anteriores", "Actuales" and "Posteriores" sections, and
  * the checks the login, registration and task forms make before calling the services.
  *
  * `date.today()` is the parameter `hoy`, a valid date. */
module LoginScreen {
  import opened Wrappers
  import opened Texto
  import opened Calendario
  import opened LecturaFecha
  import opened Ordenacion
  import Validaciones
  import TaskService
  import AuthService
  import MensajesAdapter

  // ---------------------------------------------------------------------------------------
  // _parse_due_date
  // ---------------------------------------------------------------------------------------

  /** The texts tried, in order: the trimmed value and, for five characters with a slash
    * ("dd/mm"), the same text with "/" and the current year appended. */
  function Candidatos(texto: string, hoy: Date): (r: seq<string>)
    requires Valid(hoy)
    ensures 1 <= |r| <= 2 && r[0] == texto
    ensures |r| == 2 <==> |texto| == 5 && '/' in texto
    ensures |r| == 2 ==> && |r[1]| > 6 && r[1][..6] == texto + "/"
                         && AllDecimal(r[1][6..]) && DecValue(r[1][6..]) == hoy.year
  {
    var y := Dec(hoy.year);
    Partida(texto + "/", y);
    if |texto| == 5 && '/' in texto then [texto, texto + "/" + y] else [texto]
  }

  lemma Partida<T>(a: seq<T>, b: seq<T>)
    ensures (a + b)[..|a|] == a && (a + b)[|a|..] == b
  {
  }

  /** The date of the first of `fmts` that accepts `c`. */
  function PrimerFormato(c: string, fmts: seq<Formato>): (r: Option<Date>)
    ensures r.None? <==> forall i :: 0 <= i < |fmts| ==> Strptime(c, fmts[i]).None?
    ensures r.Some? ==> exists i :: 0 <= i < |fmts| && Strptime(c, fmts[i]) == r
  {
    if fmts == [] then None
    else if Strptime(c, fmts[0]).Some? then Strptime(c, fmts[0])
    else
      var r := PrimerFormato(c, fmts[1..]);
      assert forall i :: 1 <= i < |fmts| ==> fmts[i] == fmts[1..][i - 1];
      if r.Some? then
        var k :| 0 <= k < |fmts[1..]| && Strptime(c, fmts[1..][k]) == r;
        assert Strptime(c, fmts[k + 1]) == r;
        r
      else r
  }

  /** The date of the first candidate that one of `fmts` accepts. */
  function PrimerCandidato(cs: seq<string>, fmts: seq<Formato>): (r: Option<Date>)
    ensures r.None? <==> forall i :: 0 <= i < |cs| ==> PrimerFormato(cs[i], fmts).None?
    ensures r.Some? ==> exists i :: 0 <= i < |cs| && PrimerFormato(cs[i], fmts) == r
  {
    if cs == [] then None
    else if PrimerFormato(cs[0], fmts).Some? then PrimerFormato(cs[0], fmts)
    else
      var r := PrimerCandidato(cs[1..], fmts);
      assert forall i :: 1 <= i < |cs| ==> cs[i] == cs[1..][i - 1];
      if r.Some? then
        var k :| 0 <= k < |cs[1..]| && PrimerFormato(cs[1..][k], fmts) == r;
        assert PrimerFormato(cs[k + 1], fmts) == r;
        r
      else r
  }

  /** `_parse_due_date(value)`: `None` for an empty or blank value or a text no candidate and
    * format accepts. */
  function FechaLimite(value: string, hoy: Date): (r: Option<Date>)
    requires Valid(hoy)
    ensures r.Some? ==> Valid(r.value)
    ensures (forall i :: 0 <= i < |value| ==> IsSpace(value[i])) ==> r.None?
  {
    StripEmptyIffAllSpace(value);
    var texto := Strip(value);
    if value == [] || texto == [] then None
    else
      var r := PrimerCandidato(Candidatos(texto, hoy), Formatos);
      if r.Some? then FormatoValido(Candidatos(texto, hoy), Formatos, r.value); r else r
  }

  lemma FormatoValido(cs: seq<string>, fmts: seq<Formato>, d: Date)
    requires PrimerCandidato(cs, fmts) == Some(d)
    ensures Valid(d)
  {
    var i :| 0 <= i < |cs| && PrimerFormato(cs[i], fmts) == Some(d);
    var j :| 0 <= j < |fmts| && Strptime(cs[i], fmts[j]) == Some(d);
  }

  /** `FechaLimite` tries the candidates of the trimmed text, when there is one. */
  lemma FechaLimiteCandidatos(value: string, hoy: Date)
    requires Valid(hoy)
    ensures FechaLimite(value, hoy) == if Strip(value) == [] then None else PrimerCandidato(Candidatos(Strip(value), hoy), Formatos)
  {
    StripEmptyIffAllSpace(value);
  }

  lemma PrimerCandidatoCabeza(a: string, rest: seq<string>, fmts: seq<Formato>)
    ensures PrimerCandidato([a] + rest, fmts)
            == if PrimerFormato(a, fmts).Some? then PrimerFormato(a, fmts) else PrimerCandidato(rest, fmts)
  {
    assert ([a] + rest)[0] == a && ([a] + rest)[1..] == rest;
  }

  lemma PrimerCandidatoPaso(cs: seq<string>, fmts: seq<Formato>, i: int)
    requires 0 <= i < |cs|
    ensures PrimerCandidato(cs[i..], fmts)
            == if PrimerFormato(cs[i], fmts).Some? then PrimerFormato(cs[i], fmts) else PrimerCandidato(cs[i + 1..], fmts)
  {
    assert cs[i..][0] == cs[i] && cs[i..][1..] == cs[i + 1..];
  }

  /** When one format accepts `c`, the first accepting format gives the same date: the formats
    * exclude one another. */
  lemma FormatoUnico(c: string, j: int)
    requires 0 <= j < |Formatos| && Strptime(c, Formatos[j]).Some?
    ensures PrimerFormato(c, Formatos) == Strptime(c, Formatos[j])
  {
    forall a, b | 0 <= a < b < |Formatos|
      ensures Strptime(c, Formatos[a]).None? || Strptime(c, Formatos[b]).None?
    {
      FormatosExcluyentes(c, a, b);
    }
    PrimerExcluyente(c, Formatos, j);
  }

  /** Among formats that exclude one another, the first accepting one is the only one. */
  lemma PrimerExcluyente(c: string, fmts: seq<Formato>, j: int)
    requires 0 <= j < |fmts| && Strptime(c, fmts[j]).Some?
    requires forall a, b :: 0 <= a < b < |fmts| ==> Strptime(c, fmts[a]).None? || Strptime(c, fmts[b]).None?
    ensures PrimerFormato(c, fmts) == Strptime(c, fmts[j])
  {
    var r := PrimerFormato(c, fmts);
    assert r.Some?;
    var i :| 0 <= i < |fmts| && Strptime(c, fmts[i]) == r;
    assert i == j;
  }

  /** A five-character text matches no format, so "dd/mm" is read as "dd/mm/<current year>"
    * and nothing else. */
  lemma DiaMesSinAnio(value: string, hoy: Date)
    requires Valid(hoy)
    requires |Strip(value)| == 5 && '/' in Strip(value)
    ensures FechaLimite(value, hoy) == PrimerFormato(Strip(value) + "/" + Dec(hoy.year), Formatos)
  {
    FechaLimiteCandidatos(value, hoy);
    CandidatosDiaMes(Strip(value), hoy);
  }

  lemma CandidatosDiaMes(texto: string, hoy: Date)
    requires Valid(hoy) && |texto| == 5 && '/' in texto
    ensures PrimerCandidato(Candidatos(texto, hoy), Formatos) == PrimerFormato(texto + "/" + Dec(hoy.year), Formatos)
  {
    var c2 := texto + "/" + Dec(hoy.year);
    NingunFormato(texto);
    assert Candidatos(texto, hoy) == [texto] + [c2];
    PrimerCandidatoCabeza(texto, [c2], Formatos);
    PrimerCandidatoCabeza(c2, [], Formatos);
  }

  /** No format accepts a text of five characters or fewer. */
  lemma NingunFormato(texto: string)
    requires |texto| <= 5
    ensures PrimerFormato(texto, Formatos).None?
  {
    forall j | 0 <= j < |Formatos|
      ensures Strptime(texto, Formatos[j]).None?
    {
      CincoNoBastan(texto, Formatos[j]);
    }
  }

  /** `value` has a due date exactly when some candidate and some format accept it, and then the
    * date is the one they give: neither the order of the candidates nor that of the formats
    * decides anything. */
  lemma FechaLimiteExacta(value: string, hoy: Date, c: string, j: int)
    requires Valid(hoy) && Strip(value) != []
    requires c in Candidatos(Strip(value), hoy) && 0 <= j < |Formatos| && Strptime(c, Formatos[j]).Some?
    ensures FechaLimite(value, hoy) == Strptime(c, Formatos[j])
  {
    FechaLimiteCandidatos(value, hoy);
    CandidatosExacta(Strip(value), hoy, c, j);
  }

  lemma CandidatosExacta(texto: string, hoy: Date, c: string, j: int)
    requires Valid(hoy)
    requires c in Candidatos(texto, hoy) && 0 <= j < |Formatos| && Strptime(c, Formatos[j]).Some?
    ensures PrimerCandidato(Candidatos(texto, hoy), Formatos) == Strptime(c, Formatos[j])
  {
    FormatoUnico(c, j);
    if |texto| == 5 && '/' in texto {
      SegundoCandidato(texto, hoy, c, j);
      CandidatosDiaMes(texto, hoy);
    } else {
      assert Candidatos(texto, hoy) == [texto] + [] && c == texto;
      PrimerCandidatoCabeza(texto, [], Formatos);
    }
  }

  lemma SegundoCandidato(texto: string, hoy: Date, c: string, j: int)
    requires Valid(hoy) && |texto| == 5 && '/' in texto
    requires c in Candidatos(texto, hoy) && 0 <= j < |Formatos| && Strptime(c, Formatos[j]).Some?
    ensures c == texto + "/" + Dec(hoy.year)
  {
    CincoNoBastan(texto, Formatos[j]);
  }

  /** A four-digit year is written with four digits. */
  lemma CuatroCifras(y: int)
    requires 1000 <= y <= 9999
    ensures |Dec(y)| == 4
  {
    var a := y / 10;
    var b := a / 10;
    var c := b / 10;
    assert 100 <= a <= 999 && 10 <= b <= 99 && 1 <= c <= 9;
    DecLength(y);
    DecLength(a);
    DecLength(b);
  }

  /** The text after the last separator is determined: two joins that end in separator-free
    * texts end in the same one. */
  lemma UltimoTramo(x: string, a: string, y: string, b: string, sep: char)
    requires x + [sep] + a == y + [sep] + b && sep !in a && sep !in b
    ensures a == b
  {
    var s := x + [sep] + a;
    assert s[|x|] == sep && s[|y|] == sep;
    assert forall j :: |x| < j < |s| ==> s[j] == a[j - |x| - 1] && s[j] != sep;
    assert forall j :: |y| < j < |s| ==> s[j] == b[j - |y| - 1] && s[j] != sep;
    assert |x| == |y|;
    assert a == s[|s| - |a|..] == b;
  }

  /** A "dd/mm" date falls in the current year. */
  lemma AnioEnCurso(value: string, hoy: Date)
    requires Valid(hoy) && 1000 <= hoy.year
    requires |Strip(value)| == 5 && '/' in Strip(value)
    requires FechaLimite(value, hoy).Some?
    ensures FechaLimite(value, hoy).value.year == hoy.year
  {
    var c := Strip(value) + "/" + Dec(hoy.year);
    DiaMesSinAnio(value, hoy);
    var j :| 0 <= j < |Formatos| && Strptime(c, Formatos[j]) == FechaLimite(value, hoy);
    var f := Formatos[j];
    assert '/' in c;
    if f.sep != '/' {
      OtroSeparador(c, f, '/');
      assert false;
    }
    Campos(c, f);
    var p := Split(c, '/');
    assert '/' !in p[2];
    assert c == Strip(value) + ['/'] + Dec(hoy.year);
    assert c == (p[0] + ['/'] + p[1]) + ['/'] + p[2];
    assert '/' !in Dec(hoy.year) by {
      assert forall k :: 0 <= k < |Dec(hoy.year)| ==> IsDecimal(Dec(hoy.year)[k]);
    }
    UltimoTramo(Strip(value), Dec(hoy.year), p[0] + ['/'] + p[1], p[2], '/');
    CuatroCifras(hoy.year);
  }

  lemma PartesNavidad()
    ensures "25/12/2025" == "25" + ['/'] + "12" + ['/'] + "2025"
  {
  }

  lemma ValorAnio2025()
    ensures AllDecimal("2025") && DecValue("2025") == 2025
  {
    assert "2025"[..3] == "202" && "202"[..2] == "20" && "20"[..1] == "2" && "2"[..0] == [];
  }

  lemma StrptimeNavidad()
    ensures Strptime("25/12/2025", DiaMesAnio('/')) == Some(Date(2025, 12, 25))
  {
    PartesNavidad();
    ValorAnio2025();
    CamposNavidad();
    DiaMesAnioDeCampos("25", "12", "2025", '/');
  }

  lemma CamposNavidad()
    ensures CampoDia("25") && CampoMes("12") && Valor("25") == 25 && Valor("12") == 12
  {
    assert "25"[..1] == "2" && "12"[..1] == "1" && "2"[..0] == [] && "1"[..0] == [];
  }

  /** "25/12/2025" is Christmas 2025, whatever the day. */
  lemma EjemploNavidad(hoy: Date)
    requires Valid(hoy)
    ensures FechaLimite("25/12/2025", hoy) == Some(Date(2025, 12, 25))
  {
    var t := "25/12/2025";
    StripNoSpace(t);
    FechaLimiteCandidatos(t, hoy);
    UnCandidato(t, hoy);
    PrimerCandidatoCabeza(t, [], Formatos);
    StrptimeNavidad();
    assert Formatos[0] == DiaMesAnio('/');
    FormatoUnico(t, 0);
  }

  lemma UnCandidato(t: string, hoy: Date)
    requires Valid(hoy) && |t| != 5
    ensures Candidatos(t, hoy) == [t] + []
  {
  }

  /** The inner loop of `_parse_due_date`: each format in turn on one candidate, the first date
    * built. */
  method ProbarFormatos(candidate: string, fmts: seq<Formato>) returns (r: Option<Date>)
    ensures r == PrimerFormato(candidate, fmts)
  {
    var j := 0;
    while j < |fmts|
      invariant 0 <= j <= |fmts|
      invariant PrimerFormato(candidate, fmts[j..]) == PrimerFormato(candidate, fmts)
    {
      var d := Strptime(candidate, fmts[j]);
      if d.Some? {
        return d;
      }
      assert fmts[j..][1..] == fmts[j + 1..];
      j := j + 1;
    }
    return None;
  }

  /** `_parse_due_date`: each candidate in turn, each format in turn, the first date built. */
  method ParseDueDate(value: string, hoy: Date) returns (r: Option<Date>)
    requires Valid(hoy)
    ensures r == FechaLimite(value, hoy)
  {
    FechaLimiteCandidatos(value, hoy);
    if value == [] {
      return None;
    }
    var text := Strip(value);
    if text == [] {
      return None;
    }
    var candidates := [text];
    if |text| == 5 && '/' in text {
      candidates := [text, text + "/" + Dec(hoy.year)];
    }
    r := ProbarCandidatos(candidates, Formatos);
  }

  /** The outer loop of `_parse_due_date`: each candidate in turn, the first date built. */
  method ProbarCandidatos(candidates: seq<string>, fmts: seq<Formato>) returns (r: Option<Date>)
    ensures r == PrimerCandidato(candidates, fmts)
  {
    var i := 0;
    while i < |candidates|
      invariant 0 <= i <= |candidates|
      invariant PrimerCandidato(candidates[i..], fmts) == PrimerCandidato(candidates, fmts)
    {
      var d := ProbarFormatos(candidates[i], fmts);
      PrimerCandidatoPaso(candidates, fmts, i);
      if d.Some? {
        return d;
      }
      i := i + 1;
    }
    return None;
  }

  // ---------------------------------------------------------------------------------------
  // _build_task_sections
  // ---------------------------------------------------------------------------------------

  /** The card status: "done" or "pending". */
  datatype Estado = Hecha | Pendiente

  /** A card of the board, built from a row of the listing. */
  datatype Entrada = Entrada(id: int, title: string, date: string, status: Estado, due: Option<Date>)

  /** The card for row `f`: the trimmed text, or "Sin titulo" when it is blank; the date text
    * as stored; done when `done` is not zero; the due date read from the date text. */
  function EntradaDe(f: TaskService.Fila, hoy: Date): (r: Entrada)
    requires Valid(hoy)
    ensures r.id == f.id && r.date == f.fecha
    ensures r.title != [] && (Strip(f.texto) != [] ==> r.title == Strip(f.texto))
    ensures r.status.Hecha? <==> f.done != 0
    ensures r.due == FechaLimite(f.fecha, hoy) && (r.due.Some? ==> Valid(r.due.value))
  {
    Entrada(f.id, if Strip(f.texto) == [] then "Sin titulo" else Strip(f.texto), f.fecha,
            if f.done != 0 then Hecha else Pendiente, FechaLimite(f.fecha, hoy))
  }

  /** The cards of the listing `filas`, in its order. */
  function Entradas(filas: seq<TaskService.Fila>, hoy: Date): (r: seq<Entrada>)
    requires Valid(hoy)
    ensures |r| == |filas|
    ensures forall i :: 0 <= i < |filas| ==> r[i] == EntradaDe(filas[i], hoy)
  {
    seq(|filas|, i requires 0 <= i < |filas| => EntradaDe(filas[i], hoy))
  }

  /** The three sections: "past" (Anteriores), "current" (Actuales), "future" (Posteriores). */
  datatype Seccion = Anteriores | Actuales | Posteriores

  /** The section of a card with due date `due`: past before today, current today, future
    * after today or without a date. */
  function SeccionDe(due: Option<Date>, hoy: Date): (r: Seccion)
    ensures r.Anteriores? <==> due.Some? && Before(due.value, hoy)
    ensures r.Actuales? <==> due == Some(hoy)
    ensures r.Posteriores? <==> due.None? || Before(hoy, due.value)
  {
    if due.None? then Posteriores
    else if Before(due.value, hoy) then Anteriores
    else if due.value == hoy then Actuales
    else Posteriores
  }

  /** The cards of `es` that go to section `s`, in their order. */
  function Cubeta(es: seq<Entrada>, s: Seccion, hoy: Date): seq<Entrada> {
    if es == [] then []
    else
      var last := es[|es| - 1];
      Cubeta(es[..|es| - 1], s, hoy) + (if SeccionDe(last.due, hoy) == s then [last] else [])
  }

  /** A section holds exactly the cards that belong to it. */
  lemma {:induction false} CubetaMiembros(es: seq<Entrada>, s: Seccion, hoy: Date)
    ensures forall e :: e in Cubeta(es, s, hoy) <==> e in es && SeccionDe(e.due, hoy) == s
  {
    if es != [] {
      CubetaMiembros(es[..|es| - 1], s, hoy);
      PartirUltimo(es);
    }
  }

  /** Every card goes to exactly one section: the three sections together hold the cards. */
  lemma {:induction false} CubetasReparten(es: seq<Entrada>, hoy: Date)
    ensures multiset(Cubeta(es, Anteriores, hoy)) + multiset(Cubeta(es, Actuales, hoy))
            + multiset(Cubeta(es, Posteriores, hoy)) == multiset(es)
  {
    if es != [] {
      var init, last := es[..|es| - 1], es[|es| - 1];
      CubetasReparten(init, hoy);
      var sec := SeccionDe(last.due, hoy);
      PartirUltimo(es);
      UnaSeccion(sec, last);
      SumaDeTres(Cubeta(init, Anteriores, hoy), Cubeta(init, Actuales, hoy), Cubeta(init, Posteriores, hoy),
                 if sec == Anteriores then [last] else [], if sec == Actuales then [last] else [],
                 if sec == Posteriores then [last] else [], init, last, es);
    }
  }

  lemma UnaSeccion(sec: Seccion, x: Entrada)
    ensures multiset(if sec == Anteriores then [x] else []) + multiset(if sec == Actuales then [x] else [])
            + multiset(if sec == Posteriores then [x] else []) == multiset{x}
  {
  }

  lemma PartirUltimo<T>(s: seq<T>)
    requires s != []
    ensures s == s[..|s| - 1] + [s[|s| - 1]]
  {
  }

  lemma SumaDeTres<T>(a: seq<T>, b: seq<T>, c: seq<T>, da: seq<T>, db: seq<T>, dc: seq<T>,
                      init: seq<T>, x: T, whole: seq<T>)
    requires multiset(a) + multiset(b) + multiset(c) == multiset(init)
    requires multiset(da) + multiset(db) + multiset(dc) == multiset{x}
    requires whole == init + [x]
    ensures multiset(a + da) + multiset(b + db) + multiset(c + dc) == multiset(whole)
  {
  }

  /** The sort key of a past card: `due or date.min`. */
  function ClavePasada(e: Entrada): Date {
    if e.due.Some? then e.due.value else Min
  }

  /** The sort key of a current or future card: `(due or date.max, title)`. */
  function ClaveFutura(e: Entrada): Date {
    if e.due.Some? then e.due.value else Max
  }

  /** Past cards are sorted with `reverse=True`: `a` may stand before `b` when its key is at
    * least that of `b`. */
  predicate AntesPasada(a: Entrada, b: Entrada) {
    AtMost(ClavePasada(b), ClavePasada(a))
  }

  /** The tuple order of `(due or date.max, title)`. */
  predicate AntesFutura(a: Entrada, b: Entrada) {
    Before(ClaveFutura(a), ClaveFutura(b)) || (ClaveFutura(a) == ClaveFutura(b) && StrLe(a.title, b.title))
  }

  lemma OrdenPasado()
    ensures Preorden(AntesPasada)
  {
    forall a: Entrada, b: Entrada, c: Entrada
      ensures AntesPasada(a, b) || AntesPasada(b, a)
      ensures AntesPasada(a, b) && AntesPasada(b, c) ==> AntesPasada(a, c)
    {
      AtMostTotalOrder(ClavePasada(c), ClavePasada(b), ClavePasada(a));
    }
  }

  lemma OrdenFuturo()
    ensures Preorden(AntesFutura)
  {
    forall a: Entrada, b: Entrada
      ensures AntesFutura(a, b) || AntesFutura(b, a)
    {
      AtMostTotalOrder(ClaveFutura(a), ClaveFutura(b), ClaveFutura(b));
      StrLeTotal(a.title, b.title);
    }
    forall a: Entrada, b: Entrada, c: Entrada | AntesFutura(a, b) && AntesFutura(b, c)
      ensures AntesFutura(a, c)
    {
      AtMostTotalOrder(ClaveFutura(a), ClaveFutura(b), ClaveFutura(c));
      AtMostTotalOrder(ClaveFutura(b), ClaveFutura(c), ClaveFutura(a));
      if ClaveFutura(a) == ClaveFutura(b) && ClaveFutura(b) == ClaveFutura(c) {
        StrLeTrans(a.title, b.title, c.title);
      }
    }
  }

  /** The sections `_build_task_sections` returns. */
  datatype Secciones = Secciones(past: seq<Entrada>, current: seq<Entrada>, future: seq<Entrada>)

  /** The board for listing `filas`: each card in its section, past cards newest first, the
    * others by due date and then title, undated ones last; `sort` is stable. */
  function Tablero(filas: seq<TaskService.Fila>, hoy: Date): (r: Secciones)
    requires Valid(hoy)
    ensures |r.past| + |r.current| + |r.future| == |filas|
  {
    var es := Entradas(filas, hoy);
    var past, current, future := Cubeta(es, Anteriores, hoy), Cubeta(es, Actuales, hoy), Cubeta(es, Posteriores, hoy);
    CubetasReparten(es, hoy);
    CuentaDeTres(past, current, future, es);
    Secciones(Ordenar(past, AntesPasada), Ordenar(current, AntesFutura), Ordenar(future, AntesFutura))
  }

  /** Three lists that together are a permutation of `s` hold as many elements as `s`. */
  lemma CuentaDeTres<T>(a: seq<T>, b: seq<T>, c: seq<T>, s: seq<T>)
    requires multiset(a) + multiset(b) + multiset(c) == multiset(s)
    ensures |a| + |b| + |c| == |s|
  {
    assert |multiset(a) + multiset(b) + multiset(c)| == |multiset(s)|;
  }

  /** Adding the next card to the sections read so far. */
  lemma CubetaPaso(es: seq<Entrada>, i: int, s: Seccion, hoy: Date)
    requires 0 <= i < |es|
    ensures Cubeta(es[..i + 1], s, hoy)
            == Cubeta(es[..i], s, hoy) + (if SeccionDe(es[i].due, hoy) == s then [es[i]] else [])
  {
    assert es[..i + 1][..i] == es[..i];
  }

  /** The board holds every card of the listing once, each in its section, and each section
    * in its sort order. */
  lemma TableroCorrecto(filas: seq<TaskService.Fila>, hoy: Date)
    requires Valid(hoy)
    ensures var r := Tablero(filas, hoy);
            && multiset(r.past) + multiset(r.current) + multiset(r.future) == multiset(Entradas(filas, hoy))
            && (forall e :: e in r.past ==> e.due.Some? && Before(e.due.value, hoy))
            && (forall e :: e in r.current ==> e.due == Some(hoy))
            && (forall e :: e in r.future ==> e.due.None? || Before(hoy, e.due.value))
            && Ordenada(r.past, AntesPasada) && Ordenada(r.current, AntesFutura)
            && Ordenada(r.future, AntesFutura)
  {
    var es := Entradas(filas, hoy);
    var past, current, future := Cubeta(es, Anteriores, hoy), Cubeta(es, Actuales, hoy), Cubeta(es, Posteriores, hoy);
    var r := Tablero(filas, hoy);
    CubetasReparten(es, hoy);
    CubetaMiembros(es, Anteriores, hoy);
    CubetaMiembros(es, Actuales, hoy);
    CubetaMiembros(es, Posteriores, hoy);
    SeccionesContienen(past, current, future, r);
    OrdenPasado();
    OrdenFuturo();
    OrdenarOrdena(past, AntesPasada);
    OrdenarOrdena(current, AntesFutura);
    OrdenarOrdena(future, AntesFutura);
  }

  /** `_build_task_sections`: one pass appending each card to its section, then each section
    * sorted. */
  method BuildTaskSections(filas: seq<TaskService.Fila>, hoy: Date) returns (r: Secciones)
    requires Valid(hoy)
    ensures r == Tablero(filas, hoy)
    ensures multiset(r.past) + multiset(r.current) + multiset(r.future) == multiset(Entradas(filas, hoy))
    ensures forall e :: e in r.past ==> e.due.Some? && Before(e.due.value, hoy)
    ensures forall e :: e in r.current ==> e.due == Some(hoy)
    ensures forall e :: e in r.future ==> e.due.None? || Before(hoy, e.due.value)
    ensures Ordenada(r.past, AntesPasada) && Ordenada(r.current, AntesFutura)
            && Ordenada(r.future, AntesFutura)
  {
    ghost var es := Entradas(filas, hoy);
    var past, current, future := [], [], [];
    for i := 0 to |filas|
      invariant past == Cubeta(es[..i], Anteriores, hoy)
      invariant current == Cubeta(es[..i], Actuales, hoy)
      invariant future == Cubeta(es[..i], Posteriores, hoy)
    {
      var due := ParseDueDate(filas[i].fecha, hoy);
      var title := Strip(filas[i].texto);
      if title == [] {
        title := "Sin titulo";
      }
      var entry := Entrada(filas[i].id, title, filas[i].fecha,
                           if filas[i].done != 0 then Hecha else Pendiente, due);
      assert entry == es[i];
      CubetaPaso(es, i, Anteriores, hoy);
      CubetaPaso(es, i, Actuales, hoy);
      CubetaPaso(es, i, Posteriores, hoy);
      if due.None? {
        future := future + [entry];
      } else if Before(due.value, hoy) {
        past := past + [entry];
      } else if due.value == hoy {
        current := current + [entry];
      } else {
        future := future + [entry];
      }
    }
    assert es[..|filas|] == es;
    r := Secciones(Ordenar(past, AntesPasada), Ordenar(current, AntesFutura), Ordenar(future, AntesFutura));
    TableroCorrecto(filas, hoy);
  }

  lemma SeccionesContienen(past: seq<Entrada>, current: seq<Entrada>, future: seq<Entrada>, r: Secciones)
    requires multiset(r.past) == multiset(past) && multiset(r.current) == multiset(current)
             && multiset(r.future) == multiset(future)
    ensures forall e :: e in r.past <==> e in past
    ensures forall e :: e in r.current <==> e in current
    ensures forall e :: e in r.future <==> e in future
  {
    forall e
      ensures e in r.past <==> e in past
      ensures e in r.current <==> e in current
      ensures e in r.future <==> e in future
    {
      assert e in r.past <==> e in multiset(r.past);
      assert e in r.current <==> e in multiset(r.current);
      assert e in r.future <==> e in multiset(r.future);
    }
  }

  /** The cards of section `s` of board `b`. */
  function Parte(b: Secciones, s: Seccion): seq<Entrada> {
    match s
    case Anteriores => b.past
    case Actuales => b.current
    case Posteriores => b.future
  }

  /** `sort` is stable: within each section, cards with equal keys keep the order of the listing
    * (newest first). */
  lemma TableroEstable(filas: seq<TaskService.Fila>, hoy: Date, s: Seccion, k: Entrada)
    requires Valid(hoy)
    ensures var le := if s.Anteriores? then AntesPasada else AntesFutura;
            Iguales(Parte(Tablero(filas, hoy), s), k, le) == Iguales(Cubeta(Entradas(filas, hoy), s, hoy), k, le)
  {
    OrdenPasado();
    OrdenFuturo();
    var es := Entradas(filas, hoy);
    match s
    case Anteriores => OrdenarEstable(Cubeta(es, s, hoy), k, AntesPasada);
    case Actuales => OrdenarEstable(Cubeta(es, s, hoy), k, AntesFutura);
    case Posteriores => OrdenarEstable(Cubeta(es, s, hoy), k, AntesFutura);
  }

  /** Section `s` of the board holds exactly the listing's cards that belong to it. */
  lemma ParteMiembros(filas: seq<TaskService.Fila>, hoy: Date, s: Seccion)
    requires Valid(hoy)
    ensures forall e :: e in Parte(Tablero(filas, hoy), s) <==> e in Entradas(filas, hoy) && SeccionDe(e.due, hoy) == s
  {
    var es := Entradas(filas, hoy);
    var c := Cubeta(es, s, hoy);
    CubetaMiembros(es, s, hoy);
    var o := Parte(Tablero(filas, hoy), s);
    assert multiset(o) == multiset(c);
    forall e
      ensures e in o <==> e in c
    {
      assert e in o <==> e in multiset(o);
      assert e in c <==> e in multiset(c);
    }
  }

  /** Every row of the listing has its card on the board, in the section its date puts it in. */
  lemma EntradaEnTablero(filas: seq<TaskService.Fila>, hoy: Date, k: int)
    requires Valid(hoy) && 0 <= k < |filas|
    ensures var e := EntradaDe(filas[k], hoy);
            e in Parte(Tablero(filas, hoy), SeccionDe(e.due, hoy))
  {
    var e := EntradaDe(filas[k], hoy);
    ParteMiembros(filas, hoy, SeccionDe(e.due, hoy));
    assert Entradas(filas, hoy)[k] == e;
  }

  /** The due dates on the board are valid dates. */
  lemma FechasDelTablero(filas: seq<TaskService.Fila>, hoy: Date, s: Seccion)
    requires Valid(hoy)
    ensures forall e :: e in Parte(Tablero(filas, hoy), s) && e.due.Some? ==> Valid(e.due.value)
  {
    ParteMiembros(filas, hoy, s);
    forall e | e in Parte(Tablero(filas, hoy), s) && e.due.Some?
      ensures Valid(e.due.value)
    {
      var es := Entradas(filas, hoy);
      var k :| 0 <= k < |es| && es[k] == e;
    }
  }

  /** In a list sorted by `(due or date.max, title)`, a card without a date is followed only by
    * cards without a date or due on 31/12/9999, in title order. */
  lemma OrdenadaSinFecha(f: seq<Entrada>, i: int, j: int)
    requires Ordenada(f, AntesFutura)
    requires forall e :: e in f && e.due.Some? ==> Valid(e.due.value)
    requires 0 <= i < j < |f| && f[i].due.None?
    ensures (f[j].due.None? || f[j].due == Some(Max)) && StrLe(f[i].title, f[j].title)
  {
    assert AntesFutura(f[i], f[j]);
    if f[j].due.Some? {
      assert f[j] in f;
      assert Valid(f[j].due.value);
    }
  }

  /** In the future section, a card without a date is followed only by cards without a date or
    * due on 31/12/9999, in title order. */
  lemma SinFechaAlFinal(filas: seq<TaskService.Fila>, hoy: Date, i: int, j: int)
    requires Valid(hoy)
    requires 0 <= i < j < |Tablero(filas, hoy).future| && Tablero(filas, hoy).future[i].due.None?
    ensures var f := Tablero(filas, hoy).future;
            (f[j].due.None? || f[j].due == Some(Max)) && StrLe(f[i].title, f[j].title)
  {
    var f := Tablero(filas, hoy).future;
    FuturoOrdenado(filas, hoy);
    FechasDelTablero(filas, hoy, Posteriores);
    assert Parte(Tablero(filas, hoy), Posteriores) == f;
    OrdenadaSinFecha(f, i, j);
  }

  lemma FuturoOrdenado(filas: seq<TaskService.Fila>, hoy: Date)
    requires Valid(hoy)
    ensures Ordenada(Tablero(filas, hoy).future, AntesFutura)
  {
    OrdenFuturo();
    OrdenarOrdena(Cubeta(Entradas(filas, hoy), Posteriores, hoy), AntesFutura);
  }

  /** A task just appended to the table shows on its owner's board, in the section its date
    * puts it in. */
  lemma NuevaTareaEnTablero(rows: seq<TaskService.Tarea>, t: TaskService.Tarea, hoy: Date)
    requires Valid(hoy)
    ensures var e := EntradaDe(TaskService.FilaDe(t), hoy);
            e in Parte(Tablero(TaskService.Listado(rows + [t], t.usuario), hoy), SeccionDe(e.due, hoy))
  {
    var filas := TaskService.Listado(rows + [t], t.usuario);
    TaskService.ListadoAgregar(rows, t, t.usuario);
    assert filas[0] == TaskService.FilaDe(t);
    EntradaEnTablero(filas, hoy, 0);
  }

  // ---------------------------------------------------------------------------------------
  // The login and registration forms
  // ---------------------------------------------------------------------------------------

  /** The errors the two forms show. */
  datatype Aviso =
    | CompletaCampos | CorreoInvalido | CredencialesIncorrectas | PerfilFaltante
    | NombreFaltante | ContrasenaDebil | NoCoinciden
    | DelServicio(msg: string)   // a refusal of `registrar_usuario`, shown after a "*"

  /** The text shown for an error. */
  function TextoAviso(a: Aviso): (r: string)
    ensures |r| >= 1 && r[0] == '*'
    ensures a.DelServicio? ==> r[1..] == a.msg
  {
    match a
    case CompletaCampos => "*" + "Completa ambos campos."
    case CorreoInvalido => "*" + "Ingresa un correo valido."
    case CredencialesIncorrectas => "*" + "Correo o contraseña incorrecto/s."
    case PerfilFaltante => "*" + "No se pudo cargar el perfil."
    case NombreFaltante => "*" + "Ingresa tu nombre completo."
    case ContrasenaDebil => "*" + "La contraseña debe tener 8+ caracteres con letras y numeros."
    case NoCoinciden => "*" + "Las contraseñas no coinciden."
    case DelServicio(msg) => "*" + msg
  }

  /** The field holds whitespace only. */
  predicate EnBlanco(s: string) {
    forall i :: 0 <= i < |s| ==> IsSpace(s[i])
  }

  /** A field trimmed (and lower-cased) is blank exactly when the field was. */
  lemma BlancoNormalizado(s: string)
    ensures Validaciones.EsTextoVacio(Some(Strip(s))) <==> EnBlanco(s)
    ensures Validaciones.EsTextoVacio(Some(StripLower(s))) <==> EnBlanco(s)
  {
    BlancoRecortado(s);
    BlancoMinusculas(Strip(s));
  }

  lemma BlancoRecortado(s: string)
    ensures Validaciones.EsTextoVacio(Some(Strip(s))) <==> EnBlanco(s)
  {
    StripEmptyIffAllSpace(s);
    var t := Strip(s);
    if t != [] {
      assert !IsSpace(t[0]);
    }
  }

  lemma BlancoMinusculas(t: string)
    ensures Validaciones.EsTextoVacio(Some(Lower(t))) <==> Validaciones.EsTextoVacio(Some(t))
  {
    if t != [] {
      assert IsSpace(Lower(t)[0]) <==> IsSpace(t[0]);
    }
  }

  /** A valid address is not blank, and a valid password is not blank. */
  lemma ValidoNoBlanco(email: string, password: string)
    ensures Validaciones.EsCorreoValido(Some(StripLower(email))) ==> !EnBlanco(email)
    ensures Validaciones.EsContrasenaValida(Some(password)) ==> !EnBlanco(password)
  {
    CorreoNoBlanco(email);
    ContrasenaNoBlanco(password);
  }

  lemma CorreoNoBlanco(email: string)
    ensures Validaciones.EsCorreoValido(Some(StripLower(email))) ==> !EnBlanco(email)
  {
    var c := StripLower(email);
    if Validaciones.EsCorreoValido(Some(c)) {
      var i :| 0 < i < |c| && c[i] == '@' && '@' !in c[..i] && '.' in c[i + 1..];
      assert !IsSpace(c[i]);
      BlancoNormalizado(email);
    }
  }

  lemma ContrasenaNoBlanco(password: string)
    ensures Validaciones.EsContrasenaValida(Some(password)) ==> !EnBlanco(password)
  {
    if Validaciones.EsContrasenaValida(Some(password)) {
      var j :| 0 <= j < |password| && IsDigit(password[j]);
      assert !IsSpace(password[j]);
    }
  }

  /** What `_on_login_click` does before calling the service: an error shown on the form, or
    * the call `login(correo, contrasena)`. */
  datatype PasoLogin = ErrorLogin(aviso: Aviso) | LlamarLogin(correo: string, contrasena: string)

  /** The checks of `_on_login_click`: the address is trimmed and lower-cased, the password
    * taken as typed; both must be filled in, then the address must look valid. */
  function ValidarLogin(email: string, password: string): (r: PasoLogin)
    ensures r == ErrorLogin(CompletaCampos) <==> EnBlanco(email) || EnBlanco(password)
    ensures r == ErrorLogin(CorreoInvalido)
            <==> !EnBlanco(email) && !EnBlanco(password) && !Validaciones.EsCorreoValido(Some(StripLower(email)))
    ensures r.LlamarLogin? <==> !EnBlanco(password) && Validaciones.EsCorreoValido(Some(StripLower(email)))
    ensures r.LlamarLogin? ==> r.correo == StripLower(email) && r.contrasena == password
  {
    ChequeosLogin(email, password);
    var correo := StripLower(email);
    if Validaciones.EsTextoVacio(Some(correo)) || Validaciones.EsTextoVacio(Some(password)) then
      ErrorLogin(CompletaCampos)
    else if !Validaciones.EsCorreoValido(Some(correo)) then ErrorLogin(CorreoInvalido)
    else LlamarLogin(correo, password)
  }

  lemma ChequeosLogin(email: string, password: string)
    ensures Validaciones.EsTextoVacio(Some(StripLower(email))) || Validaciones.EsTextoVacio(Some(password))
            <==> EnBlanco(email) || EnBlanco(password)
    ensures Validaciones.EsCorreoValido(Some(StripLower(email))) ==> !EnBlanco(email)
  {
    BlancoNormalizado(email);
    BlancoNormalizado(password);
    ValidoNoBlanco(email, password);
  }

  /** `_on_login_click` to its end, on users table `tabla`: the error left on the form, `None`
    * when the user is let in. `falla` is whether the service's query raises, `perfil` whether
    * `_load_user_profile` finds the profile. */
  function LoginForm(tabla: map<string, AuthService.Usuario>, email: string, password: string,
                     sha: string -> AuthService.Digest, falla: bool, perfil: bool): (r: Option<Aviso>)
    ensures r.None? <==> && !EnBlanco(password) && Validaciones.EsCorreoValido(Some(StripLower(email)))
                         && !falla && StripLower(email) in tabla && perfil
                         && (AuthService.VerifyPassword(password, tabla[StripLower(email)].contrasena, sha)
                             || tabla[StripLower(email)].contrasena == password)
    ensures r == Some(CredencialesIncorrectas)
            <==> ValidarLogin(email, password).LlamarLogin? && !AuthService.LoginEn(tabla, email, password, sha, falla).0
  {
    var v := ValidarLogin(email, password);
    AvisosDeLogin(email, password);
    AccesoNormalizado(tabla, email, password, sha, falla);
    if v.ErrorLogin? then Some(v.aviso)
    else if !AuthService.LoginEn(tabla, v.correo, v.contrasena, sha, falla).0 then Some(CredencialesIncorrectas)
    else if !perfil then Some(PerfilFaltante)
    else None
  }

  /** The checks of the login form stop only at a blank field or an invalid address. */
  lemma AvisosDeLogin(email: string, password: string)
    ensures ValidarLogin(email, password).ErrorLogin? ==>
              ValidarLogin(email, password).aviso in {CompletaCampos, CorreoInvalido}
  {
  }

  /** The service trims and lower-cases the address again, which changes nothing. */
  lemma AccesoNormalizado(tabla: map<string, AuthService.Usuario>, email: string, password: string,
                          sha: string -> AuthService.Digest, falla: bool)
    ensures AuthService.LoginEn(tabla, StripLower(email), password, sha, falla).0
            == AuthService.LoginEn(tabla, email, password, sha, falla).0
  {
    StripLowerIdempotent(email);
  }

  /** What `_on_register_submit` does before calling the service: an error shown on the form,
    * or the call `registrar_usuario(correo, contrasena, nombre)`. */
  datatype PasoRegistro = ErrorRegistro(aviso: Aviso)
                        | LlamarRegistro(correo: string, contrasena: string, nombre: string)

  /** The checks of `_on_register_submit`, in order: a name, a valid address, a strong enough
    * password, and the confirmation equal to it. */
  function ValidarRegistro(name: string, email: string, password: string, confirm: string): (r: PasoRegistro)
    ensures r == ErrorRegistro(NombreFaltante) <==> EnBlanco(name)
    ensures r == ErrorRegistro(CorreoInvalido)
            <==> !EnBlanco(name) && !Validaciones.EsCorreoValido(Some(StripLower(email)))
    ensures r == ErrorRegistro(ContrasenaDebil)
            <==> && !EnBlanco(name) && Validaciones.EsCorreoValido(Some(StripLower(email)))
                 && !Validaciones.EsContrasenaValida(Some(password))
    ensures r == ErrorRegistro(NoCoinciden)
            <==> && !EnBlanco(name) && Validaciones.EsCorreoValido(Some(StripLower(email)))
                 && Validaciones.EsContrasenaValida(Some(password)) && password != confirm
    ensures r.LlamarRegistro?
            <==> && !EnBlanco(name) && Validaciones.EsCorreoValido(Some(StripLower(email)))
                 && Validaciones.EsContrasenaValida(Some(password)) && password == confirm
    ensures r.LlamarRegistro? ==> r == LlamarRegistro(StripLower(email), password, Strip(name)) && Strip(name) != []
  {
    BlancoNormalizado(name);
    StripEmptyIffAllSpace(name);
    var nombre, correo := Strip(name), StripLower(email);
    if Validaciones.EsTextoVacio(Some(nombre)) then ErrorRegistro(NombreFaltante)
    else if !Validaciones.EsCorreoValido(Some(correo)) then ErrorRegistro(CorreoInvalido)
    else if !Validaciones.EsContrasenaValida(Some(password)) then ErrorRegistro(ContrasenaDebil)
    else if password != confirm then ErrorRegistro(NoCoinciden)
    else LlamarRegistro(correo, password, nombre)
  }

  /** `_on_register_submit` to its end, on users table `tabla`: the new table and the error left
    * on the form, `None` when the account was created. */
  function RegisterForm(tabla: map<string, AuthService.Usuario>, name: string, email: string,
                        password: string, confirm: string, salt: AuthService.Salt,
                        sha: string -> AuthService.Digest, falla: AuthService.Falla)
    : (r: (map<string, AuthService.Usuario>, Option<Aviso>))
    ensures r.1.None? <==> ValidarRegistro(name, email, password, confirm).LlamarRegistro?
                           && falla.SinFalla? && StripLower(email) !in tabla
    ensures r.1.None? ==> r.0 == tabla[StripLower(email) := AuthService.Usuario(AuthService.HashPassword(password, salt, sha), Strip(name))]
    ensures r.1.Some? ==> r.0 == tabla
  {
    DatosDeRegistro(name, email, password, confirm);
    Registrar(tabla, ValidarRegistro(name, email, password, confirm), salt, sha, falla)
  }

  /** The service receives the address normalised once; normalising it again changes nothing. */
  lemma DatosDeRegistro(name: string, email: string, password: string, confirm: string)
    ensures var p := ValidarRegistro(name, email, password, confirm);
            p.LlamarRegistro? ==> StripLower(p.correo) == StripLower(email) && p.nombre == Strip(name)
                                  && p.contrasena == password
  {
    StripLowerIdempotent(email);
  }

  /** An address already registered is refused with the service's `user_exists` message. */
  lemma RegistroRepetido(tabla: map<string, AuthService.Usuario>, name: string, email: string,
                         password: string, confirm: string, salt: AuthService.Salt,
                         sha: string -> AuthService.Digest, falla: AuthService.Falla)
    requires ValidarRegistro(name, email, password, confirm).LlamarRegistro?
    requires !falla.AlConsultar? && StripLower(email) in tabla
    ensures RegisterForm(tabla, name, email, password, confirm, salt, sha, falla).1
            == Some(DelServicio(MensajesAdapter.T("user_exists")))
  {
    var p := ValidarRegistro(name, email, password, confirm);
    StripLowerIdempotent(email);
    assert StripLower(p.correo) in tabla;
  }

  /** The end of `_on_register_submit` once its checks have chosen `p`. */
  function Registrar(tabla: map<string, AuthService.Usuario>, p: PasoRegistro, salt: AuthService.Salt,
                     sha: string -> AuthService.Digest, falla: AuthService.Falla)
    : (r: (map<string, AuthService.Usuario>, Option<Aviso>))
    ensures p.ErrorRegistro? ==> r == (tabla, Some(p.aviso))
    ensures p.LlamarRegistro? ==>
              && (r.1.None? <==> falla.SinFalla? && StripLower(p.correo) !in tabla)
              && (r.1.None? ==> r.0 == tabla[StripLower(p.correo) := AuthService.Usuario(AuthService.HashPassword(p.contrasena, salt, sha), p.nombre)])
              && (r.1.Some? ==> r.0 == tabla && r.1.value.DelServicio?)
              && (!falla.AlConsultar? && StripLower(p.correo) in tabla ==> r.1 == Some(DelServicio(MensajesAdapter.T("user_exists"))))
  {
    match p
    case ErrorRegistro(a) => (tabla, Some(a))
    case LlamarRegistro(correo, contrasena, nombre) =>
      var (t, ok, msg) := AuthService.RegistrarEn(tabla, correo, contrasena, nombre, salt, sha, falla);
      if ok then (t, None) else (tabla, Some(DelServicio(msg)))
  }

  /** An account created through the registration form lets its owner in through the login
    * form, with the same password and the address typed in any spacing or case. */
  lemma RegistroLuegoLogin(tabla: map<string, AuthService.Usuario>, name: string, email: string,
                           password: string, confirm: string, otroEmail: string, salt: AuthService.Salt,
                           sha: string -> AuthService.Digest)
    requires RegisterForm(tabla, name, email, password, confirm, salt, sha, AuthService.SinFalla).1.None?
    requires StripLower(otroEmail) == StripLower(email)
    ensures LoginForm(RegisterForm(tabla, name, email, password, confirm, salt, sha, AuthService.SinFalla).0,
                      otroEmail, password, sha, false, true).None?
  {
    var c := StripLower(email);
    var u := AuthService.Usuario(AuthService.HashPassword(password, salt, sha), Strip(name));
    var t := RegisterForm(tabla, name, email, password, confirm, salt, sha, AuthService.SinFalla).0;
    assert t == tabla[c := u];
    ValidoNoBlanco(email, password);
    AuthService.VerifyHash(password, salt, sha);
    assert c in t && t[c] == u;
  }

  // ---------------------------------------------------------------------------------------
  // _persist_task_modal
  // ---------------------------------------------------------------------------------------

  /** Whether the modal creates a task or edits one. */
  datatype Modo = Crear | Editar

  /** The errors the task modal shows. */
  datatype AvisoTarea = TituloFaltante | FechaInvalida

  /** The texts the modal's error boxes show, without the forms' leading `*`. */
  function TextoAvisoTarea(a: AvisoTarea): (r: string)
    ensures |r| >= 1 && r[0] != '*'
  {
    match a
    case TituloFaltante => "Ingresa el titulo de la tarea."
    case FechaInvalida => "Ingresa la fecha en formato DD/MM/AAAA."
  }

  /** The grey texts the modal's fields show while empty. */
  const TituloPlaceholder := "Tarea"
  const FechaPlaceholder := "dd/mm/aaaa"

  /** What `_persist_task_modal` does with the modal's fields: nothing (the modal just closes),
    * an error, or a call to the task service with the title, the date text and whether the
    * status is "done". */
  datatype Guardado =
    | SinCambios
    | ErrorTarea(aviso: AvisoTarea)
    | Actualizar(id: int, titulo: string, fecha: string, hecha: bool)
    | Agregar(titulo: string, fecha: string, hecha: bool)

  /** A field of the modal as read: trimmed, and empty when it still shows its placeholder. */
  function Campo(valor: string, placeholder: string): (r: string)
    ensures r == [] || (r == Strip(valor) && r != placeholder)
    ensures r == [] <==> EnBlanco(valor) || Strip(valor) == placeholder
  {
    StripEmptyIffAllSpace(valor);
    if Strip(valor) == placeholder then [] else Strip(valor)
  }

  /** The edited task has an id (`context["task"].get("id")` is truthy). */
  predicate ConId(id: Option<int>) {
    id.Some? && id.value != 0
  }

  /** `_persist_task_modal`: nothing to do without an open modal or a logged-in user; then a
    * title is required, a date when given must be readable, an edit of a task with an id is an
    * update (the date may be left empty), and anything else creates a task, which needs a
    * date. */
  function PersistTaskModal(abierto: bool, modo: Modo, id: Option<int>, tituloVar: string,
                            fechaVar: string, estado: string, hoy: Date): (r: Guardado)
    requires Valid(hoy)
    ensures !abierto ==> r.SinCambios?
    ensures r == ErrorTarea(TituloFaltante) <==> abierto && Campo(tituloVar, TituloPlaceholder) == []
    ensures r.Actualizar?
            <==> && abierto && Campo(tituloVar, TituloPlaceholder) != [] && modo.Editar? && ConId(id)
                 && (Campo(fechaVar, FechaPlaceholder) == [] || FechaLimite(Campo(fechaVar, FechaPlaceholder), hoy).Some?)
    ensures r.Agregar?
            <==> && abierto && Campo(tituloVar, TituloPlaceholder) != [] && !(modo.Editar? && ConId(id))
                 && Campo(fechaVar, FechaPlaceholder) != [] && FechaLimite(Campo(fechaVar, FechaPlaceholder), hoy).Some?
    ensures r.Actualizar? || r.Agregar? ==> r.titulo == Strip(tituloVar) && (r.hecha <==> estado == "done")
    ensures r.Actualizar? ==> r.id == id.value && r.id != 0
    ensures r.Actualizar? ==> r.fecha == Campo(fechaVar, FechaPlaceholder)
    ensures r.Agregar? ==> r.fecha == Strip(fechaVar) && FechaLimite(r.fecha, hoy).Some?
  {
    if !abierto then SinCambios
    else
      var titulo := Campo(tituloVar, TituloPlaceholder);
      var fecha := Campo(fechaVar, FechaPlaceholder);
      var hecha := estado == "done";
      if titulo == [] then ErrorTarea(TituloFaltante)
      else if fecha != [] && FechaLimite(fecha, hoy).None? then ErrorTarea(FechaInvalida)
      else if modo.Editar? && ConId(id) then Actualizar(id.value, titulo, fecha, hecha)
      else if fecha == [] then ErrorTarea(FechaInvalida)
      else Agregar(titulo, fecha, hecha)
  }

  /** A task the modal creates is one `agregar_tarea` stores as given (its title and date are
    * already trimmed and not empty), and its card has a due date, so it never lands among the
    * undated cards. */
  lemma ModalCreaTareaConFecha(abierto: bool, modo: Modo, id: Option<int>, tituloVar: string,
                               fechaVar: string, estado: string, hoy: Date, nuevoId: int)
    requires Valid(hoy)
    requires PersistTaskModal(abierto, modo, id, tituloVar, fechaVar, estado, hoy).Agregar?
    ensures var r := PersistTaskModal(abierto, modo, id, tituloVar, fechaVar, estado, hoy);
            && Strip(r.titulo) == r.titulo != [] && Strip(r.fecha) == r.fecha != []
            && EntradaDe(TaskService.Fila(nuevoId, r.titulo, r.fecha, 0), hoy).due.Some?
  {
    var titulo, fecha := Strip(tituloVar), Strip(fechaVar);
    StripIdempotent(tituloVar);
    StripIdempotent(fechaVar);
    var r := PersistTaskModal(abierto, modo, id, tituloVar, fechaVar, estado, hoy);
    assert r.titulo == titulo && r.fecha == fecha && FechaLimite(fecha, hoy).Some?;
    assert Campo(tituloVar, TituloPlaceholder) != [] && Campo(fechaVar, FechaPlaceholder) != [];
  }
}
