/** Model of `fechas.py`: the days left until a due date written as text, their
  * classification into VENCIDO / HOY / PRONTO / A TIEMPO, and the canonical DD/MM/YYYY form.
  *
  * The clock read `datetime.now()` is the parameter `ahora`. */
module Fechas {
  import opened Wrappers
  import opened Texto
  import opened Calendario

  const MicrosPorDia := 86_400_000_000

  /** A value of `datetime.now()`: the current date and the microseconds since its midnight. */
  datatype Ahora = Ahora(fecha: Date, micros: int)

  predicate AhoraValido(ahora: Ahora) {
    Valid(ahora.fecha) && 0 <= ahora.micros < MicrosPorDia
  }

  /** `dd, mm, aaaa = texto.replace('-', '/').split('/')` followed by `int()` of each part:
    * `None` when there are not exactly three parts or one of them is not an integer. */
  function Partes(texto: string): (r: Option<(int, int, int)>)
    ensures r.Some? ==> r.value.0 >= 0 && r.value.1 >= 0 && r.value.2 >= 0
  {
    var p := Split(Replace(texto, '-', '/'), '/');
    if |p| != 3 then None
    else
      assert '-' !in p[0] && '-' !in p[1] && '-' !in p[2];
      match (ParseInt(p[0]), ParseInt(p[1]), ParseInt(p[2]))
      case (Some(d), Some(m), Some(y)) => Some((d, m, y))
      case _ => None
  }

  /** The date `datetime(int(aaaa), int(mm), int(dd))` builds, `None` when that raises. */
  function FechaDe(texto: string): (r: Option<Date>)
    ensures r.Some? ==> Valid(r.value)
  {
    match Partes(texto)
    case None => None
    case Some((d, m, y)) => MakeDate(y, m, d)
  }

  /** `dias_faltantes`: `(datetime(aaaa, mm, dd) - datetime.now()).days`, and 0 when the text is
    * not such a date. The due moment is midnight, and `timedelta.days` rounds down, so any
    * time after midnight of the current day takes one day off. */
  function DiasFaltantes(texto: string, ahora: Ahora): (r: int)
    requires AhoraValido(ahora)
    ensures FechaDe(texto).None? ==> r == 0
    ensures FechaDe(texto).Some? ==>
      r == Ordinal(FechaDe(texto).value) - Ordinal(ahora.fecha) - (if ahora.micros > 0 then 1 else 0)
  {
    match FechaDe(texto)
    case None => 0
    case Some(due) =>
      var k := Ordinal(due) - Ordinal(ahora.fecha);
      FloorDays(k, ahora.micros);
      (k * MicrosPorDia - ahora.micros) / MicrosPorDia
  }

  lemma FloorDays(k: int, u: int)
    requires 0 <= u < MicrosPorDia
    ensures (k * MicrosPorDia - u) / MicrosPorDia == k - (if u > 0 then 1 else 0)
  {
    var q := k - (if u > 0 then 1 else 0);
    var rest := (if u > 0 then MicrosPorDia - u else 0);
    assert k * MicrosPorDia - u == q * MicrosPorDia + rest;
    assert 0 <= rest < MicrosPorDia;
  }

  /** The classification of a day count: VENCIDO before zero, HOY at zero, PRONTO up to three
    * days ahead, A TIEMPO after that. Exactly one of the four holds for every count. */
  function EstadoDeDias(d: int): (r: string)
    ensures r == "VENCIDO" <==> d < 0
    ensures r == "HOY" <==> d == 0
    ensures r == "PRONTO" <==> 1 <= d <= 3
    ensures r == "A TIEMPO" <==> d > 3
  {
    if d < 0 then "VENCIDO"
    else if d == 0 then "HOY"
    else if d <= 3 then "PRONTO"
    else "A TIEMPO"
  }

  /** `estado_por_dias`. Because the day count is taken from the current moment, a due date
    * equal to today is VENCIDO as soon as the clock is past midnight. */
  function EstadoPorDias(texto: string, ahora: Ahora): (r: string)
    requires AhoraValido(ahora)
    ensures FechaDe(texto).None? ==> r == "HOY"
    ensures FechaDe(texto).Some? ==>
      var due := FechaDe(texto).value;
      && (r == "VENCIDO" <==> Before(due, ahora.fecha) || (due == ahora.fecha && ahora.micros > 0))
      && (r == "HOY" <==> Ordinal(due) - Ordinal(ahora.fecha) == (if ahora.micros > 0 then 1 else 0))
  {
    var d := DiasFaltantes(texto, ahora);
    if FechaDe(texto).Some? then
      OrdinalOrder(FechaDe(texto).value, ahora.fecha);
      EstadoDeDias(d)
    else
      EstadoDeDias(d)
  }

  /** Text that is not a date counts as due today. */
  lemma SinFechaEsHoy(texto: string, ahora: Ahora)
    requires AhoraValido(ahora)
    requires FechaDe(texto).None?
    ensures DiasFaltantes(texto, ahora) == 0 && EstadoPorDias(texto, ahora) == "HOY"
  {
  }

  /** `formatear_fecha`: the three integer parts zero-padded as DD/MM/YYYY, or the text itself
    * when it does not split into three integer parts. No calendar check is made. */
  function FormatearFecha(texto: string): (r: string)
    ensures Partes(texto).None? ==> r == texto
    ensures Partes(texto).Some? ==>
      && Partes(r) == Partes(texto)
      && var (d, m, y) := Partes(texto).value;
      && var p := Split(r, '/');
      && |p| == 3 && AllDecimal(p[0]) && AllDecimal(p[1]) && AllDecimal(p[2])
      && |p[0]| == (if |Dec(d)| < 2 then 2 else |Dec(d)|)
      && |p[1]| == (if |Dec(m)| < 2 then 2 else |Dec(m)|)
      && |p[2]| == (if |Dec(y)| < 4 then 4 else |Dec(y)|)
  {
    match Partes(texto)
    case None => texto
    case Some((d, m, y)) =>
      var r := FormatInt(d, 2) + "/" + FormatInt(m, 2) + "/" + FormatInt(y, 4);
      FormatoReleido(d, m, y, r);
      r
  }

  lemma FormatoReleido(d: nat, m: nat, y: nat, r: string)
    requires r == FormatInt(d, 2) + "/" + FormatInt(m, 2) + "/" + FormatInt(y, 4)
    ensures Partes(r) == Some((d as int, m as int, y as int))
    ensures var p := Split(r, '/');
      && p == [FormatInt(d, 2), FormatInt(m, 2), FormatInt(y, 4)]
      && AllDecimal(p[0]) && AllDecimal(p[1]) && AllDecimal(p[2])
  {
    var a, b, c := FormatInt(d, 2), FormatInt(m, 2), FormatInt(y, 4);
    FormatIntRoundTrip(d, 2);
    FormatIntRoundTrip(m, 2);
    FormatIntRoundTrip(y, 4);
    DecimalFree(a);
    DecimalFree(b);
    DecimalFree(c);
    Split3(a, b, c, '/');
    assert '-' !in r;
    ReplaceAbsent(r, '-', '/');
    assert Split(Replace(r, '-', '/'), '/') == [a, b, c];
  }

  lemma DecimalFree(s: string)
    requires AllDecimal(s)
    ensures '/' !in s && '-' !in s
  {
  }

  /** Formatting an already formatted date changes nothing. */
  lemma FormatearFechaIdempotente(texto: string)
    ensures FormatearFecha(FormatearFecha(texto)) == FormatearFecha(texto)
  {
  }

  /** A dash separates the parts exactly as a slash does: the text with every `-` written as
    * `/` has the same parts, so it formats to the same date. */
  lemma GuionComoBarra(texto: string)
    ensures Partes(Replace(texto, '-', '/')) == Partes(texto)
    ensures Partes(texto).Some? ==> FormatearFecha(Replace(texto, '-', '/')) == FormatearFecha(texto)
  {
    var t := Replace(texto, '-', '/');
    assert Replace(t, '-', '/') == t;
  }

  // ---------------------------------------------------------------------------------------
  // Due today, classified overdue
  // ---------------------------------------------------------------------------------------

  /** The day count the HOY case of `estado_por_dias` (fechas.py:22-23) expects: whole days
    * from today's date to the due date, as `(due - date.today()).days` gives it, and 0 when the
    * text is not a date. */
  function DiasFaltantesCorregido(texto: string, hoy: Date): (r: int)
    requires Valid(hoy)
    ensures FechaDe(texto).None? ==> r == 0
    ensures FechaDe(texto).Some? ==>
      && (r < 0 <==> Before(FechaDe(texto).value, hoy))
      && (r == 0 <==> FechaDe(texto).value == hoy)
  {
    match FechaDe(texto)
    case None => 0
    case Some(due) =>
      OrdinalOrder(due, hoy);
      Ordinal(due) - Ordinal(hoy)
  }

  /** The classification of the corrected day count: a task due today is HOY all day long,
    * and VENCIDO only once its date has passed. */
  function EstadoCorregido(texto: string, hoy: Date): (r: string)
    requires Valid(hoy)
    ensures r == "HOY" <==> FechaDe(texto).None? || FechaDe(texto).value == hoy
    ensures r == "VENCIDO" <==> FechaDe(texto).Some? && Before(FechaDe(texto).value, hoy)
  {
    EstadoDeDias(DiasFaltantesCorregido(texto, hoy))
  }

  /** The corrected classification is the one `estado_por_dias` gives at midnight exactly. */
  lemma CorregidoEsMedianoche(texto: string, hoy: Date)
    requires Valid(hoy)
    ensures EstadoCorregido(texto, hoy) == EstadoPorDias(texto, Ahora(hoy, 0))
  {
    if FechaDe(texto).Some? {
      OrdinalOrder(FechaDe(texto).value, hoy);
    }
  }

  /** As written, a task due today is VENCIDO at any moment after midnight, where the corrected
    * count calls it HOY. */
  lemma HoyCuentaComoVencido(texto: string, ahora: Ahora)
    requires AhoraValido(ahora)
    requires FechaDe(texto) == Some(ahora.fecha) && ahora.micros > 0
    ensures DiasFaltantes(texto, ahora) == -1 && EstadoPorDias(texto, ahora) == "VENCIDO"
    ensures EstadoCorregido(texto, ahora.fecha) == "HOY"
  {
  }

  /** The three decimal parts of `a/b/c` are read as their decimal values. */
  lemma PartesDecimales(a: string, b: string, c: string)
    requires |a| > 0 && |b| > 0 && |c| > 0
    requires AllDecimal(a) && AllDecimal(b) && AllDecimal(c)
    ensures Partes(a + "/" + b + "/" + c) == Some((DecValue(a) as int, DecValue(b) as int, DecValue(c) as int))
  {
    var t := a + "/" + b + "/" + c;
    DecimalFree(a);
    DecimalFree(b);
    DecimalFree(c);
    Split3(a, b, c, '/');
    assert '-' !in t;
    ReplaceAbsent(t, '-', '/');
    ParseDecimal(a);
    ParseDecimal(b);
    ParseDecimal(c);
  }

  /** A text written as `d/m/y` in plain decimals has the parts `(d, m, y)`. */
  lemma PartesDeFecha(t: string, d: nat, m: nat, y: nat)
    requires t == Dec(d) + "/" + Dec(m) + "/" + Dec(y)
    ensures Partes(t) == Some((d as int, m as int, y as int))
  {
    PartesDecimales(Dec(d), Dec(m), Dec(y));
  }

  /** On 17/10/2026 at noon, the task due "17/10/2026" shows as VENCIDO. */
  lemma VencidoAlMediodia()
    ensures EstadoPorDias("17/10/2026", Ahora(Date(2026, 10, 17), MicrosPorDia / 2)) == "VENCIDO"
    ensures EstadoCorregido("17/10/2026", Date(2026, 10, 17)) == "HOY"
  {
    PartesDeFecha("17/10/2026", 17, 10, 2026);
    assert FechaDe("17/10/2026") == Some(Date(2026, 10, 17));
  }

  /** "7/9/2025" becomes "07/09/2025". */
  lemma FormatearFechaRellena()
    ensures FormatearFecha("7/9/2025") == "07/09/2025"
  {
    PartesSieteNueve();
    FormatearDe("7/9/2025", 7, 9, 2025);
    Relleno7y9();
    AnioCuatroCifras();
    Rellenado();
  }

  /** A text with parts `(d, m, y)` is formatted from those parts. */
  lemma FormatearDe(t: string, d: nat, m: nat, y: nat)
    requires Partes(t) == Some((d as int, m as int, y as int))
    ensures FormatearFecha(t) == FormatInt(d, 2) + "/" + FormatInt(m, 2) + "/" + FormatInt(y, 4)
  {
  }

  lemma PartesSieteNueve()
    ensures Partes("7/9/2025") == Some((7, 9, 2025))
  {
    PartesDeFecha("7/9/2025", 7, 9, 2025);
  }

  lemma Rellenado()
    ensures "07" + "/" + "09" + "/" + "2025" == "07/09/2025"
  {
  }

  /** A single digit gets one leading zero from `:02d`. */
  lemma Relleno7y9()
    ensures FormatInt(7, 2) == "07" && FormatInt(9, 2) == "09"
  {
    assert Dec(7) == "7" && Dec(9) == "9";
    assert Zeros(1) == "0";
  }

  /** 2025 already has four digits: `:04d` adds no zero. */
  lemma AnioCuatroCifras()
    ensures FormatInt(2025, 4) == "2025"
  {
    assert Dec(20) == "20";
    assert Dec(2025) == "2025";
  }

  /** "7-9-2025" becomes "07/09/2025" as well. */
  lemma FormatearFechaConGuiones()
    ensures FormatearFecha("7-9-2025") == "07/09/2025"
  {
    GuionesABarras();
    PartesSieteNueve();
    FormatearFechaRellena();
    MismoFormato("7-9-2025", "7/9/2025");
  }

  lemma MismoFormato(t: string, u: string)
    requires Replace(t, '-', '/') == u && Partes(u).Some?
    ensures FormatearFecha(t) == FormatearFecha(u)
  {
    GuionComoBarra(t);
  }

  lemma GuionesABarras()
    ensures Replace("7-9-2025", '-', '/') == "7/9/2025"
  {
  }

  /** "99/99/2025" keeps its shape although no such date exists. */
  lemma FormatearFechaSinCalendario()
    ensures FormatearFecha("99/99/2025") == "99/99/2025" && FechaDe("99/99/2025").None?
  {
    SinCalendario();
    FormatearDe("99/99/2025", 99, 99, 2025);
    Relleno99();
    AnioCuatroCifras();
    Rellenado99();
  }

  /** Two digits get no zero from `:02d`. */
  lemma Relleno99()
    ensures FormatInt(99, 2) == "99"
  {
    assert Dec(99) == "99";
  }

  lemma Rellenado99()
    ensures "99" + "/" + "99" + "/" + "2025" == "99/99/2025"
  {
  }

  lemma SinCalendario()
    ensures Partes("99/99/2025") == Some((99, 99, 2025)) && FechaDe("99/99/2025").None?
  {
    PartesNoventaYNueve();
  }

  lemma PartesNoventaYNueve()
    ensures Partes("99/99/2025") == Some((99, 99, 2025))
  {
    PartesDeFecha("99/99/2025", 99, 99, 2025);
  }

  /** "not-a-date" comes back unchanged. */
  lemma FormatearFechaDevuelveTexto()
    ensures FormatearFecha("not-a-date") == "not-a-date"
  {
    NotADate();
    NoEsEntero("not");
    PrimeraParteNoEntera("not-a-date", "not", "a", "date");
  }

  lemma NotADate()
    ensures Replace("not-a-date", '-', '/') == "not" + "/" + "a" + "/" + "date"
    ensures '/' !in "not" && '/' !in "a" && '/' !in "date"
  {
  }

  /** Three parts whose first is not an integer give no date parts. */
  lemma PrimeraParteNoEntera(t: string, a: string, b: string, c: string)
    requires Replace(t, '-', '/') == a + "/" + b + "/" + c
    requires '/' !in a && '/' !in b && '/' !in c && ParseInt(a).None?
    ensures Partes(t).None?
  {
    Split3(a, b, c, '/');
  }

  lemma NoEsEntero(s: string)
    requires |s| > 0 && !IsSpace(s[0]) && !IsSpace(s[|s| - 1])
    requires !IsDecimal(s[0]) && s[0] != '+' && s[0] != '-'
    ensures ParseInt(s) == None
  {
    StripNoSpaceEnds(s);
    assert !RunCharOk(s, 0);
  }
}
