/** `datetime.strptime(text, fmt).date()` for the four formats the task board tries. CPython
  * turns each directive into a regular expression (`%d` is `3[01]|[12]\d|0[1-9]|[1-9]| [1-9]`,
  * `%m` is `1[0-2]|0[1-9]|[1-9]`, `%Y` is four digits, `%y` two), requires the match to cover
  * the whole text, and then builds the date, raising `ValueError` for a day the month lacks.
  * None of the field languages contains the separator, so a match is exactly a split of the text
  * at the separator into three fields, each in its language. */
module LecturaFecha {
  import opened Wrappers
  import opened Texto
  import opened Calendario

  predicate NonZero(c: char) {
    '1' <= c <= '9'
  }

  /** The text `%d` matches. */
  predicate CampoDia(s: string): (r: bool)
    ensures r ==> 1 <= |s| <= 2
    ensures r ==> var t := if s[0] == ' ' then s[1..] else s;
                  AllDecimal(t) && 1 <= DecValue(t) <= 31
  {
    CifrasCortas(s);
    CifraTrasBlanco(s);
    || (|s| == 2 && s[0] == '3' && (s[1] == '0' || s[1] == '1'))
    || (|s| == 2 && (s[0] == '1' || s[0] == '2') && IsDecimal(s[1]))
    || (|s| == 2 && s[0] == '0' && NonZero(s[1]))
    || (|s| == 1 && NonZero(s[0]))
    || (|s| == 2 && s[0] == ' ' && NonZero(s[1]))
  }

  /** The text `%m` matches. */
  predicate CampoMes(s: string): (r: bool)
    ensures r ==> 1 <= |s| <= 2 && AllDecimal(s) && 1 <= DecValue(s) <= 12
  {
    CifrasCortas(s);
    || (|s| == 2 && s[0] == '1' && '0' <= s[1] <= '2')
    || (|s| == 2 && s[0] == '0' && NonZero(s[1]))
    || (|s| == 1 && NonZero(s[0]))
  }

  /** The text `%Y` (`n == 4`) or `%y` (`n == 2`) matches. */
  predicate CampoAnio(s: string, n: nat): (r: bool)
    ensures r ==> AllDecimal(s) && DecValue(s) < Pot10(n)
  {
    AcotadoSiDecimal(s);
    |s| == n && AllDecimal(s)
  }

  lemma CifraTrasBlanco(s: string)
    ensures |s| == 2 && AllDecimal(s[1..]) ==> DecValue(s[1..]) == DigitValue(s[1])
  {
    if |s| == 2 && AllDecimal(s[1..]) {
      CifrasCortas(s[1..]);
    }
  }

  lemma AcotadoSiDecimal(s: string)
    ensures AllDecimal(s) ==> DecValue(s) < Pot10(|s|)
  {
    if AllDecimal(s) {
      DecValueCota(s);
    }
  }

  /** `int(field)` of a matched field; a day may carry one leading space. */
  function Valor(s: string): nat
    requires CampoDia(s) || CampoMes(s) || CampoAnio(s, 4) || CampoAnio(s, 2)
  {
    if s[0] == ' ' then DecValue(s[1..]) else DecValue(s)
  }

  /** `%y`: 69 to 99 are 1969 to 1999, 0 to 68 are 2000 to 2068. */
  function Siglo(y: int): (r: int)
    ensures 0 <= y <= 99 ==> 1969 <= r <= 2068 && r % 100 == y
  {
    if y <= 68 then 2000 + y else 1900 + y
  }

  /** The formats `%d/%m/%Y`, `%Y-%m-%d`, `%d-%m-%Y` and `%d/%m/%y`, by field order and
    * separator. */
  datatype Formato = DiaMesAnio(sep: char) | AnioMesDia(sep: char) | DiaMesAnioCorto(sep: char)

  /** The formats `_parse_due_date` tries, in its order. */
  const Formatos: seq<Formato> := [DiaMesAnio('/'), AnioMesDia('-'), DiaMesAnio('-'), DiaMesAnioCorto('/')]

  /** `datetime.strptime(texto, f).date()`, with `None` for the `ValueError`. */
  function Strptime(texto: string, f: Formato): (r: Option<Date>)
    ensures r.Some? ==> Valid(r.value)
    ensures r.Some? ==> |Split(texto, f.sep)| == 3
  {
    var p := Split(texto, f.sep);
    if |p| != 3 then None
    else
      match f
      case DiaMesAnio(_) =>
        if CampoDia(p[0]) && CampoMes(p[1]) && CampoAnio(p[2], 4)
        then MakeDate(Valor(p[2]), Valor(p[1]), Valor(p[0])) else None
      case AnioMesDia(_) =>
        if CampoAnio(p[0], 4) && CampoMes(p[1]) && CampoDia(p[2])
        then MakeDate(Valor(p[0]), Valor(p[1]), Valor(p[2])) else None
      case DiaMesAnioCorto(_) =>
        if CampoDia(p[0]) && CampoMes(p[1]) && CampoAnio(p[2], 2)
        then MakeDate(Siglo(Valor(p[2])), Valor(p[1]), Valor(p[0])) else None
  }

  /** Three fields in the languages of `%d`, `%m` and `%Y`, joined by the separator, are read as
    * that day, month and year whenever that date exists. */
  lemma DiaMesAnioDeCampos(d: string, m: string, y: string, sep: char)
    requires CampoDia(d) && CampoMes(m) && CampoAnio(y, 4) && sep != ' ' && !IsDecimal(sep)
    ensures Strptime(d + [sep] + m + [sep] + y, DiaMesAnio(sep)) == MakeDate(Valor(y), Valor(m), Valor(d))
  {
    CaracteresDeCampo(d, 0);
    CaracteresDeCampo(m, 0);
    CaracteresDeCampo(y, 4);
    Split3(d, m, y, sep);
  }

  /** A text a format accepts is its three fields joined by the separator. */
  lemma Campos(texto: string, f: Formato)
    requires Strptime(texto, f).Some?
    ensures var p := Split(texto, f.sep);
            && texto == p[0] + [f.sep] + p[1] + [f.sep] + p[2]
            && |p[0]| + |p[1]| + |p[2]| >= 4
            && forall c :: c in p[0] + p[1] + p[2] ==> IsDecimal(c) || c == ' '
  {
    var p := Split(texto, f.sep);
    TresPartes(texto, f.sep);
    CamposDeFormato(p, f);
    assert forall c :: c in p[0] + p[1] + p[2] ==> c in p[0] || c in p[1] || c in p[2];
  }

  /** A text that splits into three parts is those parts joined by the separator. */
  lemma TresPartes(texto: string, sep: char)
    requires |Split(texto, sep)| == 3
    ensures var p := Split(texto, sep); texto == p[0] + [sep] + p[1] + [sep] + p[2]
  {
    var p := Split(texto, sep);
    JoinSplit(texto, sep);
    assert p[1..][1..] == [p[2]];
    assert Join(p[1..], sep) == p[1] + [sep] + p[2];
    assert Join(p, sep) == p[0] + [sep] + (p[1] + [sep] + p[2]);
  }

  /** The fields of an accepted text are digits, with a space at most, and hold four or more
    * characters together. */
  lemma CamposDeFormato(p: seq<string>, f: Formato)
    requires |p| == 3
    requires match f
             case DiaMesAnio(_) => CampoDia(p[0]) && CampoMes(p[1]) && CampoAnio(p[2], 4)
             case AnioMesDia(_) => CampoAnio(p[0], 4) && CampoMes(p[1]) && CampoDia(p[2])
             case DiaMesAnioCorto(_) => CampoDia(p[0]) && CampoMes(p[1]) && CampoAnio(p[2], 2)
    ensures |p[0]| + |p[1]| + |p[2]| >= 4
    ensures forall c :: c in p[0] || c in p[1] || c in p[2] ==> IsDecimal(c) || c == ' '
  {
    match f
    case DiaMesAnio(_) =>
      CaracteresDeCampo(p[0], 0);
      CaracteresDeCampo(p[1], 0);
      CaracteresDeCampo(p[2], 4);
    case AnioMesDia(_) =>
      CaracteresDeCampo(p[0], 4);
      CaracteresDeCampo(p[1], 0);
      CaracteresDeCampo(p[2], 0);
    case DiaMesAnioCorto(_) =>
      CaracteresDeCampo(p[0], 0);
      CaracteresDeCampo(p[1], 0);
      CaracteresDeCampo(p[2], 2);
  }

  lemma CaracteresDeCampo(s: string, n: nat)
    requires CampoDia(s) || CampoMes(s) || CampoAnio(s, n)
    ensures forall c :: c in s ==> IsDecimal(c) || c == ' '
  {
    if !CampoAnio(s, n) {
      assert forall c :: c in s ==> c == s[0] || c == s[|s| - 1];
    }
  }

  /** Every format needs two separators and at least six characters, so a five-character text
    * matches none of them. */
  lemma CincoNoBastan(texto: string, f: Formato)
    requires |texto| <= 5
    ensures Strptime(texto, f).None?
  {
    if Strptime(texto, f).Some? {
      Campos(texto, f);
    }
  }

  /** A text one format accepts holds no other separator than that format's. */
  lemma OtroSeparador(texto: string, f: Formato, sep: char)
    requires Strptime(texto, f).Some? && sep != f.sep && sep != ' ' && !IsDecimal(sep)
    ensures sep !in texto
  {
    Campos(texto, f);
    var p := Split(texto, f.sep);
    assert forall c :: c in texto ==> c in p[0] + p[1] + p[2] || c == f.sep;
  }

  /** At most one of the four formats accepts a given text, so the order in which they are
    * tried never decides the date. */
  lemma FormatosExcluyentes(texto: string, i: int, j: int)
    requires 0 <= i < j < |Formatos|
    ensures Strptime(texto, Formatos[i]).None? || Strptime(texto, Formatos[j]).None?
  {
    var f, g := Formatos[i], Formatos[j];
    if Strptime(texto, f).Some? && Strptime(texto, g).Some? {
      if f.sep != g.sep {
        OtroSeparador(texto, f, g.sep);
        SplitFree(texto, g.sep);
      }
      assert false;
    }
  }
}
