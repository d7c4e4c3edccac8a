/** The form predicates of `validaciones.py`: blank text, the shape of an e-mail address and
  * the strength of a password. Each argument is `None` or a string. */
module Validaciones {
  import opened Wrappers
  import opened Texto

  /** `es_texto_vacio`: `None`, or text that is whitespace only. */
  function EsTextoVacio(texto: Option<string>): (r: bool)
    ensures texto.None? ==> r
    ensures texto.Some? ==> (r <==> forall i :: 0 <= i < |texto.value| ==> IsSpace(texto.value[i]))
  {
    if texto.None? then true
    else
      StripEmptyIffAllSpace(texto.value);
      Strip(texto.value) == ""
  }

  /** `es_correo_valido`: there is an `@`, the text before the first `@` is not empty and the
    * text after it contains a dot. */
  function EsCorreoValido(correo: Option<string>): (r: bool)
    ensures correo.None? ==> !r
    ensures correo.Some? && '@' !in correo.value ==> !r
    ensures correo.Some? ==>
      (r <==> exists i :: 0 < i < |correo.value| && correo.value[i] == '@'
                          && '@' !in correo.value[..i] && '.' in correo.value[i + 1..])
  {
    if correo.None? then false
    else
      var s := correo.value;
      if '@' !in s then false
      else
        var p := Partition(s, '@');
        var i := |p.0|;
        assert s[i] == '@' && s[..i] == p.0 && s[i + 1..] == p.1 by {
          assert s == p.0 + ['@'] + p.1;
        }
        FirstAt(s, '@', i);
        p.0 != [] && '.' in p.1
  }

  /** The first occurrence of `c` is the only index before which `c` does not occur. */
  lemma FirstAt(s: string, c: char, i: int)
    requires 0 <= i < |s| && s[i] == c && c !in s[..i]
    ensures forall j :: 0 <= j < |s| && s[j] == c && c !in s[..j] ==> j == i
  {
    forall j | 0 <= j < |s| && s[j] == c && c !in s[..j]
      ensures j == i
    {
      if j < i {
        assert false;
      }
      if i < j {
        assert false;
      }
    }
  }

  /** `any(c.isalpha() for c in s)`. */
  function TieneLetra(s: string): (r: bool)
    ensures r <==> exists i :: 0 <= i < |s| && IsAlpha(s[i])
  {
    if s == [] then false
    else
      assert forall i :: 0 < i < |s| ==> s[i] == s[1..][i - 1];
      IsAlpha(s[0]) || TieneLetra(s[1..])
  }

  /** `any(c.isdigit() for c in s)`. */
  function TieneDigito(s: string): (r: bool)
    ensures r <==> exists i :: 0 <= i < |s| && IsDigit(s[i])
  {
    if s == [] then false
    else
      assert forall i :: 0 < i < |s| ==> s[i] == s[1..][i - 1];
      IsDigit(s[0]) || TieneDigito(s[1..])
  }

  /** `es_contrasena_valida`: at least eight characters, among them a letter and a digit. */
  function EsContrasenaValida(contrasena: Option<string>): (r: bool)
    ensures contrasena.None? ==> !r
    ensures contrasena.Some? && |contrasena.value| < 8 ==> !r
    ensures r <==> contrasena.Some? && |contrasena.value| >= 8
                   && (exists i :: 0 <= i < |contrasena.value| && IsAlpha(contrasena.value[i]))
                   && (exists j :: 0 <= j < |contrasena.value| && IsDigit(contrasena.value[j]))
  {
    if contrasena.None? then false
    else if |contrasena.value| < 8 then false
    else TieneLetra(contrasena.value) && TieneDigito(contrasena.value)
  }

  // ---------------------------------------------------------------------------------------
  // Examples
  // ---------------------------------------------------------------------------------------

  /** "abc12345" is strong enough; "abcdefgh" has no digit and "1234567" is too short. */
  lemma EjemplosContrasena()
    ensures EsContrasenaValida(Some("abc12345"))
    ensures !EsContrasenaValida(Some("abcdefgh"))
    ensures !EsContrasenaValida(Some("1234567"))
  {
    SoloLetras();
    LetraYDigito("abc12345", 0, 3);
    SinDigito("abcdefgh");
  }

  lemma SoloLetras()
    ensures "abc12345"[0] == 'a' && "abc12345"[3] == '1' && |"abc12345"| == 8
    ensures forall j :: 0 <= j < |"abcdefgh"| ==> !IsDigit("abcdefgh"[j])
  {
  }

  /** A text without digits is never a valid password. */
  lemma SinDigito(s: string)
    requires forall j :: 0 <= j < |s| ==> !IsDigit(s[j])
    ensures !EsContrasenaValida(Some(s))
  {
  }

  /** Eight characters or more, with a letter at `i` and a digit at `j`, make a valid password. */
  lemma LetraYDigito(s: string, i: int, j: int)
    requires |s| >= 8 && 0 <= i < |s| && 0 <= j < |s| && IsAlpha(s[i]) && IsDigit(s[j])
    ensures EsContrasenaValida(Some(s))
  {
  }

  /** Only the text around the first `@` matters: an address is a non-empty text without `@`,
    * an `@`, and a text with a dot, whatever else that last text holds. */
  lemma CorreoPorPartes(local: string, dominio: string)
    requires '@' !in local
    ensures EsCorreoValido(Some(local + "@" + dominio)) <==> local != [] && '.' in dominio
  {
    var s := local + "@" + dominio;
    var i := |local|;
    assert s[i] == '@' && s[..i] == local && s[i + 1..] == dominio;
    FirstAt(s, '@', i);
  }

  /** "a@b.co" is an address; "@b.co" has nothing before the `@`, "a@bco" no dot after it,
    * and "a.b" no `@` at all. */
  lemma EjemplosCorreo()
    ensures EsCorreoValido(Some("a@b.co"))
    ensures !EsCorreoValido(Some("@b.co"))
    ensures !EsCorreoValido(Some("a@bco"))
    ensures !EsCorreoValido(Some("a.b"))
  {
    PartesDeCorreos();
    CorreoPorPartes("a", "b.co");
    CorreoPorPartes("", "b.co");
    CorreoPorPartes("a", "bco");
  }

  lemma PartesDeCorreos()
    ensures "a@b.co" == "a" + "@" + "b.co" && "@b.co" == "" + "@" + "b.co" && "a@bco" == "a" + "@" + "bco"
    ensures '@' !in "a" && '@' !in "" && '.' in "b.co" && '.' !in "bco" && '@' !in "a.b"
  {
  }

  /** Only the first `@` matters: "a@b@c.d" is accepted although it holds two. */
  lemma DosArrobas()
    ensures EsCorreoValido(Some("a@b@c.d"))
  {
    assert "a@b@c.d" == "a" + "@" + "b@c.d" && '.' in "b@c.d";
    CorreoPorPartes("a", "b@c.d");
  }

  /** Whitespace-only text is blank, text with a visible character is not. */
  lemma EjemplosTextoVacio()
    ensures EsTextoVacio(None) && EsTextoVacio(Some(" \t\n")) && EsTextoVacio(Some(""))
    ensures !EsTextoVacio(Some(" a "))
  {
    assert !IsSpace(" a "[1]);
  }
}
