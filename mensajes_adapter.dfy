/** `src/mensajes_adapter.py`: the message catalog the services answer with. The package it
  * first tries to import provides neither `t` nor `MENSAJES`, so the import always fails and
  * the module's own catalog and lookup are the ones in force; they are what is modelled here.
  * Only the call without keyword arguments is modelled. */
module MensajesAdapter {

  /** The catalog's keys, in the order the dictionary literal lists them. */
  const Claves: seq<string> := [
    "auth_ok", "auth_fail", "user_exists", "invalid_input",
    "task_added", "task_updated", "task_marked_done", "task_not_found", "task_list_header",
    "unexpected_error", "db_error", "due_date_invalid", "password_weak"
  ]

  /** `_CATALOGO`. */
  const Catalogo: map<string, string> := map[
    "auth_ok" := "Inicio de sesión correcto",
    "auth_fail" := "Usuario o contraseña no válidos",
    "user_exists" := "El usuario ya existe",
    "invalid_input" := "Datos incompletos o inválidos",
    "task_added" := "Tarea agregada",
    "task_updated" := "Tarea actualizada",
    "task_marked_done" := "Tarea marcada como hecha",
    "task_not_found" := "No se encontró la tarea",
    "task_list_header" := "Tus tareas:",
    "unexpected_error" := "Ocurrió un error inesperado",
    "db_error" := "Error de base de datos",
    "due_date_invalid" := "La fecha no es válida (usa DD/MM)",
    "password_weak" := "La contraseña es débil"
  ]

  /** `_T_EXTERN(clave)`: the template, or the key itself when the catalog lacks it. */
  function TExtern(clave: string): (r: string)
    ensures clave in Catalogo ==> r == Catalogo[clave]
    ensures clave !in Catalogo ==> r == clave
  {
    if clave in Catalogo then Catalogo[clave] else clave
  }

  /** `t(clave)`: `_T_EXTERN` does not raise without keyword arguments, so its answer is the
    * answer, and a key the catalog lacks comes back as itself. */
  function T(clave: string): (r: string)
    ensures r == clave <==> clave !in Catalogo
    ensures clave in Catalogo ==> r == Catalogo[clave]
  {
    TemplatesAreNotKeys(clave);
    TExtern(clave)
  }

  lemma TemplatesAreNotKeys(clave: string)
    ensures clave in Catalogo ==> Catalogo[clave] != clave
  {
  }

  /** `keys()`: every key of the catalog, each once. */
  function Keys(): (r: seq<string>)
    ensures forall k :: k in r <==> k in Catalogo
    ensures forall i, j :: 0 <= i < j < |r| ==> r[i] != r[j]
    ensures |r| == |Catalogo|
  {
    ClavesDelCatalogo();
    Claves
  }

  lemma ClavesDelCatalogo()
    ensures forall k :: k in Claves <==> k in Catalogo
    ensures forall i, j :: 0 <= i < j < |Claves| ==> Claves[i] != Claves[j]
    ensures |Claves| == |Catalogo|
  {
    assert Catalogo.Keys == set k | k in Claves;
    DistinctCard(Claves);
  }

  /** A sequence without repetitions has as many elements as the set of its elements. */
  lemma {:induction false} DistinctCard(s: seq<string>)
    requires forall i, j :: 0 <= i < j < |s| ==> s[i] != s[j]
    ensures |set k | k in s| == |s|
  {
    if s != [] {
      var rest := s[1..];
      DistinctCard(rest);
      assert (set k | k in s) == {s[0]} + (set k | k in rest);
      assert s[0] !in rest by {
        forall i | 0 <= i < |rest| ensures rest[i] != s[0] {
          assert rest[i] == s[i + 1];
        }
      }
    }
  }

  /** `has_key(clave)`. */
  function HasKey(clave: string): (r: bool)
    ensures r <==> clave in Keys()
  {
    clave in Catalogo
  }

  /** The list comprehension of `ensure`, over a catalog `cat`: the required keys `cat` lacks,
    * in order. */
  function Faltantes(cat: map<string, string>, required: seq<string>): (r: seq<string>)
    ensures |r| <= |required|
    ensures forall i :: 0 <= i < |r| ==> r[i] !in cat
  {
    if required == [] then []
    else
      var rest := Faltantes(cat, required[1..]);
      if required[0] in cat then rest else [required[0]] + rest
  }

  /** The missing list holds exactly the required keys the catalog lacks. */
  lemma {:induction false} FaltantesMiembros(cat: map<string, string>, required: seq<string>)
    ensures forall k :: k in Faltantes(cat, required) <==> k in required && k !in cat
  {
    if required != [] {
      FaltantesMiembros(cat, required[1..]);
      assert forall k :: k in required <==> k == required[0] || k in required[1..];
    }
  }

  /** `ensure(required)`: the missing keys, and ok exactly when there are none. */
  function Ensure(required: seq<string>): (r: (bool, seq<string>))
    ensures r.1 == Faltantes(Catalogo, required)
    ensures r.0 <==> forall k :: k in required ==> HasKey(k)
  {
    var f := Faltantes(Catalogo, required);
    FaltantesMiembros(Catalogo, required);
    assert f != [] ==> f[0] in f;
    (|f| == 0, f)
  }

  /** The missing list keeps the order of the request: the keys missing from a concatenation
    * are those missing from the first part followed by those missing from the second. */
  lemma {:induction false} FaltantesConcat(cat: map<string, string>, a: seq<string>, b: seq<string>)
    ensures Faltantes(cat, a + b) == Faltantes(cat, a) + Faltantes(cat, b)
  {
    if a == [] {
      assert a + b == b;
    } else {
      assert (a + b)[0] == a[0] && (a + b)[1..] == a[1..] + b;
      FaltantesConcat(cat, a[1..], b);
      if a[0] !in cat {
        calc {
          Faltantes(cat, a + b);
          [a[0]] + Faltantes(cat, a[1..] + b);
          [a[0]] + (Faltantes(cat, a[1..]) + Faltantes(cat, b));
          [a[0]] + Faltantes(cat, a[1..]) + Faltantes(cat, b);
        }
      }
    }
  }

  lemma FaltaUna(cat: map<string, string>, k: string)
    ensures Faltantes(cat, [k]) == if k in cat then [] else [k]
  {
    assert [k][1..] == [];
  }

  /** Requiring only catalog keys succeeds with nothing missing. */
  lemma EnsureKeys()
    ensures Ensure(Keys()) == (true, [])
  {
    var r := Faltantes(Catalogo, Keys());
    FaltantesMiembros(Catalogo, Keys());
    if r != [] {
      assert r[0] in r;
    }
  }

  /** A known key answers with its template, an unknown one with itself. */
  lemma Respuestas()
    ensures T("auth_ok") == "Inicio de sesión correcto"
    ensures T("hola") == "hola"
  {
  }

  /** Of "auth_ok", "hola", "db_error" and "adios", the catalog lacks the second and the
    * fourth, reported in that order. */
  lemma EnsureEjemplo()
    ensures Ensure(["auth_ok", "hola", "db_error", "adios"]) == (false, ["hola", "adios"])
  {
    assert "auth_ok" in Catalogo && "hola" !in Catalogo && "db_error" in Catalogo && "adios" !in Catalogo;
    var req: seq<string> := ["auth_ok", "hola", "db_error", "adios"];
    assert req == ["auth_ok"] + ["hola"] + ["db_error"] + ["adios"];
    FaltantesConcat(Catalogo, ["auth_ok"] + ["hola"] + ["db_error"], ["adios"]);
    FaltantesConcat(Catalogo, ["auth_ok"] + ["hola"], ["db_error"]);
    FaltantesConcat(Catalogo, ["auth_ok"], ["hola"]);
    FaltaUna(Catalogo, "auth_ok");
    FaltaUna(Catalogo, "hola");
    FaltaUna(Catalogo, "db_error");
    FaltaUna(Catalogo, "adios");
    var f := Faltantes(Catalogo, req);
    assert f == ["hola"] + ["adios"];
    Pares("hola", "adios");
  }

  lemma Pares(a: string, b: string)
    ensures [a] + [b] == [a, b]
  {
  }
}
