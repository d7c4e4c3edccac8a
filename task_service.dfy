/** `src/task_service.py`: adding a task for its owner and listing an owner's tasks.
  *
  * The `tasks` table is the sequence `TasksTable.rows` in insertion order. The store gives a new
  * row the id one above the last row's (SQLite's rowid rule while ids only grow), and whether
  * the insert or the query raises is the parameter `falla`. */
module TaskService {
  import opened Wrappers
  import opened Texto

  /** A row of `tasks`. */
  datatype Tarea = Tarea(id: int, usuario: string, texto: string, fecha: string, done: int)

  /** A row of the listing: `SELECT id, texto, fecha, done`. */
  datatype Fila = Fila(id: int, texto: string, fecha: string, done: int)

  function FilaDe(t: Tarea): Fila {
    Fila(t.id, t.texto, t.fecha, t.done)
  }

  /** Ids grow strictly along the table. */
  predicate IdsCrecientes(rows: seq<Tarea>) {
    forall i, j :: 0 <= i < j < |rows| ==> rows[i].id < rows[j].id
  }

  /** The id the store gives the next row. */
  function NuevoId(rows: seq<Tarea>): (r: int)
    ensures IdsCrecientes(rows) ==> forall i :: 0 <= i < |rows| ==> rows[i].id < r
  {
    if rows == [] then 1 else rows[|rows| - 1].id + 1
  }

  /** Listing row `f` comes from a row of owner `correo`. */
  ghost predicate DelDueno(rows: seq<Tarea>, correo: string, f: Fila) {
    exists i :: 0 <= i < |rows| && rows[i].usuario == correo && FilaDe(rows[i]) == f
  }

  lemma DelDuenoCabeza(rows: seq<Tarea>, correo: string, f: Fila)
    requires rows != []
    ensures DelDueno(rows, correo, f)
            <==> DelDueno(rows[1..], correo, f) || (rows[0].usuario == correo && FilaDe(rows[0]) == f)
  {
    if DelDueno(rows, correo, f) {
      var i :| 0 <= i < |rows| && rows[i].usuario == correo && FilaDe(rows[i]) == f;
      if i > 0 {
        assert rows[1..][i - 1] == rows[i];
      }
    }
    if DelDueno(rows[1..], correo, f) {
      var i :| 0 <= i < |rows[1..]| && rows[1..][i].usuario == correo && FilaDe(rows[1..][i]) == f;
      assert rows[i + 1] == rows[1..][i];
    }
  }

  /** The rows of owner `correo`, newest (highest id) first: `WHERE usuario=? ORDER BY id DESC`
    * over a table whose ids grow along it. */
  function Listado(rows: seq<Tarea>, correo: string): (r: seq<Fila>)
    ensures |r| <= |rows|
    ensures forall f :: f in r <==> DelDueno(rows, correo, f)
  {
    if rows == [] then []
    else
      var rest := Listado(rows[1..], correo);
      var r := rest + (if rows[0].usuario == correo then [FilaDe(rows[0])] else []);
      assert forall f :: f in r <==> DelDueno(rows, correo, f) by {
        forall f
          ensures f in r <==> DelDueno(rows, correo, f)
        {
          DelDuenoCabeza(rows, correo, f);
        }
      }
      r
  }

  predicate IdsDecrecientes(r: seq<Fila>) {
    forall i, j :: 0 <= i < j < |r| ==> r[i].id > r[j].id
  }

  /** With growing ids, the listing is ordered by strictly decreasing id. */
  lemma {:induction false} ListadoDescendente(rows: seq<Tarea>, correo: string)
    requires IdsCrecientes(rows)
    ensures IdsDecrecientes(Listado(rows, correo))
  {
    if rows != [] {
      var rest := Listado(rows[1..], correo);
      ListadoDescendente(rows[1..], correo);
      forall f | f in rest
        ensures f.id > rows[0].id
      {
        var i :| 0 <= i < |rows[1..]| && rows[1..][i].usuario == correo && FilaDe(rows[1..][i]) == f;
        assert rows[1..][i] == rows[i + 1];
      }
      var r := Listado(rows, correo);
      forall i, j | 0 <= i < j < |r|
        ensures r[i].id > r[j].id
      {
        assert r[i] == rest[i] && rest[i] in rest;
        if j < |rest| {
          assert r[j] == rest[j];
          assert rest[i].id > rest[j].id;
        } else {
          assert r[j] == FilaDe(rows[0]);
          assert rest[i].id > rows[0].id;
        }
      }
    }
  }

  /** A new row appears at the head of its owner's listing, before everything listed already,
    * and leaves the other owners' listings as they were. */
  lemma {:induction false} ListadoAgregar(rows: seq<Tarea>, t: Tarea, correo: string)
    ensures Listado(rows + [t], correo)
            == (if t.usuario == correo then [FilaDe(t)] else []) + Listado(rows, correo)
  {
    if rows == [] {
      assert [t][1..] == [];
    } else {
      assert (rows + [t])[1..] == rows[1..] + [t];
      ListadoAgregar(rows[1..], t, correo);
    }
  }

  /** The tasks table. */
  class TasksTable {
    var rows: seq<Tarea>

    ghost predicate Valid()
      reads this
    {
      IdsCrecientes(rows)
    }

    constructor ()
      ensures rows == [] && Valid()
    {
      rows := [];
    }

    /** `agregar_tarea(correo, texto, fecha_ddmm)`: the owner's address is trimmed and
      * lower-cased, the text and date trimmed; when one of them is then empty nothing is stored.
      * Otherwise one row is appended, not done, unless the insert raises. */
    method AgregarTarea(correo: string, texto: string, fecha: string, falla: bool) returns (ok: bool)
      modifies this
      ensures ok <==> StripLower(correo) != [] && Strip(texto) != [] && Strip(fecha) != [] && !falla
      ensures ok ==> rows == old(rows) + [Tarea(NuevoId(old(rows)), StripLower(correo), Strip(texto), Strip(fecha), 0)]
      ensures !ok ==> rows == old(rows)
      ensures old(Valid()) ==> Valid()
    {
      var c, tx, f := StripLower(correo), Strip(texto), Strip(fecha);
      if c == [] || tx == [] || f == [] {
        return false;
      }
      if falla {
        return false;
      }
      rows := rows + [Tarea(NuevoId(rows), c, tx, f, 0)];
      ok := true;
    }

    /** `listar_tareas(correo)`: the normalised owner's rows, newest first. There is no `try`:
      * when the query raises (`falla`), the exception reaches the caller, which is `None` here. */
    method ListarTareas(correo: string, falla: bool) returns (r: Option<seq<Fila>>)
      ensures r.None? <==> falla
      ensures r.Some? ==> r.value == Listado(rows, StripLower(correo))
      ensures r.Some? ==> forall f :: f in r.value <==> DelDueno(rows, StripLower(correo), f)
      ensures r.Some? && Valid() ==> IdsDecrecientes(r.value)
    {
      if falla {
        return None;
      }
      var filas := Listado(rows, StripLower(correo));
      if Valid() {
        ListadoDescendente(rows, StripLower(correo));
      }
      r := Some(filas);
    }
  }

  /** Adding a task and listing its owner's tasks shows it first, with `done` 0, followed by the
    * tasks listed before. */
  lemma AgregarYListar(rows: seq<Tarea>, correo: string, texto: string, fecha: string, otro: string)
    requires StripLower(otro) == StripLower(correo)
    ensures var t := Tarea(NuevoId(rows), StripLower(correo), Strip(texto), Strip(fecha), 0);
            Listado(rows + [t], StripLower(otro))
            == [Fila(NuevoId(rows), Strip(texto), Strip(fecha), 0)] + Listado(rows, StripLower(otro))
  {
    var t := Tarea(NuevoId(rows), StripLower(correo), Strip(texto), Strip(fecha), 0);
    ListadoAgregar(rows, t, StripLower(otro));
  }
}
