/** `src/registro.py`: the in-memory list of users, registration by appending and search by
  * address. */
module Registro {
  import opened Wrappers

  /** A user record: `{"nombre": ..., "correo": ..., "contraseña": ...}`. */
  datatype Usuario = Usuario(nombre: string, correo: string, contrasena: string)

  /** The first user registered under exactly `correo` (no trimming, no case folding), if any. */
  function PrimeroCon(usuarios: seq<Usuario>, correo: string): (r: Option<Usuario>)
    ensures r.None? <==> forall i :: 0 <= i < |usuarios| ==> usuarios[i].correo != correo
    ensures r.Some? ==> exists i :: 0 <= i < |usuarios| && usuarios[i] == r.value && r.value.correo == correo
                                    && forall j :: 0 <= j < i ==> usuarios[j].correo != correo
  {
    if usuarios == [] then None
    else if usuarios[0].correo == correo then Some(usuarios[0])
    else
      var r := PrimeroCon(usuarios[1..], correo);
      assert forall i :: 1 <= i < |usuarios| ==> usuarios[i] == usuarios[1..][i - 1];
      if r.Some? then SaltaCabeza(usuarios, correo, r.value); r else r
  }

  lemma SaltaCabeza(usuarios: seq<Usuario>, correo: string, u: Usuario)
    requires usuarios != [] && usuarios[0].correo != correo
    requires exists i :: 0 <= i < |usuarios[1..]| && usuarios[1..][i] == u && u.correo == correo
                         && forall j :: 0 <= j < i ==> usuarios[1..][j].correo != correo
    ensures exists i :: 0 <= i < |usuarios| && usuarios[i] == u && u.correo == correo
                        && forall j :: 0 <= j < i ==> usuarios[j].correo != correo
  {
    var i :| 0 <= i < |usuarios[1..]| && usuarios[1..][i] == u && u.correo == correo
             && forall j :: 0 <= j < i ==> usuarios[1..][j].correo != correo;
    assert usuarios[i + 1] == u;
    assert forall j :: 1 <= j < i + 1 ==> usuarios[j] == usuarios[1..][j - 1];
  }

  /** The module-level list `usuarios`. */
  class ListaUsuarios {
    var usuarios: seq<Usuario>

    constructor ()
      ensures usuarios == []
    {
      usuarios := [];
    }

    /** `registrar_usuario(nombre, correo, contraseña)`: one record appended, with no check for
      * an address already present. */
    method RegistrarUsuario(nombre: string, correo: string, contrasena: string)
      modifies this
      ensures usuarios == old(usuarios) + [Usuario(nombre, correo, contrasena)]
    {
      usuarios := usuarios + [Usuario(nombre, correo, contrasena)];
    }

    /** `buscar_usuario(correo)`: the records in order, the first whose address is `correo`. */
    method BuscarUsuario(correo: string) returns (r: Option<Usuario>)
      ensures r == PrimeroCon(usuarios, correo)
    {
      var i := 0;
      while i < |usuarios|
        invariant 0 <= i <= |usuarios|
        invariant PrimeroCon(usuarios[i..], correo) == PrimeroCon(usuarios, correo)
      {
        if usuarios[i].correo == correo {
          return Some(usuarios[i]);
        }
        assert usuarios[i..][1..] == usuarios[i + 1..];
        i := i + 1;
      }
      return None;
    }
  }

  /** After registering `u`, searching for its address finds a record; it is `u` unless an
    * earlier record had the same address, which then keeps being the one found. */
  lemma {:induction false} BuscarTrasRegistrar(usuarios: seq<Usuario>, u: Usuario)
    ensures PrimeroCon(usuarios + [u], u.correo).Some?
    ensures PrimeroCon(usuarios + [u], u.correo)
            == if PrimeroCon(usuarios, u.correo).Some? then PrimeroCon(usuarios, u.correo) else Some(u)
  {
    if usuarios == [] {
      assert usuarios + [u] == [u];
    } else {
      assert (usuarios + [u])[1..] == usuarios[1..] + [u];
      BuscarTrasRegistrar(usuarios[1..], u);
    }
  }

  /** Registering never changes what a search for a different address finds. */
  lemma {:induction false} RegistrarNoCambiaOtros(usuarios: seq<Usuario>, u: Usuario, correo: string)
    requires correo != u.correo
    ensures PrimeroCon(usuarios + [u], correo) == PrimeroCon(usuarios, correo)
  {
    if usuarios == [] {
      assert usuarios + [u] == [u];
      assert [u][1..] == [];
    } else {
      assert (usuarios + [u])[1..] == usuarios[1..] + [u];
      RegistrarNoCambiaOtros(usuarios[1..], u, correo);
    }
  }

  /** The same address can be registered twice: both records are kept, and the search finds
    * the first. */
  lemma Duplicados(usuarios: seq<Usuario>, a: Usuario, b: Usuario)
    requires a.correo == b.correo && PrimeroCon(usuarios, a.correo).None?
    ensures |usuarios + [a] + [b]| == |usuarios| + 2
    ensures (usuarios + [a] + [b])[|usuarios|] == a && (usuarios + [a] + [b])[|usuarios| + 1] == b
    ensures PrimeroCon(usuarios + [a] + [b], b.correo) == Some(a)
  {
    BuscarTrasRegistrar(usuarios, a);
    BuscarTrasRegistrar(usuarios + [a], b);
  }

  /** The search compares addresses exactly: a differently capitalised address is another
    * address. */
  lemma BusquedaExacta()
    ensures PrimeroCon([Usuario("Ana", "ana@mail.com", "1234")], "Ana@mail.com").None?
    ensures PrimeroCon([Usuario("Ana", "ana@mail.com", "1234")], "ana@mail.com").Some?
  {
    assert "ana@mail.com"[0] != "Ana@mail.com"[0];
  }
}
