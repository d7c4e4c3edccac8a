/** `src/auth_service.py`: salted password hashes, registration and login over the users table.
  *
  * SHA-256 is the parameter `sha` (text in, 64 lower-case hex digits out), the `uuid4().hex`
  * salt is the parameter `salt`, and the database is the map `UsersTable.rows` from e-mail
  * address to stored user. Whether the database fails, and at which step, is the parameter
  * `falla`. */
module AuthService {
  import opened Texto
  import MensajesAdapter

  predicate IsHexDigit(c: char) {
    '0' <= c <= '9' || 'a' <= c <= 'f'
  }

  predicate IsHex(s: string) {
    forall i :: 0 <= i < |s| ==> IsHexDigit(s[i])
  }

  /** `uuid4().hex`: 32 lower-case hex digits. */
  type Salt = s: string | |s| == 32 && IsHex(s) witness seq(32, i => '0')

  /** `sha256(...).hexdigest()`: 64 lower-case hex digits. */
  type Digest = s: string | |s| == 64 && IsHex(s) witness seq(64, i => '0')

  lemma HexHasNoDollar(s: string)
    requires IsHex(s)
    ensures '$' !in s && Count(s, '$') == 0
  {
    assert forall i :: 0 <= i < |s| ==> s[i] != '$';
    CountAbsent(s, '$');
  }

  /** `hash_password(password)` with the salt drawn as `salt`: "salt$digest", where the digest
    * is the hash of the salt followed by the password. */
  function HashPassword(password: string, salt: Salt, sha: string -> Digest): (r: string)
    ensures '$' in r && Count(r, '$') == 1
    ensures Partition(r, '$') == (salt, sha(salt + password))
  {
    var r := salt + "$" + sha(salt + password);
    HexHasNoDollar(salt);
    HexHasNoDollar(sha(salt + password));
    CountAppend(salt + "$", sha(salt + password), '$');
    CountAppend(salt, "$", '$');
    assert Count("$", '$') == 1;
    assert r[..32] == salt && r[33..] == sha(salt + password);
    PartitionAt(r, '$', 32);
    r
  }

  /** `verify_password(password, stored)`: a stored value that is not exactly two fields around
    * one `$` fails the unpacking and is refused; otherwise the password is accepted exactly when
    * the hash of the first field followed by the password is the second field. */
  function VerifyPassword(password: string, stored: string, sha: string -> Digest): (r: bool)
    ensures Count(stored, '$') != 1 ==> !r
    ensures '$' in stored && Count(stored, '$') == 1 ==>
      (r <==> sha(Partition(stored, '$').0 + password) == Partition(stored, '$').1)
  {
    var parts := Split(stored, '$');
    SplitLength(stored, '$');
    if |parts| != 2 then false
    else
      SplitOnce(stored, '$');
      sha(parts[0] + password) == parts[1]
  }

  /** A hash made from a password verifies against that password. */
  lemma VerifyHash(password: string, salt: Salt, sha: string -> Digest)
    ensures VerifyPassword(password, HashPassword(password, salt, sha), sha)
  {
  }

  /** Another password verifies against the hash exactly when it hashes, under the same salt, to
    * the same digest: with a collision-free hash, never. */
  lemma VerifyOther(password: string, other: string, salt: Salt, sha: string -> Digest)
    ensures VerifyPassword(other, HashPassword(password, salt, sha), sha)
            <==> sha(salt + other) == sha(salt + password)
  {
  }

  // ---------------------------------------------------------------------------------------
  // The users table
  // ---------------------------------------------------------------------------------------

  /** A row of `usuarios`: the stored password value and the name. */
  datatype Usuario = Usuario(contrasena: string, nombre: string)

  /** Where a database operation raises, if it does. */
  datatype Falla = SinFalla | AlConsultar | AlEscribir

  /** Every address in the table is in normal form (trimmed and lower-cased), as the service
    * writes them. */
  ghost predicate Normalizada(tabla: map<string, Usuario>) {
    forall k :: k in tabla ==> StripLower(k) == k
  }

  /** `registrar_usuario` on table `tabla`: the new table, the success flag and the message. */
  function RegistrarEn(tabla: map<string, Usuario>, correo: string, contrasena: string, nombre: string,
                     salt: Salt, sha: string -> Digest, falla: Falla): (r: (map<string, Usuario>, bool, string))
    ensures r.1 <==> falla.SinFalla? && StripLower(correo) !in tabla
    ensures r.1 ==> r.0 == tabla[StripLower(correo) := Usuario(HashPassword(contrasena, salt, sha), nombre)]
                    && r.2 == MensajesAdapter.T("auth_ok")
    ensures !r.1 ==> r.0 == tabla
    ensures !falla.AlConsultar? && StripLower(correo) in tabla ==> r.2 == MensajesAdapter.T("user_exists")
    ensures !r.1 && (falla.AlConsultar? || StripLower(correo) !in tabla) ==> r.2 == MensajesAdapter.T("invalid_input")
    ensures Normalizada(tabla) ==> Normalizada(r.0)
  {
    var c := StripLower(correo);
    if falla.AlConsultar? then (tabla, false, MensajesAdapter.T("invalid_input"))
    else if c in tabla then (tabla, false, MensajesAdapter.T("user_exists"))
    else if falla.AlEscribir? then (tabla, false, MensajesAdapter.T("invalid_input"))
    else
      NormalizadaUpdate(tabla, correo, Usuario(HashPassword(contrasena, salt, sha), nombre));
      (tabla[c := Usuario(HashPassword(contrasena, salt, sha), nombre)], true, MensajesAdapter.T("auth_ok"))
  }

  lemma NormalizadaUpdate(tabla: map<string, Usuario>, correo: string, u: Usuario)
    ensures Normalizada(tabla) ==> Normalizada(tabla[StripLower(correo) := u])
  {
    StripLowerIdempotent(correo);
  }

  /** `login` on table `tabla`: accepted when the address, normalised, has a row whose stored
    * value verifies against the password or, for rows written before hashing, equals it. */
  function LoginEn(tabla: map<string, Usuario>, correo: string, contrasena: string,
                 sha: string -> Digest, falla: bool): (r: (bool, string))
    ensures r.0 <==> !falla && StripLower(correo) in tabla
                     && (VerifyPassword(contrasena, tabla[StripLower(correo)].contrasena, sha)
                         || tabla[StripLower(correo)].contrasena == contrasena)
    ensures r.0 ==> r.1 == MensajesAdapter.T("auth_ok")
    ensures falla ==> r.1 == MensajesAdapter.T("invalid_input")
    ensures !falla && !r.0 ==> r.1 == MensajesAdapter.T("auth_fail")
  {
    if falla then (false, MensajesAdapter.T("invalid_input"))
    else
      var c := StripLower(correo);
      if c !in tabla then (false, MensajesAdapter.T("auth_fail"))
      else
        var stored := tabla[c].contrasena;
        if VerifyPassword(contrasena, stored, sha) || stored == contrasena
        then (true, MensajesAdapter.T("auth_ok"))
        else (false, MensajesAdapter.T("auth_fail"))
  }

  /** The users table, changed only by registration. */
  class UsersTable {
    var rows: map<string, Usuario>

    ghost predicate Valid()
      reads this
    {
      Normalizada(rows)
    }

    constructor ()
      ensures rows == map[] && Valid()
    {
      rows := map[];
    }

    /** `registrar_usuario(correo, contrasena, nombre)`. */
    method RegistrarUsuario(correo: string, contrasena: string, nombre: string,
                            salt: Salt, sha: string -> Digest, falla: Falla) returns (ok: bool, msg: string)
      modifies this
      ensures (rows, ok, msg) == RegistrarEn(old(rows), correo, contrasena, nombre, salt, sha, falla)
      ensures old(Valid()) ==> Valid()
    {
      var c := StripLower(correo);
      if falla.AlConsultar? {
        return false, MensajesAdapter.T("invalid_input");
      }
      if c in rows {
        return false, MensajesAdapter.T("user_exists");
      }
      var hashed := HashPassword(contrasena, salt, sha);
      if falla.AlEscribir? {
        return false, MensajesAdapter.T("invalid_input");
      }
      rows := rows[c := Usuario(hashed, nombre)];
      ok, msg := true, MensajesAdapter.T("auth_ok");
    }

    /** `login(correo, contrasena)`; the table is only read. */
    method Login(correo: string, contrasena: string, sha: string -> Digest, falla: bool)
      returns (ok: bool, msg: string)
      ensures (ok, msg) == LoginEn(rows, correo, contrasena, sha, falla)
    {
      if falla {
        return false, MensajesAdapter.T("invalid_input");
      }
      var c := StripLower(correo);
      if c !in rows {
        return false, MensajesAdapter.T("auth_fail");
      }
      var stored := rows[c].contrasena;
      if VerifyPassword(contrasena, stored, sha) || stored == contrasena {
        ok, msg := true, MensajesAdapter.T("auth_ok");
      } else {
        ok, msg := false, MensajesAdapter.T("auth_fail");
      }
    }
  }

  // ---------------------------------------------------------------------------------------
  // Properties
  // ---------------------------------------------------------------------------------------

  /** After a successful registration, logging in with the same password succeeds, whatever the
    * spacing and case in which the address is typed. */
  lemma RegisterThenLogin(tabla: map<string, Usuario>, correo: string, otroCorreo: string,
                          contrasena: string, nombre: string, salt: Salt, sha: string -> Digest)
    requires StripLower(otroCorreo) == StripLower(correo)
    requires RegistrarEn(tabla, correo, contrasena, nombre, salt, sha, SinFalla).1
    ensures LoginEn(RegistrarEn(tabla, correo, contrasena, nombre, salt, sha, SinFalla).0,
                  otroCorreo, contrasena, sha, false).0
  {
    VerifyHash(contrasena, salt, sha);
  }

  /** A second registration of the same address, in any spacing or case, is refused with
    * "user_exists" and leaves the table as it was. */
  lemma RegisterTwice(tabla: map<string, Usuario>, correo: string, otroCorreo: string,
                      contrasena: string, otra: string, nombre: string, otroNombre: string,
                      salt: Salt, otraSalt: Salt, sha: string -> Digest, falla: Falla)
    requires StripLower(otroCorreo) == StripLower(correo)
    requires RegistrarEn(tabla, correo, contrasena, nombre, salt, sha, SinFalla).1
    requires !falla.AlConsultar?
    ensures var t := RegistrarEn(tabla, correo, contrasena, nombre, salt, sha, SinFalla).0;
            RegistrarEn(t, otroCorreo, otra, otroNombre, otraSalt, sha, falla)
            == (t, false, MensajesAdapter.T("user_exists"))
  {
  }

  /** After registering, another password is accepted exactly when it hashes like the real one
    * under the stored salt, or when it is the stored value itself: the legacy comparison lets
    * the stored hash stand in for the password. */
  lemma LoginOtherPassword(tabla: map<string, Usuario>, correo: string, contrasena: string,
                           otra: string, nombre: string, salt: Salt, sha: string -> Digest)
    requires RegistrarEn(tabla, correo, contrasena, nombre, salt, sha, SinFalla).1
    ensures LoginEn(RegistrarEn(tabla, correo, contrasena, nombre, salt, sha, SinFalla).0,
                  correo, otra, sha, false).0
            <==> sha(salt + otra) == sha(salt + contrasena) || otra == HashPassword(contrasena, salt, sha)
  {
    VerifyOther(contrasena, otra, salt, sha);
  }

  /** The stored value is the salted hash of the password, which verifies against it; it is not
    * the password itself unless the password is itself shaped "salt$digest". */
  lemma RegisterStoresHash(tabla: map<string, Usuario>, correo: string, contrasena: string,
                           nombre: string, salt: Salt, sha: string -> Digest)
    requires RegistrarEn(tabla, correo, contrasena, nombre, salt, sha, SinFalla).1
    ensures var u := RegistrarEn(tabla, correo, contrasena, nombre, salt, sha, SinFalla).0[StripLower(correo)];
            && u.nombre == nombre
            && VerifyPassword(contrasena, u.contrasena, sha)
            && (Count(contrasena, '$') != 1 ==> u.contrasena != contrasena)
  {
    VerifyHash(contrasena, salt, sha);
  }

  /** A failing database leaves the table as it was and answers "invalid_input", for
    * registration and login alike. */
  lemma FaultsAreInvalidInput(tabla: map<string, Usuario>, correo: string, contrasena: string,
                              nombre: string, salt: Salt, sha: string -> Digest)
    ensures RegistrarEn(tabla, correo, contrasena, nombre, salt, sha, AlConsultar)
            == (tabla, false, MensajesAdapter.T("invalid_input"))
    ensures StripLower(correo) !in tabla ==>
            RegistrarEn(tabla, correo, contrasena, nombre, salt, sha, AlEscribir)
            == (tabla, false, MensajesAdapter.T("invalid_input"))
    ensures LoginEn(tabla, correo, contrasena, sha, true) == (false, MensajesAdapter.T("invalid_input"))
  {
  }

  /** An address with no row is refused with "auth_fail". */
  lemma LoginUnknown(tabla: map<string, Usuario>, correo: string, contrasena: string, sha: string -> Digest)
    requires StripLower(correo) !in tabla
    ensures LoginEn(tabla, correo, contrasena, sha, false) == (false, MensajesAdapter.T("auth_fail"))
  {
  }
}
