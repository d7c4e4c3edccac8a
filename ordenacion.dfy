/** Python's `list.sort`: a stable sort under a key order. It is modelled as an insertion sort
  * over the relation `le`, where `le(a, b)` means `a` may stand before `b` (the key of `a` is at
  * most the key of `b`, or at least it under `reverse=True`). For a total preorder, the stable
  * sorted permutation of a list is unique, so this is the list `sort` leaves behind. */
module Ordenacion {

  /** `le` is total and transitive: the order of a sort key. */
  ghost predicate Preorden<T(!new)>(le: (T, T) -> bool) {
    && (forall a, b :: le(a, b) || le(b, a))
    && (forall a, b, c :: le(a, b) && le(b, c) ==> le(a, c))
  }

  /** Every element may stand before every later one. */
  ghost predicate Ordenada<T>(s: seq<T>, le: (T, T) -> bool) {
    forall i, j :: 0 <= i < j < |s| ==> le(s[i], s[j])
  }

  /** `x` and `y` have equal keys. */
  predicate Equivalentes<T>(x: T, y: T, le: (T, T) -> bool) {
    le(x, y) && le(y, x)
  }

  /** The elements of `s` whose key equals that of `k`, in their order in `s`. */
  function Iguales<T>(s: seq<T>, k: T, le: (T, T) -> bool): seq<T> {
    if s == [] then []
    else (if Equivalentes(s[0], k, le) then [s[0]] else []) + Iguales(s[1..], k, le)
  }

  /** `x` placed after every element that may stand before it. */
  function Insertar<T>(x: T, t: seq<T>, le: (T, T) -> bool): (r: seq<T>)
    ensures multiset(r) == multiset(t) + multiset{x}
  {
    if t == [] then [x]
    else if le(t[0], x) then
      assert t == [t[0]] + t[1..];
      [t[0]] + Insertar(x, t[1..], le)
    else [x] + t
  }

  /** `s.sort()` under `le`: each element in turn inserted into the sorted earlier ones. */
  function Ordenar<T>(s: seq<T>, le: (T, T) -> bool): (r: seq<T>)
    ensures multiset(r) == multiset(s)
    ensures |r| == |s|
  {
    if s == [] then []
    else
      assert s == s[..|s| - 1] + [s[|s| - 1]];
      var r := Insertar(s[|s| - 1], Ordenar(s[..|s| - 1], le), le);
      assert |r| == |multiset(r)|;
      r
  }

  lemma {:induction false} InsertarOrdenada<T(!new)>(x: T, t: seq<T>, le: (T, T) -> bool)
    requires Preorden(le) && Ordenada(t, le)
    ensures Ordenada(Insertar(x, t, le), le)
  {
    if t != [] && le(t[0], x) {
      InsertarOrdenada(x, t[1..], le);
      var r := Insertar(x, t, le);
      var rest := Insertar(x, t[1..], le);
      assert r == [t[0]] + rest;
      forall j | 0 <= j < |rest|
        ensures le(t[0], rest[j])
      {
        CotaInsertar(t[0], x, t[1..], le, j);
      }
    } else if t != [] {
      assert le(x, t[0]);
    }
  }

  /** A lower bound of `x` and of every element of `t` bounds every element after insertion. */
  lemma CotaInsertar<T>(c: T, x: T, t: seq<T>, le: (T, T) -> bool, j: int)
    requires le(c, x) && forall i :: 0 <= i < |t| ==> le(c, t[i])
    requires 0 <= j < |Insertar(x, t, le)|
    ensures le(c, Insertar(x, t, le)[j])
  {
    var r := Insertar(x, t, le);
    assert r[j] in multiset(t) + multiset{x};
    if r[j] != x {
      assert r[j] in t;
    }
  }

  /** The sort leaves its elements in order. */
  lemma {:induction false} OrdenarOrdena<T(!new)>(s: seq<T>, le: (T, T) -> bool)
    requires Preorden(le)
    ensures Ordenada(Ordenar(s, le), le)
  {
    if s != [] {
      OrdenarOrdena(s[..|s| - 1], le);
      InsertarOrdenada(s[|s| - 1], Ordenar(s[..|s| - 1], le), le);
    }
  }

  lemma {:induction false} IgualesConcat<T>(a: seq<T>, b: seq<T>, k: T, le: (T, T) -> bool)
    ensures Iguales(a + b, k, le) == Iguales(a, k, le) + Iguales(b, k, le)
  {
    if a == [] {
      assert a + b == b;
    } else {
      var h := if Equivalentes(a[0], k, le) then [a[0]] else [];
      calc {
        Iguales(a + b, k, le);
        { assert (a + b)[0] == a[0] && (a + b)[1..] == a[1..] + b; }
        h + Iguales(a[1..] + b, k, le);
        { IgualesConcat(a[1..], b, k, le); }
        h + (Iguales(a[1..], k, le) + Iguales(b, k, le));
        h + Iguales(a[1..], k, le) + Iguales(b, k, le);
      }
    }
  }

  lemma {:induction false} IgualesVacio<T(!new)>(t: seq<T>, k: T, le: (T, T) -> bool)
    requires forall i :: 0 <= i < |t| ==> !Equivalentes(t[i], k, le)
    ensures Iguales(t, k, le) == []
  {
    if t != [] {
      IgualesVacio(t[1..], k, le);
    }
  }

  /** Inserting `x` appends it to the elements whose key equals its own, and changes no other
    * such list. */
  lemma {:induction false} InsertarEstable<T(!new)>(x: T, t: seq<T>, k: T, le: (T, T) -> bool)
    requires Preorden(le) && Ordenada(t, le)
    ensures Iguales(Insertar(x, t, le), k, le)
            == Iguales(t, k, le) + (if Equivalentes(x, k, le) then [x] else [])
  {
    if t == [] {
      assert Insertar(x, t, le) == [x];
      assert Iguales([x], k, le) == (if Equivalentes(x, k, le) then [x] else []) + Iguales([], k, le);
    } else if le(t[0], x) {
      var rest := Insertar(x, t[1..], le);
      var h := if Equivalentes(t[0], k, le) then [t[0]] else [];
      var xs := if Equivalentes(x, k, le) then [x] else [];
      assert Ordenada(t[1..], le);
      calc {
        Iguales(Insertar(x, t, le), k, le);
        Iguales([t[0]] + rest, k, le);
        { IgualesCons(t[0], rest, k, le); }
        h + Iguales(rest, k, le);
        { InsertarEstable(x, t[1..], k, le); }
        h + (Iguales(t[1..], k, le) + xs);
        { Asociativa(h, Iguales(t[1..], k, le), xs); }
        h + Iguales(t[1..], k, le) + xs;
        Iguales(t, k, le) + xs;
      }
    } else {
      InsertarAlFrente(x, t, k, le);
    }
  }

  lemma IgualesCons<T>(a: T, s: seq<T>, k: T, le: (T, T) -> bool)
    ensures Iguales([a] + s, k, le) == (if Equivalentes(a, k, le) then [a] else []) + Iguales(s, k, le)
  {
    assert ([a] + s)[1..] == s;
  }

  lemma Asociativa<T>(a: seq<T>, b: seq<T>, c: seq<T>)
    ensures a + (b + c) == a + b + c
  {
  }

  /** `x` placed before a sorted list whose head must not stand before it. */
  lemma InsertarAlFrente<T(!new)>(x: T, t: seq<T>, k: T, le: (T, T) -> bool)
    requires Preorden(le) && Ordenada(t, le) && t != [] && !le(t[0], x)
    ensures Iguales([x] + t, k, le) == Iguales(t, k, le) + (if Equivalentes(x, k, le) then [x] else [])
  {
    assert ([x] + t)[1..] == t;
    if Equivalentes(x, k, le) {
      forall i | 0 <= i < |t|
        ensures !Equivalentes(t[i], k, le)
      {
        NoEquivalente(x, t, k, le, i);
      }
      IgualesVacio(t, k, le);
    }
  }

  /** In a sorted list that must not stand before `x`, no element has the key of `x`. */
  lemma NoEquivalente<T(!new)>(x: T, t: seq<T>, k: T, le: (T, T) -> bool, i: int)
    requires Preorden(le) && Ordenada(t, le) && 0 <= i < |t|
    requires !le(t[0], x) && Equivalentes(x, k, le)
    ensures !Equivalentes(t[i], k, le)
  {
    assert i == 0 || le(t[0], t[i]);
    assert !le(t[i], x);
    assert !le(t[i], k);
  }

  /** The sort is stable: the elements with equal keys keep their relative order. */
  lemma {:induction false} OrdenarEstable<T(!new)>(s: seq<T>, k: T, le: (T, T) -> bool)
    requires Preorden(le)
    ensures Iguales(Ordenar(s, le), k, le) == Iguales(s, k, le)
  {
    if s != [] {
      var init, x := s[..|s| - 1], s[|s| - 1];
      var o := Ordenar(init, le);
      assert Ordenar(s, le) == Insertar(x, o, le);
      OrdenarEstable(init, k, le);
      OrdenarOrdena(init, le);
      InsertarEstable(x, o, k, le);
      IgualesUltimo(s, k, le);
    }
  }

  lemma IgualesUltimo<T>(s: seq<T>, k: T, le: (T, T) -> bool)
    requires s != []
    ensures Iguales(s, k, le)
            == Iguales(s[..|s| - 1], k, le) + (if Equivalentes(s[|s| - 1], k, le) then [s[|s| - 1]] else [])
  {
    var init, x := s[..|s| - 1], s[|s| - 1];
    assert s == init + [x];
    IgualesConcat(init, [x], k, le);
    assert Iguales([x], k, le) == (if Equivalentes(x, k, le) then [x] else []) + Iguales([], k, le);
  }
}
