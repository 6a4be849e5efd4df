// What the search still finds after a deletion: matching ignores the case of the digits and the deletion, which
// replaces the canonical text of one mark, does not.
module NotasBorrado {
  import opened Opcion
  import opened Texto
  import opened Marcas
  import opened Notas
  import opened NotasCorridas
  import opened NotasBusqueda

  // The matches of the search that are not written as the deletion of m writes it.
  function Otras(s: string, m: Marca): seq<Marca>
    decreases |s|
  {
    if s == "" then []
    else match Casar(ACTIVA, s)
      case Some((x, n)) => (if Construir(ACTIVA, m) <= s then [] else [x]) + Otras(s[n..], m)
      case None => Otras(s[1..], m)
  }

  // ------------------------------------------------------------------ the text of a match

  // A mark that does not start here does not start inside a match either.
  lemma DentroNoEmpieza(a: string, b: string, q: string)
    requires a != "" && (forall i | 0 < i < |a| :: a[i] != '[') && q != "" && q[0] == '[' && !(q <= a + b)
    ensures forall i | 0 <= i < |a| :: !(q <= (a + b)[i..])
  {
    forall i | 0 <= i < |a| ensures !(q <= (a + b)[i..]) {
      if i == 0 {
        assert (a + b)[0..] == a + b;
      } else {
        assert (a + b)[i..][0] == a[i];
        Difiere(q, (a + b)[i..], 0);
      }
    }
  }

  // ------------------------------------------------------------------ what the deletion does at one place

  // Where the mark stands: its deleted form, in which nothing is found.
  lemma BorrarAqui(m: Marca, b: string)
    requires EsCanonico(m.id)
    ensures Borrar(Construir(ACTIVA, m) + b, m) == Construir(ELIMINADA, m) + Borrar(b, m)
    ensures Buscar(ACTIVA, Borrar(Construir(ACTIVA, m) + b, m)) == Buscar(ACTIVA, Borrar(b, m))
  {
    hide EsCanonico, Construir, Buscar;
    var q, r := Construir(ACTIVA, m), Construir(ELIMINADA, m);
    MarcaSinSalto(ACTIVA, m);
    MarcaSinSalto(ELIMINADA, m);
    assert (q + b)[|q|..] == b;
    var t := Borrar(b, m);
    EliminadaNoActiva(r, t);
    DentroNoEmpieza(r, t, ACTIVA);
    BuscarTras(ACTIVA, r, t);
  }

  lemma EliminadaNoActiva(r: string, t: string)
    requires ELIMINADA <= r
    ensures !(ACTIVA <= r + t)
  {
    assert (r + t)[8] == ELIMINADA[8] == '-';
    Difiere(ACTIVA, r + t, 8);
  }

  // At a match written otherwise: the match stays.
  lemma BorrarOtra(s: string, m: Marca)
    requires EsCanonico(m.id) && Casar(ACTIVA, s).Some? && !(Construir(ACTIVA, m) <= s)
    ensures var (x, n) := Casar(ACTIVA, s).value;
            Buscar(ACTIVA, Borrar(s, m)) == [x] + Buscar(ACTIVA, Borrar(s[n..], m))
  {
    hide EsCanonico, EsUuid, Casar, Canonico, Construir, Reemplazar;
    var (x, n) := Casar(ACTIVA, s).value;
    var u := FormaCasada(ACTIVA, s);
    var a, b := s[..n], s[n..];
    assert s == a + b;
    UnSoloCorchete(ACTIVA, u);
    MarcaSinSalto(ACTIVA, m);
    DentroNoEmpieza(a, b, Construir(ACTIVA, m));
    ReemplazarTras(a, b, Construir(ACTIVA, m), Construir(ELIMINADA, m));
    CasarUuid(ACTIVA, u, Borrar(b, m));
    assert (a + Borrar(b, m))[n..] == Borrar(b, m);
  }

  lemma BorrarAbre(s: string, m: Marca)
    requires EsCanonico(m.id)
    ensures Construir(ACTIVA, m) <= s ==> Borrar(s, m) != "" && Borrar(s, m)[0] == '['
  {
    hide EsCanonico, Construir;
    MarcaSinSalto(ACTIVA, m);
    MarcaSinSalto(ELIMINADA, m);
  }

  // As far as the result holds no bracket, nothing was replaced.
  lemma {:induction false} CabezaBorrada(s: string, m: Marca, k: nat)
    requires EsCanonico(m.id) && k <= |Borrar(s, m)| && forall i | 0 <= i < k :: Borrar(s, m)[i] != '['
    ensures k <= |s| && s[..k] == Borrar(s, m)[..k]
    decreases |s|
  {
    hide EsCanonico, Construir;
    MarcaSinSalto(ACTIVA, m);
    var t := Borrar(s, m);
    if k > 0 {
      BorrarAbre(s, m);
      assert t[1..] == Borrar(s[1..], m);
      CabezaBorrada(s[1..], m, k - 1);
      MismaCabeza(s, t, k);
    }
  }

  // Where nothing matches, nothing does after the deletion.
  lemma NadaNuevo(s: string, m: Marca)
    requires EsCanonico(m.id) && s != "" && !(Construir(ACTIVA, m) <= s)
    ensures Borrar(s, m) == [s[0]] + Borrar(s[1..], m)
    ensures Casar(ACTIVA, Borrar(s, m)).Some? ==> Casar(ACTIVA, s).Some?
  {
    hide EsCanonico, EsUuid, Casar, Canonico, Construir;
    MarcaSinSalto(ACTIVA, m);
    var v := Borrar(s[1..], m);
    var t := [s[0]] + v;
    if Casar(ACTIVA, t).Some? {
      var n := Casar(ACTIVA, t).value.1;
      var u := FormaCasada(ACTIVA, t);
      UnSoloCorchete(ACTIVA, u);
      forall i | 0 <= i < n - 1 ensures v[i] != '[' {
        assert v[i] == t[..n][i + 1];
      }
      CabezaBorrada(s[1..], m, n - 1);
      assert t[1..] == v;
      MismaCabeza(s, t, n);
      CasarUuid(ACTIVA, u, s[n..]);
      assert s == s[..n] + s[n..];
    }
  }

  // ------------------------------------------------------------------ the whole text

  // After the deletion of m the search finds exactly the matches that were written otherwise, in order.
  lemma {:induction false} BorradoDejaOtras(s: string, m: Marca)
    requires EsCanonico(m.id)
    ensures Buscar(ACTIVA, Borrar(s, m)) == Otras(s, m)
    decreases |s|
  {
    hide EsCanonico, Casar, Construir, Borrar;
    var q := Construir(ACTIVA, m);
    if s == "" {
      BorrarVacio(m);
    } else if q <= s {
      CasarConCola(ACTIVA, m, s[|q|..]);
      assert s == q + s[|q|..];
      BorrarAqui(m, s[|q|..]);
      BorradoDejaOtras(s[|q|..], m);
      NingunaAqui(Otras(s[|q|..], m));
    } else if Casar(ACTIVA, s).Some? {
      BorrarOtra(s, m);
      BorradoDejaOtras(s[Casar(ACTIVA, s).value.1..], m);
    } else {
      NadaNuevo(s, m);
      BorradoDejaOtras(s[1..], m);
      assert ([s[0]] + Borrar(s[1..], m))[1..] == Borrar(s[1..], m);
    }
  }

  lemma NingunaAqui(xs: seq<Marca>)
    ensures [] + xs == xs
  {
  }

  // ------------------------------------------------------------------ two texts in which it is still found

  // A request with a mark in upper-case digits is found as the mark it stands for, and a deletion of that mark,
  // which replaces the canonical text, leaves it where it is.
  lemma MarcaEnMayusculas(m: Marca)
    requires EsUuid(m.id) && Canonico(m.id) != m.id
    ensures var texto, hallada := Construir(ACTIVA, m), Marca(m.tipo, Canonico(m.id));
            Buscar(ACTIVA, texto) == [hallada] && Borrar(texto, hallada) == texto
  {
    hide Casar, Canonico, EsUuid, Reemplazar;
    var s, x := Construir(ACTIVA, m), Marca(m.tipo, Canonico(m.id));
    CasarUuid(ACTIVA, m, "");
    assert s + "" == s && s[|s|..] == "" && Buscar(ACTIVA, "") == [];
    MismaForma(m);
    var q := Construir(ACTIVA, x);
    forall i | 0 <= i <= |s| ensures !(q <= s[i..]) {
      if i == 0 {
        assert s[0..] == s;
      } else if i < |s| {
        assert s[i..][0] == s[i] != '[';
        Difiere(q, s[i..], 0);
      }
    }
    ReemplazarNada(s, q, Construir(ELIMINADA, x));
  }

  lemma MismaForma(m: Marca)
    requires EsUuid(m.id) && Canonico(m.id) != m.id
    ensures var s, q := Construir(ACTIVA, m), Construir(ACTIVA, Marca(m.tipo, Canonico(m.id)));
            |s| == |q| && s != q && q != "" && q[0] == '[' && forall i | 0 < i < |s| :: s[i] != '['
  {
    var s, q := Construir(ACTIVA, m), Construir(ACTIVA, Marca(m.tipo, Canonico(m.id)));
    var k := |ACTIVA| + |Nombre(m.tipo)| + 1;
    UnSoloCorchete(ACTIVA, m);
    assert s[k..k + 36] == m.id && q[k..k + 36] == Canonico(m.id);
  }

  // A request with two marks of one identifier and different types: the first is deleted, the second still found.
  lemma DosTipos(id: string)
    requires EsCanonico(id)
    ensures var pdf, png := Marca(Pdf, id), Marca(Png, id);
            var s := Construir(ACTIVA, pdf) + Construir(ACTIVA, png);
            Normalizar(s) == s && Buscar(ACTIVA, s) == [pdf, png] && Buscar(ACTIVA, Borrar(s, pdf)) == [png]
  {
    hide EsCanonico, Casar, Construir, Normalizar, SinEspacios, Borrar;
    var pdf, png := Marca(Pdf, id), Marca(Png, id);
    var a, b := Construir(ACTIVA, pdf), Construir(ACTIVA, png);
    var s := a + b;
    MarcasJuntas(id);
    NormalizarSinEspacios(s);
    CasarConCola(ACTIVA, pdf, b);
    CasarConstruido(ACTIVA, png);
    assert s[|a|..] == b && b[|b|..] == "";
    OtroTipo(id);
    BorradoDejaOtras(s, pdf);
    assert Buscar(ACTIVA, b) == [png] + Buscar(ACTIVA, "") && Buscar(ACTIVA, "") == [];
    assert Otras(b, pdf) == [png] + Otras("", pdf) && Otras("", pdf) == [];
  }

  lemma MarcasJuntas(id: string)
    requires EsCanonico(id)
    ensures SinEspacios(Construir(ACTIVA, Marca(Pdf, id)) + Construir(ACTIVA, Marca(Png, id)))
  {
    hide EsCanonico, Construir, SinEspacios;
    var l, l' := LineaMarca(true, Marca(Pdf, id)), LineaMarca(true, Marca(Png, id));
    MarcaSinEspacios(l);
    MarcaSinEspacios(l');
    SinEspaciosSuma(TextoDeMarca(l), TextoDeMarca(l'));
  }

  lemma OtroTipo(id: string)
    ensures !(Construir(ACTIVA, Marca(Pdf, id)) <= Construir(ACTIVA, Marca(Png, id)))
  {
    var a, b := Construir(ACTIVA, Marca(Pdf, id)), Construir(ACTIVA, Marca(Png, id));
    assert a[10] == 'd' && b[10] == 'n';
    Difiere(a, b, 10);
  }
}
