// The marks the service looks up in the raw text are the ones the parser shows note by note.
module NotasBusqueda {
  import opened Opcion
  import opened Texto
  import opened Marcas
  import opened Notas
  import opened NotasCorridas

  function PrefijoDe(activas: bool): string { if activas then ACTIVA else ELIMINADA }

  // ------------------------------------------------------------------ a mark does not straddle a newline

  lemma PrefijoLocal(p: string, a: string, b: string)
    requires '\n' !in p
    ensures p <= a + "\n" + b <==> p <= a
  {
    var s := a + "\n" + b;
    if |p| <= |a| {
      assert s[..|p|] == a[..|p|];
    } else {
      assert s[|a|] == '\n' != p[|a|];
      if |p| <= |s| { Difiere(p, s, |a|); }
    }
  }

  lemma TipoLocal(a: string, b: string)
    ensures TipoEn(a + "\n" + b) == TipoEn(a)
    ensures TipoEn(a).Some? ==> |Nombre(TipoEn(a).value)| + 1 <= |a|
  {
    PrefijoLocal("pdf:", a, b);
    PrefijoLocal("png:", a, b);
    PrefijoLocal("jpg:", a, b);
    PrefijoLocal("pdfe:", a, b);
  }

  lemma UuidSinSalto(u: string)
    ensures EsUuid(u) ==> '\n' !in u
  {
    assert !EsHex('\n');
  }

  lemma CierreLocal(a: string, b: string)
    ensures CierraMarca(a + "\n" + b) == CierraMarca(a)
    ensures CierraMarca(a) ==> (a + "\n" + b)[..36] == a[..36]
  {
    var s := a + "\n" + b;
    assert s[|a|] == '\n';
    if |a| < 36 <= |s| {
      UuidSinSalto(s[..36]);
      assert s[..36][|a|] == '\n';
    }
    if |a| >= 36 {
      assert s[..36] == a[..36];
    }
  }

  lemma CasarLocal(p: string, a: string, b: string)
    requires '\n' !in p
    ensures Casar(p, a + "\n" + b) == Casar(p, a)
  {
    hide TipoEn, CierraMarca, Canonico, Nombre;
    PrefijoLocal(p, a, b);
    if p <= a {
      var s, resto := a + "\n" + b, a[|p|..];
      assert s[|p|..] == resto + "\n" + b;
      TipoLocal(resto, b);
      if TipoEn(resto).Some? {
        var k := |Nombre(TipoEn(resto).value)| + 1;
        var cola := resto[k..];
        assert (resto + "\n" + b)[k..] == cola + "\n" + b;
        CierreLocal(cola, b);
      }
    }
  }

  lemma {:induction false} BuscarSalto(p: string, a: string, b: string)
    requires p != "" && '\n' !in p
    ensures Buscar(p, a + "\n" + b) == Buscar(p, a) + Buscar(p, b)
    decreases |a|
  {
    hide Casar;
    var s := a + "\n" + b;
    CasarLocal(p, a, b);
    if a == "" {
      NadaCasa(p);
      assert s[1..] == b;
    } else {
      match Casar(p, a) {
        case Some((m, n)) =>
          CortarLinea(a, b, n);
          BuscarSalto(p, a[n..], b);
          Asociar([m], Buscar(p, a[n..]), Buscar(p, b));
        case None =>
          CortarLinea(a, b, 1);
          BuscarSalto(p, a[1..], b);
      }
    }
  }

  lemma CortarLinea(a: string, b: string, n: nat)
    requires n <= |a|
    ensures (a + "\n" + b)[n..] == a[n..] + "\n" + b
  {
  }

  lemma Asociar(x: seq<Marca>, y: seq<Marca>, z: seq<Marca>)
    ensures x + y + z == x + (y + z)
  {
  }

  lemma NadaCasa(p: string)
    requires p != ""
    ensures Casar(p, "") == None
  {
  }

  // ------------------------------------------------------------------ line by line

  function BuscarTodas(p: string, lineas: seq<string>): seq<Marca> {
    if lineas == [] then [] else Buscar(p, lineas[0]) + BuscarTodas(p, lineas[1..])
  }

  lemma {:induction false} BuscarUnidas(p: string, lineas: seq<string>)
    requires p != "" && '\n' !in p
    ensures Buscar(p, Unir(lineas)) == BuscarTodas(p, lineas)
  {
    if |lineas| == 1 {
      assert BuscarTodas(p, lineas[1..]) == [];
    } else if lineas != [] {
      BuscarSalto(p, lineas[0], Unir(lineas[1..]));
      BuscarUnidas(p, lineas[1..]);
    }
  }

  // A printed mark is found under its own prefix and not under the other.
  lemma BuscarMarca(l: LineaMarca, activas: bool)
    requires EsCanonico(l.marca.id)
    ensures Buscar(PrefijoDe(activas), TextoDeMarca(l)) == if l.activa == activas then [l.marca] else []
  {
    hide EsCanonico, Casar;
    var s, p := TextoDeMarca(l), PrefijoDe(activas);
    if l.activa == activas {
      CasarConstruido(p, l.marca);
      assert s[|s|..] == "" && Buscar(p, "") == [];
    } else {
      OtroPrefijo(l, p);
      SinMarcas(p, s);
    }
  }

  lemma OtroPrefijo(l: LineaMarca, p: string)
    requires EsCanonico(l.marca.id) && p == PrefijoDe(!l.activa)
    ensures !Contiene(TextoDeMarca(l), p)
  {
    hide EsCanonico;
    var s := TextoDeMarca(l);
    MarcaSinSalto(Prefijo(l), l.marca);
    forall i | 0 <= i <= |s| ensures !(p <= s[i..]) {
      if i == 0 {
        assert s[0..] == s && s[8] == Prefijo(l)[8];
        Difiere(p, s, 8);
      } else if i < |s| {
        assert s[i..][0] == s[i] != '[';
        Difiere(p, s[i..], 0);
      }
    }
  }

  lemma {:induction false} BuscarLineas(ms: seq<LineaMarca>, activas: bool)
    requires forall i | 0 <= i < |ms| :: EsCanonico(ms[i].marca.id)
    ensures BuscarTodas(PrefijoDe(activas), LineasDeMarcas(ms)) == MarcasDe(ms, activas)
  {
    hide EsCanonico, Buscar, TextoDeMarca;
    if ms != [] {
      BuscarMarca(ms[0], activas);
      assert LineasDeMarcas(ms)[1..] == LineasDeMarcas(ms[1..]);
      BuscarLineas(ms[1..], activas);
    }
  }

  // The search passes over a front in which no mark starts.
  lemma {:induction false} BuscarTras(p: string, a: string, b: string)
    requires p != "" && forall i | 0 <= i < |a| :: !(p <= (a + b)[i..])
    ensures Buscar(p, a + b) == Buscar(p, b)
    decreases |a|
  {
    hide Casar;
    var s := a + b;
    if a == "" {
      assert s == b;
    } else {
      assert s[0..] == s && s[1..] == a[1..] + b;
      NoCasaSinPrefijo(p, s);
      forall i | 0 <= i < |a[1..]| ensures !(p <= (a[1..] + b)[i..]) {
        assert (a[1..] + b)[i..] == s[i + 1..];
      }
      BuscarTras(p, a[1..], b);
    }
  }

  lemma NoCasaSinPrefijo(p: string, s: string)
    requires !(p <= s)
    ensures Casar(p, s) == None
  {
  }

  // What the search finds in one note: first in the author's name, which the server does not neutralize.
  function Halladas(n: Nota, activas: bool): seq<Marca> {
    Buscar(PrefijoDe(activas), n.autor) + MarcasDe(n.marcas, activas)
  }

  function HalladasEn(notas: seq<Nota>, activas: bool): seq<Marca> {
    if notas == [] then [] else Halladas(notas[0], activas) + HalladasEn(notas[1..], activas)
  }

  lemma BuscarEnCabecera(n: Nota, activas: bool)
    requires EsFecha(n.ts)
    ensures Buscar(PrefijoDe(activas), Cabecera(n)) == Buscar(PrefijoDe(activas), n.autor)
  {
    hide EsFecha, Cabecera, Buscar, Apertura;
    AperturaSinMarca(n, PrefijoDe(activas));
    BuscarTras(PrefijoDe(activas), Apertura(n), n.autor);
  }

  lemma BuscarEnNota(n: Nota, activas: bool)
    requires NotaValida(n)
    ensures Buscar(PrefijoDe(activas), Fragmento(n)) == Halladas(n, activas)
  {
    hide EsCanonico, Contiene, Limpio, EsFecha, Fragmento, Cabecera, Buscar;
    var p, ms := PrefijoDe(activas), LineasDeMarcas(n.marcas);
    var ls := LineasDe(n);
    FragmentoUnido(n);
    BuscarUnidas(p, ls);
    assert ls[1..] == [n.texto] + ms && ls[1..][1..] == ms;
    BuscarEnCabecera(n, activas);
    SinMarcas(p, n.texto);
    BuscarLineas(n.marcas, activas);
    assert BuscarTodas(p, ls[1..]) == Buscar(p, n.texto) + BuscarTodas(p, ms);
    assert [] + MarcasDe(n.marcas, activas) == MarcasDe(n.marcas, activas);
  }

  // ------------------------------------------------------------------ the whole text

  // What the notes show, in order.
  function Mostradas(ns: seq<NotaLeida>, activas: bool): seq<Marca> {
    if ns == [] then []
    else (if activas then ns[0].adjuntos else ns[0].eliminados) + Mostradas(ns[1..], activas)
  }

  lemma BuscarDoble(p: string, a: string, b: string)
    requires p != "" && '\n' !in p
    ensures Buscar(p, a + "\n\n" + b) == Buscar(p, a) + Buscar(p, b)
  {
    hide Casar;
    var c := "\n" + b;
    assert a + "\n\n" + b == a + "\n" + c && "" + "\n" + b == c;
    BuscarSalto(p, a, c);
    BuscarSalto(p, "", b);
    assert Buscar(p, "") == [] && [] + Buscar(p, b) == Buscar(p, b);
  }

  lemma {:induction false} BuscarEnCola(notas: seq<Nota>, activas: bool)
    requires notas != [] && TodasValidas(notas)
    ensures Buscar(PrefijoDe(activas), Cola(notas)) == HalladasEn(notas, activas)
  {
    hide NotaValida, Fragmento, Buscar, Halladas;
    BuscarEnNota(notas[0], activas);
    if |notas| > 1 {
      BuscarDoble(PrefijoDe(activas), Fragmento(notas[0]), Cola(notas[1..]));
      BuscarEnCola(notas[1..], activas);
    } else {
      assert HalladasEn(notas[1..], activas) == [];
    }
  }

  // The search over the raw text, for any request and any authors.
  lemma BuscarEnGuardado(pedido: string, notas: seq<Nota>, activas: bool)
    requires TodasValidas(notas)
    ensures Buscar(PrefijoDe(activas), Guardado(pedido, notas))
            == Buscar(PrefijoDe(activas), pedido) + HalladasEn(notas, activas)
  {
    hide NotaValida, Cola, Buscar;
    var p := PrefijoDe(activas);
    BuscarNada(p);
    if notas != [] {
      BuscarEnCola(notas, activas);
      BuscarDoble(p, pedido, Cola(notas));
    }
    assert [] + HalladasEn(notas, activas) == HalladasEn(notas, activas);
  }

  lemma BuscarNada(p: string)
    ensures Buscar(p, "") == []
  {
  }

  // No author's name holds a mark.
  ghost predicate AutoresSinMarcas(notas: seq<Nota>, activas: bool) {
    forall i | 0 <= i < |notas| :: Buscar(PrefijoDe(activas), notas[i].autor) == []
  }

  lemma {:induction false} HalladasYMostradas(notas: seq<Nota>, activas: bool)
    ensures |HalladasEn(notas, activas)| >= |Mostradas(Vistas(notas), activas)|
    ensures |HalladasEn(notas, activas)| == |Mostradas(Vistas(notas), activas)| <==> AutoresSinMarcas(notas, activas)
    ensures AutoresSinMarcas(notas, activas) ==> HalladasEn(notas, activas) == Mostradas(Vistas(notas), activas)
  {
    hide Buscar;
    if notas != [] {
      HalladasYMostradas(notas[1..], activas);
      assert Vistas(notas)[1..] == Vistas(notas[1..]);
      AutoresDeLaCola(notas, activas);
      var ms := MarcasDe(notas[0].marcas, activas);
      assert [] + ms == ms;
    }
  }

  lemma AutoresDeLaCola(notas: seq<Nota>, activas: bool)
    requires notas != []
    ensures AutoresSinMarcas(notas, activas)
            <==> Buscar(PrefijoDe(activas), notas[0].autor) == [] && AutoresSinMarcas(notas[1..], activas)
  {
    hide Buscar;
    if AutoresSinMarcas(notas, activas) {
      assert forall i | 0 <= i < |notas[1..]| :: notas[1..][i] == notas[i + 1];
    }
    if Buscar(PrefijoDe(activas), notas[0].autor) == [] && AutoresSinMarcas(notas[1..], activas) {
      forall i | 0 <= i < |notas| ensures Buscar(PrefijoDe(activas), notas[i].autor) == [] {
        if i > 0 { assert notas[i] == notas[1..][i - 1]; }
      }
    }
  }

  // The search finds nothing the parser does not show: no mark in the request, or, when the first note stands in
  // the place of a blank request, none in that note; and none in the authors' names.
  ghost predicate SinAjenas(pedido: string, notas: seq<Nota>, activas: bool) {
    if pedido != "" then Buscar(PrefijoDe(activas), pedido) == [] && AutoresSinMarcas(notas, activas)
    else notas == [] || (Halladas(notas[0], activas) == [] && AutoresSinMarcas(notas[1..], activas))
  }

  // Looking marks up in the raw text finds exactly the ones the parser shows, in the same order, if and only if
  // neither the text shown as the request nor an author's name holds any.
  lemma BusquedaEsVista(pedido: string, notas: seq<Nota>, activas: bool)
    requires Limpio(pedido) && TodasValidas(notas)
    ensures var texto := Guardado(pedido, notas);
            Buscar(PrefijoDe(activas), texto) == Mostradas(LeerComentarios(texto).notas, activas)
            <==> SinAjenas(pedido, notas, activas)
  {
    hide NotaValida, Guardado, Buscar, LeerComentarios, Limpio, QuitarMarcas, AutoresSinMarcas, Halladas, Vista;
    LeerGuardado(pedido, notas);
    BuscarEnGuardado(pedido, notas, activas);
    BuscarNada(PrefijoDe(activas));
    HalladasYMostradas(notas, activas);
    if pedido == "" && notas != [] {
      HalladasYMostradas(notas[1..], activas);
      SumaVacia(Halladas(notas[0], activas), HalladasEn(notas[1..], activas), Mostradas(Vistas(notas[1..]), activas));
    }
    SumaVacia(Buscar(PrefijoDe(activas), pedido), HalladasEn(notas, activas), Mostradas(Vistas(notas), activas));
  }

  lemma SumaVacia(a: seq<Marca>, b: seq<Marca>, c: seq<Marca>)
    requires |b| >= |c|
    ensures |b| == |c| ==> (a + b == c <==> a == [] && b == c)
    ensures a + b == c ==> a == [] && |b| == |c|
    ensures [] + b == b
  {
  }

  // After any run, from any request.
  lemma BusquedaTrasCorrida(pedido: string, ks: seq<Cambio>, activas: bool)
    requires Limpio(pedido) && forall i | 0 <= i < |ks| :: CambioValido(ks[i])
    ensures var texto := TextoTras(pedido, ks);
            Buscar(PrefijoDe(activas), texto) == Mostradas(LeerComentarios(texto).notas, activas)
            <==> SinAjenas(PedidoTras(pedido, ks), NotasTras(ks), activas)
  {
    hide NotaValida, Guardado, Buscar, LeerComentarios, Leido, Limpio, CambioValido, SinAjenas;
    Corrida(pedido, ks);
    BusquedaEsVista(PedidoTras(pedido, ks), NotasTras(ks), activas);
  }

  lemma {:induction false} NadaQueCasar(p: string, s: string, i: nat)
    requires p != "" && Buscar(p, s) == [] && i <= |s|
    ensures Casar(p, s[i..]) == None
    decreases |s|
  {
    hide Casar;
    if s == "" {
      NadaCasa(p);
    } else if i == 0 {
      assert s[0..] == s;
    } else {
      NadaQueCasar(p, s[1..], i - 1);
      assert s[1..][i - 1..] == s[i..];
    }
  }

  // A text in which the search finds nothing is left alone by every deletion.
  lemma BorrarSinHallar(s: string, m: Marca)
    requires Buscar(ACTIVA, s) == [] && EsCanonico(m.id)
    ensures Borrar(s, m) == s
  {
    hide Casar, EsCanonico, Construir, Buscar;
    var q := Construir(ACTIVA, m);
    MarcaSinSalto(ACTIVA, m);
    forall i | 0 <= i <= |s| ensures !(q <= s[i..]) {
      NadaQueCasar(ACTIVA, s, i);
      MarcaConCola(s[i..], m);
    }
    ReemplazarNada(s, q, Construir(ELIMINADA, m));
  }

  lemma MarcaConCola(s: string, m: Marca)
    requires EsCanonico(m.id)
    ensures Construir(ACTIVA, m) <= s ==> Casar(ACTIVA, s).Some?
  {
    hide Casar, EsCanonico, Construir;
    var q := Construir(ACTIVA, m);
    if q <= s {
      CasarConCola(ACTIVA, m, s[|q|..]);
      assert q + s[|q|..] == s;
    }
  }

  ghost predicate CambioSinMarcas(k: Cambio) { k.Agregar? ==> Buscar(ACTIVA, k.nota.autor) == [] }

  // Enough at the start: a request that is not blank, and authors, in which the search finds nothing. Then after
  // every run the attachments found are the attachments shown.
  lemma CorridaSinMarcas(pedido: string, ks: seq<Cambio>)
    requires Limpio(pedido) && pedido != "" && Buscar(ACTIVA, pedido) == []
    requires forall i | 0 <= i < |ks| :: CambioValido(ks[i]) && CambioSinMarcas(ks[i])
    ensures PedidoTras(pedido, ks) == pedido
    ensures Buscar(ACTIVA, TextoTras(pedido, ks)) == Mostradas(LeerComentarios(TextoTras(pedido, ks)).notas, true)
  {
    hide Buscar, LeerComentarios, Limpio, CambioValido, CambioSinMarcas;
    BusquedaTrasCorrida(pedido, ks, true);
    SiguenSinMarcas(pedido, ks);
  }

  lemma {:induction false} SiguenSinMarcas(pedido: string, ks: seq<Cambio>)
    requires Buscar(ACTIVA, pedido) == []
    requires forall i | 0 <= i < |ks| :: CambioValido(ks[i]) && CambioSinMarcas(ks[i])
    ensures PedidoTras(pedido, ks) == pedido && AutoresSinMarcas(NotasTras(ks), true)
  {
    hide Buscar, NotaValida, EsCanonico, Borrar;
    if ks != [] {
      var antes, k := ks[..|ks| - 1], ks[|ks| - 1];
      assert CambioValido(k) && CambioSinMarcas(k);
      SiguenSinMarcas(pedido, antes);
      if k.Eliminar? {
        BorrarSinHallar(pedido, k.marca);
        forall i | 0 <= i < |NotasTras(antes)|
          ensures Borrar(NotasTras(antes)[i].autor, k.marca) == NotasTras(antes)[i].autor
        {
          BorrarSinHallar(NotasTras(antes)[i].autor, k.marca);
        }
      }
    }
  }

  // ------------------------------------------------------------------ two texts where they differ

  // A visitor types a mark as the request: the search takes it for an attachment, the parser shows no note.
  lemma PedidoConMarca(m: Marca)
    requires EsCanonico(m.id)
    ensures var p := Normalizar(Construir(ACTIVA, m));
            Buscar(ACTIVA, p) == [m] && LeerComentarios(p) == Comentarios("", [], false)
  {
    hide EsCanonico, Normalizar, Limpio, LeerComentarios, SinEspacios, Construir, NotaValida;
    var l := LineaMarca(true, m);
    var p := Construir(ACTIVA, m);
    MarcaSinEspacios(l);
    NormalizarSinEspacios(p);
    BuscarMarca(l, true);
    LeerGuardado(p, []);
    SinNotas(p);
    QuitarMarca(m);
  }

  lemma NormalizarSinEspacios(s: string)
    requires SinEspacios(s)
    ensures Normalizar(s) == s && Limpio(s)
  {
    NormalizarPalabra("", s);
    assert "" + s == s;
  }

  lemma {:induction false} NormalizarPalabra(palabra: string, s: string)
    requires SinEspacios(s)
    ensures NormalizarDesde("", palabra, s) == palabra + s
    decreases |s|
  {
    if s == "" {
      assert palabra + s == palabra;
    } else {
      NormalizarPalabra(palabra + [s[0]], s[1..]);
      assert palabra + [s[0]] + s[1..] == palabra + s;
    }
  }

  lemma QuitarMarca(m: Marca)
    requires EsCanonico(m.id)
    ensures QuitarMarcas(Construir(ACTIVA, m)) == "" && Construir(ACTIVA, m) != ""
  {
    hide EsCanonico, Casar;
    var s := Construir(ACTIVA, m);
    CasarConstruido(ACTIVA, m);
    assert s[|s|..] == "";
    assert Quitar(ACTIVA, s) == Quitar(ACTIVA, "") == "";
  }

  // A lead registered without comments, and its first note with one attachment: the search finds it, the parser
  // shows the note as the request and no attachment.
  lemma PrimeraNotaSinPedido(n: Nota, m: Marca)
    requires NotaValida(n) && n.marcas == [LineaMarca(true, m)] && Buscar(ACTIVA, n.autor) == []
    ensures var texto := Anexar(Normalizar(""), Fragmento(n));
            Buscar(ACTIVA, texto) == [m] && Mostradas(LeerComentarios(texto).notas, true) == []
  {
    hide NotaValida, Buscar, LeerComentarios, Fragmento, Anexar, Cola;
    assert TodasValidas([n]);
    AnexarGuardado("", [], n);
    assert [] + [n] == [n] && Normalizar("") == "";
    SinNotas("");
    LeerGuardado("", [n]);
    BuscarEnGuardado("", [n], true);
    BuscarNada(ACTIVA);
    MarcasDeUna(n, m);
    SinVistas();
  }

  lemma MarcasDeUna(n: Nota, m: Marca)
    requires n.marcas == [LineaMarca(true, m)] && Buscar(ACTIVA, n.autor) == []
    ensures HalladasEn([n], true) == [m] && [] + [m] == [m] && [n][1..] == []
  {
    hide Buscar;
    assert n.marcas[1..] == [];
    assert MarcasDe(n.marcas, true) == [m];
  }
}
