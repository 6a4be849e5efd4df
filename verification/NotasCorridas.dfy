// Runs over one lead's comments: appending notes and deleting attachments, seen through the parser.
module NotasCorridas {
  import opened Texto
  import opened Marcas
  import opened Notas

  // ------------------------------------------------------------------ appending

  function Anexadas(comentarios: string, notas: seq<Nota>): string {
    if notas == [] then comentarios
    else Anexar(Anexadas(comentarios, notas[..|notas| - 1]), Fragmento(notas[|notas| - 1]))
  }

  lemma FragmentoValido(n: Nota)
    requires NotaValida(n)
    ensures PedidoValido(Fragmento(n)) && Strip(Fragmento(n)) == Fragmento(n)
  {
    hide NotaValida, Fragmento;
    FragmentoSuelto(n);
    StripRecortado(Fragmento(n));
  }

  // ------------------------------------------------------------------ deleting one attachment

  function Marcada(l: LineaMarca, m: Marca): LineaMarca {
    if l == LineaMarca(true, m) then LineaMarca(false, m) else l
  }

  function LineasMarcadas(ms: seq<LineaMarca>, m: Marca): (r: seq<LineaMarca>)
    ensures |r| == |ms|
  {
    seq(|ms|, i requires 0 <= i < |ms| => Marcada(ms[i], m))
  }

  // The replacement works on the raw text: the author's name is part of it.
  function NotaMarcada(n: Nota, m: Marca): Nota {
    n.(autor := Borrar(n.autor, m), marcas := LineasMarcadas(n.marcas, m))
  }

  function NotasMarcadas(notas: seq<Nota>, m: Marca): (r: seq<Nota>)
    ensures |r| == |notas|
  {
    seq(|notas|, i requires 0 <= i < |notas| => NotaMarcada(notas[i], m))
  }

  // replace_attachment_mark on the text, for the mark m of delete_attachment.
  function Borrar(comentarios: string, m: Marca): string {
    Reemplazar(comentarios, Construir(ACTIVA, m), Construir(ELIMINADA, m))
  }

  lemma MarcaSinSalto(p: string, m: Marca)
    requires EsCanonico(m.id) && (p == ACTIVA || p == ELIMINADA)
    ensures Construir(p, m) != "" && '\n' !in Construir(p, m) && p <= Construir(p, m)
    ensures forall i | 0 < i < |Construir(p, m)| :: Construir(p, m)[i] != '['
    ensures forall i | 0 <= i < |Construir(p, m)| - 1 :: Construir(p, m)[i] != ']'
    ensures Construir(p, m)[|Construir(p, m)| - 1] == ']'
  {
    var s := Construir(p, m);
    var k := |p| + |Nombre(m.tipo)|;
    assert s == p + Nombre(m.tipo) + ":" + m.id + "]";
    forall i | 0 <= i < |s| ensures s[i] != '\n' && (i > 0 ==> s[i] != '[') && (i < |s| - 1 ==> s[i] != ']') {
      if i < |p| { assert s[i] == p[i]; }
      else if i < k { assert s[i] == Nombre(m.tipo)[i - |p|]; }
      else if k < i < |s| - 1 {
        assert s[i] == m.id[i - k - 1];
        assert EsHex(m.id[i - k - 1]) || m.id[i - k - 1] == '-';
      }
    }
  }

  lemma PrefijoDePrefijo(p: string, q: string, t: string)
    requires p <= q
    ensures q <= t ==> p <= t
  {
  }

  lemma ContieneMenos(s: string, p: string, q: string)
    requires p <= q && !Contiene(s, p)
    ensures !Contiene(s, q)
  {
    forall i | 0 <= i <= |s| ensures !(q <= s[i..]) {
      PrefijoDePrefijo(p, q, s[i..]);
    }
  }

  lemma BorrarLinea(s: string, m: Marca)
    requires EsCanonico(m.id) && !Contiene(s, ACTIVA)
    ensures Borrar(s, m) == s
  {
    hide EsCanonico, Construir, Contiene, Reemplazar;
    MarcaSinSalto(ACTIVA, m);
    ContieneMenos(s, ACTIVA, Construir(ACTIVA, m));
    ReemplazarNada(s, Construir(ACTIVA, m), Construir(ELIMINADA, m));
  }

  lemma Difiere(p: string, s: string, k: nat)
    requires k < |p| && k < |s| && s[k] != p[k]
    ensures !(p <= s)
  {
  }

  // What a note starts with, before the author's name.
  function Apertura(n: Nota): string { "[" + n.ts + "] " }

  // No mark starts in it.
  lemma AperturaSinMarca(n: Nota, p: string)
    requires EsFecha(n.ts) && (p == ACTIVA || p == ELIMINADA)
    ensures Cabecera(n) == Apertura(n) + n.autor
    ensures forall i | 0 <= i < |Apertura(n)| :: !(p <= Cabecera(n)[i..])
  {
    var h := Cabecera(n);
    assert h == Apertura(n) + n.autor;
    forall i | 0 <= i < 19 ensures !(p <= h[i..]) {
      if i == 0 {
        assert h[0..][1] == n.ts[0];
        Difiere(p, h[0..], 1);
      } else {
        assert i <= 16 ==> h[i] == n.ts[i - 1];
        assert h[i..][0] == h[i] != '[';
        Difiere(p, h[i..], 0);
      }
    }
  }

  lemma CabeceraBorrada(n: Nota, m: Marca)
    requires EsFecha(n.ts) && EsCanonico(m.id)
    ensures Borrar(Cabecera(n), m) == Cabecera(NotaMarcada(n, m))
  {
    hide EsCanonico, Construir, Reemplazar, EsFecha, Cabecera;
    var a, q := Apertura(n), Construir(ACTIVA, m);
    AperturaSinMarca(n, ACTIVA);
    AperturaSinMarca(NotaMarcada(n, m), ACTIVA);
    MarcaSinSalto(ACTIVA, m);
    forall i | 0 <= i < |a| ensures !(q <= (a + n.autor)[i..]) {
      PrefijoDePrefijo(ACTIVA, q, (a + n.autor)[i..]);
    }
    ReemplazarTras(a, n.autor, q, Construir(ELIMINADA, m));
  }

  // Two printed marks: the text of one starts another only if they are the same.
  lemma MarcasDistintas(l: LineaMarca, m: Marca)
    requires EsCanonico(l.marca.id) && EsCanonico(m.id) && l != LineaMarca(true, m)
    ensures !Contiene(TextoDeMarca(l), Construir(ACTIVA, m))
  {
    var s, p := TextoDeMarca(l), Construir(ACTIVA, m);
    MarcaSinSalto(Prefijo(l), l.marca);
    MarcaSinSalto(ACTIVA, m);
    if i :| 0 <= i <= |s| && p <= s[i..] {
      Iguales(p, s[i..]);
      assert s[i] == '[' && i == 0;
      assert s[0..] == s;
      assert s[8] == p[8] == ':';
      assert l.activa;
      assert s[|p| - 1] == ']';
      assert |p| == |s| && p == s;
      CasarConstruido(ACTIVA, m);
      CasarConstruido(ACTIVA, l.marca);
    }
  }

  lemma BorrarMarca(l: LineaMarca, m: Marca)
    requires EsCanonico(l.marca.id) && EsCanonico(m.id)
    ensures Borrar(TextoDeMarca(l), m) == TextoDeMarca(Marcada(l, m))
  {
    hide EsCanonico;
    MarcaSinSalto(ACTIVA, m);
    if l == LineaMarca(true, m) {
      var p, q := Construir(ACTIVA, m), Construir(ELIMINADA, m);
      hide Construir;
      assert p[|p|..] == "" && q + "" == q;
      assert Reemplazar(p, p, q) == q + Reemplazar("", p, q);
    } else {
      MarcasDistintas(l, m);
      ReemplazarNada(TextoDeMarca(l), Construir(ACTIVA, m), Construir(ELIMINADA, m));
    }
  }

  lemma BorrarSeparado(a: string, b: string, m: Marca)
    requires EsCanonico(m.id)
    ensures Borrar(a + "\n" + b, m) == Borrar(a, m) + "\n" + Borrar(b, m)
  {
    hide EsCanonico, Construir, Reemplazar;
    MarcaSinSalto(ACTIVA, m);
    ReemplazarLinea(a, b, Construir(ACTIVA, m), Construir(ELIMINADA, m));
  }

  lemma {:induction false} BorrarUnidas(ls: seq<string>, rs: seq<string>, m: Marca)
    requires EsCanonico(m.id) && |ls| == |rs| && forall i | 0 <= i < |ls| :: Borrar(ls[i], m) == rs[i]
    ensures Borrar(Unir(ls), m) == Unir(rs)
  {
    hide EsCanonico, Borrar;
    if ls == [] {
      BorrarVacio(m);
    } else if |ls| > 1 {
      BorrarSeparado(ls[0], Unir(ls[1..]), m);
      BorrarUnidas(ls[1..], rs[1..], m);
    }
  }

  lemma BorrarVacio(m: Marca)
    ensures Borrar("", m) == ""
  {
  }

  lemma BorrarEnNota(n: Nota, m: Marca)
    requires NotaValida(n) && EsCanonico(m.id)
    ensures Borrar(Fragmento(n), m) == Fragmento(NotaMarcada(n, m))
  {
    hide EsCanonico, Borrar, Contiene, Fragmento, Limpio, EsFecha, TextoDeMarca, Cabecera;
    var n' := NotaMarcada(n, m);
    var ls, rs := LineasDe(n), LineasDe(n');
    FragmentoUnido(n);
    FragmentoUnido(n');
    CabeceraBorrada(n, m);
    BorrarLinea(n.texto, m);
    forall i | 0 <= i < |ls| ensures Borrar(ls[i], m) == rs[i] {
      if i >= 2 {
        BorrarMarca(n.marcas[i - 2], m);
      }
    }
    BorrarUnidas(ls, rs, m);
  }

  lemma BorrarDoble(a: string, b: string, m: Marca)
    requires EsCanonico(m.id)
    ensures Borrar(a + "\n\n" + b, m) == Borrar(a, m) + "\n\n" + Borrar(b, m)
  {
    hide EsCanonico, Borrar;
    assert a + "\n\n" + b == a + "\n" + ("" + "\n" + b);
    BorrarSeparado(a, "" + "\n" + b, m);
    BorrarSeparado("", b, m);
    BorrarVacio(m);
    var x, y := Borrar(a, m), Borrar(b, m);
    assert x + "\n" + ("" + "\n" + y) == x + "\n\n" + y;
  }

  lemma {:induction false} BorrarEnCola(notas: seq<Nota>, m: Marca)
    requires notas != [] && EsCanonico(m.id)
    requires forall i | 0 <= i < |notas| :: NotaValida(notas[i])
    ensures Borrar(Cola(notas), m) == Cola(NotasMarcadas(notas, m))
  {
    hide EsCanonico, NotaValida, Fragmento, Borrar, Contiene, NotaMarcada;
    BorrarEnNota(notas[0], m);
    if |notas| > 1 {
      BorrarEnCola(notas[1..], m);
      assert NotasMarcadas(notas, m)[1..] == NotasMarcadas(notas[1..], m);
      BorrarDoble(Fragmento(notas[0]), Cola(notas[1..]), m);
    }
  }

  // Deleting an attachment rewrites exactly its active marks, wherever they are: at the foot of the notes, and in
  // the two places the server does not neutralize, the request and the authors' names.
  lemma BorrarEnDocumento(pedido: string, notas: seq<Nota>, m: Marca)
    requires EsCanonico(m.id) && forall i | 0 <= i < |notas| :: NotaValida(notas[i])
    ensures Borrar(Documento(pedido, notas), m) == Documento(Borrar(pedido, m), NotasMarcadas(notas, m))
  {
    hide EsCanonico, NotaValida, Borrar, Contiene, Cola;
    if notas != [] {
      BorrarEnCola(notas, m);
      BorrarDoble(pedido, Cola(notas), m);
    }
  }

  // Clean text stays clean.
  lemma BorrarLimpio(s: string, m: Marca)
    requires Limpio(s) && EsCanonico(m.id)
    ensures Limpio(Borrar(s, m)) && (Borrar(s, m) == "" <==> s == "")
  {
    hide EsCanonico, Construir, EsEspacio;
    MarcaLinea(LineaMarca(false, m));
    MarcaSinSalto(ACTIVA, m);
    MarcaSinEspacios(LineaMarca(false, m));
    ReemplazarBorde(s, Construir(ACTIVA, m), Construir(ELIMINADA, m));
  }

  lemma MarcadaValida(n: Nota, m: Marca)
    requires NotaValida(n) && EsCanonico(m.id)
    ensures NotaValida(NotaMarcada(n, m))
  {
    hide EsCanonico, EsFecha, Limpio, Contiene, Borrar;
    BorrarLimpio(n.autor, m);
  }

  // On the reader's side the mark leaves the attachments and joins the deleted ones, once for each active
  // occurrence; date, author, text and every other mark stay.
  lemma {:induction false} MarcaMudada(ms: seq<LineaMarca>, m: Marca, x: Marca)
    ensures Veces(LineasMarcadas(ms, m), true, x) == if x == m then 0 else Veces(ms, true, x)
    ensures Veces(LineasMarcadas(ms, m), false, x) == Veces(ms, false, x) + if x == m then Veces(ms, true, m) else 0
  {
    if ms == [] {
      assert LineasMarcadas(ms, m) == [];
    } else {
      MarcaMudada(ms[1..], m, x);
      assert LineasMarcadas(ms, m)[1..] == LineasMarcadas(ms[1..], m);
      UnaMas(ms, true, x);
      UnaMas(ms, true, m);
      UnaMas(ms, false, x);
      UnaMas(LineasMarcadas(ms, m), true, x);
      UnaMas(LineasMarcadas(ms, m), false, x);
    }
  }

  // How often a reader sees x among the attachments (or the deleted ones) of these lines.
  ghost function Veces(ms: seq<LineaMarca>, activas: bool, x: Marca): nat {
    multiset(MarcasDe(ms, activas))[x]
  }

  lemma UnaMas(ms: seq<LineaMarca>, activas: bool, x: Marca)
    requires ms != []
    ensures Veces(ms, activas, x) == Veces(ms[1..], activas, x) + if ms[0] == LineaMarca(activas, x) then 1 else 0
  {
    var cabeza := if ms[0].activa == activas then [ms[0].marca] else [];
    assert MarcasDe(ms, activas) == cabeza + MarcasDe(ms[1..], activas);
  }

  // ------------------------------------------------------------------ runs

  datatype Cambio = Agregar(nota: Nota) | Eliminar(marca: Marca)

  function EnTexto(c: string, k: Cambio): string {
    match k case Agregar(n) => Anexar(c, Fragmento(n)) case Eliminar(m) => Borrar(c, m)
  }

  function EnNotas(notas: seq<Nota>, k: Cambio): seq<Nota> {
    match k case Agregar(n) => notas + [n] case Eliminar(m) => NotasMarcadas(notas, m)
  }

  function TextoTras(c: string, ks: seq<Cambio>): string {
    if ks == [] then c else EnTexto(TextoTras(c, ks[..|ks| - 1]), ks[|ks| - 1])
  }

  function NotasTras(ks: seq<Cambio>): seq<Nota> {
    if ks == [] then [] else EnNotas(NotasTras(ks[..|ks| - 1]), ks[|ks| - 1])
  }

  // What the deletions leave of the request.
  function PedidoTras(pedido: string, ks: seq<Cambio>): string {
    if ks == [] then pedido
    else
      var antes := PedidoTras(pedido, ks[..|ks| - 1]);
      match ks[|ks| - 1] case Agregar(_) => antes case Eliminar(m) => Borrar(antes, m)
  }

  ghost predicate CambioValido(k: Cambio) {
    match k
    case Agregar(n) => NotaValida(n)
    case Eliminar(m) => EsCanonico(m.id)
  }

  ghost predicate TodasValidas(notas: seq<Nota>) { forall i | 0 <= i < |notas| :: NotaValida(notas[i]) }

  // comentarios of a request and its notes: a blank request gives its place to the first note.
  function Guardado(pedido: string, notas: seq<Nota>): string {
    if pedido == "" && notas != [] then Cola(notas) else Documento(pedido, notas)
  }

  // What the parser makes of it: in place of a blank request it shows the first note.
  function Leido(pedido: string, notas: seq<Nota>): Comentarios {
    if pedido != "" then Comentarios(QuitarMarcas(pedido), Vistas(notas), false)
    else if notas == [] then Comentarios("", [], false)
    else Comentarios(QuitarMarcas(Fragmento(notas[0])), Vistas(notas[1..]), false)
  }

  lemma ColaEsDocumento(notas: seq<Nota>)
    requires notas != []
    ensures Cola(notas) == Documento(Fragmento(notas[0]), notas[1..])
  {
  }

  lemma LimpioEsPedido(p: string)
    requires Limpio(p) && p != ""
    ensures PedidoValido(p) && Strip(p) == p
  {
    hide LStrip, RStrip, Strip;
    StripRecortado(p);
    assert !EsEspacio(p[0]);
    LimpioUnaLinea(p);
    assert '\n' !in p by { assert forall i | 0 <= i < |p| :: p[i] != '\n'; }
    UnaLineaEsValido(p);
  }

  lemma LeerGuardado(pedido: string, notas: seq<Nota>)
    requires Limpio(pedido) && TodasValidas(notas)
    ensures LeerComentarios(Guardado(pedido, notas)) == Leido(pedido, notas)
  {
    hide NotaValida, Fragmento, LeerComentarios, PedidoValido, QuitarMarcas, Vistas, Cola, Limpio;
    if pedido != "" {
      LimpioEsPedido(pedido);
      IdaYVuelta(pedido, notas);
    } else if notas == [] {
      LeerVacio();
    } else {
      ColaEsDocumento(notas);
      FragmentoValido(notas[0]);
      IdaYVuelta(Fragmento(notas[0]), notas[1..]);
    }
  }

  lemma LeerVacio()
    ensures LeerComentarios("") == Comentarios("", [], false)
  {
  }

  lemma AnexarGuardado(pedido: string, notas: seq<Nota>, n: Nota)
    requires Limpio(pedido) && TodasValidas(notas)
    ensures Anexar(Guardado(pedido, notas), Fragmento(n)) == Guardado(pedido, notas + [n])
  {
    hide NotaValida, Fragmento, PedidoValido, Anexar, Documento, Limpio, Cola;
    if pedido != "" {
      LimpioEsPedido(pedido);
      AnexarExtiende(pedido, notas, n);
    } else if notas == [] {
      PrimeraNota(n);
    } else {
      ColaEsDocumento(notas);
      ColaEsDocumento(notas + [n]);
      FragmentoValido(notas[0]);
      AnexarExtiende(Fragmento(notas[0]), notas[1..], n);
      assert (notas + [n])[1..] == notas[1..] + [n];
    }
  }

  lemma PrimeraNota(n: Nota)
    ensures Anexar("", Fragmento(n)) == Cola([] + [n]) && Documento("", []) == ""
  {
    assert [] + [n] == [n];
  }

  lemma BorrarGuardado(pedido: string, notas: seq<Nota>, m: Marca)
    requires Limpio(pedido) && TodasValidas(notas) && EsCanonico(m.id)
    ensures Borrar(Guardado(pedido, notas), m) == Guardado(Borrar(pedido, m), NotasMarcadas(notas, m))
    ensures Limpio(Borrar(pedido, m)) && (Borrar(pedido, m) == "" <==> pedido == "")
    ensures TodasValidas(NotasMarcadas(notas, m))
  {
    hide NotaValida, Borrar, Cola, Documento, Limpio, EsCanonico, NotaMarcada;
    BorrarLimpio(pedido, m);
    forall i | 0 <= i < |notas| ensures NotaValida(NotaMarcada(notas[i], m)) {
      MarcadaValida(notas[i], m);
    }
    if pedido == "" && notas != [] {
      BorrarEnCola(notas, m);
    } else {
      BorrarEnDocumento(pedido, notas, m);
    }
  }

  // From any request, after any run of appended notes and deleted attachments, the stored text is the printed form
  // of the request and the notes with their marks as they stand, and the parser reads exactly those notes, but for
  // the first when there was no request.
  lemma {:induction false} Corrida(pedido: string, ks: seq<Cambio>)
    requires Limpio(pedido) && forall i | 0 <= i < |ks| :: CambioValido(ks[i])
    ensures TextoTras(pedido, ks) == Guardado(PedidoTras(pedido, ks), NotasTras(ks))
    ensures LeerComentarios(TextoTras(pedido, ks)) == Leido(PedidoTras(pedido, ks), NotasTras(ks))
    ensures Limpio(PedidoTras(pedido, ks)) && (PedidoTras(pedido, ks) == "" <==> pedido == "")
    ensures TodasValidas(NotasTras(ks))
  {
    hide NotaValida, EsCanonico, Limpio, LeerComentarios, Leido, Guardado, Anexar, Borrar, Fragmento;
    if ks == [] {
      SinNotas(pedido);
    } else {
      var antes, k := ks[..|ks| - 1], ks[|ks| - 1];
      assert CambioValido(k);
      Corrida(pedido, antes);
      match k {
        case Agregar(n) => AnexarGuardado(PedidoTras(pedido, antes), NotasTras(antes), n);
        case Eliminar(m) => BorrarGuardado(PedidoTras(pedido, antes), NotasTras(antes), m);
      }
    }
    LeerGuardado(PedidoTras(pedido, ks), NotasTras(ks));
  }

  lemma SinNotas(pedido: string)
    ensures Guardado(pedido, []) == pedido
  {
  }

  // The form stores the request with its white space collapsed, which is clean text, whatever was typed.
  lemma PedidoDelFormulario(texto: string)
    ensures Limpio(Normalizar(texto))
  {
    AutorLimpio(texto);
  }

  lemma {:induction false} AnexadasGuardado(pedido: string, notas: seq<Nota>)
    requires Limpio(pedido) && TodasValidas(notas)
    ensures Anexadas(pedido, notas) == Guardado(pedido, notas)
  {
    hide NotaValida, Limpio, Anexar, Fragmento;
    if notas == [] {
      SinNotas(pedido);
    } else {
      var antes, n := notas[..|notas| - 1], notas[|notas| - 1];
      AnexadasGuardado(pedido, antes);
      AnexarGuardado(pedido, antes, n);
      assert antes + [n] == notas;
    }
  }

  // A lead's request is stored with its white space collapsed. From it, every appended note is read back, in
  // order and complete, exactly when the request was not blank; a blank request loses the first note to the
  // place of the request.
  lemma TodasLasNotas(pedido: string, notas: seq<Nota>)
    requires notas != [] && forall i | 0 <= i < |notas| :: NotaValida(notas[i])
    ensures var p := Normalizar(pedido);
            && !LeerComentarios(Anexadas(p, notas)).respaldo
            && (LeerComentarios(Anexadas(p, notas)).notas == Vistas(notas) <==> p != "")
            && (p == "" ==> LeerComentarios(Anexadas(p, notas)).notas == Vistas(notas[1..]))
  {
    hide NotaValida, LeerComentarios, Vista, QuitarMarcas, Normalizar, Fragmento, Guardado;
    var p := Normalizar(pedido);
    PedidoDelFormulario(pedido);
    AnexadasGuardado(p, notas);
    LeerGuardado(p, notas);
    CuantosFragmentos(notas);
    CuantosFragmentos(notas[1..]);
  }
}
