// Attachments across two systems: objects in storage, and the raw comments of a lead, in which the service looks
// marks up; with failures at any step.
module Adjuntos {
  import opened Opcion
  import opened Texto
  import opened Marcas
  import opened Notas
  import opened NotasCorridas
  import opened NotasBusqueda
  import opened NotasBorrado
  import opened Almacen
  import I = NotaImpresa

  datatype Salida = Hecho | NoEncontrado | Invalido | Excepcion

  const MAX_ARCHIVOS := 5

  // ------------------------------------------------------------------ the text and what it stands for

  // The request as the deletions have left it, and the notes.
  datatype Ficha = Ficha(pedido: string, notas: seq<Nota>)

  function Lineas(notas: seq<Nota>): seq<LineaMarca> {
    if notas == [] then [] else notas[0].marcas + Lineas(notas[1..])
  }

  // texto is what the lead's request and notes print, and ls are the mark lines of the notes.
  ghost predicate Anclado(texto: string, f: Ficha, ls: seq<LineaMarca>) {
    Limpio(f.pedido) && TodasValidas(f.notas) && texto == Guardado(f.pedido, f.notas) && ls == Lineas(f.notas)
  }

  ghost predicate Textos(c: map<Id, string>, f: map<Id, Ficha>, m: map<Id, seq<LineaMarca>>) {
    c.Keys == f.Keys == m.Keys && forall lead | lead in c :: Anclado(c[lead], f[lead], m[lead])
  }

  lemma {:induction false} LineasMas(notas: seq<Nota>, n: Nota)
    ensures Lineas(notas + [n]) == Lineas(notas) + n.marcas
  {
    if notas == [] {
      assert [n][1..] == [] && n.marcas + [] == n.marcas && [] + [n] == [n];
    } else {
      assert (notas + [n])[1..] == notas[1..] + [n];
      LineasMas(notas[1..], n);
      assert notas[0].marcas + (Lineas(notas[1..]) + n.marcas) == notas[0].marcas + Lineas(notas[1..]) + n.marcas;
    }
  }

  lemma {:induction false} LineasDeMarcadas(notas: seq<Nota>, m: Marca)
    ensures Lineas(NotasMarcadas(notas, m)) == LineasMarcadas(Lineas(notas), m)
  {
    hide Borrar;
    if notas != [] {
      assert NotasMarcadas(notas, m)[1..] == NotasMarcadas(notas[1..], m);
      LineasDeMarcadas(notas[1..], m);
    }
  }

  lemma AnclaConNota(texto: string, f: Ficha, ls: seq<LineaMarca>, n: Nota)
    requires Anclado(texto, f, ls) && NotaValida(n)
    ensures Anclado(Anexar(texto, Fragmento(n)), f.(notas := f.notas + [n]), ls + n.marcas)
  {
    hide NotaValida, Limpio, Anexar, Fragmento, Guardado;
    AnexarGuardado(f.pedido, f.notas, n);
    LineasMas(f.notas, n);
  }

  lemma AnclaConBorrado(texto: string, f: Ficha, ls: seq<LineaMarca>, m: Marca)
    requires Anclado(texto, f, ls) && EsCanonico(m.id)
    ensures Anclado(Borrar(texto, m), Ficha(Borrar(f.pedido, m), NotasMarcadas(f.notas, m)), LineasMarcadas(ls, m))
  {
    hide NotaValida, Limpio, Borrar, Guardado, EsCanonico;
    BorrarGuardado(f.pedido, f.notas, m);
    LineasDeMarcadas(f.notas, m);
  }

  lemma AnclaNueva(texto: string)
    ensures Anclado(Normalizar(texto), Ficha(Normalizar(texto), []), [])
  {
    hide Normalizar, Limpio;
    PedidoDelFormulario(texto);
    SinNotas(Normalizar(texto));
  }

  // ------------------------------------------------------------------ what a search finds

  lemma {:induction false} MarcasDeSuma(a: seq<LineaMarca>, b: seq<LineaMarca>, activas: bool)
    ensures MarcasDe(a + b, activas) == MarcasDe(a, activas) + MarcasDe(b, activas)
  {
    if a == [] {
      assert a + b == b;
    } else {
      assert (a + b)[1..] == a[1..] + b;
      MarcasDeSuma(a[1..], b, activas);
      var cabeza := if a[0].activa == activas then [a[0].marca] else [];
      Asociar(cabeza, MarcasDe(a[1..], activas), MarcasDe(b, activas));
    }
  }

  lemma {:induction false} MostradasSonLineas(notas: seq<Nota>, activas: bool)
    ensures Mostradas(Vistas(notas), activas) == MarcasDe(Lineas(notas), activas)
  {
    if notas != [] {
      assert Vistas(notas)[1..] == Vistas(notas[1..]);
      MostradasSonLineas(notas[1..], activas);
      MarcasDeSuma(notas[0].marcas, Lineas(notas[1..]), activas);
    }
  }

  // The marks found in a lead's comments are those of its notes exactly when the search finds none in the request
  // nor in an author's name.
  lemma MarcasBuscadas(texto: string, f: Ficha, ls: seq<LineaMarca>)
    requires Anclado(texto, f, ls)
    ensures Buscar(ACTIVA, texto) == MarcasDe(ls, true)
            <==> Buscar(ACTIVA, f.pedido) == [] && AutoresSinMarcas(f.notas, true)
  {
    hide NotaValida, Limpio, Guardado, Buscar, AutoresSinMarcas, Vistas, Mostradas;
    BuscarEnGuardado(f.pedido, f.notas, true);
    HalladasYMostradas(f.notas, true);
    MostradasSonLineas(f.notas, true);
    SumaVacia(Buscar(ACTIVA, f.pedido), HalladasEn(f.notas, true), MarcasDe(ls, true));
  }

  // A mark the search finds has its object, of its own type, unless a delete of it has started.
  ghost predicate Respaldada(a: map<Clave, Tipo>, iniciados: set<Clave>, lead: Id, m: Marca) {
    var k := Clave(lead, m.id);
    (k in a || k in iniciados) && (k in a ==> a[k] == m.tipo)
  }

  ghost predicate TodasRespaldadas(a: map<Clave, Tipo>, iniciados: set<Clave>, lead: Id, ms: seq<Marca>) {
    forall m | m in ms :: Respaldada(a, iniciados, lead, m)
  }

  lemma {:induction false} MarcaDeLinea(ls: seq<LineaMarca>, m: Marca)
    requires m in MarcasDe(ls, true)
    ensures exists i :: 0 <= i < |ls| && ls[i] == LineaMarca(true, m)
  {
    if ls[0] == LineaMarca(true, m) {
    } else {
      MarcaDeLinea(ls[1..], m);
      var i :| 0 <= i < |ls[1..]| && ls[1..][i] == LineaMarca(true, m);
      assert ls[i + 1] == LineaMarca(true, m);
    }
  }

  lemma LineasRespaldadas(a: map<Clave, Tipo>, marcas: map<Id, seq<LineaMarca>>, usadas: set<Clave>,
                          iniciados: set<Clave>, lead: Id)
    requires Acordes(a, marcas, usadas, iniciados) && lead in marcas
    ensures TodasRespaldadas(a, iniciados, lead, MarcasDe(marcas[lead], true))
  {
    forall m | m in MarcasDe(marcas[lead], true) ensures Respaldada(a, iniciados, lead, m) {
      MarcaDeLinea(marcas[lead], m);
      var i :| 0 <= i < |marcas[lead]| && marcas[lead][i] == LineaMarca(true, m);
      assert Coherente(a, usadas, iniciados, Clave(lead, m.id), marcas[lead][i]);
    }
  }

  // The marks that no note put there: in the request and in the authors' names.
  function Ajenas(f: Ficha): seq<Marca> { Buscar(ACTIVA, f.pedido) + DeAutores(f.notas) }

  function DeAutores(notas: seq<Nota>): seq<Marca> {
    if notas == [] then [] else Buscar(ACTIVA, notas[0].autor) + DeAutores(notas[1..])
  }

  lemma {:induction false} HalladasPartidas(notas: seq<Nota>)
    ensures forall m: Marca ::
              m in HalladasEn(notas, true) <==> m in DeAutores(notas) || m in MarcasDe(Lineas(notas), true)
  {
    hide Buscar;
    if notas != [] {
      HalladasPartidas(notas[1..]);
      MarcasDeSuma(notas[0].marcas, Lineas(notas[1..]), true);
    }
  }

  // Storage and the search agree exactly when they agree on the marks no note put there; so they do for every lead
  // without such marks.
  lemma BusquedaRespaldada(a: map<Clave, Tipo>, marcas: map<Id, seq<LineaMarca>>, usadas: set<Clave>,
                           iniciados: set<Clave>, lead: Id, texto: string, f: Ficha)
    requires Acordes(a, marcas, usadas, iniciados) && lead in marcas && Anclado(texto, f, marcas[lead])
    ensures TodasRespaldadas(a, iniciados, lead, Buscar(ACTIVA, texto))
            <==> TodasRespaldadas(a, iniciados, lead, Ajenas(f))
    ensures Buscar(ACTIVA, f.pedido) == [] && AutoresSinMarcas(f.notas, true)
            ==> TodasRespaldadas(a, iniciados, lead, Buscar(ACTIVA, texto))
  {
    hide Acordes, NotaValida, Limpio, Guardado, Buscar, Respaldada;
    BuscarEnGuardado(f.pedido, f.notas, true);
    HalladasPartidas(f.notas);
    LineasRespaldadas(a, marcas, usadas, iniciados, lead);
    MarcasBuscadas(texto, f, marcas[lead]);
  }

  // The state in which they do not: a visitor registers with a mark as the request, and nothing else has happened.
  lemma MarcaSinObjeto(lead: Id, m: Marca)
    requires EsCanonico(m.id)
    ensures var texto := Normalizar(Construir(ACTIVA, m));
            && Anclado(texto, Ficha(texto, []), []) && Buscar(ACTIVA, texto) == [m]
            && !TodasRespaldadas(map[], {}, lead, Buscar(ACTIVA, texto))
  {
    hide Normalizar, EsCanonico, Buscar, Construir, Anclado;
    AnclaNueva(Construir(ACTIVA, m));
    PedidoConMarca(m);
    assert m in [m];
  }

  // In general: with no object of the lead stored and no delete of one started, as when it has just registered, the
  // marks found are backed only if there are none.
  lemma RegistroFresco(a: map<Clave, Tipo>, iniciados: set<Clave>, lead: Id, texto: string)
    requires forall k: Clave | k in a || k in iniciados :: k.lead != lead
    ensures var ms := Buscar(ACTIVA, Normalizar(texto)); TodasRespaldadas(a, iniciados, lead, ms) <==> ms == []
  {
    hide Buscar, Normalizar;
    var ms := Buscar(ACTIVA, Normalizar(texto));
    if ms != [] {
      assert ms[0] in ms && !Respaldada(a, iniciados, lead, ms[0]);
    }
  }

  // next(mark for mark in marks if mark.attachment_id == id)
  function Primera(ms: seq<Marca>, id: string): (r: Option<Marca>)
    ensures r.Some? ==> r.value.id == id && r.value in ms
    ensures r.Some? <==> exists i :: 0 <= i < |ms| && ms[i].id == id
  {
    if ms == [] then None else if ms[0].id == id then Some(ms[0]) else Primera(ms[1..], id)
  }

  // The first mark with this identifier in the raw comments of the lead.
  function Hallada(c: map<Id, string>, lead: Id, id: string): Option<Marca> {
    if lead in c then Primera(Buscar(ACTIVA, c[lead]), id) else None
  }

  // ------------------------------------------------------------------ what a deletion leaves to be found

  lemma {:induction false} AutoresSinAjenas(notas: seq<Nota>)
    ensures DeAutores(notas) == [] <==> AutoresSinMarcas(notas, true)
  {
    hide Buscar;
    if notas != [] {
      AutoresSinAjenas(notas[1..]);
      AutoresDeLaCola(notas, true);
    }
  }

  lemma AutoresIguales(notas: seq<Nota>, m: Marca)
    requires EsCanonico(m.id) && AutoresSinMarcas(notas, true)
    ensures AutoresSinMarcas(NotasMarcadas(notas, m), true)
  {
    hide Buscar, EsCanonico, Borrar;
    forall i | 0 <= i < |notas| ensures Buscar(ACTIVA, NotasMarcadas(notas, m)[i].autor) == [] {
      BorrarSinHallar(notas[i].autor, m);
    }
  }

  // Of a mark that the notes hold once, a deletion leaves no match when no other mark stands in the text.
  lemma BorradoSinAjenas(texto: string, f: Ficha, ls: seq<LineaMarca>, m: Marca)
    requires Anclado(texto, f, ls) && EsCanonico(m.id) && m in Buscar(ACTIVA, texto)
    requires forall i, j | 0 <= i < j < |ls| :: ls[i].marca.id != ls[j].marca.id
    ensures Ajenas(f) == [] ==> forall x | x in Otras(texto, m) :: x.id != m.id
  {
    hide NotaValida, Limpio, Guardado, Buscar, AutoresSinMarcas, EsCanonico, Borrar, Anclado, Otras, MarcasDe,
         DeAutores;
    if Ajenas(f) == [] {
      AutoresSinAjenas(f.notas);
      MarcasBuscadas(texto, f, ls);
      BorrarSinHallar(f.pedido, m);
      AutoresIguales(f.notas, m);
      AnclaConBorrado(texto, f, ls, m);
      MarcasBuscadas(Borrar(texto, m), Ficha(Borrar(f.pedido, m), NotasMarcadas(f.notas, m)), LineasMarcadas(ls, m));
      BorradoDejaOtras(texto, m);
      NingunaIgual(ls, m);
    }
  }

  lemma NingunaIgual(ls: seq<LineaMarca>, m: Marca)
    requires m in MarcasDe(ls, true)
    requires forall i, j | 0 <= i < j < |ls| :: ls[i].marca.id != ls[j].marca.id
    ensures forall x | x in MarcasDe(LineasMarcadas(ls, m), true) :: x.id != m.id
  {
    hide MarcasDe;
    MarcaDeLinea(ls, m);
    var j :| 0 <= j < |ls| && ls[j] == LineaMarca(true, m);
    forall x | x in MarcasDe(LineasMarcadas(ls, m), true) ensures x.id != m.id {
      MarcaDeLinea(LineasMarcadas(ls, m), x);
      var i :| 0 <= i < |ls| && LineasMarcadas(ls, m)[i] == LineaMarca(true, x);
      assert Marcada(ls[i], m) == LineaMarca(true, x);
      assert i != j;
    }
  }

  // ------------------------------------------------------------------ texts, for all leads

  lemma TextosConNota(c: map<Id, string>, f: map<Id, Ficha>, m: map<Id, seq<LineaMarca>>, lead: Id, n: Nota)
    requires Textos(c, f, m) && lead in c && NotaValida(n)
    ensures Textos(c[lead := Anexar(c[lead], Fragmento(n))],
                   f[lead := f[lead].(notas := f[lead].notas + [n])], m[lead := m[lead] + n.marcas])
  {
    hide Anclado, NotaValida, Anexar, Fragmento;
    AnclaConNota(c[lead], f[lead], m[lead], n);
  }

  lemma TextosConBorrado(c: map<Id, string>, f: map<Id, Ficha>, m: map<Id, seq<LineaMarca>>, lead: Id, x: Marca)
    requires Textos(c, f, m) && lead in c && EsCanonico(x.id)
    ensures Textos(c[lead := Borrar(c[lead], x)],
                   f[lead := Ficha(Borrar(f[lead].pedido, x), NotasMarcadas(f[lead].notas, x))],
                   m[lead := LineasMarcadas(m[lead], x)])
  {
    hide Anclado, EsCanonico, Borrar;
    AnclaConBorrado(c[lead], f[lead], m[lead], x);
  }

  lemma TextosConLead(c: map<Id, string>, f: map<Id, Ficha>, m: map<Id, seq<LineaMarca>>, lead: Id, texto: string)
    requires Textos(c, f, m) && lead !in c
    ensures Textos(c[lead := Normalizar(texto)], f[lead := Ficha(Normalizar(texto), [])], m[lead := []])
  {
    hide Anclado, Normalizar;
    AnclaNueva(texto);
  }

  lemma TextosSinLead(c: map<Id, string>, f: map<Id, Ficha>, m: map<Id, seq<LineaMarca>>, lead: Id)
    requires Textos(c, f, m)
    ensures Textos(c - {lead}, f - {lead}, m - {lead})
  {
    hide Anclado;
  }

  lemma {:induction false} HalladaCanonica(p: string, s: string)
    ensures forall m | m in Buscar(p, s) :: EsCanonico(m.id)
    decreases |s|
  {
    hide Casar, EsCanonico;
    if s != "" {
      match Casar(p, s) {
        case Some((m, n)) =>
          CasarCanonico(p, s);
          HalladaCanonica(p, s[n..]);
        case None =>
          HalladaCanonica(p, s[1..]);
      }
    }
  }

  lemma CasarCanonico(p: string, s: string)
    requires Casar(p, s).Some?
    ensures EsCanonico(Casar(p, s).value.0.id)
  {
    var u := Casar(p, s).value.0.id;
    forall i | 0 <= i < |u| ensures Minus(u[i]) == u[i] { }
    assert Canonico(u) == u;
  }

  // ------------------------------------------------------------------ the service

  class Servicio {
    var almacen: map<Clave, Tipo>
    var comentarios: map<Id, string>
    // What each text stands for, every key ever drawn, and every key a delete was started for.
    ghost var fichas: map<Id, Ficha>
    ghost var marcas: map<Id, seq<LineaMarca>>
    ghost var usadas: set<Clave>
    ghost var iniciados: set<Clave>

    constructor ()
      ensures Valid() && almacen == map[] && comentarios == map[] && iniciados == {}
    {
      almacen, comentarios, fichas, marcas, usadas, iniciados := map[], map[], map[], map[], {}, {};
    }

    ghost predicate Valid()
      reads this
    {
      Textos(comentarios, fichas, marcas) && Acordes(almacen, marcas, usadas, iniciados)
    }

    // The new row of a lead: the request of the form, with its white space collapsed and nothing neutralized.
    method Registrar(lead: Id, texto: string)
      requires Valid() && lead !in comentarios
      modifies this`comentarios, this`fichas, this`marcas
      ensures Valid() && comentarios == old(comentarios)[lead := Normalizar(texto)]
      ensures fichas == old(fichas)[lead := Ficha(Normalizar(texto), [])]
    {
      hide Textos, Acordes, Normalizar;
      assert lead !in marcas by { MismosLeads(comentarios, fichas, marcas); }
      TextosConLead(comentarios, fichas, marcas, lead, texto);
      LeadNuevoMantiene(almacen, marcas, usadas, iniciados, lead);
      comentarios := comentarios[lead := Normalizar(texto)];
      fichas, marcas := fichas[lead := Ficha(Normalizar(texto), [])], marcas[lead := []];
    }

    method Put(k: Clave, tipo: Tipo, resp: Respuesta) returns (ok: bool)
      modifies this`almacen
      ensures ok == resp.Bien?
      ensures almacen == if resp.Efecto() then old(almacen)[k := tipo] else old(almacen)
    {
      if resp.Efecto() {
        almacen := almacen[k := tipo];
      }
      ok := resp.Bien?;
    }

    method Delete(k: Clave, resp: Respuesta) returns (ok: bool)
      modifies this`almacen, this`iniciados
      ensures ok == resp.Bien?
      ensures almacen == if resp.Efecto() then old(almacen) - {k} else old(almacen)
      ensures iniciados == old(iniciados) + {k}
    {
      iniciados := iniciados + {k};
      if resp.Efecto() {
        almacen := almacen - {k};
      }
      ok := resp.Bien?;
    }

    // _delete_uploaded_best_effort: one attempt for each key, whatever the others answer.
    method BorrarSubidos(subidas: seq<Clave>, deletes: seq<Respuesta>)
      requires |subidas| <= |deletes| && Distintas(subidas)
      modifies this`almacen, this`iniciados
      ensures IgualFuera(almacen, old(almacen), subidas)
      ensures forall i | 0 <= i < |subidas| ::
                subidas[i] in almacen <==> subidas[i] in old(almacen) && !deletes[i].Efecto()
      ensures forall i | 0 <= i < |subidas| && subidas[i] in almacen ::
                almacen[subidas[i]] == old(almacen)[subidas[i]]
      ensures forall k :: k in iniciados <==> k in old(iniciados) || k in subidas
    {
      for n := 0 to |subidas|
        invariant IgualFuera(almacen, old(almacen), subidas[..n])
        invariant forall i | 0 <= i < n ::
                    subidas[i] in almacen <==> subidas[i] in old(almacen) && !deletes[i].Efecto()
        invariant forall i | 0 <= i < n && subidas[i] in almacen ::
                    almacen[subidas[i]] == old(almacen)[subidas[i]]
        invariant forall k :: k in iniciados <==> k in old(iniciados) || k in subidas[..n]
      {
        assert subidas[..n + 1] == subidas[..n] + [subidas[n]];
        assert subidas[n] !in subidas[..n];
        var ok := Delete(subidas[n], deletes[n]);
      }
      assert subidas[..|subidas|] == subidas;
    }

    // The loop of puts, up to the first that fails.
    method Subir(claves: seq<Clave>, ms: seq<Marca>, puts: seq<Respuesta>) returns (n: nat)
      requires |claves| == |ms| == |puts| && Distintas(claves)
      modifies this`almacen
      ensures n == PrimeraFalla(puts)
      ensures IgualFuera(almacen, old(almacen), claves)
      ensures forall i | 0 <= i < |ms| && (i < n || (i == n && puts[i].Efecto())) ::
                claves[i] in almacen && almacen[claves[i]] == ms[i].tipo
      ensures forall i | n <= i < |ms| && !(i == n && puts[i].Efecto()) ::
                claves[i] in almacen <==> claves[i] in old(almacen)
    {
      hide IgualFuera, Distintas;
      n := 0;
      NingunaTodavia(almacen, claves);
      while n < |ms|
        invariant n <= |ms| && forall i | 0 <= i < n :: puts[i].Bien?
        invariant IgualFuera(almacen, old(almacen), claves[..n])
        invariant forall i | 0 <= i < n :: claves[i] in almacen && almacen[claves[i]] == ms[i].tipo
      {
        ghost var antes := almacen;
        PrimerasClaves(antes, old(almacen), claves, n);
        UnaClaveMas(antes, old(almacen), claves, n, ms[n].tipo);
        var ok := Put(claves[n], ms[n].tipo, puts[n]);
        if !ok {
          PrimeraEs(puts, n);
          PrimerasClaves(almacen, old(almacen), claves, n + 1);
          return;
        }
        n := n + 1;
      }
      PrimeraEs(puts, n);
      PrimerasClaves(almacen, old(almacen), claves, n);
    }

    // Compensation after n uploads, from the store foto that agreed with the marks antes.
    method Compensar(lead: Id, ms: seq<Marca>, ghost foto: map<Clave, Tipo>, ghost antes: map<Id, seq<LineaMarca>>,
                     ghost previas: set<Clave>, puts: seq<Respuesta>, n: nat, deletes: seq<Respuesta>)
      requires |puts| == |ms| == |deletes| && n == PrimeraFalla(puts)
      requires Distintas(ClavesDe(lead, ms)) && IgualFuera(almacen, foto, ClavesDe(lead, ms))
      requires Acordes(foto, antes, previas, iniciados) && forall k | k in ClavesDe(lead, ms) :: k !in previas
      requires forall i | 0 <= i < |ms| :: ClavesDe(lead, ms)[i] in almacen <==> i < n || (i == n && puts[i].Efecto())
      modifies this`almacen, this`iniciados
      ensures IgualFuera(almacen, foto, ClavesDe(lead, ms))
      ensures Restos(almacen, lead, ms, puts, deletes)
      ensures forall k | k in almacen && k in old(almacen) :: almacen[k] == old(almacen)[k]
      ensures almacen.Keys <= old(almacen).Keys
      ensures almacen == foto <==> LimpiezaCompleta(puts, deletes)
      ensures forall k :: k in iniciados <==> k in old(iniciados) || k in ClavesDe(lead, ms)[..n]
      ensures Acordes(almacen, antes, previas + Conjunto(ClavesDe(lead, ms)), iniciados)
    {
      hide Acordes, Coherente, Queda, LimpiezaCompleta;
      ghost var previos := iniciados;
      var claves := ClavesDe(lead, ms);
      SinClavesFrescas(foto, antes, previas, iniciados, claves);
      BorrarSubidos(claves[..n], deletes);
      SoloClaves(claves, n);
      forall k | k in almacen ensures k in old(almacen) && almacen[k] == old(almacen)[k] {
        if k in claves[..n] { var i :| 0 <= i < n && claves[..n][i] == k; }
      }
      QuedaEs(claves, almacen, puts, deletes);
      SinRestos(almacen, foto, claves, puts, deletes);
      SinNotaMantiene(foto, antes, previas, previos, almacen, iniciados, claves);
    }

    // The appended note, once every object is stored: what the UPDATE left.
    method EscribirNota(lead: Id, n: Nota, escritura: Escritura)
      requires Textos(comentarios, fichas, marcas) && NotaValida(n) && (escritura.Efecto() ==> lead in comentarios)
      modifies this`comentarios, this`fichas, this`marcas
      ensures Textos(comentarios, fichas, marcas)
      ensures comentarios == if escritura.Efecto() then ConNota(old(comentarios), lead, n) else old(comentarios)
      ensures escritura.Efecto() ==> lead in old(marcas)
      ensures marcas == if escritura.Efecto() then old(marcas)[lead := old(marcas)[lead] + n.marcas] else old(marcas)
    {
      hide Textos, NotaValida, Anexar, Fragmento;
      if escritura.Efecto() {
        MismosLeads(comentarios, fichas, marcas);
        TextosConNota(comentarios, fichas, marcas, lead, n);
        comentarios := comentarios[lead := Anexar(comentarios[lead], Fragmento(n))];
        fichas := fichas[lead := fichas[lead].(notas := fichas[lead].notas + [n])];
        marcas := marcas[lead := marcas[lead] + n.marcas];
      }
    }

    // Upload, then append the note with its marks; compensate when the note is not appended.
    method SubirYAnotar(lead: Id, n: Nota, ms: seq<Marca>, puts: seq<Respuesta>, escritura: Escritura,
                        deletes: seq<Respuesta>)
      returns (r: Salida)
      requires Valid() && |puts| == |ms| == |deletes| && NotaValida(n) && n.marcas == LineasActivas(ms)
      requires Distintas(ClavesDe(lead, ms)) && forall k | k in ClavesDe(lead, ms) :: k !in usadas
      requires escritura.Efecto() ==> lead in comentarios
      modifies this
      ensures Valid() && !r.Invalido?
      ensures IgualFuera(almacen, old(almacen), ClavesDe(lead, ms))
      ensures r.Hecho? <==> PrimeraFalla(puts) == |ms| && escritura.Escrita?
      ensures r.Hecho? ==> Guardados(almacen, lead, ms)
      ensures comentarios == if PrimeraFalla(puts) == |ms| && escritura.Efecto()
                             then ConNota(old(comentarios), lead, n) else old(comentarios)
      ensures !r.Hecho? ==> Restos(almacen, lead, ms, puts, deletes)
      ensures !r.Hecho? ==> (almacen == old(almacen) <==> LimpiezaCompleta(puts, deletes))
    {
      hide Acordes, Textos, Distintas, Coherente, IgualFuera, LimpiezaCompleta, Restos, NotaValida, ConNota, Conjunto;
      var claves := ClavesDe(lead, ms);
      ghost var foto, antes, previas := almacen, marcas, usadas;
      SinClavesFrescas(almacen, marcas, usadas, iniciados, claves);
      usadas := usadas + Conjunto(claves);
      var k := Subir(claves, ms, puts);
      if k < |ms| {
        Compensar(lead, ms, foto, antes, previas, puts, k, deletes);
        return Excepcion;
      }
      r := Anotar(lead, n, ms, foto, previas, puts, escritura, deletes);
    }

    // The second half, when every put went well.
    method Anotar(lead: Id, n: Nota, ms: seq<Marca>, ghost foto: map<Clave, Tipo>, ghost previas: set<Clave>,
                  puts: seq<Respuesta>, escritura: Escritura, deletes: seq<Respuesta>)
      returns (r: Salida)
      requires |puts| == |ms| == |deletes| == PrimeraFalla(puts)
      requires Textos(comentarios, fichas, marcas) && NotaValida(n) && n.marcas == LineasActivas(ms)
      requires Acordes(foto, marcas, previas, iniciados) && usadas == previas + Conjunto(ClavesDe(lead, ms))
      requires Distintas(ClavesDe(lead, ms)) && forall k | k in ClavesDe(lead, ms) :: k !in previas
      requires IgualFuera(almacen, foto, ClavesDe(lead, ms)) && Guardados(almacen, lead, ms)
      requires escritura.Efecto() ==> lead in comentarios
      modifies this`almacen, this`comentarios, this`fichas, this`marcas, this`iniciados
      ensures Valid() && !r.Invalido?
      ensures IgualFuera(almacen, foto, ClavesDe(lead, ms))
      ensures r.Hecho? <==> escritura.Escrita?
      ensures r.Hecho? ==> almacen == old(almacen)
      ensures comentarios == if escritura.Efecto() then ConNota(old(comentarios), lead, n) else old(comentarios)
      ensures !r.Hecho? ==> Restos(almacen, lead, ms, puts, deletes)
      ensures !r.Hecho? ==> (almacen == foto <==> LimpiezaCompleta(puts, deletes))
    {
      hide Acordes, Textos, Distintas, Coherente, IgualFuera, Queda, LimpiezaCompleta, Restos, NotaValida, ConNota;
      ghost var antes := marcas;
      EscribirNota(lead, n, escritura);
      if !escritura.Escrita? {
        Compensar(lead, ms, foto, antes, previas, puts, |ms|, deletes);
      } else {
        SinNotaMantiene(foto, antes, previas, iniciados, almacen, iniciados, ClavesDe(lead, ms));
      }
      if escritura.Efecto() {
        SinMarcaFresca(foto, antes, previas, old(iniciados), lead, ms);
        EnConjunto(lead, ms);
        NotaMantiene(almacen, antes, usadas, iniciados, lead, ms);
      }
      r := match escritura case Escrita => Hecho case SinFila => NoEncontrado case _ => Excepcion;
    }

    // append_lead_comment_with_attachments: the checks come before any call to the storage, and the note that is
    // written is the comment's.
    method SubirNota(lead: Id, ts: string, autor: string, comentario: string, ms: seq<Marca>, enAlcance: bool,
                     puts: seq<Respuesta>, escritura: Escritura, deletes: seq<Respuesta>) returns (r: Salida)
      requires Valid() && |puts| == |ms| == |deletes| && EsFecha(ts) && forall i | 0 <= i < |ms| :: EsCanonico(ms[i].id)
      requires Distintas(ClavesDe(lead, ms)) && forall k | k in ClavesDe(lead, ms) :: k !in usadas
      requires escritura.Efecto() ==> lead in comentarios
      modifies this
      ensures Valid()
      ensures r.Invalido? <==> Normalizar(comentario) == "" || |Normalizar(comentario)| > 1000 || |ms| > 5
      ensures r.Invalido? || !enAlcance ==> almacen == old(almacen) && comentarios == old(comentarios) && !r.Hecho?
      ensures IgualFuera(almacen, old(almacen), ClavesDe(lead, ms))
      ensures !r.Invalido? && enAlcance ==> (r.Hecho? <==> PrimeraFalla(puts) == |ms| && escritura.Escrita?)
      ensures r.Hecho? ==> forall m | m in ms :: Clave(lead, m.id) in almacen && almacen[Clave(lead, m.id)] == m.tipo
      ensures !r.Invalido? && enAlcance ==>
                comentarios == if PrimeraFalla(puts) == |ms| && escritura.Efecto()
                               then ConNota(old(comentarios), lead, NotaDe(ts, autor, comentario, ms))
                               else old(comentarios)
      ensures !r.Invalido? && enAlcance && PrimeraFalla(puts) == |ms| && (escritura.Escrita? || escritura.FallaEscrita?)
              ==>
                exists texto :: I.TextoDe(texto, comentario) && comentarios == old(comentarios)[
                  lead := I.Agregada(old(comentarios)[lead], I.Impresa(ts, Firma(autor), texto, ms))]
      ensures !r.Invalido? && enAlcance && !r.Hecho? ==>
                && (forall i | 0 <= i < |ms| ::
                      Clave(lead, ms[i].id) in almacen <==>
                      if i < PrimeraFalla(puts) then deletes[i].FallaSinEfecto?
                      else i == PrimeraFalla(puts) && puts[i].FallaConEfecto?)
                && (almacen == old(almacen) <==> LimpiezaCompleta(puts, deletes))
    {
      hide Acordes, Textos, Restos, Guardados, NotaValida, ConNota, Normalizar, EsFecha, EsCanonico;
      if Normalizar(comentario) == "" || |Normalizar(comentario)| > 1000 || |ms| > MAX_ARCHIVOS {
        return Invalido;
      }
      if !enAlcance {
        return NoEncontrado;
      }
      NotaDeValida(ts, autor, comentario, ms);
      MarcasDeNota(ts, autor, comentario, ms);
      if escritura.Efecto() {
        ComoSeEscribe(comentarios, lead, ts, autor, comentario, ms);
      }
      r := SubirYAnotar(lead, NotaDe(ts, autor, comentario, ms), ms, puts, escritura, deletes);
      if r.Hecho? {
        GuardadosUnoAUno(almacen, lead, ms);
      } else {
        RestosUnoAUno(almacen, lead, ms, puts, deletes);
      }
    }

    // get_attachment and delete_attachment look the identifier up in the raw comments.
    method BuscarMarca(lead: Id, id: string) returns (r: Option<Marca>)
      ensures r == Hallada(comentarios, lead, id)
    {
      if lead !in comentarios {
        return None;
      }
      var ms := Buscar(ACTIVA, comentarios[lead]);
      assert ms[0..] == ms;
      for i := 0 to |ms|
        invariant Primera(ms, id) == Primera(ms[i..], id)
      {
        assert ms[i..][0] == ms[i] && ms[i..][1..] == ms[i + 1..];
        if ms[i].id == id {
          return Some(ms[i]);
        }
      }
      r := None;
    }

    // get_attachment: the mark, the object, and the same type in both. Of a lead without marks in its request and
    // authors, every mark found whose delete has not started is served.
    method Descargar(lead: Id, id: string) returns (r: Option<Tipo>)
      requires Valid()
      ensures r.Some? <==>
                var m := Hallada(comentarios, lead, id);
                m.Some? && Clave(lead, id) in almacen && almacen[Clave(lead, id)] == m.value.tipo
      ensures r.Some? ==> r.value == almacen[Clave(lead, id)]
      ensures lead in fichas && Ajenas(fichas[lead]) == [] && Clave(lead, id) !in iniciados ==>
                (r.Some? <==> Hallada(comentarios, lead, id).Some?)
    {
      hide Acordes, Anclado, Buscar, Primera;
      ghost var h := Hallada(comentarios, lead, id);
      assert lead in fichas && Ajenas(fichas[lead]) == [] && h.Some? ==>
               Respaldada(almacen, iniciados, lead, h.value) by {
        if lead in fichas && Ajenas(fichas[lead]) == [] && h.Some? {
          BusquedaRespaldada(almacen, marcas, usadas, iniciados, lead, comentarios[lead], fichas[lead]);
        }
      }
      var m := BuscarMarca(lead, id);
      if m.None? || Clave(lead, id) !in almacen || almacen[Clave(lead, id)] != m.value.tipo {
        return None;
      }
      r := Some(almacen[Clave(lead, id)]);
    }

    // delete_attachment: the object first, then the exact mark. The note is untouched when the object could
    // not be deleted; the outcome of the UPDATE that matches no row is ignored.
    method BorrarAdjunto(lead: Id, id: string, permitido: bool, borrado: Respuesta, escritura: Escritura)
      returns (r: Salida)
      requires Valid()
      modifies this
      ensures Valid()
      ensures var m := Hallada(old(comentarios), lead, id);
              && (r.NoEncontrado? <==> !permitido || m.None?)
              && (r.NoEncontrado? ==>
                    almacen == old(almacen) && comentarios == old(comentarios) && iniciados == old(iniciados))
              && (!r.NoEncontrado? ==>
                    && almacen == (if borrado.Efecto() then old(almacen) - {Clave(lead, id)} else old(almacen))
                    && iniciados == old(iniciados) + {Clave(lead, id)}
                    && (r.Hecho? <==> borrado.Bien? && (escritura.Escrita? || escritura.SinFila?))
                    && comentarios == (if borrado.Bien? && escritura.Efecto()
                                       then old(comentarios)[lead := Borrar(old(comentarios)[lead], m.value)]
                                       else old(comentarios)))
      ensures var m := Hallada(old(comentarios), lead, id);
              !r.NoEncontrado? && borrado.Bien? && escritura.Efecto() ==>
                && Hallada(comentarios, lead, id) == Primera(Otras(old(comentarios)[lead], m.value), id)
                && (lead in old(fichas) && Ajenas(old(fichas)[lead]) == [] ==> Hallada(comentarios, lead, id).None?)
      ensures var m := Hallada(old(comentarios), lead, id);
              r.Hecho? ==> (Hallada(comentarios, lead, id).None? <==>
                            escritura.Escrita? && Primera(Otras(old(comentarios)[lead], m.value), id).None?)
    {
      hide Acordes, Textos, Buscar, Primera, Borrar, EsCanonico, Otras, Ajenas;
      if !permitido {
        return NoEncontrado;
      }
      var m := BuscarMarca(lead, id);
      if m.None? {
        return NoEncontrado;
      }
      HalladaCanonica(ACTIVA, comentarios[lead]);
      var k := Clave(lead, id);
      BorradoMantiene(almacen, marcas, usadas, iniciados, k);
      var ok := Delete(k, borrado);
      if !ok {
        return Excepcion;
      }
      if escritura.Efecto() {
        MismosLeads(comentarios, fichas, marcas);
        TextosConBorrado(comentarios, fichas, marcas, lead, m.value);
        MarcadoMantiene(almacen, marcas, usadas, iniciados, lead, m.value);
        BorradoDejaOtras(comentarios[lead], m.value);
        YaNoHallada(comentarios, fichas, marcas, almacen, usadas, iniciados, lead, m.value);
        comentarios := comentarios[lead := Borrar(comentarios[lead], m.value)];
        fichas := fichas[lead := Ficha(Borrar(fichas[lead].pedido, m.value),
            NotasMarcadas(fichas[lead].notas, m.value))];
        marcas := marcas[lead := LineasMarcadas(marcas[lead], m.value)];
      }
      r := match escritura case FallaSinEscribir => Excepcion case FallaEscrita => Excepcion case _ => Hecho;
    }

    // _delete_lead_attachments_best_effort, for every mark of the raw comments, followed by the deletion of the
    // test lead, which the database may refuse.
    method BorrarLead(lead: Id, deletes: seq<Respuesta>, borrado: bool)
      requires Valid() && lead in comentarios && |deletes| == |Buscar(ACTIVA, comentarios[lead])|
      modifies this
      ensures Valid()
      ensures comentarios == if borrado then old(comentarios) - {lead} else old(comentarios)
      ensures var ms := Buscar(ACTIVA, old(comentarios)[lead]);
              forall i | 0 <= i < |ms| ::
                Clave(lead, ms[i].id) in iniciados && (deletes[i].Efecto() ==> Clave(lead, ms[i].id) !in almacen)
      ensures almacen.Keys <= old(almacen).Keys
    {
      hide Acordes, Textos, Buscar;
      var ms := Buscar(ACTIVA, comentarios[lead]);
      for i := 0 to |ms|
        invariant Valid() && comentarios == old(comentarios) && almacen.Keys <= old(almacen).Keys
        invariant forall j | 0 <= j < i ::
                    Clave(lead, ms[j].id) in iniciados && (deletes[j].Efecto() ==> Clave(lead, ms[j].id) !in almacen)
      {
        BorradoMantiene(almacen, marcas, usadas, iniciados, Clave(lead, ms[i].id));
        var ok := Delete(Clave(lead, ms[i].id), deletes[i]);
      }
      if borrado {
        MenosLeadsMantiene(almacen, marcas, usadas, iniciados, lead);
        TextosSinLead(comentarios, fichas, marcas, lead);
        comentarios := comentarios - {lead};
        fichas, marcas := fichas - {lead}, marcas - {lead};
      }
    }
  }

  // The comments of the leads after one more note.
  function ConNota(c: map<Id, string>, lead: Id, n: Nota): map<Id, string>
  {
    if lead in c then c[lead := Anexar(c[lead], Fragmento(n))] else c
  }

  // What the agreement means for each mark of a note: deleted, it has no object; active, it has one of its own type,
  // or a delete of it has started. No two marks of a lead share an identifier.
  lemma MarcasYObjetos(s: Servicio, lead: Id, i: nat)
    requires s.Valid() && lead in s.marcas && i < |s.marcas[lead]|
    ensures var l := s.marcas[lead][i];
            var k := Clave(lead, l.marca.id);
            && (!l.activa ==> k !in s.almacen)
            && (l.activa && k !in s.iniciados ==> k in s.almacen)
            && (l.activa && k in s.almacen ==> s.almacen[k] == l.marca.tipo)
    ensures forall j | 0 <= j < |s.marcas[lead]| && j != i :: s.marcas[lead][j].marca.id != s.marcas[lead][i].marca.id
  {
    hide Textos;
    var l := s.marcas[lead][i];
    assert Coherente(s.almacen, s.usadas, s.iniciados, Clave(lead, l.marca.id), l);
  }

  lemma MismosLeads(c: map<Id, string>, f: map<Id, Ficha>, m: map<Id, seq<LineaMarca>>)
    requires Textos(c, f, m)
    ensures forall lead: Id :: (lead in c <==> lead in f) && (lead in c <==> lead in m)
  {
    hide Anclado;
    assert forall lead: Id :: (lead in c.Keys <==> lead in f.Keys) && (lead in c.Keys <==> lead in m.Keys);
  }

  lemma YaNoHallada(c: map<Id, string>, f: map<Id, Ficha>, ls: map<Id, seq<LineaMarca>>, a: map<Clave, Tipo>,
                    usadas: set<Clave>, iniciados: set<Clave>, lead: Id, m: Marca)
    requires Textos(c, f, ls) && Acordes(a, ls, usadas, iniciados) && lead in c && lead in f
    requires EsCanonico(m.id) && m in Buscar(ACTIVA, c[lead])
    ensures Ajenas(f[lead]) == [] ==> Primera(Otras(c[lead], m), m.id).None?
  {
    hide Anclado, Coherente, Buscar, EsCanonico, Ajenas, Otras;
    assert lead in ls by { MismosLeads(c, f, ls); }
    BorradoSinAjenas(c[lead], f[lead], ls[lead], m);
  }

  lemma GuardadosUnoAUno(a: map<Clave, Tipo>, lead: Id, ms: seq<Marca>)
    requires Guardados(a, lead, ms)
    ensures forall m | m in ms :: Clave(lead, m.id) in a && a[Clave(lead, m.id)] == m.tipo
  {
    forall m | m in ms ensures Clave(lead, m.id) in a && a[Clave(lead, m.id)] == m.tipo {
      var i :| 0 <= i < |ms| && ms[i] == m;
      assert ClavesDe(lead, ms)[i] == Clave(lead, m.id);
    }
  }

  lemma RestosUnoAUno(a: map<Clave, Tipo>, lead: Id, ms: seq<Marca>, puts: seq<Respuesta>, deletes: seq<Respuesta>)
    requires |ms| == |puts| == |deletes| && Restos(a, lead, ms, puts, deletes)
    ensures forall i | 0 <= i < |ms| ::
              Clave(lead, ms[i].id) in a <==>
              if i < PrimeraFalla(puts) then deletes[i].FallaSinEfecto?
              else i == PrimeraFalla(puts) && puts[i].FallaConEfecto?
  {
    forall i | 0 <= i < |ms| ensures Clave(lead, ms[i].id) in a <==> Queda(puts, deletes, i) {
      assert ClavesDe(lead, ms)[i] == Clave(lead, ms[i].id);
    }
  }

  // The author's name with its white space collapsed, or a word in its place.
  function Firma(autor: string): string { if Normalizar(autor) == "" then "Usuario" else Normalizar(autor) }

  lemma ComoSeEscribe(c: map<Id, string>, lead: Id, ts: string, autor: string, comentario: string, ms: seq<Marca>)
    requires lead in c
    ensures exists texto :: I.TextoDe(texto, comentario)
              && ConNota(c, lead, NotaDe(ts, autor, comentario, ms))
                 == c[lead := I.Agregada(c[lead], I.Impresa(ts, Firma(autor), texto, ms))]
  {
    hide Normalizar, Fragmento, Anexar, NotaDe, I.TextoDe, I.Impresa, I.Agregada, TextoGuardado;
    I.TextoGuardadoDe(comentario);
    I.NotaEscrita(ts, autor, comentario, ms);
    I.AgregadaEs(c[lead], Fragmento(NotaDe(ts, autor, comentario, ms)));
    assert I.TextoDe(TextoGuardado(comentario), comentario);
  }

  lemma MarcasDeNota(ts: string, autor: string, comentario: string, ms: seq<Marca>)
    ensures NotaDe(ts, autor, comentario, ms).marcas == LineasActivas(ms)
  {
  }

  lemma NingunaTodavia(a: map<Clave, Tipo>, claves: seq<Clave>)
    ensures IgualFuera(a, a, claves[..0])
  {
  }

  // The key n is none of those before it, so that writing it touches the first n + 1 keys only.
  lemma UnaClaveMas(a: map<Clave, Tipo>, b: map<Clave, Tipo>, claves: seq<Clave>, n: nat, tipo: Tipo)
    requires n < |claves| && Distintas(claves) && IgualFuera(a, b, claves[..n])
    ensures IgualFuera(a, b, claves[..n + 1]) && IgualFuera(a[claves[n] := tipo], b, claves[..n + 1])
    ensures forall i | 0 <= i < n :: claves[i] != claves[n]
  {
    assert claves[..n + 1] == claves[..n] + [claves[n]];
  }

  lemma PrimerasClaves(a: map<Clave, Tipo>, b: map<Clave, Tipo>, claves: seq<Clave>, n: nat)
    requires n <= |claves| && Distintas(claves) && IgualFuera(a, b, claves[..n])
    ensures IgualFuera(a, b, claves)
    ensures forall i | n <= i < |claves| :: claves[i] in a <==> claves[i] in b
  {
    SoloClaves(claves, n);
  }

  lemma SoloClaves(claves: seq<Clave>, n: nat)
    requires n <= |claves| && Distintas(claves)
    ensures Distintas(claves[..n])
    ensures forall i | n <= i < |claves| :: claves[i] !in claves[..n]
    ensures forall k: Clave | k !in claves :: k !in claves[..n]
    ensures forall i | 0 <= i < n :: claves[..n][i] == claves[i]
  {
  }

  lemma EnConjunto(lead: Id, ms: seq<Marca>)
    ensures forall i | 0 <= i < |ms| :: ClavesDe(lead, ms)[i] in Conjunto(ClavesDe(lead, ms))
  {
  }

  lemma QuedaEs(claves: seq<Clave>, a: map<Clave, Tipo>, puts: seq<Respuesta>, deletes: seq<Respuesta>)
    requires |claves| == |puts| == |deletes|
    requires forall i | 0 <= i < |claves| ::
               claves[i] in a <==> (i < PrimeraFalla(puts) && !deletes[i].Efecto())
                                   || (i == PrimeraFalla(puts) && puts[i].Efecto())
    ensures forall i | 0 <= i < |claves| :: claves[i] in a <==> Queda(puts, deletes, i)
  {
  }
}
