// The comments of a lead: printing a follow-up note, appending it, deleting an attachment mark, and parsing
// the whole text back.
module Notas {
  import opened Opcion
  import opened Texto
  import opened Marcas

  // ------------------------------------------------------------------ what is written

  datatype LineaMarca = LineaMarca(activa: bool, marca: Marca)

  datatype Nota = Nota(ts: string, autor: string, texto: string, marcas: seq<LineaMarca>)

  predicate EsDigito(c: char) { '0' <= c <= '9' }

  // dd/mm/YYYY HH:MM
  predicate EsFecha(ts: string) {
    |ts| == 16 && forall i | 0 <= i < 16 ::
      if i == 2 || i == 5 then ts[i] == '/'
      else if i == 10 then ts[i] == ' '
      else if i == 13 then ts[i] == ':'
      else EsDigito(ts[i])
  }

  function Prefijo(l: LineaMarca): string { if l.activa then ACTIVA else ELIMINADA }

  function TextoDeMarca(l: LineaMarca): string { Construir(Prefijo(l), l.marca) }

  function LineasDeMarcas(ms: seq<LineaMarca>): (r: seq<string>)
    ensures |r| == |ms|
  {
    seq(|ms|, i requires 0 <= i < |ms| => TextoDeMarca(ms[i]))
  }

  function Cabecera(n: Nota): string { "[" + n.ts + "] " + n.autor }

  // _format_follow_up_fragment_with_marks
  function Fragmento(n: Nota): string {
    var fragmento := Cabecera(n) + "\n" + n.texto;
    if n.marcas == [] then fragmento else fragmento + "\n" + Unir(LineasDeMarcas(n.marcas))
  }

  // The note the service writes for a comment: cleaned author, stored text, active marks.
  function NotaDe(ts: string, autor: string, comentario: string, ms: seq<Marca>): Nota {
    var nombre := Normalizar(autor);
    Nota(ts, if nombre == "" then "Usuario" else nombre, TextoGuardado(comentario),
         seq(|ms|, i requires 0 <= i < |ms| => LineaMarca(true, ms[i])))
  }

  ghost predicate NotaValida(n: Nota) {
    && EsFecha(n.ts)
    && n.autor != "" && Limpio(n.autor)
    && n.texto != "" && Limpio(n.texto) && !Contiene(n.texto, ACTIVA) && !Contiene(n.texto, ELIMINADA)
    && forall i | 0 <= i < |n.marcas| :: EsCanonico(n.marcas[i].marca.id)
  }

  // Whatever the user types, the note written for a non-blank comment is valid.
  lemma NotaDeValida(ts: string, autor: string, comentario: string, ms: seq<Marca>)
    requires EsFecha(ts) && Normalizar(comentario) != ""
    requires forall i | 0 <= i < |ms| :: EsCanonico(ms[i].id)
    ensures NotaValida(NotaDe(ts, autor, comentario, ms))
  {
    hide Contiene, TextoGuardado, Normalizar, EsCanonico;
    TextoGuardadoLimpio(comentario);
    AutorLimpio(autor);
  }

  lemma AutorLimpio(autor: string)
    ensures Limpio(Normalizar(autor))
  {
    NormalizarLimpia("", "", autor);
  }

  // comentarios after the notes: the request, then each note after a blank line.
  function Documento(pedido: string, notas: seq<Nota>): string {
    if notas == [] then pedido else pedido + "\n\n" + Cola(notas)
  }

  function Cola(notas: seq<Nota>): string
    requires notas != []
  {
    if |notas| == 1 then Fragmento(notas[0]) else Fragmento(notas[0]) + "\n\n" + Cola(notas[1..])
  }

  // The CASE of append_lead_comment; SQL TRIM removes spaces only.
  predicate SoloBlancos(s: string) { forall i | 0 <= i < |s| :: s[i] == ' ' }

  function Anexar(comentarios: string, fragmento: string): string {
    if SoloBlancos(comentarios) then fragmento else comentarios + "\n\n" + fragmento
  }

  // ------------------------------------------------------------------ what is read

  datatype NotaLeida = NotaLeida(ts: string, autor: string, texto: string, adjuntos: seq<Marca>, eliminados: seq<Marca>)

  datatype Comentarios = Comentarios(pedido: string, notas: seq<NotaLeida>, respaldo: bool)

  // The header pattern on a stripped line: date and author.
  function CasarCabecera(h: string): Option<(string, string)> {
    if |h| >= 19 && h[0] == '[' && EsFecha(h[1..17]) && h[17] == ']' && EsEspacio(h[18]) && LStrip(h[18..]) != ""
    then Some((h[1..17], Strip(LStrip(h[18..])))) else None
  }

  predicate EsMarca(linea: string) { CasarLinea(ACTIVA, linea).Some? || CasarLinea(ELIMINADA, linea).Some? }

  // Number of body lines left once the trailing mark lines are taken away.
  function FinDeTexto(lineas: seq<string>): (n: nat)
    ensures n <= |lineas|
  {
    if lineas == [] || !EsMarca(lineas[|lineas| - 1]) then |lineas| else FinDeTexto(lineas[..|lineas| - 1])
  }

  function Activas(lineas: seq<string>): seq<Marca> {
    if lineas == [] then []
    else
      var m := CasarLinea(ACTIVA, lineas[0]);
      (if m.Some? then [m.value] else []) + Activas(lineas[1..])
  }

  // Lines that are a deleted mark, an active one taking precedence.
  function Eliminadas(lineas: seq<string>): seq<Marca> {
    if lineas == [] then []
    else
      var m := CasarLinea(ELIMINADA, lineas[0]);
      (if CasarLinea(ACTIVA, lineas[0]).None? && m.Some? then [m.value] else []) + Eliminadas(lineas[1..])
  }

  function LeerBloque(bloque: string): Option<NotaLeida> {
    var lineas := SplitLines(bloque);
    if lineas == [] then None
    else match CasarCabecera(Strip(lineas[0]))
      case None => None
      case Some((ts, autor)) =>
        var cuerpo := lineas[1..];
        var fin := FinDeTexto(cuerpo);
        Some(NotaLeida(ts, autor, QuitarMarcas(Strip(Unir(cuerpo[..fin]))), Activas(cuerpo[fin..]),
            Eliminadas(cuerpo[fin..])))
  }

  // All blocks, or nothing as soon as one is malformed.
  function LeerBloques(bloques: seq<string>): Option<seq<NotaLeida>> {
    if bloques == [] then Some([])
    else match LeerBloque(bloques[0])
      case None => None
      case Some(n) => Tras([n], LeerBloques(bloques[1..]))
  }

  function LeerComentarios(crudo: string): Comentarios {
    var raw := Strip(crudo);
    if raw == "" then Comentarios("", [], false)
    else
      var bloques := SplitDoble(raw);
      if |bloques| == 1 then Comentarios(QuitarMarcas(raw), [], false)
      else if bloques == [] then Comentarios(raw, [], true)
      else match LeerBloques(bloques[1..])
        case None => Comentarios(raw, [], true)
        case Some(ns) => Comentarios(QuitarMarcas(Strip(bloques[0])), ns, false)
  }

  // ------------------------------------------------------------------ the loops of the parser

  // The backward loop over the trailing mark lines.
  method MarcasFinales(cuerpo: seq<string>) returns (fin: nat, adjuntos: seq<Marca>, eliminados: seq<Marca>)
    ensures fin == FinDeTexto(cuerpo)
    ensures adjuntos == Activas(cuerpo[fin..]) && eliminados == Eliminadas(cuerpo[fin..])
  {
    hide CasarLinea, EsMarca, FinDeTexto, Activas, Eliminadas;
    adjuntos, eliminados, fin := [], [], |cuerpo|;
    assert cuerpo[..fin] == cuerpo && cuerpo[fin..] == [];
    SinLineas();
    while fin > 0
      invariant fin <= |cuerpo|
      invariant FinDeTexto(cuerpo) == FinDeTexto(cuerpo[..fin])
      invariant adjuntos == Activas(cuerpo[fin..]) && eliminados == Eliminadas(cuerpo[fin..])
    {
      var linea := cuerpo[fin - 1];
      UnaLineaAntes(cuerpo, fin);
      var m := CasarLinea(ACTIVA, linea);
      if m.Some? {
        adjuntos := [m.value] + adjuntos;
        fin := fin - 1;
        continue;
      }
      var e := CasarLinea(ELIMINADA, linea);
      if e.Some? {
        eliminados := [e.value] + eliminados;
        fin := fin - 1;
        continue;
      }
      break;
    }
  }

  lemma SinLineas()
    ensures Activas([]) == [] && Eliminadas([]) == [] && FinDeTexto([]) == 0
  {
  }

  // What the line before fin adds.
  lemma UnaLineaAntes(cuerpo: seq<string>, fin: nat)
    requires 0 < fin <= |cuerpo|
    ensures var m, e := CasarLinea(ACTIVA, cuerpo[fin - 1]), CasarLinea(ELIMINADA, cuerpo[fin - 1]);
            && FinDeTexto(cuerpo[..fin]) == (if m.Some? || e.Some? then FinDeTexto(cuerpo[..fin - 1]) else fin)
            && Activas(cuerpo[fin - 1..]) == (if m.Some? then [m.value] else []) + Activas(cuerpo[fin..])
            && Eliminadas(cuerpo[fin - 1..])
               == (if m.None? && e.Some? then [e.value] else []) + Eliminadas(cuerpo[fin..])
  {
    hide CasarLinea;
    assert cuerpo[fin - 1..][1..] == cuerpo[fin..];
    assert cuerpo[..fin][..fin - 1] == cuerpo[..fin - 1];
  }

  method ParseFollowUpBlock(bloque: string) returns (r: Option<NotaLeida>)
    ensures r == LeerBloque(bloque)
  {
    hide CasarCabecera, Strip, FinDeTexto, Activas, Eliminadas, QuitarMarcas;
    var lineas := SplitLines(bloque);
    if lineas == [] {
      return None;
    }
    var cabecera := CasarCabecera(Strip(lineas[0]));
    if cabecera.None? {
      return None;
    }
    var cuerpo := lineas[1..];
    var fin, adjuntos, eliminados := MarcasFinales(cuerpo);
    var (ts, autor) := cabecera.value;
    r := Some(NotaLeida(ts, autor, QuitarMarcas(Strip(Unir(cuerpo[..fin]))), adjuntos, eliminados));
  }

  method ParseLeadComments(crudo: string) returns (r: Comentarios)
    ensures r == LeerComentarios(crudo)
  {
    hide Strip, QuitarMarcas, SplitDoble, LeerBloque;
    var raw := Strip(crudo);
    if raw == "" {
      return Comentarios("", [], false);
    }
    var bloques := SplitDoble(raw);
    if |bloques| == 1 {
      return Comentarios(QuitarMarcas(raw), [], false);
    }
    if bloques == [] {
      return Comentarios(raw, [], true);
    }
    var notas: seq<NotaLeida> := [];
    var i := 1;
    assert forall ns: seq<NotaLeida> :: [] + ns == ns;
    while i < |bloques|
      invariant 1 <= i <= |bloques|
      invariant LeerBloques(bloques[1..]) == Tras(notas, LeerBloques(bloques[i..]))
    {
      var leida := ParseFollowUpBlock(bloques[i]);
      assert bloques[i..][0] == bloques[i] && bloques[i..][1..] == bloques[i + 1..];
      if leida.None? {
        return Comentarios(raw, [], true);
      }
      TrasUna(notas, leida.value, LeerBloques(bloques[i + 1..]));
      notas := notas + [leida.value];
      i := i + 1;
    }
    r := Comentarios(QuitarMarcas(Strip(bloques[0])), notas, false);
  }

  function Tras(notas: seq<NotaLeida>, r: Option<seq<NotaLeida>>): Option<seq<NotaLeida>> {
    match r case None => None case Some(ns) => Some(notas + ns)
  }

  lemma TrasUna(notas: seq<NotaLeida>, n: NotaLeida, r: Option<seq<NotaLeida>>)
    ensures Tras(notas, Tras([n], r)) == Tras(notas + [n], r)
  {
    if r.Some? { assert notas + ([n] + r.value) == notas + [n] + r.value; }
  }

  // ------------------------------------------------------------------ reading back one note

  // What a reader should see of a written note.
  function MarcasDe(ms: seq<LineaMarca>, activas: bool): seq<Marca> {
    if ms == [] then []
    else (if ms[0].activa == activas then [ms[0].marca] else []) + MarcasDe(ms[1..], activas)
  }

  function Vista(n: Nota): NotaLeida {
    NotaLeida(n.ts, n.autor, n.texto, MarcasDe(n.marcas, true), MarcasDe(n.marcas, false))
  }

  function Vistas(notas: seq<Nota>): seq<NotaLeida> {
    if notas == [] then [] else [Vista(notas[0])] + Vistas(notas[1..])
  }

  function LineasDe(n: Nota): (r: seq<string>)
    ensures |r| == 2 + |n.marcas|
  {
    [Cabecera(n), n.texto] + LineasDeMarcas(n.marcas)
  }

  lemma FragmentoUnido(n: Nota)
    ensures Fragmento(n) == Unir(LineasDe(n))
  {
    var ms := LineasDeMarcas(n.marcas);
    assert LineasDe(n)[1..] == [n.texto] + ms;
    assert ([n.texto] + ms)[1..] == ms;
  }

  lemma LimpioUnaLinea(s: string)
    requires Limpio(s)
    ensures UnaLinea(s)
  {
  }

  lemma CabeceraLinea(n: Nota)
    requires NotaValida(n)
    ensures Cabecera(n) != "" && UnaLinea(Cabecera(n)) && Recortado(Cabecera(n))
  {
    LimpioUnaLinea(n.autor);
    var h := Cabecera(n);
    assert h == "[" + n.ts + "] " + n.autor;
    assert h[|h| - 1] == n.autor[|n.autor| - 1];
    forall i | 0 <= i < |h| ensures !EsSalto(h[i]) {
      if 1 <= i < 17 { assert h[i] == n.ts[i - 1]; }
      if i >= 19 { assert h[i] == n.autor[i - 19]; }
    }
  }

  ghost predicate SinEspacios(s: string) { forall i | 0 <= i < |s| :: !EsEspacio(s[i]) }

  lemma SinEspaciosSuma(a: string, b: string)
    requires SinEspacios(a) && SinEspacios(b)
    ensures SinEspacios(a + b)
  {
  }

  lemma SinEspaciosLinea(s: string)
    requires SinEspacios(s)
    ensures UnaLinea(s) && Recortado(s)
  {
  }

  lemma UuidSinEspacios(id: string)
    requires EsCanonico(id)
    ensures SinEspacios(id)
  {
    hide Canonico;
  }

  lemma PartesSinEspacios(l: LineaMarca)
    ensures SinEspacios(Prefijo(l)) && Prefijo(l) != "" && SinEspacios(Nombre(l.marca.tipo))
  {
  }

  lemma MarcaLinea(l: LineaMarca)
    requires EsCanonico(l.marca.id)
    ensures TextoDeMarca(l) != "" && UnaLinea(TextoDeMarca(l)) && Recortado(TextoDeMarca(l))
  {
    hide EsCanonico, SinEspacios, Nombre, Prefijo, UnaLinea, Recortado;
    PartesSinEspacios(l);
    MarcaSinEspacios(l);
    SinEspaciosLinea(TextoDeMarca(l));
  }

  lemma MarcaSinEspacios(l: LineaMarca)
    requires EsCanonico(l.marca.id)
    ensures SinEspacios(TextoDeMarca(l))
  {
    hide EsCanonico, SinEspacios, Nombre, Prefijo;
    PartesSinEspacios(l);
    UuidSinEspacios(l.marca.id);
    SinEspaciosSuma(Prefijo(l), Nombre(l.marca.tipo));
    SignosSinEspacios();
    var a := Prefijo(l) + Nombre(l.marca.tipo);
    SinEspaciosSuma(a, ":");
    SinEspaciosSuma(a + ":", l.marca.id);
    SinEspaciosSuma(a + ":" + l.marca.id, "]");
  }

  lemma SignosSinEspacios()
    ensures SinEspacios(":") && SinEspacios("]")
  {
  }

  lemma LineasValidas(n: Nota)
    requires NotaValida(n)
    ensures forall i | 0 <= i < |LineasDe(n)| ::
              LineasDe(n)[i] != "" && UnaLinea(LineasDe(n)[i]) && Recortado(LineasDe(n)[i])
  {
    hide EsCanonico, Limpio, EsFecha, Contiene, UnaLinea, Recortado;
    var ls := LineasDe(n);
    CabeceraLinea(n);
    TextoLinea(n);
    forall i | 2 <= i < |ls| ensures ls[i] != "" && UnaLinea(ls[i]) && Recortado(ls[i]) {
      MarcaLinea(n.marcas[i - 2]);
    }
  }

  lemma TextoLinea(n: Nota)
    requires NotaValida(n)
    ensures n.texto != "" && UnaLinea(n.texto) && Recortado(n.texto)
  {
    LimpioUnaLinea(n.texto);
  }

  // The two prefixes exclude each other.
  lemma MarcaCasada(l: LineaMarca)
    requires EsCanonico(l.marca.id)
    ensures CasarLinea(ACTIVA, TextoDeMarca(l)) == (if l.activa then Some(l.marca) else None)
    ensures CasarLinea(ELIMINADA, TextoDeMarca(l)) == (if l.activa then None else Some(l.marca))
  {
    hide Casar, EsCanonico;
    MarcaLinea(l);
    var s := TextoDeMarca(l);
    StripRecortado(s);
    CasarConstruido(Prefijo(l), l.marca);
    assert s[8] == Prefijo(l)[8];
    assert ACTIVA[8] == ':' && ELIMINADA[8] == '-';
    NoCasa(if l.activa then ELIMINADA else ACTIVA, s, 8);
  }

  lemma NoCasa(p: string, s: string, k: nat)
    requires k < |p| && k < |s| && s[k] != p[k]
    ensures Casar(p, s) == None
  {
  }

  lemma TextoNoEsMarca(n: Nota)
    requires NotaValida(n)
    ensures !EsMarca(n.texto)
  {
    hide Casar;
    StripRecortado(n.texto);
    assert n.texto[0..] == n.texto;
    SinPrefijoNoCasa(ACTIVA, n.texto);
    SinPrefijoNoCasa(ELIMINADA, n.texto);
  }

  lemma SinPrefijoNoCasa(p: string, s: string)
    requires !Contiene(s, p)
    ensures Casar(p, s) == None
  {
    assert s[0..] == s;
  }

  lemma {:induction false} FinDeTextoEs(texto: string, ms: seq<LineaMarca>)
    requires !EsMarca(texto) && forall i | 0 <= i < |ms| :: EsCanonico(ms[i].marca.id)
    ensures FinDeTexto([texto] + LineasDeMarcas(ms)) == 1
    decreases |ms|
  {
    hide EsCanonico, CasarLinea, TextoDeMarca;
    var ls := [texto] + LineasDeMarcas(ms);
    if ms != [] {
      MarcaCasada(ms[|ms| - 1]);
      assert ls[|ls| - 1] == TextoDeMarca(ms[|ms| - 1]);
      assert ls[..|ls| - 1] == [texto] + LineasDeMarcas(ms[..|ms| - 1]);
      FinDeTextoEs(texto, ms[..|ms| - 1]);
    }
  }

  lemma {:induction false} MarcasLeidas(ms: seq<LineaMarca>)
    requires forall i | 0 <= i < |ms| :: EsCanonico(ms[i].marca.id)
    ensures Activas(LineasDeMarcas(ms)) == MarcasDe(ms, true)
    ensures Eliminadas(LineasDeMarcas(ms)) == MarcasDe(ms, false)
  {
    hide EsCanonico, CasarLinea;
    if ms != [] {
      MarcaCasada(ms[0]);
      assert LineasDeMarcas(ms)[1..] == LineasDeMarcas(ms[1..]);
      MarcasLeidas(ms[1..]);
    }
  }

  lemma CabeceraCasada(n: Nota)
    requires NotaValida(n)
    ensures CasarCabecera(Strip(Cabecera(n))) == Some((n.ts, n.autor))
  {
    hide EsCanonico, Contiene;
    var h := Cabecera(n);
    CabeceraLinea(n);
    StripRecortado(h);
    assert h[1..17] == n.ts && h[17] == ']' && h[18] == ' ';
    assert h[18..] == " " + n.autor;
    assert h[18..][1..] == n.autor;
    StripRecortado(n.autor);
    assert LStrip(h[18..]) == LStrip(n.autor);
  }

  // Parsing a printed note gives the note back: its date, author, stored text and marks, in order.
  lemma BloqueIdaYVuelta(n: Nota)
    requires NotaValida(n)
    ensures LeerBloque(Fragmento(n)) == Some(Vista(n))
  {
    hide CasarCabecera, EsMarca, Contiene, EsCanonico, Limpio, Strip, LStrip, EsFecha, Fragmento, Cabecera,
         Activas, Eliminadas,
         FinDeTexto, Quitar, Recortado;
    var ls := LineasDe(n);
    LineasValidas(n);
    FragmentoUnido(n);
    SplitLinesUnir(ls);
    CabeceraCasada(n);
    TextoNoEsMarca(n);
    FinDeTextoEs(n.texto, n.marcas);
    MarcasLeidas(n.marcas);
    var cuerpo := ls[1..];
    assert cuerpo == [n.texto] + LineasDeMarcas(n.marcas);
    assert cuerpo[..1] == [n.texto] && cuerpo[1..] == LineasDeMarcas(n.marcas);
    TextoIntacto(n);
  }

  lemma TextoIntacto(n: Nota)
    requires NotaValida(n)
    ensures QuitarMarcas(Strip(n.texto)) == n.texto
  {
    StripRecortado(n.texto);
    SinMarcas(ACTIVA, n.texto);
    SinMarcas(ELIMINADA, n.texto);
  }

  // ------------------------------------------------------------------ reading back the whole text

  // A request that is not blank, has no blank line inside and does not end in a newline; any one-line
  // request is such.
  ghost predicate PedidoValido(p: string) {
    NoBlanco(p) && SinDoble(LStrip(p)) && p[|p| - 1] != '\n'
  }

  lemma UnaLineaEsValido(p: string)
    requires NoBlanco(p) && '\n' !in p
    ensures PedidoValido(p)
  {
    var i :| 0 <= i < |p| && !EsEspacio(p[i]);
    LStripNoVacio(p, i);
  }

  function Fragmentos(notas: seq<Nota>): seq<string> {
    if notas == [] then [] else [Fragmento(notas[0])] + Fragmentos(notas[1..])
  }

  lemma FragmentoSuelto(n: Nota)
    requires NotaValida(n)
    ensures var f := Fragmento(n);
            f != "" && SinDoble(f) && f[0] != '\n' && f[|f| - 1] != '\n' && !EsEspacio(f[|f| - 1]) && !EsEspacio(f[0])
  {
    hide EsCanonico, Contiene, Limpio, EsFecha, Fragmento;
    LineasValidas(n);
    FragmentoUnido(n);
    UnirSinDoble(LineasDe(n));
  }

  lemma {:induction false} ColaPartida(notas: seq<Nota>)
    requires notas != [] && forall i | 0 <= i < |notas| :: NotaValida(notas[i])
    ensures SplitDoble(Cola(notas)) == Fragmentos(notas)
    ensures Cola(notas) != "" && !EsEspacio(Cola(notas)[|Cola(notas)| - 1])
  {
    hide NotaValida, Fragmento;
    FragmentoSuelto(notas[0]);
    var f := Fragmento(notas[0]);
    assert "" + f == f;
    if |notas| == 1 {
      SplitDobleFinal("", f);
      assert Fragmentos(notas[1..]) == [];
    } else {
      ColaPartida(notas[1..]);
      SplitDobleBloque("", f, Cola(notas[1..]));
    }
  }

  lemma {:induction false} BloquesLeidos(notas: seq<Nota>)
    requires forall i | 0 <= i < |notas| :: NotaValida(notas[i])
    ensures LeerBloques(Fragmentos(notas)) == Some(Vistas(notas))
  {
    hide NotaValida, Fragmento, LeerBloque, Vista;
    if notas != [] {
      BloqueIdaYVuelta(notas[0]);
      BloquesLeidos(notas[1..]);
      assert Fragmentos(notas)[1..] == Fragmentos(notas[1..]);
    }
  }

  // The stripped document splits into the request and the notes.
  lemma DocumentoPartido(pedido: string, notas: seq<Nota>)
    requires PedidoValido(pedido) && notas != [] && forall i | 0 <= i < |notas| :: NotaValida(notas[i])
    ensures Strip(Documento(pedido, notas)) != ""
    ensures SplitDoble(Strip(Documento(pedido, notas))) == [LStrip(pedido)] + Fragmentos(notas)
  {
    hide NotaValida, PedidoValido, Fragmento, Strip, LStrip, Fragmentos, Cola;
    PedidoRecortado(pedido);
    ColaPartida(notas);
    PartirTras(LStrip(pedido), Cola(notas));
    DocumentoRecortado(pedido, notas);
  }

  lemma PartirTras(p: string, c: string)
    requires SinDoble(p) && p != "" && p[|p| - 1] != '\n'
    ensures SplitDoble(p + "\n\n" + c) == [p] + SplitDoble(c)
  {
    SplitDobleBloque("", p, c);
    assert "" + p == p;
  }

  lemma DocumentoRecortado(pedido: string, notas: seq<Nota>)
    requires NoBlanco(pedido) && notas != [] && Cola(notas) != "" && !EsEspacio(Cola(notas)[|Cola(notas)| - 1])
    ensures Strip(Documento(pedido, notas)) == LStrip(pedido) + "\n\n" + Cola(notas)
  {
    hide Strip, LStrip, Cola;
    var c := Cola(notas);
    var b := "\n\n" + c;
    assert b[|b| - 1] == c[|c| - 1];
    assert Documento(pedido, notas) == pedido + b;
    StripCola(pedido, b);
    assert LStrip(pedido) + b == LStrip(pedido) + "\n\n" + c;
  }

  lemma PedidoRecortado(pedido: string)
    requires PedidoValido(pedido)
    ensures var p := LStrip(pedido);
            p != "" && !EsEspacio(p[0]) && SinDoble(p) && p[|p| - 1] != '\n' && Strip(p) == Strip(pedido)
    ensures NoBlanco(pedido)
  {
    var i :| 0 <= i < |pedido| && !EsEspacio(pedido[i]);
    LStripNoVacio(pedido, i);
    StripIdempotente(pedido);
  }

  // Round trip: whatever notes were appended to a valid request, the parser returns exactly them.
  lemma IdaYVuelta(pedido: string, notas: seq<Nota>)
    requires PedidoValido(pedido) && forall i | 0 <= i < |notas| :: NotaValida(notas[i])
    ensures LeerComentarios(Documento(pedido, notas)) == Comentarios(QuitarMarcas(Strip(pedido)), Vistas(notas), false)
  {
    hide NotaValida, PedidoValido, Fragmentos, LeerBloques, Vistas, QuitarMarcas, Strip, LStrip, Cola, SplitDoble;
    PedidoRecortado(pedido);
    if notas == [] {
      PedidoSolo(pedido);
      SinVistas();
    } else {
      DocumentoPartido(pedido, notas);
      BloquesLeidos(notas);
      CuantosFragmentos(notas);
      var bloques := SplitDoble(Strip(Documento(pedido, notas)));
      assert bloques[0] == LStrip(pedido) && bloques[1..] == Fragmentos(notas);
    }
  }

  lemma SinVistas()
    ensures Vistas([]) == []
  {
  }

  lemma CuantosFragmentos(notas: seq<Nota>)
    ensures |Fragmentos(notas)| == |notas| == |Vistas(notas)|
  {
  }

  lemma PedidoSolo(pedido: string)
    requires PedidoValido(pedido)
    ensures LeerComentarios(pedido) == Comentarios(QuitarMarcas(Strip(pedido)), [], false)
  {
    hide QuitarMarcas, LStrip, RStrip;
    PedidoRecortado(pedido);
    var p := LStrip(pedido);
    var raw := Strip(pedido);
    RStripPrefijo(p);
    assert SinDoble(raw);
    SplitDobleFinal("", raw);
    assert "" + raw == raw;
  }

  lemma {:induction false} RStripPrefijo(s: string)
    ensures |RStrip(s)| <= |s| && RStrip(s) == s[..|RStrip(s)|]
    ensures s != "" && !EsEspacio(s[0]) ==> RStrip(s) != ""
  {
    if s != "" && EsEspacio(s[|s| - 1]) {
      RStripPrefijo(s[..|s| - 1]);
      assert s[..|s| - 1][..|RStrip(s)|] == s[..|RStrip(s)|];
    }
  }

  lemma StripIdempotente(s: string)
    requires NoBlanco(s)
    ensures Strip(LStrip(s)) == Strip(s)
  {
    var i :| 0 <= i < |s| && !EsEspacio(s[i]);
    LStripNoVacio(s, i);
  }

  // Appending through the repository extends the document by one note.
  lemma AnexarExtiende(pedido: string, notas: seq<Nota>, n: Nota)
    requires PedidoValido(pedido)
    ensures Anexar(Documento(pedido, notas), Fragmento(n)) == Documento(pedido, notas + [n])
  {
    hide Fragmento;
    var i :| 0 <= i < |pedido| && !EsEspacio(pedido[i]);
    assert Documento(pedido, notas)[i] == pedido[i];
    if notas != [] {
      ColaExtiende(notas, n);
      assert pedido + "\n\n" + Cola(notas) + "\n\n" + Fragmento(n)
             == pedido + "\n\n" + (Cola(notas) + "\n\n" + Fragmento(n));
    }
  }

  lemma {:induction false} ColaExtiende(notas: seq<Nota>, n: Nota)
    requires notas != []
    ensures Cola(notas + [n]) == Cola(notas) + "\n\n" + Fragmento(n)
  {
    hide Fragmento;
    var f := Fragmento(notas[0]);
    assert (notas + [n])[1..] == notas[1..] + [n];
    if |notas| > 1 {
      ColaExtiende(notas[1..], n);
      assert f + "\n\n" + (Cola(notas[1..]) + "\n\n" + Fragmento(n))
             == (f + "\n\n" + Cola(notas[1..])) + "\n\n" + Fragmento(n);
    }
  }
}
