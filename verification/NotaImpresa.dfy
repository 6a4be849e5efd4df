// The notes as they stand in the comments, character by character: what is printed, and what is accepted back.
module NotaImpresa {
  import opened Opcion
  import opened Texto
  import opened Marcas
  import opened Notas
  import C = Comentario

  // ------------------------------------------------------------------ printing

  function TipoImpreso(t: Tipo): string {
    match t
    case Pdf => "pdf"
    case Png => "png"
    case Jpg => "jpg"
    case Pdfe => "pdfe"
  }

  // The lines of the marks, each after a line feed.
  function Pie(ms: seq<Marca>): string {
    if ms == [] then ""
    else "\n[adjunto:" + TipoImpreso(ms[0].tipo) + ":" + ms[0].id + "]" + Pie(ms[1..])
  }

  function Impresa(ts: string, autor: string, texto: string, ms: seq<Marca>): string {
    "[" + ts + "] " + autor + "\n" + texto + Pie(ms)
  }

  // The comments of a lead with one more note: after a blank line, or alone in the place of nothing but spaces.
  function Agregada(comentarios: string, nota: string): string {
    if forall i | 0 <= i < |comentarios| :: comentarios[i] == ' ' then nota else comentarios + "\n\n" + nota
  }

  // What the service makes of a comment: no sign of HTML in it, shown as the comment is, and kept as it is when there
  // is nothing to escape or neutralize in it.
  ghost predicate TextoDe(texto: string, comentario: string) {
    var t := Normalizar(comentario);
    && '<' !in texto && '>' !in texto
    && !Contiene(texto, "[adjunto:") && !Contiene(texto, "[adjunto-eliminado:")
    && Canonico(C.Mostrado(texto)) == Canonico(C.Mostrado(t))
    && ('<' !in t && '>' !in t && SinImitar(t, "[adjunto:") && SinImitar(t, "[adjunto-eliminado:") ==> texto == t)
  }

  lemma TextoGuardadoDe(comentario: string)
    ensures TextoDe(TextoGuardado(comentario), comentario)
  {
    hide TextoGuardado, Normalizar, Contiene, SinImitar, Canonico, C.Mostrado;
    C.TextoSinSignos(comentario);
    C.SeMuestraIgual(comentario);
    TextoGuardadoLimpio(comentario);
  }

  lemma MarcaImpresa(m: Marca)
    ensures Construir("[adjunto:", m) == "[adjunto:" + TipoImpreso(m.tipo) + ":" + m.id + "]"
    ensures Construir("[adjunto-eliminado:", m) == "[adjunto-eliminado:" + TipoImpreso(m.tipo) + ":" + m.id + "]"
  {
  }

  lemma MarcaConSalto(m: Marca)
    ensures "\n[adjunto:" + TipoImpreso(m.tipo) + ":" + m.id + "]" == "\n" + TextoDeMarca(LineaMarca(true, m))
  {
    MarcaImpresa(m);
    hide Construir;
    assert "\n[adjunto:" == "\n" + "[adjunto:";
  }

  lemma {:induction false} PieEs(ls: seq<LineaMarca>, ms: seq<Marca>)
    requires |ls| == |ms| && forall i | 0 <= i < |ls| :: ls[i] == LineaMarca(true, ms[i])
    ensures Pie(ms) == if ms == [] then "" else "\n" + Unir(LineasDeMarcas(ls))
  {
    hide TextoDeMarca, Unir, TipoImpreso;
    if ms != [] {
      PieEs(ls[1..], ms[1..]);
      MarcaConSalto(ms[0]);
      var t, todas := TextoDeMarca(ls[0]), LineasDeMarcas(ls);
      assert todas[1..] == LineasDeMarcas(ls[1..]);
      if |ms| == 1 {
        UnaLineaUnida(todas);
        assert "\n" + t + "" == "\n" + t;
      } else {
        UnirMas(t, todas[1..], todas);
        assert "\n" + t + ("\n" + Unir(todas[1..])) == "\n" + (t + "\n" + Unir(todas[1..]));
      }
    }
  }

  lemma UnaLineaUnida(lineas: seq<string>)
    requires |lineas| == 1
    ensures Unir(lineas) == lineas[0]
  {
  }

  lemma UnirMas(t: string, resto: seq<string>, todas: seq<string>)
    requires resto != [] && |todas| == |resto| + 1 && todas[0] == t && todas[1..] == resto
    ensures Unir(todas) == t + "\n" + Unir(resto)
  {
  }

  // The note of a comment, as it is written.
  lemma NotaEscrita(ts: string, autor: string, comentario: string, ms: seq<Marca>)
    ensures var nombre := Normalizar(autor);
            Fragmento(NotaDe(ts, autor, comentario, ms))
            == Impresa(ts, if nombre == "" then "Usuario" else nombre, TextoGuardado(comentario), ms)
  {
    hide TextoGuardado, Normalizar;
    var n := NotaDe(ts, autor, comentario, ms);
    PieEs(n.marcas, ms);
    if ms == [] {
      assert Fragmento(n) + "" == Fragmento(n);
    } else {
      var x := Cabecera(n) + "\n" + n.texto;
      assert x + "\n" + Unir(LineasDeMarcas(n.marcas)) == x + ("\n" + Unir(LineasDeMarcas(n.marcas)));
    }
  }

  lemma AgregadaEs(comentarios: string, fragmento: string)
    ensures Anexar(comentarios, fragmento) == Agregada(comentarios, fragmento)
  {
  }

  // ------------------------------------------------------------------ what is a mark

  predicate Hexadecimal(c: char) { c in "0123456789abcdefABCDEF" }

  ghost predicate SonHex(s: string, n: nat) { |s| == n && forall i | 0 <= i < |s| :: Hexadecimal(s[i]) }

  ghost predicate Uuid(s: string, a: string, b: string, c: string, d: string, e: string) {
    && SonHex(a, 8) && SonHex(b, 4) && SonHex(c, 4) && SonHex(d, 4) && SonHex(e, 12)
    && s == a + "-" + b + "-" + c + "-" + d + "-" + e
  }

  lemma HexEs(c: char)
    ensures EsHex(c) <==> Hexadecimal(c)
  {
    var t := "0123456789abcdefABCDEF";
    if '0' <= c <= '9' {
      assert t[c as int - '0' as int] == c;
    } else if 'a' <= c <= 'f' {
      assert t[10 + (c as int - 'a' as int)] == c;
    } else if 'A' <= c <= 'F' {
      assert t[16 + (c as int - 'A' as int)] == c;
    }
  }

  // 8-4-4-4-12 hexadecimal digits, in either case.
  lemma UuidEs(s: string)
    ensures EsUuid(s) <==> exists a, b, c, d, e :: Uuid(s, a, b, c, d, e)
  {
    hide EsHex, EsUuid, Uuid, Hexadecimal;
    forall c: char ensures EsHex(c) <==> Hexadecimal(c) { HexEs(c); }
    if EsUuid(s) {
      UuidPartido(s);
    }
    if a, b, c, d, e :| Uuid(s, a, b, c, d, e) {
      UuidPartes(s, a, b, c, d, e);
    }
  }

  lemma UuidPartido(s: string)
    requires EsUuid(s) && forall c: char :: EsHex(c) <==> Hexadecimal(c)
    ensures exists a, b, c, d, e :: Uuid(s, a, b, c, d, e)
  {
    hide EsHex, SonHex, EsUuid, Uuid, Hexadecimal;
    LugaresDe(s);
    ParteHex(s, 0, 8);
    ParteHex(s, 9, 13);
    ParteHex(s, 14, 18);
    ParteHex(s, 19, 23);
    ParteHex(s, 24, 36);
    Componer(s);
  }

  lemma Componer(s: string)
    requires |s| == 36 && s[8] == '-' && s[13] == '-' && s[18] == '-' && s[23] == '-'
    requires SonHex(s[0..8], 8) && SonHex(s[9..13], 4) && SonHex(s[14..18], 4) && SonHex(s[19..23], 4)
    requires SonHex(s[24..36], 12)
    ensures Uuid(s, s[0..8], s[9..13], s[14..18], s[19..23], s[24..36])
  {
    hide SonHex;
    EntreGuiones(s);
  }

  lemma LugaresDe(s: string)
    requires EsUuid(s)
    ensures |s| == 36 && s[8] == '-' && s[13] == '-' && s[18] == '-' && s[23] == '-'
    ensures forall k | 0 <= k < 36 && k != 8 && k != 13 && k != 18 && k != 23 :: EsHex(s[k])
  {
    hide EsHex;
  }

  lemma EntreGuiones(s: string)
    requires |s| == 36 && s[8] == '-' && s[13] == '-' && s[18] == '-' && s[23] == '-'
    ensures s == s[0..8] + "-" + s[9..13] + "-" + s[14..18] + "-" + s[19..23] + "-" + s[24..36]
  {
    assert s[..9] == s[0..8] + "-";
    assert s[..14] == s[..9] + s[9..13] + "-";
    assert s[..19] == s[..14] + s[14..18] + "-";
    assert s[..24] == s[..19] + s[19..23] + "-";
    assert s == s[..24] + s[24..36];
  }

  lemma ParteHex(s: string, i: nat, j: nat)
    requires i <= j <= |s| && forall k | i <= k < j :: EsHex(s[k])
    requires forall c: char :: EsHex(c) <==> Hexadecimal(c)
    ensures SonHex(s[i..j], j - i)
  {
    hide EsHex, Hexadecimal;
    var t := s[i..j];
    forall k | 0 <= k < |t| ensures Hexadecimal(t[k]) {
      assert t[k] == s[i + k];
    }
  }

  lemma UuidPartes(s: string, a: string, b: string, c: string, d: string, e: string)
    requires Uuid(s, a, b, c, d, e) && forall c: char :: EsHex(c) <==> Hexadecimal(c)
    ensures EsUuid(s)
  {
    hide EsHex, Hexadecimal;
    forall i | 0 <= i < 36 ensures if i in {8, 13, 18, 23} then s[i] == '-' else EsHex(s[i]) {
      if i < 8 { assert s[i] == a[i]; }
      else if 8 < i < 13 { assert s[i] == b[i - 9]; }
      else if 13 < i < 18 { assert s[i] == c[i - 14]; }
      else if 18 < i < 23 { assert s[i] == d[i - 19]; }
      else if 23 < i { assert s[i] == e[i - 24]; }
    }
  }

  // A line is a mark exactly when, without the blanks around, it is the text of one and nothing else; it stands for
  // the canonical form of its identifier.
  lemma LineaExacta(p: string, linea: string, x: Marca)
    ensures CasarLinea(p, linea) == Some(x)
            <==> exists u: Marca :: EsTextoDe(p, u, Strip(linea)) && x == Marca(u.tipo, Canonico(u.id))
  {
    hide Strip, EsUuid, Canonico, Casar, Construir;
    var t := Strip(linea);
    if CasarLinea(p, linea).Some? {
      var u := FormaCasada(p, t);
      assert t[..|t|] == t;
      assert EsTextoDe(p, u, t);
      if CasarLinea(p, linea) == Some(x) {
        assert x == Marca(u.tipo, Canonico(u.id));
      }
    }
    forall u: Marca | EsTextoDe(p, u, t) ensures CasarLinea(p, linea) == Some(Marca(u.tipo, Canonico(u.id))) {
      CasarUuid(p, u, "");
      assert t + "" == t;
    }
  }

  ghost predicate EsTextoDe(p: string, u: Marca, s: string) { EsUuid(u.id) && s == Construir(p, u) }

  lemma {:induction false} QuitarTras(p: string, a: string, s: string)
    requires AbreAlInicio(p) && '[' !in a
    ensures Quitar(p, a + s) == a + Quitar(p, s)
    decreases |a|
  {
    hide Casar;
    if a == "" {
      assert a + s == s;
    } else {
      var t := a + s;
      assert t[0] == a[0] != '[' && t[1..] == a[1..] + s;
      NoCasa(p, t);
      QuitarTras(p, a[1..], s);
    }
  }

  lemma NoCasa(p: string, t: string)
    requires t != "" && p != "" && t[0] != p[0]
    ensures Casar(p, t).None?
  {
    if p <= t { Iguales(p, t); }
  }

  lemma QuitarMarca(p: string, u: Marca, s: string)
    requires EsUuid(u.id)
    ensures Quitar(p, Construir(p, u) + s) == Quitar(p, s)
  {
    hide EsUuid, Canonico, Casar, Construir;
    CasarUuid(p, u, s);
    assert (Construir(p, u) + s)[|Construir(p, u)|..] == s;
  }

  lemma Prefijos()
    ensures AbreAlInicio(ACTIVA) && AbreAlInicio(ELIMINADA)
  {
  }

  // The other pattern steps over it.
  lemma QuitarOtra(u: Marca, s: string)
    requires EsUuid(u.id)
    ensures Quitar(ACTIVA, Construir(ELIMINADA, u) + s) == Construir(ELIMINADA, u) + Quitar(ACTIVA, s)
  {
    hide EsUuid, Casar, AbreAlInicio;
    Prefijos();
    var q := Construir(ELIMINADA, u);
    UnSoloCorchete(ELIMINADA, u);
    var t := q + s;
    assert q == ELIMINADA + (Nombre(u.tipo) + ":" + u.id + "]");
    hide Construir;
    assert t[8] == ELIMINADA[8] == '-';
    NoCasaOtra(t);
    var a := q[1..];
    SinCorchetes(q);
    assert t[1..] == a + s && q == [q[0]] + a;
    QuitarTras(ACTIVA, a, s);
    assert [q[0]] + (a + Quitar(ACTIVA, s)) == q + Quitar(ACTIVA, s);
  }

  lemma NoCasaOtra(t: string)
    requires |t| > 8 && t[8] == '-'
    ensures Casar(ACTIVA, t).None?
  {
    assert ACTIVA[8] == ':';
    if ACTIVA <= t { Iguales(ACTIVA, t); }
  }

  lemma SinCorchetes(q: string)
    requires AbreAlInicio(q)
    ensures q != "" && '[' !in q[1..]
  {
  }

  // Nothing is shown of a mark, active or deleted, in whatever case, and everything of the text before it.
  lemma NoSeMuestra(a: string, activa: bool, u: Marca, s: string)
    requires '[' !in a && EsUuid(u.id)
    ensures QuitarMarcas(a + Construir(if activa then "[adjunto:" else "[adjunto-eliminado:", u) + s)
            == a + QuitarMarcas(s)
  {
    hide EsUuid, Casar, Construir, AbreAlInicio, Quitar;
    Prefijos();
    var p := if activa then ACTIVA else ELIMINADA;
    var q := Construir(p, u);
    assert a + q + s == a + (q + s);
    QuitarTras(ACTIVA, a, q + s);
    if activa {
      QuitarMarca(ACTIVA, u, s);
      QuitarTras(ELIMINADA, a, Quitar(ACTIVA, s));
    } else {
      QuitarOtra(u, s);
      QuitarTras(ELIMINADA, a, q + Quitar(ACTIVA, s));
      QuitarMarca(ELIMINADA, u, Quitar(ACTIVA, s));
    }
  }

  // ------------------------------------------------------------------ what is a note

  predicate Decimal(c: char) { c in "0123456789" }

  ghost predicate SonCifras(s: string, n: nat) { |s| == n && forall i | 0 <= i < |s| :: Decimal(s[i]) }

  // dd/mm/YYYY HH:MM
  ghost predicate Fecha(ts: string, d: string, m: string, y: string, h: string, min: string) {
    && SonCifras(d, 2) && SonCifras(m, 2) && SonCifras(y, 4) && SonCifras(h, 2) && SonCifras(min, 2)
    && ts == d + "/" + m + "/" + y + " " + h + ":" + min
  }

  lemma CifraEs(c: char)
    ensures EsDigito(c) <==> Decimal(c)
  {
    var t := "0123456789";
    if EsDigito(c) { assert t[c as int - '0' as int] == c; }
  }

  lemma FechaEs(ts: string)
    ensures EsFecha(ts) <==> exists d, m, y, h, min :: Fecha(ts, d, m, y, h, min)
  {
    hide EsDigito, Decimal;
    forall c: char ensures EsDigito(c) <==> Decimal(c) { CifraEs(c); }
    if EsFecha(ts) {
      var d, m, y, h, min := ts[..2], ts[3..5], ts[6..10], ts[11..13], ts[14..];
      assert ts == d + "/" + m + "/" + y + " " + h + ":" + min;
      assert Fecha(ts, d, m, y, h, min);
    }
    if d, m, y, h, min :| Fecha(ts, d, m, y, h, min) {
      FechaPartes(ts, d, m, y, h, min);
    }
  }

  lemma FechaPartes(ts: string, d: string, m: string, y: string, h: string, min: string)
    requires Fecha(ts, d, m, y, h, min) && forall c: char :: EsDigito(c) <==> Decimal(c)
    ensures EsFecha(ts)
  {
    hide EsDigito, Decimal;
    forall i | 0 <= i < 16
      ensures if i == 2 || i == 5 then ts[i] == '/' else if i == 10 then ts[i] == ' '
              else if i == 13 then ts[i] == ':' else EsDigito(ts[i])
    {
      if i < 2 { assert ts[i] == d[i]; }
      else if 2 < i < 5 { assert ts[i] == m[i - 3]; }
      else if 5 < i < 10 { assert ts[i] == y[i - 6]; }
      else if 10 < i < 13 { assert ts[i] == h[i - 11]; }
      else if 13 < i { assert ts[i] == min[i - 14]; }
    }
  }

  // A header: a date in brackets, white space, and an author.
  ghost predicate Encabezado(h: string, ts: string, espacio: string, autor: string) {
    && EsFecha(ts) && h == "[" + ts + "]" + espacio + autor
    && espacio != "" && (forall i | 0 <= i < |espacio| :: EsEspacio(espacio[i]))
    && autor != "" && !EsEspacio(autor[0])
  }

  lemma {:induction false} LStripParte(s: string) returns (espacio: string)
    ensures s == espacio + LStrip(s) && forall i | 0 <= i < |espacio| :: EsEspacio(espacio[i])
    ensures LStrip(s) != "" ==> !EsEspacio(LStrip(s)[0])
    ensures s != "" && EsEspacio(s[0]) ==> espacio != ""
  {
    if s != "" && EsEspacio(s[0]) {
      var resto := LStripParte(s[1..]);
      espacio := [s[0]] + resto;
    } else {
      espacio := "";
    }
  }

  lemma {:induction false} LStripDe(espacio: string, autor: string)
    requires (forall i | 0 <= i < |espacio| :: EsEspacio(espacio[i])) && autor != "" && !EsEspacio(autor[0])
    ensures LStrip(espacio + autor) == autor
  {
    if espacio == "" {
      assert espacio + autor == autor;
    } else {
      assert (espacio + autor)[1..] == espacio[1..] + autor;
      LStripDe(espacio[1..], autor);
    }
  }

  // A line is the header of a note exactly when it has that form, and its author is read without blanks around.
  lemma CabeceraExacta(h: string)
    ensures CasarCabecera(h).Some? <==> exists ts, espacio, autor :: Encabezado(h, ts, espacio, autor)
    ensures forall ts, espacio, autor | Encabezado(h, ts, espacio, autor) ::
              CasarCabecera(h) == Some((ts, Strip(autor)))
  {
    hide EsFecha, EsEspacio, LStrip, Strip;
    if CasarCabecera(h).Some? {
      CabeceraParte(h);
    }
    forall ts, espacio, autor | Encabezado(h, ts, espacio, autor)
      ensures CasarCabecera(h) == Some((ts, Strip(autor)))
    {
      CabeceraDe(h, ts, espacio, autor);
    }
  }

  lemma CabeceraParte(h: string)
    requires CasarCabecera(h).Some?
    ensures exists ts, espacio, autor :: Encabezado(h, ts, espacio, autor)
  {
    hide EsEspacio, LStrip, Strip;
    var espacio := LStripParte(h[18..]);
    var ts, autor := h[1..17], LStrip(h[18..]);
    assert h == h[..18] + h[18..];
    assert h[..18] == "[" + ts + "]";
    assert Encabezado(h, ts, espacio, autor);
  }

  lemma CabeceraDe(h: string, ts: string, espacio: string, autor: string)
    requires Encabezado(h, ts, espacio, autor)
    ensures CasarCabecera(h) == Some((ts, Strip(autor)))
  {
    hide EsEspacio, LStrip, Strip;
    assert |ts| == 16;
    assert h[1..17] == ts && h[17] == ']' && h[18] == espacio[0] && h[18..] == espacio + autor;
    LStripDe(espacio, autor);
  }

  lemma {:induction false} BloquesLeidos(bloques: seq<string>)
    ensures LeerBloques(bloques).Some? <==> forall i | 0 <= i < |bloques| :: LeerBloque(bloques[i]).Some?
  {
    hide LeerBloque;
    if bloques != [] {
      BloquesLeidos(bloques[1..]);
      assert forall i | 0 <= i < |bloques[1..]| :: bloques[1..][i] == bloques[i + 1];
      if LeerBloques(bloques).Some? {
        forall i | 0 <= i < |bloques| ensures LeerBloque(bloques[i]).Some? {
          if i > 0 { assert bloques[1..][i - 1] == bloques[i]; }
        }
      }
    }
  }

  // The parser fails closed: as soon as one block after the first does not start with a header, the whole text is the
  // request; otherwise it never falls back.
  lemma RespaldoExacto(crudo: string)
    ensures var raw := Strip(crudo);
            var bloques := SplitDoble(raw);
            && (LeerComentarios(crudo).respaldo
                <==> raw != "" && exists i :: 1 <= i < |bloques| && !EmpiezaConCabecera(bloques[i]))
            && (LeerComentarios(crudo).respaldo ==> LeerComentarios(crudo) == Comentarios(raw, [], true))
  {
    hide Strip, SplitDobleDesde, LeerBloque, QuitarMarcas;
    var bloques := SplitDoble(Strip(crudo));
    AlgunBloque("", Strip(crudo));
    BloquesLeidos(bloques[1..]);
    forall i | 1 <= i < |bloques| ensures LeerBloque(bloques[i]).Some? <==> EmpiezaConCabecera(bloques[i]) {
      BloqueConCabecera(bloques[i]);
    }
    assert forall i | 0 <= i < |bloques[1..]| :: bloques[1..][i] == bloques[i + 1];
    if i :| 1 <= i < |bloques| && !EmpiezaConCabecera(bloques[i]) {
      assert LeerBloque(bloques[1..][i - 1]).None?;
    }
  }

  ghost predicate EmpiezaConCabecera(bloque: string) {
    && SplitLines(bloque) != []
    && exists ts, espacio, autor :: Encabezado(Strip(SplitLines(bloque)[0]), ts, espacio, autor)
  }

  lemma BloqueConCabecera(bloque: string)
    ensures LeerBloque(bloque).Some? <==> EmpiezaConCabecera(bloque)
  {
    hide Strip, SplitLines, CasarCabecera, Encabezado, QuitarMarcas;
    if SplitLines(bloque) != [] {
      CabeceraExacta(Strip(SplitLines(bloque)[0]));
    }
  }

  lemma {:induction false} AlgunBloque(bloque: string, s: string)
    ensures SplitDobleDesde(bloque, s) != []
    decreases |s|
  {
    if s != "" && !(|s| >= 2 && s[0] == '\n' && s[1] == '\n') {
      AlgunBloque(bloque + [s[0]], s[1..]);
    }
  }
}
