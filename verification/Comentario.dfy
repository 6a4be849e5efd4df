// The text stored for a comment: what of it is kept, and what a browser shows of it.
module Comentario {
  import opened Texto
  import opened Marcas

  // ------------------------------------------------------------------ white space

  // The blanks: tab, line feed, vertical tab, form feed, carriage return, the four separators and the space.
  lemma Blancos(c: char)
    ensures EsEspacio(c) <==> c as int in {9, 10, 11, 12, 13, 28, 29, 30, 31, 32}
    ensures EsSalto(c) <==> c as int in {10, 11, 12, 13, 28, 29, 30}
  {
  }

  // Letter case: the capital letters of ASCII, and nothing else.
  lemma Minusculas(c: char)
    ensures forall v: nat | v < 26 && c == "ABCDEFGHIJKLMNOPQRSTUVWXYZ"[v] ::
              Minus(c) == "abcdefghijklmnopqrstuvwxyz"[v]
    ensures c !in "ABCDEFGHIJKLMNOPQRSTUVWXYZ" ==> Minus(c) == c
  {
    var altas, bajas := "ABCDEFGHIJKLMNOPQRSTUVWXYZ", "abcdefghijklmnopqrstuvwxyz";
    forall v: nat | v < 26 ensures altas[v] as int == 65 + v && bajas[v] as int == 97 + v { Abecedario(v); }
    if 'A' <= c <= 'Z' {
      assert altas[c as int - 65] == c;
    }
  }

  lemma Abecedario(v: nat)
    requires v < 26
    ensures "ABCDEFGHIJKLMNOPQRSTUVWXYZ"[v] as int == 65 + v && "abcdefghijklmnopqrstuvwxyz"[v] as int == 97 + v
  {
    if v < 7 {
      if v == 0 {} else if v == 1 {} else if v == 2 {} else if v == 3 {} else if v == 4 {} else if v == 5 {} else {}
    } else if v < 14 {
      if v == 7 {} else if v == 8 {} else if v == 9 {} else if v == 10 {} else if v == 11 {} else if v == 12 {} else {}
    } else if v < 20 {
      if v == 14 {} else if v == 15 {} else if v == 16 {} else if v == 17 {} else if v == 18 {} else {}
    } else if v == 20 {} else if v == 21 {} else if v == 22 {} else if v == 23 {} else if v == 24 {} else {}
  }

  ghost predicate SonBlancos(s: string) {
    forall i | 0 <= i < |s| :: s[i] as int in {9, 10, 11, 12, 13, 28, 29, 30, 31, 32}
  }

  // What is left when the blanks at both ends are taken off, and nothing else.
  ghost predicate Recorte(s: string, a: string, t: string, b: string) {
    s == a + t + b && SonBlancos(a) && SonBlancos(b)
    && (t != "" ==> !SonBlancos([t[0]]) && !SonBlancos([t[|t| - 1]]))
  }

  lemma {:induction false} LStripExacto(s: string) returns (a: string)
    ensures s == a + LStrip(s) && SonBlancos(a) && (LStrip(s) != "" ==> !EsEspacio(LStrip(s)[0]))
  {
    if s != "" && EsEspacio(s[0]) {
      a := LStripExacto(s[1..]);
      a := [s[0]] + a;
    } else {
      a := "";
    }
  }

  lemma {:induction false} RStripExacto(s: string) returns (b: string)
    ensures s == RStrip(s) + b && SonBlancos(b)
    ensures RStrip(s) != "" ==> !EsEspacio(RStrip(s)[|RStrip(s)| - 1]) && RStrip(s)[0] == s[0]
  {
    if s != "" && EsEspacio(s[|s| - 1]) {
      b := RStripExacto(s[..|s| - 1]);
      assert s == s[..|s| - 1] + [s[|s| - 1]];
      b := b + [s[|s| - 1]];
    } else {
      b := "";
    }
  }

  // Stripping takes off the blanks at both ends, and nothing else.
  lemma StripExacto(s: string) returns (a: string, b: string)
    ensures Recorte(s, a, Strip(s), b)
  {
    hide SonBlancos, EsEspacio, LStrip, RStrip;
    a := LStripExacto(s);
    b := RStripExacto(LStrip(s));
    var t := Strip(s);
    assert a + (t + b) == a + t + b;
    if t != "" {
      UnBlanco(t[0]);
      UnBlanco(t[|t| - 1]);
    }
  }

  lemma UnBlanco(c: char)
    ensures SonBlancos([c]) <==> EsEspacio(c)
  {
    assert [c][0] == c;
  }

  // Lines end at any of the seven line ends, and a carriage return with its line feed is one.
  lemma {:induction false} LineaCortada(linea: string, a: string, fin: string, b: string)
    requires forall i | 0 <= i < |a| :: a[i] as int !in {10, 11, 12, 13, 28, 29, 30}
    requires fin == "\r\n" || (|fin| == 1 && fin[0] as int in {10, 11, 12, 13, 28, 29, 30})
    requires fin == "\r" ==> b == "" || b[0] != '\n'
    ensures SplitLinesDesde(linea, a + fin + b) == [linea + a] + SplitLinesDesde("", b)
    decreases |a|
  {
    var s := a + fin + b;
    if a == "" {
      assert s == fin + b && linea + a == linea;
      assert s[0] == fin[0] && s[|fin|..] == b;
      if |fin| == 1 && b != "" { assert s[1] == b[0]; }
    } else {
      assert s[0] == a[0] && s[1..] == a[1..] + fin + b;
      assert linea + [a[0]] + a[1..] == linea + a;
      if |a| > 1 { assert s[1] == a[1]; }
      LineaCortada(linea + [a[0]], a[1..], fin, b);
    }
  }

  lemma {:induction false} UltimaLinea(linea: string, a: string)
    requires forall i | 0 <= i < |a| :: a[i] as int !in {10, 11, 12, 13, 28, 29, 30}
    ensures SplitLinesDesde(linea, a) == if linea + a == "" then [] else [linea + a]
    decreases |a|
  {
    if a == "" {
      assert linea + a == linea;
    } else {
      assert linea + [a[0]] + a[1..] == linea + a;
      UltimaLinea(linea + [a[0]], a[1..]);
    }
  }

  // So a text is split into its lines, without their ends, and a last line only if it is not empty.
  lemma LineasExactas(a: string, fin: string, b: string)
    requires forall i | 0 <= i < |a| :: a[i] as int !in {10, 11, 12, 13, 28, 29, 30}
    requires fin == "\r\n" || (|fin| == 1 && fin[0] as int in {10, 11, 12, 13, 28, 29, 30})
    requires fin == "\r" ==> b == "" || b[0] != '\n'
    ensures SplitLines(a + fin + b) == [a] + SplitLines(b)
    ensures SplitLines(a) == if a == "" then [] else [a]
  {
    hide SplitLinesDesde;
    LineaCortada("", a, fin, b);
    UltimaLinea("", a);
    assert "" + a == a;
  }

  lemma {:induction false} NormalizarTras(h: string, x: string, palabra: string, s: string)
    ensures NormalizarDesde(Juntar(h, x), palabra, s) == Juntar(h, NormalizarDesde(x, palabra, s))
    decreases |s|
  {
    if s == "" {
      JuntarAsocia(h, x, palabra);
    } else if EsEspacio(s[0]) {
      JuntarAsocia(h, x, palabra);
      NormalizarTras(h, Juntar(x, palabra), "", s[1..]);
    } else {
      NormalizarTras(h, x, palabra + [s[0]], s[1..]);
    }
  }

  lemma JuntarAsocia(x: string, y: string, z: string)
    ensures Juntar(Juntar(x, y), z) == Juntar(x, Juntar(y, z))
  {
    assert x + " " + (y + " " + z) == x + " " + y + " " + z;
  }

  lemma {:induction false} NormalizarCorte(h: string, palabra: string, a: string, b: char, t: string)
    requires EsEspacio(b)
    ensures NormalizarDesde(h, palabra, a + [b] + t) == NormalizarDesde(NormalizarDesde(h, palabra, a), "", t)
    decreases |a|
  {
    var s := a + [b] + t;
    if a == "" {
      assert s[1..] == t;
    } else {
      assert s[0] == a[0] && s[1..] == a[1..] + [b] + t;
      if EsEspacio(a[0]) {
        NormalizarCorte(Juntar(h, palabra), "", a[1..], b, t);
      } else {
        NormalizarCorte(h, palabra + [a[0]], a[1..], b, t);
      }
    }
  }

  // A blank, whichever it is, leaves one space between what is before it and what is after it, if there is anything.
  lemma NormalizarEntreBlancos(a: string, b: char, t: string)
    requires b as int in {9, 10, 11, 12, 13, 28, 29, 30, 31, 32}
    ensures var x, y := Normalizar(a), Normalizar(t);
            Normalizar(a + [b] + t) == if x == "" then y else if y == "" then x else x + " " + y
  {
    hide NormalizarDesde;
    NormalizarCorte("", "", a, b, t);
    NormalizarTras(Normalizar(a), "", "", t);
  }

  lemma {:induction false} PalabraSuelta(palabra: string, s: string)
    requires forall i | 0 <= i < |s| :: s[i] as int !in {9, 10, 11, 12, 13, 28, 29, 30, 31, 32}
    ensures NormalizarDesde("", palabra, s) == palabra + s
    decreases |s|
  {
    if s == "" {
      assert palabra + s == palabra;
    } else {
      PalabraSuelta(palabra + [s[0]], s[1..]);
      assert palabra + [s[0]] + s[1..] == palabra + s;
    }
  }

  // A text without blanks is kept as it is.
  lemma NormalizarPalabra(s: string)
    requires forall i | 0 <= i < |s| :: s[i] as int !in {9, 10, 11, 12, 13, 28, 29, 30, 31, 32}
    ensures Normalizar(s) == s
  {
    PalabraSuelta("", s);
    assert "" + s == s;
  }

  // The characters of s that are not blanks, in order.
  function Letras(s: string): string {
    if s == "" then "" else (if EsEspacio(s[0]) then "" else [s[0]]) + Letras(s[1..])
  }

  lemma {:induction false} LetrasSuma(a: string, b: string)
    ensures Letras(a + b) == Letras(a) + Letras(b)
  {
    if a == "" {
      assert a + b == b;
    } else {
      assert (a + b)[1..] == a[1..] + b;
      LetrasSuma(a[1..], b);
    }
  }

  lemma LetrasJuntar(x: string, y: string)
    ensures Letras(Juntar(x, y)) == Letras(x) + Letras(y)
  {
    LetrasSuma(x + " ", y);
    LetrasSuma(x, " ");
    assert Letras(" ") == Letras(" "[1..]) == "";
    assert Letras(x) + "" == Letras(x);
  }

  lemma {:induction false} NormalizarLetras(h: string, palabra: string, s: string)
    ensures Letras(NormalizarDesde(h, palabra, s)) == Letras(h) + Letras(palabra) + Letras(s)
    decreases |s|
  {
    hide Letras, Juntar, EsEspacio;
    LetrasPaso(s);
    LetrasJuntar(h, palabra);
    var x, y := Letras(h), Letras(palabra);
    if s == "" {
      assert x + y + "" == x + y;
    } else if EsEspacio(s[0]) {
      NormalizarLetras(Juntar(h, palabra), "", s[1..]);
      LetrasPaso("");
      assert x + y + "" + Letras(s[1..]) == x + y + ("" + Letras(s[1..]));
    } else {
      NormalizarLetras(h, palabra + [s[0]], s[1..]);
      UnaLetra(palabra, s[0]);
      assert x + (y + [s[0]]) + Letras(s[1..]) == x + y + ([s[0]] + Letras(s[1..]));
    }
  }

  lemma LetrasPaso(s: string)
    ensures Letras(s) == if s == "" then "" else (if EsEspacio(s[0]) then "" else [s[0]]) + Letras(s[1..])
  {
    hide EsEspacio;
  }

  lemma UnaLetra(palabra: string, c: char)
    requires !EsEspacio(c)
    ensures Letras(palabra + [c]) == Letras(palabra) + [c]
  {
    hide Letras, EsEspacio;
    LetrasSuma(palabra, [c]);
    LetrasPaso([c]);
    LetrasPaso([c][1..]);
  }

  // Collapsing white space keeps every other character, in order.
  lemma NormalizarConserva(s: string)
    ensures Letras(Normalizar(s)) == Letras(s)
  {
    NormalizarLetras("", "", s);
    assert "" + "" + Letras(s) == Letras(s);
  }

  // ------------------------------------------------------------------ the two signs

  lemma {:induction false} ReemplazarSuma(a: string, b: string, c: char, nuevo: string)
    ensures Reemplazar(a + b, [c], nuevo) == Reemplazar(a, [c], nuevo) + Reemplazar(b, [c], nuevo)
    decreases |a|
  {
    if a == "" {
      assert a + b == b;
    } else {
      var s := a + b;
      assert s[0] == a[0] && s[1..] == a[1..] + b;
      assert [c] <= s <==> s[0] == c;
      assert [c] <= a <==> a[0] == c;
      ReemplazarSuma(a[1..], b, c, nuevo);
    }
  }

  lemma ReemplazarUno(x: char, c: char, nuevo: string)
    ensures Reemplazar([x], [c], nuevo) == if x == c then nuevo else [x]
  {
    var s, viejo := [x], [c];
    assert s[1..] == "" && Reemplazar("", viejo, nuevo) == "";
    if x == c {
      assert viejo <= s && s[|viejo|..] == "";
      assert Reemplazar(s, viejo, nuevo) == nuevo + "";
    } else {
      assert s[0] != viejo[0];
      assert Reemplazar(s, viejo, nuevo) == [x] + "";
    }
  }

  // Escaping is one replacement of '<' and then one of '>'.
  lemma {:induction false} EscaparEsReemplazar(s: string)
    ensures Escapar(s) == Reemplazar(Reemplazar(s, "<", "&lt;"), ">", "&gt;")
  {
    if s != "" {
      EscaparEsReemplazar(s[1..]);
      var c := if s[0] == '<' then "&lt;" else [s[0]];
      assert s == [s[0]] + s[1..];
      ReemplazarSuma([s[0]], s[1..], '<', "&lt;");
      ReemplazarUno(s[0], '<', "&lt;");
      ReemplazarSuma(c, Reemplazar(s[1..], "<", "&lt;"), '>', "&gt;");
      if s[0] == '<' {
        SinEseSigno("&lt;", '>', "&gt;");
      } else {
        ReemplazarUno(s[0], '>', "&gt;");
      }
    }
  }

  lemma {:induction false} SinEseSigno(s: string, c: char, nuevo: string)
    requires c !in s
    ensures Reemplazar(s, [c], nuevo) == s
  {
    if s != "" {
      SinEseSigno(s[1..], c, nuevo);
      assert !([c] <= s) by { assert s[0] != c; }
    }
  }

  lemma {:induction false} EscaparSinSignos(s: string)
    ensures '<' !in Escapar(s) && '>' !in Escapar(s)
    ensures '<' !in s && '>' !in s ==> Escapar(s) == s
  {
    if s != "" {
      EscaparSinSignos(s[1..]);
    }
  }

  lemma {:induction false} SustituirSinSigno(s: string, p: string, r: string, c: char)
    requires p != "" && c !in s && c !in r
    ensures c !in Sustituir(s, p, r)
    decreases |s|
  {
    if s != "" {
      SustituirSinSigno(s[if Imita(s, p) then |p| else 1..], p, r, c);
    }
  }

  lemma {:induction false} SustituirNada(s: string, p: string, r: string)
    requires p != "" && SinImitar(s, p)
    ensures Sustituir(s, p, r) == s
  {
    if s != "" {
      assert s[0..] == s;
      forall i | 0 <= i <= |s[1..]| ensures !Imita(s[1..][i..], p) {
        assert s[1..][i..] == s[i + 1..];
      }
      SustituirNada(s[1..], p, r);
    }
  }

  // The stored text holds neither sign, whatever was typed; a comment without them and without an imitation of a mark
  // prefix is stored with its white space collapsed and nothing else changed.
  lemma TextoSinSignos(comentario: string)
    ensures '<' !in TextoGuardado(comentario) && '>' !in TextoGuardado(comentario)
    ensures var t := Normalizar(comentario);
            '<' !in t && '>' !in t && SinImitar(t, "[adjunto:") && SinImitar(t, "[adjunto-eliminado:")
            ==> TextoGuardado(comentario) == t
  {
    hide Normalizar, Sustituir, Escapar, SinImitar;
    var t := Normalizar(comentario);
    var e := Escapar(t);
    EscaparSinSignos(t);
    var u := Sustituir(e, ACTIVA, ACTIVA_NEUTRA);
    SustituirSinSigno(e, ACTIVA, ACTIVA_NEUTRA, '<');
    SustituirSinSigno(e, ACTIVA, ACTIVA_NEUTRA, '>');
    SustituirSinSigno(u, ELIMINADA, ELIMINADA_NEUTRA, '<');
    SustituirSinSigno(u, ELIMINADA, ELIMINADA_NEUTRA, '>');
    if '<' !in t && '>' !in t && SinImitar(t, ACTIVA) && SinImitar(t, ELIMINADA) {
      SustituirNada(t, ACTIVA, ACTIVA_NEUTRA);
      SustituirNada(t, ELIMINADA, ELIMINADA_NEUTRA);
    }
  }

  // ------------------------------------------------------------------ what a browser shows

  // The length of the character reference at the start of s, or 0, and the character it stands for.
  function Entidad(s: string): (e: (nat, char))
    ensures e.0 <= |s| && e.0 <= 5
  {
    if "&lt;" <= s then (4, '<')
    else if "&gt;" <= s then (4, '>')
    else if "&#58;" <= s then (5, ':')
    else (0, ' ')
  }

  // Text as a browser shows it, as far as the references the service writes.
  function Mostrado(s: string): string
    decreases |s|
  {
    if s == "" then ""
    else
      var (n, c) := Entidad(s);
      if n > 0 then [c] + Mostrado(s[n..]) else [s[0]] + Mostrado(s[1..])
  }

  // A reference starts with the one ampersand it holds, and holds no bracket and no sign.
  lemma EntidadForma(s: string)
    ensures var n := Entidad(s).0;
            n > 0 ==> && 4 <= n <= |s| && s[0] == '&'
                      && forall i | 0 <= i < n :: (i > 0 ==> s[i] != '&') && s[i] !in {'[', '<', '>'}
  {
    if "&lt;" <= s { Iguales("&lt;", s); }
    if "&gt;" <= s { Iguales("&gt;", s); }
    if "&#58;" <= s { Iguales("&#58;", s); }
  }

  // It is told by its own characters.
  lemma EntidadIgual(s: string, t: string)
    requires Entidad(s).0 <= |t| && t[..Entidad(s).0] == s[..Entidad(s).0] && Entidad(s).0 > 0
    ensures Entidad(t) == Entidad(s)
  {
    var n := Entidad(s).0;
    assert forall i | 0 <= i < n :: t[i] == t[..n][i] == s[..n][i] == s[i];
    if "&lt;" <= s { Iguales("&lt;", s); assert t[..4] == "&lt;"; }
    else if "&gt;" <= s { Iguales("&gt;", s); assert t[..4] == "&gt;"; assert t[1] == 'g'; }
    else { Iguales("&#58;", s); assert t[..5] == "&#58;"; assert t[1] == '#'; }
  }

  lemma MostradoPaso(s: string)
    requires s != ""
    ensures Entidad(s).0 > 0 ==> Mostrado(s) == [Entidad(s).1] + Mostrado(s[Entidad(s).0..])
    ensures Entidad(s).0 == 0 ==> Mostrado(s) == [s[0]] + Mostrado(s[1..])
    ensures s[0] != '&' ==> Entidad(s).0 == 0
  {
    hide Entidad;
    EntidadForma(s);
  }

  lemma {:induction false} MostradoTras(a: string, t: string)
    requires '&' !in a
    ensures Mostrado(a + t) == a + Mostrado(t)
  {
    hide Entidad, Mostrado;
    if a == "" {
      assert a + t == t;
    } else {
      var s := a + t;
      assert s[0] == a[0] && s[1..] == a[1..] + t;
      MostradoPaso(s);
      MostradoTras(a[1..], t);
    }
  }

  // Where no character up to the k-th could belong to what a replacement writes, nothing was replaced: for escaping,
  // no ampersand; for neutralizing, no bracket (CabezaIgual).
  lemma {:induction false} CabezaEscapada(s: string, k: nat)
    requires k <= |Escapar(s)| && '&' !in Escapar(s)[..k]
    ensures k <= |s| && s[..k] == Escapar(s)[..k]
  {
    if k > 0 {
      var t := Escapar(s);
      assert t[0] == t[..k][0];
      assert t[1..] == Escapar(s[1..]);
      var w := t[1..][..k - 1];
      forall i | 0 <= i < |w| ensures w[i] != '&' {
        assert w[i] == t[..k][i + 1];
      }
      CabezaEscapada(s[1..], k - 1);
      MismaCabeza(s, t, k);
    }
  }

  // A reference at the start of [s[0]] + u was at the start of s, when u agrees with s as far as it reaches.
  lemma EntidadHeredada(s: string, u: string)
    requires s != ""
    requires forall k: nat | k <= |u| && '&' !in u[..k] && '[' !in u[..k] :: k < |s| && s[1..][..k] == u[..k]
    ensures Entidad([s[0]] + u).0 > 0 ==> Entidad(s) == Entidad([s[0]] + u)
  {
    hide Entidad;
    var t := [s[0]] + u;
    EntidadForma(t);
    var n := Entidad(t).0;
    if n > 0 {
      var w := u[..n - 1];
      forall i | 0 <= i < |w| ensures w[i] != '&' && w[i] != '[' {
        assert w[i] == t[i + 1];
      }
      assert n - 1 < |s| && s[1..][..n - 1] == u[..n - 1];
      assert t[1..] == u;
      MismaCabeza(s, t, n);
      EntidadIgual(t, s);
    }
  }

  lemma {:induction false} EscaparEntidad(a: string, t: string)
    requires '<' !in a && '>' !in a
    ensures Escapar(a + t) == a + Escapar(t)
  {
    if a == "" {
      assert a + t == t;
    } else {
      assert (a + t)[0] == a[0] && (a + t)[1..] == a[1..] + t;
      EscaparEntidad(a[1..], t);
    }
  }

  // Escaping does not change what is shown.
  lemma {:induction false} EscaparSeMuestra(s: string)
    ensures Mostrado(Escapar(s)) == Mostrado(s)
    decreases |s|
  {
    hide Entidad, Mostrado, Escapar;
    if s == "" {
      EscaparVacio();
    } else {
      MostradoPaso(s);
      EntidadForma(s);
      var n := Entidad(s).0;
      if n > 0 {
        var a, t := s[..n], s[n..];
        assert s == a + t;
        EscaparEntidad(a, t);
        MismaEntidad(a, t, Escapar(t));
        EscaparSeMuestra(t);
      } else if s[0] == '<' || s[0] == '>' {
        SignoMostrado(s);
        EscaparSeMuestra(s[1..]);
      } else {
        EscaparPaso(s);
        forall k: nat | k <= |Escapar(s[1..])| && '&' !in Escapar(s[1..])[..k] && '[' !in Escapar(s[1..])[..k]
          ensures k < |s| && s[1..][..k] == Escapar(s[1..])[..k]
        {
          CabezaEscapada(s[1..], k);
        }
        UnoMasMostrado(s, Escapar(s[1..]));
        EscaparSeMuestra(s[1..]);
      }
    }
  }

  lemma EscaparVacio()
    ensures Escapar("") == ""
  {
  }

  lemma EscaparPaso(s: string)
    requires s != "" && s[0] != '<' && s[0] != '>'
    ensures Escapar(s) == [s[0]] + Escapar(s[1..])
  {
  }

  // A reference is shown alike whatever follows.
  lemma MismaEntidad(a: string, t: string, u: string)
    requires Entidad(a + t).0 == |a| > 0
    ensures Mostrado(a + u) == [Entidad(a + t).1] + Mostrado(u)
  {
    hide Entidad, Mostrado;
    assert (a + u)[..|a|] == a == (a + t)[..|a|];
    EntidadIgual(a + t, a + u);
    MostradoPaso(a + u);
    assert (a + u)[|a|..] == u;
  }

  lemma SignoMostrado(s: string)
    requires s != "" && (s[0] == '<' || s[0] == '>')
    ensures Mostrado(Escapar(s)) == [s[0]] + Mostrado(Escapar(s[1..]))
  {
    var e, u := if s[0] == '<' then "&lt;" else "&gt;", Escapar(s[1..]);
    hide Mostrado;
    assert Escapar(s) == e + u;
    assert e <= e + u && (e + u)[..4] == e && (e + u)[1] == e[1];
    assert Entidad(e + u) == (4, s[0]);
    MostradoPaso(e + u);
    assert (e + u)[4..] == u;
  }

  // A character that starts no reference is shown as itself, before any u that agrees with what followed it.
  lemma UnoMasMostrado(s: string, u: string)
    requires s != "" && Entidad(s).0 == 0
    requires forall k: nat | k <= |u| && '&' !in u[..k] && '[' !in u[..k] :: k < |s| && s[1..][..k] == u[..k]
    ensures Mostrado([s[0]] + u) == [s[0]] + Mostrado(u)
  {
    hide Entidad, Mostrado;
    EntidadHeredada(s, u);
    MostradoPaso([s[0]] + u);
    assert ([s[0]] + u)[1..] == u;
  }

  // ------------------------------------------------------------------ neutralizing

  // What a mark prefix is replaced by: the same, with its colon as a reference.
  ghost predicate Neutra(p: string, r: string) {
    && AbreAlInicio(p) && AbreAlInicio(r) && '&' !in p
    && exists q :: p == q + ":" && r == q + "&#58;" && Canonico(p) == p
  }

  lemma {:induction false} SustituirSinCorchete(a: string, t: string, p: string, r: string)
    requires AbreAlInicio(p) && '[' !in a
    ensures Sustituir(a + t, p, r) == a + Sustituir(t, p, r)
    decreases |a|
  {
    if a == "" {
      assert a + t == t;
    } else {
      var s := a + t;
      assert s[0] == a[0] != '[' && s[1..] == a[1..] + t;
      NoImita(s, p);
      SustituirSinCorchete(a[1..], t, p, r);
    }
  }

  lemma NoImita(s: string, p: string)
    requires s != "" && s[0] != '[' && AbreAlInicio(p)
    ensures !Imita(s, p)
  {
    assert Minus(s[0]) != '[';
  }

  lemma CanonicoSuma(a: string, b: string)
    ensures Canonico(a + b) == Canonico(a) + Canonico(b)
  {
  }

  // What imitates p is p but for the case of its letters, and holds no ampersand.
  lemma Imitado(s: string, p: string)
    requires Imita(s, p) && '&' !in p
    ensures |p| <= |s| && Canonico(s[..|p|]) == p && '&' !in s[..|p|]
  {
    var a := s[..|p|];
    forall i | 0 <= i < |a| ensures a[i] != '&' {
      assert Minus(s[i]) == p[i] && p[i] in p;
    }
  }

  lemma ReferenciaMostrada(q: string, u: string)
    requires '&' !in q
    ensures Mostrado(q + "&#58;" + u) == q + ":" + Mostrado(u)
  {
    hide Mostrado;
    assert q + "&#58;" + u == q + ("&#58;" + u);
    MostradoTras(q, "&#58;" + u);
    DosPuntosMostrados(u);
    assert q + (":" + Mostrado(u)) == q + ":" + Mostrado(u);
  }

  lemma DosPuntosMostrados(u: string)
    ensures Mostrado("&#58;" + u) == ":" + Mostrado(u)
  {
    hide Mostrado;
    var e := "&#58;" + u;
    assert "&#58;" <= e && e[1] == '#' && e[5..] == u;
    assert Entidad(e) == (5, ':');
    MostradoPaso(e);
  }

  // Neutralizing does not change what is shown, but for the case of the letters of an imitated prefix.
  lemma {:induction false} SustituirSeMuestra(s: string, p: string, r: string)
    requires Neutra(p, r)
    ensures Canonico(Mostrado(Sustituir(s, p, r))) == Canonico(Mostrado(s))
    decreases |s|
  {
    hide Entidad, Mostrado, Imita, Canonico, AbreAlInicio;
    if s == "" {
      assert Sustituir(s, p, r) == s;
    } else if Imita(s, p) {
      Imitado(s, p);
      ImitacionMostrada(s, p, r);
      SustituirSeMuestra(s[|p|..], p, r);
    } else {
      MostradoPaso(s);
      EntidadForma(s);
      var n := Entidad(s).0;
      if n > 0 {
        var a, t := s[..n], s[n..];
        assert s == a + t;
        SustituirSinCorchete(a, t, p, r);
        MismaEntidad(a, t, Sustituir(t, p, r));
        SustituirSeMuestra(t, p, r);
        CanonicoSuma([Entidad(s).1], Mostrado(t));
        CanonicoSuma([Entidad(s).1], Mostrado(Sustituir(t, p, r)));
      } else {
        var u := Sustituir(s[1..], p, r);
        forall k: nat | k <= |u| && '&' !in u[..k] && '[' !in u[..k] ensures k < |s| && s[1..][..k] == u[..k] {
          assert forall i | 0 <= i < k :: u[i] == u[..k][i];
          CabezaIgual(s[1..], p, r, k);
        }
        UnoMasMostrado(s, u);
        SustituirSeMuestra(s[1..], p, r);
        CanonicoSuma([s[0]], Mostrado(s[1..]));
        CanonicoSuma([s[0]], Mostrado(u));
      }
    }
  }

  lemma ImitacionMostrada(s: string, p: string, r: string)
    requires Neutra(p, r) && s != "" && Imita(s, p) && |p| <= |s|
    ensures Canonico(Mostrado(Sustituir(s, p, r))) == p + Canonico(Mostrado(Sustituir(s[|p|..], p, r)))
    ensures Canonico(Mostrado(s)) == p + Canonico(Mostrado(s[|p|..]))
  {
    hide Mostrado, Imita, Canonico, AbreAlInicio;
    var q :| p == q + ":" && r == q + "&#58;" && Canonico(p) == p;
    var a, t := s[..|p|], s[|p|..];
    var u := Sustituir(t, p, r);
    assert forall c | c in q :: c in p;
    ReferenciaMostrada(q, u);
    CanonicoSuma(p, Mostrado(u));
    Imitado(s, p);
    assert s == a + t;
    MostradoTras(a, t);
    CanonicoSuma(a, Mostrado(t));
  }

  lemma NeutraDe(q: string)
    requires AbreAlInicio(q) && '&' !in q && Canonico(q) == q
    ensures Neutra(q + ":", q + "&#58;")
  {
    CanonicoSuma(q, ":");
    assert Canonico(":") == ":";
  }

  lemma Neutras()
    ensures Neutra(ACTIVA, ACTIVA_NEUTRA) && Neutra(ELIMINADA, ELIMINADA_NEUTRA)
  {
    hide Neutra;
    NeutraDe("[adjunto");
    NeutraDe("[adjunto-eliminado");
    assert ACTIVA == "[adjunto" + ":" && ACTIVA_NEUTRA == "[adjunto" + "&#58;";
    assert ELIMINADA == "[adjunto-eliminado" + ":" && ELIMINADA_NEUTRA == "[adjunto-eliminado" + "&#58;";
  }

  // Whatever was typed, the stored text is shown as the comment itself would be, with its white space collapsed, up
  // to the case of letters in an imitated mark; and exactly as typed when there is no ampersand in it.
  lemma SeMuestraIgual(comentario: string)
    ensures Canonico(Mostrado(TextoGuardado(comentario))) == Canonico(Mostrado(Normalizar(comentario)))
    ensures '&' !in Normalizar(comentario) ==> Mostrado(Normalizar(comentario)) == Normalizar(comentario)
  {
    hide Mostrado, Canonico, Sustituir, Escapar, Normalizar, Neutra;
    var t := Normalizar(comentario);
    var e := Escapar(t);
    Neutras();
    EscaparSeMuestra(t);
    SustituirSeMuestra(e, ACTIVA, ACTIVA_NEUTRA);
    SustituirSeMuestra(Sustituir(e, ACTIVA, ACTIVA_NEUTRA), ELIMINADA, ELIMINADA_NEUTRA);
    if '&' !in t {
      MostradoTras(t, "");
      MostradoVacio();
      assert t + "" == t;
    }
  }

  lemma MostradoVacio()
    ensures Mostrado("") == ""
  {
  }
}
