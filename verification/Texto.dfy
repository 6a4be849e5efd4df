// The string operations the notes are written and read with, on ASCII.
module Texto {

  // str.isspace
  predicate EsEspacio(c: char) { 9 <= c as int <= 13 || 28 <= c as int <= 32 }

  // The line boundaries of str.splitlines.
  predicate EsSalto(c: char) { 10 <= c as int <= 13 || 28 <= c as int <= 30 }

  ghost predicate UnaLinea(s: string) { forall i | 0 <= i < |s| :: !EsSalto(s[i]) }

  // Neither starts nor ends with white space.
  predicate Recortado(s: string) { s == "" || (!EsEspacio(s[0]) && !EsEspacio(s[|s| - 1])) }

  function LStrip(s: string): string {
    if s != "" && EsEspacio(s[0]) then LStrip(s[1..]) else s
  }

  function RStrip(s: string): string {
    if s != "" && EsEspacio(s[|s| - 1]) then RStrip(s[..|s| - 1]) else s
  }

  function Strip(s: string): string { RStrip(LStrip(s)) }

  ghost predicate NoBlanco(s: string) { exists i :: 0 <= i < |s| && !EsEspacio(s[i]) }

  // Stripping a text that ends in a non-blank works on its front only.
  lemma {:induction false} StripCola(a: string, b: string)
    requires NoBlanco(a) && b != "" && !EsEspacio(b[|b| - 1])
    ensures LStrip(a + b) == LStrip(a) + b && Strip(a + b) == LStrip(a) + b
  {
    if EsEspacio(a[0]) {
      assert (a + b)[1..] == a[1..] + b;
      var i :| 0 <= i < |a| && !EsEspacio(a[i]);
      assert a[1..][i - 1] == a[i];
      StripCola(a[1..], b);
    }
    assert (LStrip(a) + b)[|LStrip(a) + b| - 1] == b[|b| - 1];
  }

  lemma StripRecortado(s: string)
    requires Recortado(s)
    ensures Strip(s) == s && LStrip(s) == s
  {
  }

  // Stripping the front keeps every non-blank, and starts with one.
  lemma {:induction false} LStripNoVacio(s: string, i: nat)
    requires i < |s| && !EsEspacio(s[i])
    ensures LStrip(s) != "" && !EsEspacio(LStrip(s)[0])
    ensures |LStrip(s)| <= |s| && LStrip(s) == s[|s| - |LStrip(s)|..]
  {
    if EsEspacio(s[0]) {
      LStripNoVacio(s[1..], i - 1);
      assert s[1..][|s[1..]| - |LStrip(s)|..] == s[|s| - |LStrip(s)|..];
    }
  }

  // ------------------------------------------------------------------ splitting

  ghost predicate SinDoble(s: string) { forall i | 0 <= i < |s| - 1 :: !(s[i] == '\n' && s[i + 1] == '\n') }

  // str.split("\n\n"), with what has been read of the current block.
  function SplitDoble(s: string): seq<string>
  {
    SplitDobleDesde("", s)
  }

  function SplitDobleDesde(bloque: string, s: string): seq<string>
    decreases |s|
  {
    if |s| >= 2 && s[0] == '\n' && s[1] == '\n' then [bloque] + SplitDobleDesde("", s[2..])
    else if s == "" then [bloque]
    else SplitDobleDesde(bloque + [s[0]], s[1..])
  }

  // A block without a blank line, not ending in a newline, is split off whole.
  lemma {:induction false} SplitDobleBloque(bloque: string, a: string, resto: string)
    requires SinDoble(a) && (a != "" ==> a[|a| - 1] != '\n')
    ensures SplitDobleDesde(bloque, a + "\n\n" + resto) == [bloque + a] + SplitDobleDesde("", resto)
    decreases |a|
  {
    var s := a + "\n\n" + resto;
    if a == "" {
      assert s[2..] == resto && bloque + a == bloque;
    } else {
      assert s[0] == a[0] && s[1] == (if |a| > 1 then a[1] else '\n');
      assert s[1..] == a[1..] + "\n\n" + resto;
      assert bloque + [a[0]] + a[1..] == bloque + a;
      SplitDobleBloque(bloque + [a[0]], a[1..], resto);
    }
  }

  lemma {:induction false} SplitDobleFinal(bloque: string, a: string)
    requires SinDoble(a)
    ensures SplitDobleDesde(bloque, a) == [bloque + a]
    decreases |a|
  {
    if a == "" {
      assert bloque + a == bloque;
    } else {
      assert bloque + [a[0]] + a[1..] == bloque + a;
      SplitDobleFinal(bloque + [a[0]], a[1..]);
    }
  }

  // str.splitlines, with what has been read of the current line.
  function SplitLines(s: string): seq<string> { SplitLinesDesde("", s) }

  function SplitLinesDesde(linea: string, s: string): seq<string>
    decreases |s|
  {
    if s == "" then (if linea == "" then [] else [linea])
    else if |s| >= 2 && s[0] == '\r' && s[1] == '\n' then [linea] + SplitLinesDesde("", s[2..])
    else if EsSalto(s[0]) then [linea] + SplitLinesDesde("", s[1..])
    else SplitLinesDesde(linea + [s[0]], s[1..])
  }

  lemma {:induction false} SplitLinesLinea(linea: string, a: string, resto: string)
    requires UnaLinea(a)
    ensures SplitLinesDesde(linea, a + "\n" + resto) == [linea + a] + SplitLinesDesde("", resto)
    decreases |a|
  {
    var s := a + "\n" + resto;
    if a == "" {
      assert s[1..] == resto && linea + a == linea;
    } else {
      assert s[0] == a[0] && s[1..] == a[1..] + "\n" + resto;
      assert linea + [a[0]] + a[1..] == linea + a;
      SplitLinesLinea(linea + [a[0]], a[1..], resto);
    }
  }

  lemma {:induction false} SplitLinesFinal(linea: string, a: string)
    requires UnaLinea(a) && linea + a != ""
    ensures SplitLinesDesde(linea, a) == [linea + a]
    decreases |a|
  {
    if a == "" {
      assert linea + a == linea;
    } else {
      assert linea + [a[0]] + a[1..] == linea + a;
      SplitLinesFinal(linea + [a[0]], a[1..]);
    }
  }

  // "\n".join
  function Unir(lineas: seq<string>): string {
    if lineas == [] then "" else if |lineas| == 1 then lineas[0] else lineas[0] + "\n" + Unir(lineas[1..])
  }

  lemma {:induction false} SplitLinesUnir(lineas: seq<string>)
    requires forall i | 0 <= i < |lineas| :: lineas[i] != "" && UnaLinea(lineas[i])
    ensures SplitLines(Unir(lineas)) == lineas
  {
    if |lineas| == 1 {
      SplitLinesFinal("", lineas[0]);
      assert "" + lineas[0] == lineas[0];
    } else if |lineas| > 1 {
      SplitLinesLinea("", lineas[0], Unir(lineas[1..]));
      SplitLinesUnir(lineas[1..]);
      assert "" + lineas[0] == lineas[0];
    }
  }

  // Joined non-empty lines have no blank line, and do not start or end with a newline.
  lemma {:induction false} UnirSinDoble(lineas: seq<string>)
    requires lineas != [] && forall i | 0 <= i < |lineas| :: lineas[i] != "" && UnaLinea(lineas[i])
    ensures var s := Unir(lineas);
            s != "" && SinDoble(s) && s[0] != '\n' && s[|s| - 1] == lineas[|lineas| - 1][|lineas[|lineas| - 1]| - 1]
    ensures Unir(lineas)[0] == lineas[0][0]
  {
    if |lineas| > 1 {
      UnirSinDoble(lineas[1..]);
      var a, u := lineas[0], Unir(lineas[1..]);
      assert Unir(lineas) == a + "\n" + u;
      forall i | 0 <= i < |a + "\n" + u| - 1
        ensures !((a + "\n" + u)[i] == '\n' && (a + "\n" + u)[i + 1] == '\n')
      {
        if i > |a| {
          assert (a + "\n" + u)[i] == u[i - |a| - 1] && (a + "\n" + u)[i + 1] == u[i - |a|];
        }
      }
    }
  }

  // ------------------------------------------------------------------ normalizing

  // " ".join(s.split()): palabra is the word being read.
  function Normalizar(s: string): string { NormalizarDesde("", "", s) }

  function Juntar(hecho: string, palabra: string): string {
    if palabra == "" then hecho else if hecho == "" then palabra else hecho + " " + palabra
  }

  function NormalizarDesde(hecho: string, palabra: string, s: string): string
    decreases |s|
  {
    if s == "" then Juntar(hecho, palabra)
    else if EsEspacio(s[0]) then NormalizarDesde(Juntar(hecho, palabra), "", s[1..])
    else NormalizarDesde(hecho, palabra + [s[0]], s[1..])
  }

  // Single spaces are the only white space, and none at the ends.
  ghost predicate Limpio(s: string) {
    Recortado(s) && forall i | 0 <= i < |s| && EsEspacio(s[i]) :: s[i] == ' '
  }

  lemma {:induction false} NormalizarLimpia(hecho: string, palabra: string, s: string)
    requires Limpio(hecho) && forall i | 0 <= i < |palabra| :: !EsEspacio(palabra[i])
    ensures Limpio(NormalizarDesde(hecho, palabra, s))
    decreases |s|
  {
    assert Limpio(Juntar(hecho, palabra));
    if s != "" {
      if EsEspacio(s[0]) {
        NormalizarLimpia(Juntar(hecho, palabra), "", s[1..]);
      } else {
        NormalizarLimpia(hecho, palabra + [s[0]], s[1..]);
      }
    }
  }

  // ------------------------------------------------------------------ replacing

  // SQL REPLACE: every occurrence of viejo, left to right.
  function Reemplazar(s: string, viejo: string, nuevo: string): string
    requires viejo != ""
    decreases |s|
  {
    if s == "" then ""
    else if viejo <= s then nuevo + Reemplazar(s[|viejo|..], viejo, nuevo)
    else [s[0]] + Reemplazar(s[1..], viejo, nuevo)
  }

  ghost predicate Contiene(s: string, p: string) {
    exists i :: 0 <= i <= |s| && p <= s[i..]
  }

  // Occurrences do not straddle a newline.
  lemma SinCruce(a: string, b: string, p: string, i: nat)
    requires i <= |a| && p <= (a + "\n" + b)[i..] && '\n' !in p
    ensures i + |p| <= |a| && p <= a[i..]
  {
    var s, k := a + "\n" + b, |a| - i;
    assert s[i..][k] == s[|a|] == '\n';
    Iguales(p, s[i..]);
  }

  lemma Iguales(p: string, s: string)
    requires p <= s
    ensures forall k | 0 <= k < |p| :: p[k] == s[k]
  {
  }

  lemma NoEmpieza(p: string, s: string)
    requires p != "" && s != "" && s[0] !in p
    ensures !(p <= s)
  {
  }

  lemma Asocia(n: string, x: string, y: string)
    ensures n + (x + "\n" + y) == (n + x) + "\n" + y
  {
  }

  lemma PrefijoCrece(a: string, t: string, p: string)
    ensures p <= a ==> p <= a + t
  {
  }

  lemma ContieneCola(s: string, p: string)
    requires s != ""
    ensures Contiene(s[1..], p) ==> Contiene(s, p)
    ensures p <= s ==> Contiene(s, p)
  {
    assert s[0..] == s;
    if i :| 0 <= i <= |s[1..]| && p <= s[1..][i..] {
      assert s[1..][i..] == s[i + 1..];
    }
  }

  lemma {:induction false} ReemplazarLinea(a: string, b: string, viejo: string, nuevo: string)
    requires viejo != "" && '\n' !in viejo
    ensures Reemplazar(a + "\n" + b, viejo, nuevo) == Reemplazar(a, viejo, nuevo) + "\n" + Reemplazar(b, viejo, nuevo)
    decreases |a|
  {
    var s, y := a + "\n" + b, Reemplazar(b, viejo, nuevo);
    if a == "" {
      assert s[1..] == b && s[0] == '\n';
      NoEmpieza(viejo, s);
      assert [s[0]] + y == "" + "\n" + y;
    } else if viejo <= s {
      assert s[0..] == s && a[0..] == a;
      SinCruce(a, b, viejo, 0);
      var a' := a[|viejo|..];
      assert s[|viejo|..] == a' + "\n" + b;
      ReemplazarLinea(a', b, viejo, nuevo);
      Asocia(nuevo, Reemplazar(a', viejo, nuevo), y);
    } else {
      PrefijoCrece(a, "\n" + b, viejo);
      assert a + ("\n" + b) == s;
      assert s[1..] == a[1..] + "\n" + b && s[0] == a[0];
      ReemplazarLinea(a[1..], b, viejo, nuevo);
      Asocia([a[0]], Reemplazar(a[1..], viejo, nuevo), y);
    }
  }

  // Replacing leaves alone a front in which nothing to replace starts.
  lemma {:induction false} ReemplazarTras(a: string, b: string, viejo: string, nuevo: string)
    requires viejo != "" && forall i | 0 <= i < |a| :: !(viejo <= (a + b)[i..])
    ensures Reemplazar(a + b, viejo, nuevo) == a + Reemplazar(b, viejo, nuevo)
    decreases |a|
  {
    var s := a + b;
    if a == "" {
      assert s == b;
    } else {
      assert s[0..] == s && s[1..] == a[1..] + b;
      forall i | 0 <= i < |a[1..]| ensures !(viejo <= (a[1..] + b)[i..]) {
        assert (a[1..] + b)[i..] == s[i + 1..];
      }
      ReemplazarTras(a[1..], b, viejo, nuevo);
      assert [s[0]] + (a[1..] + Reemplazar(b, viejo, nuevo)) == a + Reemplazar(b, viejo, nuevo);
    }
  }

  lemma {:induction false} ReemplazarNada(s: string, viejo: string, nuevo: string)
    requires viejo != "" && !Contiene(s, viejo)
    ensures Reemplazar(s, viejo, nuevo) == s
    decreases |s|
  {
    if s != "" {
      ContieneCola(s, viejo);
      ReemplazarNada(s[1..], viejo, nuevo);
    }
  }
}
