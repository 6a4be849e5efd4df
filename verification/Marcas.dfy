// Attachment marks inside the notes: building, matching, stripping, and neutralizing imitations.
module Marcas {
  import opened Opcion
  import opened Texto

  datatype Tipo = Pdf | Png | Jpg | Pdfe

  // A UUID is represented by its canonical text.
  datatype Marca = Marca(tipo: Tipo, id: string)

  const ACTIVA: string := "[adjunto:"
  const ELIMINADA: string := "[adjunto-eliminado:"
  const ACTIVA_NEUTRA: string := "[adjunto&#58;"
  const ELIMINADA_NEUTRA: string := "[adjunto-eliminado&#58;"

  function Nombre(t: Tipo): string {
    match t
    case Pdf => "pdf"
    case Png => "png"
    case Jpg => "jpg"
    case Pdfe => "pdfe"
  }

  predicate EsHex(c: char) { '0' <= c <= '9' || 'a' <= c <= 'f' || 'A' <= c <= 'F' }

  // 8-4-4-4-12 hexadecimal digits.
  predicate EsUuid(s: string) {
    |s| == 36 && forall i | 0 <= i < 36 :: if i in {8, 13, 18, 23} then s[i] == '-' else EsHex(s[i])
  }

  function Minus(c: char): char {
    if 'A' <= c <= 'Z' then (c as int + 32) as char else c
  }

  function Canonico(s: string): string { seq(|s|, i requires 0 <= i < |s| => Minus(s[i])) }

  predicate EsCanonico(id: string) { EsUuid(id) && Canonico(id) == id }

  function Construir(prefijo: string, m: Marca): string {
    prefijo + Nombre(m.tipo) + ":" + m.id + "]"
  }

  function TipoEn(s: string): Option<Tipo> {
    if "pdf:" <= s then Some(Pdf)
    else if "png:" <= s then Some(Png)
    else if "jpg:" <= s then Some(Jpg)
    else if "pdfe:" <= s then Some(Pdfe)
    else None
  }

  predicate CierraMarca(cola: string) { |cola| >= 37 && EsUuid(cola[..36]) && cola[36] == ']' }

  // The mark pattern at the start of s, with the length it takes.
  function Casar(prefijo: string, s: string): (r: Option<(Marca, nat)>)
    ensures r.Some? ==> 0 < r.value.1 <= |s| && prefijo <= s
  {
    if !(prefijo <= s) then None
    else
      var resto := s[|prefijo|..];
      match TipoEn(resto)
      case None => None
      case Some(t) =>
        var cola := resto[|Nombre(t)| + 1..];
        if CierraMarca(cola) then Some((Marca(t, Canonico(cola[..36])), |prefijo| + |Nombre(t)| + 38)) else None
  }

  lemma TipoConstruido(t: Tipo, cola: string)
    ensures TipoEn(Nombre(t) + ":" + cola) == Some(t)
    ensures (Nombre(t) + ":" + cola)[|Nombre(t)| + 1..] == cola
  {
    var s := Nombre(t) + ":" + cola;
    match t
    case Pdf => assert s == "pdf:" + cola;
    case Png => assert s == "png:" + cola; assert s[1] == 'n';
    case Jpg => assert s == "jpg:" + cola; assert s[0] == 'j';
    case Pdfe => assert s == "pdfe:" + cola; assert s[3] == 'e';
  }

  lemma CasarConstruido(prefijo: string, m: Marca)
    requires EsCanonico(m.id)
    ensures Casar(prefijo, Construir(prefijo, m)) == Some((m, |Construir(prefijo, m)|))
  {
    hide Casar, Construir, EsCanonico;
    CasarConCola(prefijo, m, "");
    assert Construir(prefijo, m) + "" == Construir(prefijo, m);
  }

  // A built mark is matched whatever follows it.
  lemma CasarConCola(prefijo: string, m: Marca, despues: string)
    requires EsCanonico(m.id)
    ensures Casar(prefijo, Construir(prefijo, m) + despues) == Some((m, |Construir(prefijo, m)|))
  {
    hide Casar, Construir;
    CasarUuid(prefijo, m, despues);
  }

  // So is one with upper-case digits, as the mark it stands for.
  lemma CasarUuid(prefijo: string, m: Marca, despues: string)
    requires EsUuid(m.id)
    ensures Casar(prefijo, Construir(prefijo, m) + despues)
            == Some((Marca(m.tipo, Canonico(m.id)), |Construir(prefijo, m)|))
  {
    hide TipoEn, Canonico, Nombre;
    var s, cola := Construir(prefijo, m) + despues, m.id + "]" + despues;
    var resto := Nombre(m.tipo) + ":" + cola;
    TipoConstruido(m.tipo, cola);
    assert s == prefijo + resto;
    assert s[|prefijo|..] == resto;
    assert cola[..36] == m.id && cola[36] == ']';
  }

  // A match takes the text of one mark, in whatever case, and stands for its canonical form.
  lemma FormaCasada(p: string, s: string) returns (u: Marca)
    requires Casar(p, s).Some?
    ensures var (x, n) := Casar(p, s).value;
            EsUuid(u.id) && s[..n] == Construir(p, u) && x == Marca(u.tipo, Canonico(u.id))
  {
    hide EsUuid, Canonico, Nombre, TipoEn, Construir;
    var resto := s[|p|..];
    var t := TipoEn(resto).value;
    TipoEscrito(resto);
    var cola := resto[|Nombre(t)| + 1..];
    u := Marca(t, cola[..36]);
    MarcaEscrita(p, s, resto, cola, u);
  }

  lemma MarcaEscrita(p: string, s: string, resto: string, cola: string, u: Marca)
    requires p <= s && resto == s[|p|..] && resto == Nombre(u.tipo) + ":" + cola
    requires |cola| > 36 && cola[..36] == u.id && cola[36] == ']'
    ensures var n := |p| + |Nombre(u.tipo)| + 38; n <= |s| && s[..n] == Construir(p, u)
  {
    hide Nombre;
    assert cola == u.id + "]" + cola[37..];
    assert s == p + resto;
    assert s == Construir(p, u) + cola[37..];
  }

  lemma TipoEscrito(s: string)
    requires TipoEn(s).Some?
    ensures var k := Nombre(TipoEn(s).value); |k| < |s| && s == k + ":" + s[|k| + 1..]
  {
    var k := Nombre(TipoEn(s).value);
    assert k + ":" <= s;
    assert s == (k + ":") + s[|k| + 1..];
  }

  lemma UnSoloCorchete(p: string, m: Marca)
    requires EsUuid(m.id) && AbreAlInicio(p)
    ensures AbreAlInicio(Construir(p, m))
  {
    var s, k := Construir(p, m), |p| + |Nombre(m.tipo)| + 1;
    assert s == p + Nombre(m.tipo) + ":" + m.id + "]";
    forall i | 0 < i < |s| ensures s[i] != '[' {
      if i < |p| { assert s[i] == p[i]; }
      else if i < k - 1 { assert s[i] == Nombre(m.tipo)[i - |p|]; }
      else if k <= i < |s| - 1 { assert s[i] == m.id[i - k] && (EsHex(m.id[i - k]) || m.id[i - k] == '-'); }
    }
  }

  // finditer and sub over one pattern.
  function Buscar(prefijo: string, s: string): seq<Marca>
    decreases |s|
  {
    if s == "" then []
    else match Casar(prefijo, s)
      case Some((m, n)) => [m] + Buscar(prefijo, s[n..])
      case None => Buscar(prefijo, s[1..])
  }

  function Quitar(prefijo: string, s: string): string
    decreases |s|
  {
    if s == "" then ""
    else match Casar(prefijo, s)
      case Some((_, n)) => Quitar(prefijo, s[n..])
      case None => [s[0]] + Quitar(prefijo, s[1..])
  }

  function QuitarMarcas(s: string): string { Quitar(ELIMINADA, Quitar(ACTIVA, s)) }

  lemma {:induction false} SinMarcas(prefijo: string, s: string)
    requires !Contiene(s, prefijo)
    ensures Buscar(prefijo, s) == [] && Quitar(prefijo, s) == s
    decreases |s|
  {
    if s != "" {
      ContieneCola(s, prefijo);
      SinMarcas(prefijo, s[1..]);
    }
  }

  // The mark a whole line is, if it is one.
  function CasarLinea(prefijo: string, linea: string): Option<Marca> {
    var t := Strip(linea);
    match Casar(prefijo, t)
    case Some((m, n)) => if n == |t| then Some(m) else None
    case None => None
  }

  // ------------------------------------------------------------------ neutralizing

  // p at the start of s, ignoring case.
  predicate Imita(s: string, p: string) {
    |s| >= |p| && forall k | 0 <= k < |p| :: Minus(s[k]) == p[k]
  }

  ghost predicate SinImitar(s: string, p: string) { forall i | 0 <= i <= |s| :: !Imita(s[i..], p) }

  function Sustituir(s: string, p: string, r: string): string
    requires p != ""
    decreases |s|
  {
    if s == "" then ""
    else if Imita(s, p) then r + Sustituir(s[|p|..], p, r)
    else [s[0]] + Sustituir(s[1..], p, r)
  }

  function Neutralizar(s: string): string {
    Sustituir(Sustituir(s, ACTIVA, ACTIVA_NEUTRA), ELIMINADA, ELIMINADA_NEUTRA)
  }

  // Mark prefixes and their replacements open a bracket at their start and nowhere else.
  ghost predicate AbreAlInicio(p: string) {
    |p| > 0 && p[0] == '[' && forall i | 0 < i < |p| :: p[i] != '['
  }

  lemma SustituirAbre(s: string, p: string, r: string)
    requires p != "" && AbreAlInicio(r)
    ensures s != "" && Imita(s, p) ==> Sustituir(s, p, r) != "" && Sustituir(s, p, r)[0] == '['
  {
  }

  lemma {:induction false} CabezaIgual(s: string, p: string, r: string, k: nat)
    requires AbreAlInicio(p) && AbreAlInicio(r)
    requires k <= |Sustituir(s, p, r)| && forall i | 0 <= i < k :: Sustituir(s, p, r)[i] != '['
    ensures k <= |s| && s[..k] == Sustituir(s, p, r)[..k]
    decreases |s|
  {
    if k > 0 {
      var t := Sustituir(s, p, r);
      SustituirAbre(s, p, r);
      assert !Imita(s, p);
      assert t[1..] == Sustituir(s[1..], p, r);
      CabezaIgual(s[1..], p, r, k - 1);
      assert s[..k] == [s[0]] + s[1..][..k - 1];
    }
  }

  // Substituting p by r leaves no imitation of q, whether q is p itself or was absent already.
  lemma {:induction false} SustituirLimpia(s: string, p: string, r: string, q: string, d: nat)
    requires AbreAlInicio(p) && AbreAlInicio(r) && AbreAlInicio(q)
    requires d < |r| && d < |q| && Minus(r[d]) != q[d]
    requires q == p || SinImitar(s, q)
    ensures SinImitar(Sustituir(s, p, r), q)
    decreases |s|
  {
    var t := Sustituir(s, p, r);
    if s != "" {
      var n := if Imita(s, p) then |p| else 1;
      var cabeza := if Imita(s, p) then r else [s[0]];
      var u := Sustituir(s[n..], p, r);
      assert t == cabeza + u;
      if q != p { assert forall i | 0 <= i <= |s[n..]| :: s[n..][i..] == s[i + n..]; }
      SustituirLimpia(s[n..], p, r, q, d);
      forall i | 0 <= i <= |t| ensures !Imita(t[i..], q) {
        if i >= |cabeza| {
          assert t[i..] == u[i - |cabeza|..];
        } else if i > 0 {
          assert t[i..][0] == r[i];
        } else {
          assert t[0..] == t;
          SustituirInicio(s, p, r, q, d);
        }
      }
    }
  }

  lemma SustituirInicio(s: string, p: string, r: string, q: string, d: nat)
    requires s != "" && AbreAlInicio(p) && AbreAlInicio(r) && AbreAlInicio(q)
    requires d < |r| && d < |q| && Minus(r[d]) != q[d]
    requires q == p || SinImitar(s, q)
    ensures !Imita(Sustituir(s, p, r), q)
  {
    var t := Sustituir(s, p, r);
    assert s[0..] == s;
    if Imita(s, p) {
      assert t[d] == r[d];
    } else {
      ImitacionHeredada(s, p, r, q);
    }
  }

  // An imitation of q at the start of the result, when s itself was not replaced there, was in s already.
  lemma ImitacionHeredada(s: string, p: string, r: string, q: string)
    requires s != "" && p != "" && AbreAlInicio(p) && AbreAlInicio(r) && AbreAlInicio(q) && !Imita(s, p)
    ensures Imita(Sustituir(s, p, r), q) ==> Imita(s, q)
  {
    hide Imita, Minus, AbreAlInicio;
    var t, u := Sustituir(s, p, r), Sustituir(s[1..], p, r);
    assert t == [s[0]] + u;
    if Imita(t, q) {
      ImitaSinCorchetes(t, q);
      CabezaTrasUno(s[0], u, q);
      CabezaIgual(s[1..], p, r, |q| - 1);
      assert t[1..] == u;
      MismaCabeza(s, t, |q|);
      ImitaIgual(t, s, q);
    }
  }

  lemma CabezaTrasUno(c: char, u: string, q: string)
    requires 0 < |q| <= |u| + 1 && forall i | 0 < i < |q| :: ([c] + u)[i] != '['
    ensures forall i | 0 <= i < |q| - 1 :: u[i] != '['
  {
    assert forall i | 0 <= i < |q| - 1 :: u[i] == ([c] + u)[i + 1];
  }

  lemma MismaCabeza(s: string, t: string, k: nat)
    requires 0 < k <= |s| && k <= |t| && s[0] == t[0] && s[1..][..k - 1] == t[1..][..k - 1]
    ensures s[..k] == t[..k]
  {
    assert s[..k] == [s[0]] + s[1..][..k - 1];
    assert t[..k] == [t[0]] + t[1..][..k - 1];
  }

  lemma ImitaSinCorchetes(t: string, q: string)
    requires Imita(t, q) && AbreAlInicio(q)
    ensures 0 < |q| <= |t| && forall i | 0 < i < |q| :: t[i] != '['
  {
    forall i | 0 < i < |q| ensures t[i] != '[' {
      assert Minus(t[i]) == q[i];
    }
  }

  lemma ImitaIgual(t: string, s: string, q: string)
    requires Imita(t, q) && |q| <= |t| && |q| <= |s| && t[..|q|] == s[..|q|]
    ensures Imita(s, q)
  {
    assert forall k | 0 <= k < |q| :: s[k] == s[..|q|][k] == t[..|q|][k] == t[k];
  }

  lemma NeutralizarLimpia(s: string)
    ensures SinImitar(Neutralizar(s), ACTIVA) && SinImitar(Neutralizar(s), ELIMINADA)
    ensures !Contiene(Neutralizar(s), ACTIVA) && !Contiene(Neutralizar(s), ELIMINADA)
  {
    hide Sustituir, SinImitar, Contiene;
    var t := Sustituir(s, ACTIVA, ACTIVA_NEUTRA);
    SustituirLimpia(s, ACTIVA, ACTIVA_NEUTRA, ACTIVA, 8);
    SustituirLimpia(t, ELIMINADA, ELIMINADA_NEUTRA, ACTIVA, 8);
    SustituirLimpia(t, ELIMINADA, ELIMINADA_NEUTRA, ELIMINADA, 18);
    SinImitarNoContiene(Neutralizar(s), ACTIVA);
    SinImitarNoContiene(Neutralizar(s), ELIMINADA);
  }

  lemma SinImitarNoContiene(s: string, p: string)
    requires SinImitar(s, p) && forall i | 0 <= i < |p| :: Minus(p[i]) == p[i]
    ensures !Contiene(s, p)
  {
    if i :| 0 <= i <= |s| && p <= s[i..] {
      Iguales(p, s[i..]);
      assert Imita(s[i..], p);
    }
  }

  // ------------------------------------------------------------------ the stored text of a comment

  // < and > as HTML entities.
  function Escapar(s: string): string {
    if s == "" then ""
    else (if s[0] == '<' then "&lt;" else if s[0] == '>' then "&gt;" else [s[0]]) + Escapar(s[1..])
  }

  function TextoGuardado(comentario: string): string { Neutralizar(Escapar(Normalizar(comentario))) }

  // Same blanks at the ends and in between: only spaces, none at the ends.
  ghost predicate MismoBorde(s: string, t: string) {
    && (s == "" <==> t == "")
    && (s != "" ==> (!EsEspacio(s[0]) ==> !EsEspacio(t[0])) && (!EsEspacio(s[|s| - 1]) ==> !EsEspacio(t[|t| - 1])))
    && ((forall i | 0 <= i < |s| && EsEspacio(s[i]) :: s[i] == ' ') ==>
        (forall i | 0 <= i < |t| && EsEspacio(t[i]) :: t[i] == ' '))
  }

  lemma {:induction false} EscaparBorde(s: string)
    ensures MismoBorde(s, Escapar(s))
  {
    if s != "" {
      EscaparBorde(s[1..]);
      assert |s| > 1 ==> s[1..][|s| - 2] == s[|s| - 1];
      var c := if s[0] == '<' then "&lt;" else if s[0] == '>' then "&gt;" else [s[0]];
      var t := Escapar(s);
      assert t == c + Escapar(s[1..]);
      BordeConcatenado(c, s, 1, t, Escapar(s[1..]));
    }
  }

  lemma {:induction false} SustituirBorde(s: string, p: string, r: string)
    requires p != "" && r != "" && forall i | 0 <= i < |r| :: !EsEspacio(r[i])
    ensures MismoBorde(s, Sustituir(s, p, r))
    decreases |s|
  {
    if s != "" {
      var n := if Imita(s, p) then |p| else 1;
      var c := if Imita(s, p) then r else [s[0]];
      SustituirBorde(s[n..], p, r);
      assert |s| > n ==> s[n..][|s| - n - 1] == s[|s| - 1];
      BordeConcatenado(c, s, n, Sustituir(s, p, r), Sustituir(s[n..], p, r));
    }
  }

  lemma {:induction false} ReemplazarBorde(s: string, viejo: string, nuevo: string)
    requires viejo != "" && nuevo != "" && forall i | 0 <= i < |nuevo| :: !EsEspacio(nuevo[i])
    ensures MismoBorde(s, Reemplazar(s, viejo, nuevo))
    decreases |s|
  {
    if s != "" {
      var n := if viejo <= s then |viejo| else 1;
      var c := if viejo <= s then nuevo else [s[0]];
      ReemplazarBorde(s[n..], viejo, nuevo);
      assert |s| > n ==> s[n..][|s| - n - 1] == s[|s| - 1];
      BordeConcatenado(c, s, n, Reemplazar(s, viejo, nuevo), Reemplazar(s[n..], viejo, nuevo));
    }
  }

  lemma BordeConcatenado(c: string, s: string, n: nat, t: string, u: string)
    requires 0 < n <= |s| && c != "" && t == c + u && MismoBorde(s[n..], u)
    requires (c == [s[0]] && n == 1) || forall i | 0 <= i < |c| :: !EsEspacio(c[i])
    ensures MismoBorde(s, t)
  {
    assert forall i | 0 <= i < |s[n..]| :: s[n..][i] == s[i + n];
    if forall i | 0 <= i < |s| && EsEspacio(s[i]) :: s[i] == ' ' {
      forall i | 0 <= i < |t| && EsEspacio(t[i]) ensures t[i] == ' ' {
        if i >= |c| { assert t[i] == u[i - |c|]; }
      }
    }
    if u != "" { assert t[|t| - 1] == u[|u| - 1]; }
  }

  // Whatever the user writes, the stored text is one trimmed line that contains no mark prefix.
  lemma TextoGuardadoLimpio(comentario: string)
    ensures var t := TextoGuardado(comentario);
            && Limpio(t) && (t == "" <==> Normalizar(comentario) == "")
            && !Contiene(t, ACTIVA) && !Contiene(t, ELIMINADA)
  {
    NormalizarLimpia("", "", comentario);
    EscaparBorde(Normalizar(comentario));
    var e := Escapar(Normalizar(comentario));
    SustituirBorde(e, ACTIVA, ACTIVA_NEUTRA);
    SustituirBorde(Sustituir(e, ACTIVA, ACTIVA_NEUTRA), ELIMINADA, ELIMINADA_NEUTRA);
    NeutralizarLimpia(e);
  }
}
