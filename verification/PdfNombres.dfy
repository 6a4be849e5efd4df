// The scanner that finds the names of a PDF in its raw bytes (section 7.3.5 of ISO 32000-1:2008).
module PdfNombres {

  type Byte = b: int | 0 <= b < 256

  const BARRA: Byte := 0x2F
  const NUMERAL: Byte := 0x23

  predicate EsDelimitador(b: Byte) { b in {0x28, 0x29, 0x3C, 0x3E, 0x5B, 0x5D, 0x7B, 0x7D, 0x2F, 0x25} }

  predicate EsBlanco(b: Byte) { b in {0x00, 0x09, 0x0A, 0x0C, 0x0D, 0x20} }

  predicate Termina(b: Byte) { EsDelimitador(b) || EsBlanco(b) }

  predicate EsHex(b: Byte) { 0x30 <= b <= 0x39 || 0x41 <= b <= 0x46 || 0x61 <= b <= 0x66 }

  function ValorHex(b: Byte): (v: int)
    requires EsHex(b)
    ensures 0 <= v < 16
  {
    if b <= 0x39 then b - 0x30 else if b <= 0x46 then b - 0x41 + 10 else b - 0x61 + 10
  }

  predicate EsEscape(s: seq<Byte>) { |s| > 2 && s[0] == NUMERAL && EsHex(s[1]) && EsHex(s[2]) }

  // The name at the start of s, decoded, and the bytes it takes.
  function Nombre(s: seq<Byte>): (r: (seq<Byte>, nat))
    ensures r.1 <= |s|
    ensures r.1 < |s| ==> Termina(s[r.1])
  {
    if s == [] || Termina(s[0]) then ([], 0)
    else if EsEscape(s) then
      var (n, k) := Nombre(s[3..]);
      ([ValorHex(s[1]) * 16 + ValorHex(s[2])] + n, k + 3)
    else
      var (n, k) := Nombre(s[1..]);
      ([s[0]] + n, k + 1)
  }

  // All non-empty names, in order.
  function Nombres(s: seq<Byte>): seq<seq<Byte>>
    decreases |s|
  {
    if s == [] then []
    else if s[0] != BARRA then Nombres(s[1..])
    else
      var (n, k) := Nombre(s[1..]);
      (if n == [] then [] else [n]) + Nombres(s[1 + k..])
  }

  // ------------------------------------------------------------------ the two loops

  // A name of which n, taking k bytes, has been read already.
  function Tras(n: seq<Byte>, k: nat, resto: (seq<Byte>, nat)): (seq<Byte>, nat) { (n + resto.0, k + resto.1) }

  lemma TrasTras(n: seq<Byte>, k: nat, m: seq<Byte>, j: nat, resto: (seq<Byte>, nat))
    ensures Tras(n, k, Tras(m, j, resto)) == Tras(n + m, k + j, resto)
  {
    assert n + (m + resto.0) == n + m + resto.0;
  }

  lemma TrasNada(n: seq<Byte>, k: nat, resto: (seq<Byte>, nat))
    ensures Tras([], 0, resto) == resto && Tras(n, k, ([], 0)) == (n, k)
  {
    assert [] + resto.0 == resto.0 && n + [] == n;
  }

  lemma PasoNombre(s: seq<Byte>)
    requires s != [] && !Termina(s[0])
    ensures EsEscape(s) ==> Nombre(s) == Tras([ValorHex(s[1]) * 16 + ValorHex(s[2])], 3, Nombre(s[3..]))
    ensures !EsEscape(s) ==> Nombre(s) == Tras([s[0]], 1, Nombre(s[1..]))
  {
  }

  lemma FinNombre(s: seq<Byte>)
    requires s == [] || Termina(s[0])
    ensures Nombre(s) == ([], 0)
  {
  }

  // The inner loop: the name that starts at inicio, and the index after it.
  method LeerNombre(content: seq<Byte>, inicio: nat) returns (name: seq<Byte>, index: nat)
    requires inicio <= |content|
    ensures index <= |content| && (name, index - inicio) == Nombre(content[inicio..])
  {
    hide Nombre, Termina, EsHex, ValorHex;
    name, index := [], inicio;
    TrasNada([], 0, Nombre(content[inicio..]));
    while index < |content|
      invariant inicio <= index <= |content|
      invariant Nombre(content[inicio..]) == Tras(name, index - inicio, Nombre(content[index..]))
    {
      var byte := content[index];
      ghost var s := content[index..];
      if Termina(byte) {
        break;
      }
      PasoNombre(s);
      if byte == NUMERAL && index + 2 < |content| && EsHex(content[index + 1]) && EsHex(content[index + 2]) {
        var valor := ValorHex(content[index + 1]) * 16 + ValorHex(content[index + 2]);
        assert s[3..] == content[index + 3..];
        TrasTras(name, index - inicio, [valor], 3, Nombre(s[3..]));
        name := name + [valor];
        index := index + 3;
        continue;
      }
      assert s[1..] == content[index + 1..];
      TrasTras(name, index - inicio, [byte], 1, Nombre(s[1..]));
      name := name + [byte];
      index := index + 1;
    }
    FinNombre(content[index..]);
    TrasNada(name, index - inicio, ([], 0));
  }

  method PdfNames(content: seq<Byte>) returns (names: seq<seq<Byte>>)
    ensures names == Nombres(content)
  {
    hide Nombres, Nombre;
    names := [];
    var index := 0;
    assert content[0..] == content && [] + Nombres(content) == Nombres(content);
    while index < |content|
      invariant index <= |content|
      invariant names + Nombres(content[index..]) == Nombres(content)
    {
      PasoNombres(content, index);
      if content[index] != BARRA {
        index := index + 1;
        continue;
      }
      var name, fin := LeerNombre(content, index + 1);
      if name != [] {
        AsociarNombres(names, [name], Nombres(content[fin..]));
        names := names + [name];
      }
      index := fin;
    }
    NombresVacios(content[index..]);
    assert names + [] == names;
  }

  lemma PasoNombres(s: seq<Byte>, i: nat)
    requires i < |s|
    ensures s[i] != BARRA ==> Nombres(s[i..]) == Nombres(s[i + 1..])
    ensures var (n, k) := Nombre(s[i + 1..]);
            s[i] == BARRA ==> Nombres(s[i..]) == (if n == [] then [] else [n]) + Nombres(s[i + 1 + k..])
  {
    hide Nombre;
    var t, k := s[i..], Nombre(s[i + 1..]).1;
    assert t[0] == s[i] && t[1..] == s[i + 1..] && t[1 + k..] == s[i + 1 + k..];
  }

  lemma NombresVacios(s: seq<Byte>)
    requires s == []
    ensures Nombres(s) == []
  {
  }

  // ------------------------------------------------------------------ compositionality

  lemma {:induction false} NombreLocal(a: seq<Byte>, b: seq<Byte>)
    requires b == [] || b[0] == BARRA
    ensures Nombre(a + b) == Nombre(a)
  {
    var s := a + b;
    if a == [] {
      assert s == b;
    } else if !Termina(a[0]) {
      assert s[0] == a[0];
      if EsEscape(a) {
        assert s[1] == a[1] && s[2] == a[2] && s[3..] == a[3..] + b;
        NombreLocal(a[3..], b);
      } else {
        EscapeLocal(a, b);
        assert s[1..] == a[1..] + b;
        NombreLocal(a[1..], b);
      }
    }
  }

  lemma EscapeLocal(a: seq<Byte>, b: seq<Byte>)
    requires a != [] && (b == [] || b[0] == BARRA)
    ensures EsEscape(a + b) == EsEscape(a)
  {
    var s := a + b;
    if |a| > 1 { assert s[1] == a[1]; }
    if |a| > 2 { assert s[2] == a[2]; }
    if |a| == 1 && b != [] { assert s[1] == BARRA; }
    if |a| == 2 && b != [] { assert s[2] == BARRA; }
  }

  lemma AsociarNombres(x: seq<seq<Byte>>, y: seq<seq<Byte>>, z: seq<seq<Byte>>)
    ensures x + y + z == x + (y + z)
  {
  }

  // Scanning is compositional at every solidus.
  lemma {:induction false} NombresConcatenados(a: seq<Byte>, b: seq<Byte>)
    requires b == [] || b[0] == BARRA
    ensures Nombres(a + b) == Nombres(a) + Nombres(b)
    decreases |a|
  {
    var s := a + b;
    if a == [] {
      assert s == b;
    } else {
      assert s[0] == a[0] && s[1..] == a[1..] + b;
      if a[0] != BARRA {
        NombresConcatenados(a[1..], b);
      } else {
        NombreLocal(a[1..], b);
        var (n, k) := Nombre(a[1..]);
        assert s[1 + k..] == a[1 + k..] + b;
        NombresConcatenados(a[1 + k..], b);
        var x: seq<seq<Byte>> := if n == [] then [] else [n];
        AsociarNombres(x, Nombres(a[1 + k..]), Nombres(b));
      }
    }
  }

  // ------------------------------------------------------------------ decoding

  // How one byte of a name is written: as itself, or as # and two hexadecimal digits.
  datatype Letra = Literal(b: Byte) | Escapada(alta: Byte, baja: Byte) {
    predicate Valida() {
      match this
      case Literal(b) => !Termina(b)
      case Escapada(a, b) => EsHex(a) && EsHex(b)
    }

    function Valor(): Byte
      requires Valida()
    {
      match this
      case Literal(b) => b
      case Escapada(a, b) => ValorHex(a) * 16 + ValorHex(b)
    }

    function Texto(): seq<Byte> {
      match this
      case Literal(b) => [b]
      case Escapada(a, b) => [NUMERAL, a, b]
    }
  }

  ghost predicate Validas(ls: seq<Letra>) { forall i | 0 <= i < |ls| :: ls[i].Valida() }

  function Valor(ls: seq<Letra>): seq<Byte>
    requires Validas(ls)
  {
    seq(|ls|, i requires 0 <= i < |ls| => ls[i].Valor())
  }

  function Escrito(ls: seq<Letra>): seq<Byte> {
    if ls == [] then [] else ls[0].Texto() + Escrito(ls[1..])
  }

  // No byte written as itself could be taken for the start of an escape.
  ghost predicate SinFalsos(ls: seq<Letra>, cola: seq<Byte>)
    decreases |ls|
  {
    ls == [] || ((ls[0].Literal? ==> !EsEscape(ls[0].Texto() + (Escrito(ls[1..]) + cola))) && SinFalsos(ls[1..], cola))
  }

  // ls is a spelling followed by cola: a delimiter, white space or the end of the data.
  ghost predicate Lectura(ls: seq<Letra>, cola: seq<Byte>) {
    Validas(ls) && (cola == [] || Termina(cola[0])) && SinFalsos(ls, cola)
  }

  // Writing # only in escapes is enough.
  lemma {:induction false} SinNumeral(ls: seq<Letra>, cola: seq<Byte>)
    requires forall i | 0 <= i < |ls| && ls[i].Literal? :: ls[i].b != NUMERAL
    ensures SinFalsos(ls, cola)
  {
    if ls != [] {
      SinNumeral(ls[1..], cola);
      assert (ls[0].Texto() + (Escrito(ls[1..]) + cola))[0] == ls[0].Texto()[0];
    }
  }

  lemma NombreLetra(l: Letra, resto: seq<Byte>)
    requires l.Valida() && (l.Literal? ==> !EsEscape(l.Texto() + resto))
    ensures var (n, k) := Nombre(resto);
            Nombre(l.Texto() + resto) == ([l.Valor()] + n, k + |l.Texto()|)
  {
    var s := l.Texto() + resto;
    match l {
      case Literal(b) =>
        assert s[0] == b && s[1..] == resto;
      case Escapada(a, b) =>
        assert s[0] == NUMERAL && s[1] == a && s[2] == b && s[3..] == resto;
    }
  }

  lemma Asociar(x: seq<Byte>, y: seq<Byte>, z: seq<Byte>)
    ensures x + y + z == x + (y + z)
  {
  }

  lemma {:induction false} NombreEscrito(ls: seq<Letra>, cola: seq<Byte>)
    requires Lectura(ls, cola)
    ensures Nombre(Escrito(ls) + cola) == (Valor(ls), |Escrito(ls)|)
    decreases |ls|
  {
    hide Termina, EsEscape;
    if ls == [] {
      assert [] + cola == cola && Valor(ls) == [];
      FinNombre(cola);
    } else {
      var resto := Escrito(ls[1..]) + cola;
      NombreEscrito(ls[1..], cola);
      NombreLetra(ls[0], resto);
      Asociar(ls[0].Texto(), Escrito(ls[1..]), cola);
      ValorMas(ls);
    }
  }

  lemma ValorMas(ls: seq<Letra>)
    requires ls != [] && Validas(ls)
    ensures Validas(ls[1..]) && Valor(ls) == [ls[0].Valor()] + Valor(ls[1..])
  {
  }

  // Every spelling of a non-empty name is read as that name.
  lemma NombreDecodificado(ls: seq<Letra>, cola: seq<Byte>)
    requires Lectura(ls, cola) && ls != []
    ensures Nombres([BARRA] + Escrito(ls) + cola) == [Valor(ls)] + Nombres(cola)
  {
    hide Nombre, Nombres, Termina, EsEscape, Valor, Escrito, Validas, SinFalsos;
    var e := Escrito(ls);
    var s := [BARRA] + e + cola;
    NombreEscrito(ls, cola);
    LargoValor(ls);
    assert s[1..] == e + cola && s[0..] == s && s[1 + |e|..] == cola;
    PasoNombres(s, 0);
  }

  lemma LargoValor(ls: seq<Letra>)
    requires Validas(ls)
    ensures |Valor(ls)| == |ls|
  {
  }

  // Conversely, what stands after a solidus is always a spelling.
  lemma {:induction false} LecturaDe(s: seq<Byte>) returns (ls: seq<Letra>, cola: seq<Byte>)
    ensures Lectura(ls, cola) && s == Escrito(ls) + cola
  {
    hide EsHex;
    if s == [] || Termina(s[0]) {
      ls, cola := [], s;
    } else {
      var l := if EsEscape(s) then Escapada(s[1], s[2]) else Literal(s[0]);
      var k := |l.Texto()|;
      var resto;
      resto, cola := LecturaDe(s[k..]);
      ls := [l] + resto;
      assert ls[1..] == resto;
      assert s == l.Texto() + s[k..];
      Asociar(l.Texto(), Escrito(resto), cola);
    }
  }

  ghost predicate EsAparicion(n: seq<Byte>, s: seq<Byte>, antes: seq<Byte>, ls: seq<Letra>, cola: seq<Byte>) {
    s == antes + ([BARRA] + Escrito(ls) + cola) && Lectura(ls, cola) && ls != [] && Valor(ls) == n
  }

  // Somewhere in the data stands a solidus and a spelling of n.
  ghost predicate Aparece(n: seq<Byte>, s: seq<Byte>) {
    exists antes, ls, cola :: EsAparicion(n, s, antes, ls, cola)
  }

  lemma AparicionSeVe(n: seq<Byte>, s: seq<Byte>, antes: seq<Byte>, ls: seq<Letra>, cola: seq<Byte>)
    requires EsAparicion(n, s, antes, ls, cola)
    ensures n in Nombres(s)
  {
    hide Lectura, Valor, Escrito;
    var b := [BARRA] + Escrito(ls) + cola;
    NombresConcatenados(antes, b);
    NombreDecodificado(ls, cola);
    assert Nombres(b)[0] == n;
    assert Nombres(s)[|Nombres(antes)|] == n;
  }

  lemma {:induction false} NombreAparece(n: seq<Byte>, s: seq<Byte>)
    requires n in Nombres(s)
    ensures Aparece(n, s)
    decreases |s|
  {
    hide Aparece, Lectura, Valor, Nombre, Escrito;
    if s[0] != BARRA {
      NombreAparece(n, s[1..]);
      AparecePrefijo(n, [s[0]], s[1..]);
      assert [s[0]] + s[1..] == s;
    } else {
      var ls, cola := LecturaDe(s[1..]);
      var e := [BARRA] + Escrito(ls);
      assert s == e + cola;
      NombresTrasBarra(ls, cola);
      if ls != [] && Valor(ls) == n {
        AquiMismo(n, ls, cola);
      } else {
        NombreAparece(n, cola);
        AparecePrefijo(n, e, cola);
      }
    }
  }

  lemma NombresTrasBarra(ls: seq<Letra>, cola: seq<Byte>)
    requires Lectura(ls, cola)
    ensures Validas(ls)
    ensures Nombres([BARRA] + Escrito(ls) + cola) == (if ls == [] then [] else [Valor(ls)]) + Nombres(cola)
  {
    hide Termina, EsEscape, Valor;
    if ls != [] {
      NombreDecodificado(ls, cola);
    } else {
      var s := [BARRA] + cola;
      assert [BARRA] + [] + cola == s && s[1..] == cola;
      FinNombre(cola);
    }
  }

  lemma AquiMismo(n: seq<Byte>, ls: seq<Letra>, cola: seq<Byte>)
    requires Lectura(ls, cola) && ls != [] && Valor(ls) == n
    ensures Aparece(n, [BARRA] + Escrito(ls) + cola)
  {
    hide Lectura, Valor, Escrito;
    var s := [BARRA] + Escrito(ls) + cola;
    assert [] + s == s;
    assert EsAparicion(n, s, [], ls, cola);
  }

  lemma AparecePrefijo(n: seq<Byte>, a: seq<Byte>, s: seq<Byte>)
    requires Aparece(n, s)
    ensures Aparece(n, a + s)
  {
    hide Lectura, Valor, Escrito;
    var antes, ls, cola :| EsAparicion(n, s, antes, ls, cola);
    Asociar(a, antes, [BARRA] + Escrito(ls) + cola);
    assert EsAparicion(n, a + s, a + antes, ls, cola);
  }

  // The scanner lists exactly the names that are spelled somewhere.
  lemma NombresExactos(n: seq<Byte>, s: seq<Byte>)
    ensures n in Nombres(s) <==> Aparece(n, s)
  {
    hide EsAparicion;
    if n in Nombres(s) {
      NombreAparece(n, s);
    }
    if Aparece(n, s) {
      var antes, ls, cola :| EsAparicion(n, s, antes, ls, cola);
      AparicionSeVe(n, s, antes, ls, cola);
    }
  }

  // ------------------------------------------------------------------ the verdict on a file

  datatype Veredicto = Aceptado(incrustados: bool) | Rechazado(codigo: Codigo)

  datatype Codigo = ContenidoInvalido | Cifrado | JavaScript | Lanzador | ArchivosIncrustados

  const JS: seq<Byte> := [0x4A, 0x53]
  const JAVASCRIPT: seq<Byte> := [0x4A, 0x61, 0x76, 0x61, 0x53, 0x63, 0x72, 0x69, 0x70, 0x74]
  const LAUNCH: seq<Byte> := [0x4C, 0x61, 0x75, 0x6E, 0x63, 0x68]
  const ENCRYPT: seq<Byte> := [0x45, 0x6E, 0x63, 0x72, 0x79, 0x70, 0x74]
  const EMBEDDED: seq<Byte> := [0x45, 0x6D, 0x62, 0x65, 0x64, 0x64, 0x65, 0x64, 0x46, 0x69, 0x6C, 0x65]

  predicate Prohibido(n: seq<Byte>) { n == JS || n == JAVASCRIPT || n == LAUNCH || n == ENCRYPT }

  function CodigoDe(n: seq<Byte>): Codigo
    requires Prohibido(n)
  {
    if n == ENCRYPT then Cifrado else if n == LAUNCH then Lanzador else JavaScript
  }

  const EOF: seq<Byte> := [0x25, 0x25, 0x45, 0x4F, 0x46]

  predicate EmpiezaPor(s: seq<Byte>, i: nat, t: seq<Byte>) { i + |t| <= |s| && s[i..i + |t|] == t }

  // The mark %%EOF lies in the last 1024 bytes.
  predicate TieneFin(content: seq<Byte>) {
    exists i: nat | |content| - 1024 <= i < |content| :: EmpiezaPor(content, i, EOF)
  }

  // What the check answers: the first forbidden name decides.
  ghost predicate EsVeredicto(content: seq<Byte>, permitidos: bool, v: Veredicto) {
    var ns := Nombres(content);
    && (v == Rechazado(ContenidoInvalido) <==> !TieneFin(content))
    && (TieneFin(content) ==>
          && (v.Aceptado? <==> (forall n | n in ns :: !Prohibido(n)) && (EMBEDDED in ns ==> permitidos))
          && (v.Aceptado? ==> (v.incrustados <==> EMBEDDED in ns))
          && (v == Rechazado(ArchivosIncrustados)
              <==> (forall n | n in ns :: !Prohibido(n)) && EMBEDDED in ns && !permitidos)
          && forall i | 0 <= i < |ns| && Prohibido(ns[i]) && (forall j | 0 <= j < i :: !Prohibido(ns[j])) ::
               v == Rechazado(CodigoDe(ns[i])))
  }

  // _pdf_has_embedded_files.
  method PdfHasEmbeddedFiles(content: seq<Byte>, permitidos: bool) returns (v: Veredicto)
    ensures EsVeredicto(content, permitidos, v)
  {
    if !TieneFin(content) {
      return Rechazado(ContenidoInvalido);
    }
    var incrustados := false;
    var ns := PdfNames(content);
    for i := 0 to |ns|
      invariant forall j | 0 <= j < i :: !Prohibido(ns[j])
      invariant incrustados <==> EMBEDDED in ns[..i]
    {
      if Prohibido(ns[i]) {
        return Rechazado(CodigoDe(ns[i]));
      }
      if ns[i] == EMBEDDED {
        incrustados := true;
      }
    }
    assert ns[..|ns|] == ns;
    if incrustados && !permitidos {
      return Rechazado(ArchivosIncrustados);
    }
    v := Aceptado(incrustados);
  }

  // A file is free of forbidden names exactly when none is spelled anywhere in it.
  lemma SinProhibidos(s: seq<Byte>)
    ensures (forall n | n in Nombres(s) :: !Prohibido(n)) <==> (forall n :: Prohibido(n) ==> !Aparece(n, s))
  {
    hide Aparece, Prohibido;
    forall n: seq<Byte> ensures n in Nombres(s) <==> Aparece(n, s) {
      NombresExactos(n, s);
    }
  }
}
