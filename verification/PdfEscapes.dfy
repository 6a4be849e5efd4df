// The names a PDF may hide behind escapes, in the characters of the files.
module PdfEscapes {
  import opened PdfNombres

  // ------------------------------------------------------------------ characters

  function Latin(s: string): (r: seq<Byte>)
    requires forall i | 0 <= i < |s| :: s[i] as int < 256
    ensures |r| == |s|
  {
    seq(|s|, i requires 0 <= i < |s| => s[i] as int)
  }

  // b is the digit of value v, in either case.
  predicate Digito(b: Byte, v: nat)
    requires v < 16
  {
    b == "0123456789abcdef"[v] as int || b == "0123456789ABCDEF"[v] as int
  }

  lemma TablaHex(v: nat)
    requires v < 16
    ensures "0123456789abcdef"[v] as int == (if v < 10 then 48 + v else 87 + v)
    ensures "0123456789ABCDEF"[v] as int == (if v < 10 then 48 + v else 55 + v)
  {
    if v < 4 { if v == 0 {} else if v == 1 {} else if v == 2 {} else {} }
    else if v < 8 { if v == 4 {} else if v == 5 {} else if v == 6 {} else {} }
    else if v < 12 { if v == 8 {} else if v == 9 {} else if v == 10 {} else {} }
    else if v == 12 {} else if v == 13 {} else if v == 14 {} else {}
  }

  lemma ValorDelDigito(b: Byte, v: nat)
    requires v < 16 && Digito(b, v)
    ensures EsHex(b) && ValorHex(b) == v
  {
    TablaHex(v);
  }

  lemma DigitosExactos(b: Byte)
    ensures EsHex(b) <==> exists v: nat :: v < 16 && Digito(b, v)
  {
    if EsHex(b) {
      var v := ValorHex(b);
      TablaHex(v);
      assert Digito(b, v);
    }
    if v: nat :| v < 16 && Digito(b, v) {
      ValorDelDigito(b, v);
    }
  }

  // A name ends before ( ) < > [ ] { } / %, a blank, or the end of the data, and nowhere else.
  lemma TerminaEs(b: Byte)
    ensures Termina(b) <==> b as char in "()<>[]{}/%" || b in {0, 9, 10, 12, 13, 32}
  {
    var t := "()<>[]{}/%";
    assert t[0] == '(' && t[1] == ')' && t[2] == '<' && t[3] == '>' && t[4] == '[' && t[5] == ']' && t[6] == '{'
           && t[7] == '}' && t[8] == '/' && t[9] == '%';
  }

  // ------------------------------------------------------------------ spellings

  // The byte b, written as itself or as # and its two digits, each in either case.
  predicate SeEscribe(l: Letra, b: Byte) {
    l == Literal(b) || (l.Escapada? && Digito(l.alta, b / 16) && Digito(l.baja, b % 16))
  }

  ghost predicate Deletreo(ls: seq<Letra>, n: string) {
    && (forall i | 0 <= i < |n| :: n[i] as int < 256)
    && |ls| == |n| && forall i | 0 <= i < |n| :: SeEscribe(ls[i], Latin(n)[i])
  }

  // Letters and digits only.
  predicate Simple(n: string) {
    forall i | 0 <= i < |n| :: '0' <= n[i] <= '9' || 'A' <= n[i] <= 'Z' || 'a' <= n[i] <= 'z'
  }

  ghost predicate Acaba(cola: seq<Byte>) { cola == [] || Termina(cola[0]) }

  lemma LetraEscrita(l: Letra, b: Byte)
    requires SeEscribe(l, b) && (48 <= b <= 57 || 65 <= b <= 90 || 97 <= b <= 122)
    ensures l.Valida() && l.Valor() == b && (l.Literal? ==> l.b != NUMERAL)
  {
    if l.Escapada? {
      ValorDelDigito(l.alta, b / 16);
      ValorDelDigito(l.baja, b % 16);
    }
  }

  // Every way to write the letters of a name is read as that name, whatever ends it.
  lemma SeLee(n: string, ls: seq<Letra>, cola: seq<Byte>)
    requires n != "" && Simple(n) && Deletreo(ls, n) && Acaba(cola)
    ensures Nombres([0x2F] + Escrito(ls) + cola) == [Latin(n)] + Nombres(cola)
  {
    hide Nombres, Escrito, Termina, SinFalsos;
    forall i | 0 <= i < |ls|
      ensures ls[i].Valida() && ls[i].Valor() == Latin(n)[i] && (ls[i].Literal? ==> ls[i].b != NUMERAL)
    {
      LetraEscrita(ls[i], Latin(n)[i]);
    }
    SinNumeral(ls, cola);
    assert Valor(ls) == Latin(n);
    NombreDecodificado(ls, cola);
  }

  // # and the digits i and j are the byte 16·i + j, in either case of both.
  lemma EscapeLeido(a: Byte, b: Byte, i: nat, j: nat)
    requires i < 16 && j < 16 && Digito(a, i) && Digito(b, j)
    ensures Nombres([0x2F, 0x23, a, b]) == [[16 * i + j]]
  {
    hide Nombres;
    ValorDelDigito(a, i);
    ValorDelDigito(b, j);
    var ls := [Escapada(a, b)];
    SinNumeral(ls, []);
    assert Lectura(ls, []);
    NombreDecodificado(ls, []);
    assert ls[1..] == [];
    assert Escrito(ls) == [0x23, a, b];
    assert [BARRA] + [0x23, a, b] + [] == [0x2F, 0x23, a, b];
    assert Valor(ls) == [16 * i + j];
    NombresVacios([]);
    assert [Valor(ls)] + [] == [Valor(ls)];
  }

  // ------------------------------------------------------------------ the verdict

  const PROHIBIDOS := {"JS", "JavaScript", "Launch", "Encrypt"}

  function CodigoDeNombre(n: string): Codigo {
    if n == "Encrypt" then Cifrado else if n == "Launch" then Lanzador else JavaScript
  }

  lemma Constantes()
    ensures JS == Latin("JS") && LAUNCH == Latin("Launch") && ENCRYPT == Latin("Encrypt")
    ensures JAVASCRIPT == Latin("JavaScript") && EMBEDDED == Latin("EmbeddedFile")
  {
  }

  lemma ProhibidosEs(n: string)
    requires n in PROHIBIDOS
    ensures n != "" && Simple(n) && Prohibido(Latin(n)) && CodigoDe(Latin(n)) == CodigoDeNombre(n)
  {
    Constantes();
    assert ENCRYPT[0] == 0x45 && LAUNCH[0] == 0x4C && JS[0] == JAVASCRIPT[0] == 0x4A;
  }

  // A file in which a forbidden name stands, however its bytes are written, is refused; with the code of that name
  // if it is the first of them.
  lemma ProhibidoSeRechaza(antes: seq<Byte>, n: string, ls: seq<Letra>, cola: seq<Byte>, permitidos: bool, v: Veredicto)
    requires n in PROHIBIDOS && Deletreo(ls, n) && Acaba(cola)
    requires EsVeredicto(antes + ([0x2F] + Escrito(ls) + cola), permitidos, v)
    ensures v.Rechazado?
    ensures TieneFin(antes + ([0x2F] + Escrito(ls) + cola))
            && (forall p | p in PROHIBIDOS :: Latin2(p) !in Nombres(antes))
            ==> v == Rechazado(CodigoDeNombre(n))
  {
    hide Nombres, Escrito, Termina, TieneFin, Deletreo, Prohibido;
    var b := [0x2F] + Escrito(ls) + cola;
    ProhibidosEs(n);
    SeLee(n, ls, cola);
    NombresConcatenados(antes, b);
    var ns, k := Nombres(antes + b), |Nombres(antes)|;
    assert ns[k] == Nombres(b)[0] == Latin(n);
    assert Latin(n) in ns;
    if forall p | p in PROHIBIDOS :: Latin2(p) !in Nombres(antes) {
      forall j | 0 <= j < k ensures !Prohibido(ns[j]) {
        assert ns[j] == Nombres(antes)[j];
        NoProhibido(ns[j]);
      }
    }
  }

  // Latin, on the names above.
  function Latin2(p: string): seq<Byte> {
    if forall i | 0 <= i < |p| :: p[i] as int < 256 then Latin(p) else []
  }

  lemma NoProhibido(n: seq<Byte>)
    ensures Prohibido(n) ==> exists p :: p in PROHIBIDOS && Latin2(p) == n
  {
    Constantes();
    if n == JS { assert Latin2("JS") == n; }
    if n == JAVASCRIPT { assert Latin2("JavaScript") == n; }
    if n == LAUNCH { assert Latin2("Launch") == n; }
    if n == ENCRYPT { assert Latin2("Encrypt") == n; }
  }

  // The whole verdict of a file by the names in it.
  lemma VeredictoExacto(content: seq<Byte>, permitidos: bool, v: Veredicto)
    requires EsVeredicto(content, permitidos, v)
    ensures var ns := Nombres(content);
            if !TieneFin(content) then v == Rechazado(ContenidoInvalido)
            else if exists p | p in PROHIBIDOS :: Latin2(p) in ns then v.Rechazado?
            else if Latin("EmbeddedFile") in ns then
              v == if permitidos then Aceptado(true) else Rechazado(ArchivosIncrustados)
            else v == Aceptado(false)
  {
    hide Nombres, TieneFin, Prohibido;
    Constantes();
    var ns := Nombres(content);
    if p :| p in PROHIBIDOS && Latin2(p) in ns {
      ProhibidosEs(p);
      assert Prohibido(Latin2(p));
    } else {
      forall n | n in ns ensures !Prohibido(n) { NoProhibido(n); }
    }
  }

  // The mark of the end must start and finish within the last 1024 bytes.
  lemma FinExacto(content: seq<Byte>)
    ensures TieneFin(content) <==> exists a, b :: Partido(content, a, b)
  {
    if TieneFin(content) {
      var i: nat :| |content| - 1024 <= i < |content| && EmpiezaPor(content, i, EOF);
      assert Partido(content, content[..i], content[i + 5..]);
    }
    if a, b :| Partido(content, a, b) {
      assert content[|a|..|a| + 5] == EOF;
      assert EmpiezaPor(content, |a|, EOF);
    }
  }

  ghost predicate Partido(content: seq<Byte>, a: seq<Byte>, b: seq<Byte>) {
    content == a + Latin("%%EOF") + b && |b| + 5 <= 1024
  }
}
