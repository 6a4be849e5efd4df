// Reading a RUT in any of its written forms, checking it, and writing it for display.
module RutFormato {
  import opened Texto
  import opened Rut

  datatype Error = FormatoInvalido | Corto | NoDigitos | Largo | DvInvalido

  datatype Result<+T> = Ok(value: T) | Err(error: Error)

  // str.upper, on ASCII
  function Mayus(s: string): (r: string)
    ensures |r| == |s|
  {
    seq(|s|, i requires 0 <= i < |s| => if 'a' <= s[i] <= 'z' then (s[i] as int - 32) as char else s[i])
  }

  // str.replace(c, "")
  function Quitar(s: string, c: char): string {
    if s == "" then "" else (if s[0] == c then "" else [s[0]]) + Quitar(s[1..], c)
  }

  // str.split(c)
  function Split(s: string, c: char): (r: seq<string>)
    ensures r != []
  {
    if s == "" then [""]
    else
      var r := Split(s[1..], c);
      if s[0] == c then [""] + r else [[s[0]] + r[0]] + r[1..]
  }

  predicate EsCanonico(s: string) {
    var p := Split(s, '-');
    |p| == 2 && Digitos(p[0]) && |p[0]| <= 8 && (Digitos(p[1]) || p[1] == "K")
  }

  function Revisar(numero: string, dv: string): (r: Result<string>)
    ensures r.Ok? ==> EsCanonico(r.value)
  {
    if !Digitos(numero) then Err(NoDigitos)
    else if |numero| > 8 then Err(Largo)
    else if !(Digitos(dv) || dv == "K") then Err(DvInvalido)
    else
      SplitDos(numero, dv);
      Ok(numero + "-" + dv)
  }

  function NormalizeRut(rut: string): (r: Result<string>)
    ensures r.Ok? ==> EsCanonico(r.value)
  {
    var s := Quitar(Strip(rut), '.');
    if '-' in s then
      var partes := Split(s, '-');
      if |partes| != 2 then Err(FormatoInvalido) else Revisar(partes[0], Mayus(partes[1]))
    else if |s| < 2 then Err(Corto)
    else Revisar(s[..|s| - 1], Mayus(s[|s| - 1..]))
  }

  function ValidateRut(rut: string): Result<bool> {
    match NormalizeRut(rut)
    case Err(e) => Err(e)
    case Ok(canonico) =>
      var partes := Split(canonico, '-');
      var numero := Int(partes[0]);
      Ok(numero > 0 && partes[1] == Dv(numero))
  }

  function Invertido(s: string): (r: string)
    ensures |r| == |s| && forall i | 0 <= i < |s| :: r[i] == s[|s| - 1 - i]
  {
    seq(|s|, i requires 0 <= i < |s| => s[|s| - 1 - i])
  }

  function Tramo(s: string, i: nat, j: nat): string
    requires i <= j
  {
    if |s| <= i then "" else if |s| <= j then s[i..] else s[i..j]
  }

  // ".".join over the groups that are not empty, the last one first.
  function Unir(partes: seq<string>): string {
    if partes == [] then ""
    else
      var resto := Unir(partes[1..]);
      if partes[0] == "" then resto else if resto == "" then partes[0] else resto + "." + partes[0]
  }

  function Agrupado(numero: string): string {
    var rev := Invertido(numero);
    Unir([Invertido(Tramo(rev, 0, 3)), Invertido(Tramo(rev, 3, 6)), Invertido(Tramo(rev, 6, |rev| + 6))])
  }

  function FormatRutForDisplay(rut: string): string {
    match NormalizeRut(rut)
    case Err(_) => rut
    case Ok(canonico) =>
      var partes := Split(canonico, '-');
      Agrupado(partes[0]) + "-" + partes[1]
  }

  // ------------------------------------------------------------------ splitting and removing

  lemma {:induction false} SplitSin(s: string, c: char)
    requires c !in s
    ensures Split(s, c) == [s]
  {
    if s != "" {
      SplitSin(s[1..], c);
      assert [s[0]] + s[1..] == s;
    }
  }

  lemma {:induction false} SplitUno(a: string, c: char, b: string)
    requires c !in a && c !in b
    ensures Split(a + [c] + b, c) == [a, b]
  {
    var s := a + [c] + b;
    if a == "" {
      assert s[1..] == b;
      SplitSin(b, c);
    } else {
      assert s[0] == a[0] && s[1..] == a[1..] + [c] + b;
      SplitUno(a[1..], c, b);
      assert [a[0]] + a[1..] == a;
    }
  }

  lemma SplitDos(numero: string, dv: string)
    requires Digitos(numero) && (Digitos(dv) || dv == "K")
    ensures Split(numero + "-" + dv, '-') == [numero, dv]
  {
    SplitUno(numero, '-', dv);
  }

  lemma {:induction false} SplitUnido(s: string)
    requires |Split(s, '-')| == 2
    ensures s == Split(s, '-')[0] + "-" + Split(s, '-')[1]
  {
    var p := Split(s, '-');
    if s[0] == '-' {
      assert p[1..] == Split(s[1..], '-');
      SplitSolo(s[1..]);
    } else {
      SplitUnido(s[1..]);
    }
  }

  lemma {:induction false} SplitSolo(s: string)
    requires |Split(s, '-')| == 1
    ensures Split(s, '-') == [s]
  {
    if s != "" {
      SplitSolo(s[1..]);
      assert [s[0]] + s[1..] == s;
    }
  }

  lemma {:induction false} QuitarSin(s: string, c: char)
    requires c !in s
    ensures Quitar(s, c) == s
  {
    if s != "" { QuitarSin(s[1..], c); }
  }

  lemma {:induction false} QuitarSuma(a: string, b: string, c: char)
    ensures Quitar(a + b, c) == Quitar(a, c) + Quitar(b, c)
  {
    if a == "" {
      assert a + b == b;
    } else {
      assert (a + b)[0] == a[0] && (a + b)[1..] == a[1..] + b;
      QuitarSuma(a[1..], b, c);
    }
  }

  // ------------------------------------------------------------------ written forms

  // With the blanks around and the dots out, a number, a hyphen and a check digit.
  lemma ConGuion(rut: string, numero: string, dv: string)
    requires Quitar(Strip(rut), '.') == numero + "-" + dv
    requires Digitos(numero) && |numero| <= 8 && '-' !in dv && (Digitos(Mayus(dv)) || Mayus(dv) == "K")
    ensures NormalizeRut(rut) == Ok(numero + "-" + Mayus(dv))
  {
    hide Strip;
    SplitUno(numero, '-', dv);
    assert (numero + "-" + dv)[|numero|] == '-';
  }

  // The same without the hyphen.
  lemma SinGuion(rut: string, numero: string, dv: string)
    requires Quitar(Strip(rut), '.') == numero + dv && |dv| == 1
    requires Digitos(numero) && |numero| <= 8 && '-' !in dv && (Digitos(Mayus(dv)) || Mayus(dv) == "K")
    ensures NormalizeRut(rut) == Ok(numero + "-" + Mayus(dv))
  {
    hide Strip;
    var s := numero + dv;
    assert s[..|s| - 1] == numero && s[|s| - 1..] == dv;
  }

  // A trimmed text that is already canonical once its dots are out.
  lemma Canonico(t: string, numero: string, dv: string)
    requires Recortado(t) && Quitar(t, '.') == numero + "-" + dv
    requires Digitos(numero) && |numero| <= 8 && (Digitos(dv) || dv == "K")
    ensures NormalizeRut(t) == Ok(numero + "-" + dv)
  {
    hide Strip;
    StripRecortado(t);
    MayusFija(dv);
    ConGuion(t, numero, dv);
  }

  lemma MayusFija(dv: string)
    requires Digitos(dv) || dv == "K"
    ensures Mayus(dv) == dv
  {
  }

  // The canonical form is a fixed point.
  lemma NormalizarIdempotente(rut: string)
    ensures NormalizeRut(rut).Ok? ==> NormalizeRut(NormalizeRut(rut).value) == NormalizeRut(rut)
  {
    hide NormalizeRut;
    var r := NormalizeRut(rut);
    if r.Ok? {
      var p := Split(r.value, '-');
      SplitUnido(r.value);
      CanonicoEscrito(p[0], p[1]);
    }
  }

  // Dots, blanks around, a lower-case K and a missing hyphen make no difference.
  lemma FormasAceptadas(rut: string, numero: string, dv: string)
    requires Digitos(numero) && |numero| <= 8 && |dv| == 1 && EsDv(Mayus(dv))
    requires Quitar(Strip(rut), '.') == numero + "-" + dv || Quitar(Strip(rut), '.') == numero + dv
    ensures NormalizeRut(rut) == Ok(numero + "-" + Mayus(dv))
    ensures ValidateRut(rut) == Ok(Int(numero) > 0 && Mayus(dv) == Dv(Int(numero)))
  {
    hide Strip, Dv, Mayus, NormalizeRut, EsCanonico, Quitar;
    MayusGuion(dv);
    if Quitar(Strip(rut), '.') == numero + "-" + dv {
      ConGuion(rut, numero, dv);
    } else {
      SinGuion(rut, numero, dv);
    }
    SplitDos(numero, Mayus(dv));
  }

  lemma MayusGuion(dv: string)
    requires |dv| == 1 && EsDv(Mayus(dv))
    ensures '-' !in dv && (Digitos(Mayus(dv)) || Mayus(dv) == "K")
  {
  }

  // ------------------------------------------------------------------ display

  lemma TramoInvertido(s: string, i: nat, j: nat)
    requires i <= j
    ensures var n := |s|;
            var a, b := if n <= j then 0 else n - j, if n <= i then 0 else n - i;
            Invertido(Tramo(Invertido(s), i, j)) == s[a..b]
  {
  }

  lemma AgrupadoUnir(numero: string)
    ensures var n := |numero|;
            var a, b := if n <= 6 then 0 else n - 6, if n <= 3 then 0 else n - 3;
            Agrupado(numero) == Unir([numero[b..], numero[a..b], numero[..a]])
  {
    hide Invertido, Tramo;
    TramoInvertido(numero, 0, 3);
    TramoInvertido(numero, 3, 6);
    TramoInvertido(numero, 6, |numero| + 6);
  }

  // Dots stand before the last three and the last six digits, where there are digits before them.
  lemma AgrupadoDeATres(numero: string)
    requires numero != ""
    ensures var n := |numero|;
            Agrupado(numero) == if n <= 3 then numero
                                else if n <= 6 then numero[..n - 3] + "." + numero[n - 3..]
                                else numero[..n - 6] + "." + numero[n - 6..n - 3] + "." + numero[n - 3..]
  {
    hide Agrupado;
    AgrupadoUnir(numero);
    var n := |numero|;
    var a, b := if n <= 6 then 0 else n - 6, if n <= 3 then 0 else n - 3;
    UnirTres(numero[b..], numero[a..b], numero[..a]);
    assert numero[0..] == numero == numero[..n];
  }

  lemma UnirTres(x: string, y: string, z: string)
    requires x != "" && (y == "" ==> z == "")
    ensures Unir([x, y, z]) == if y == "" then x else if z == "" then y + "." + x else z + "." + y + "." + x
  {
    assert Unir([z]) == z && [y, z][1..] == [z];
    assert Unir([y, z]) == (if z == "" then y else z + "." + y) && [x, y, z][1..] == [y, z];
  }

  // With the dots out the groups are the number again.
  lemma AgrupadoConserva(numero: string)
    requires Digitos(numero)
    ensures Quitar(Agrupado(numero), '.') == numero
    ensures Agrupado(numero) != "" && Agrupado(numero)[0] == numero[0]
  {
    hide Agrupado, Quitar;
    AgrupadoUnir(numero);
    var n := |numero|;
    var a, b := if n <= 6 then 0 else n - 6, if n <= 3 then 0 else n - 3;
    var x, y, z := numero[b..], numero[a..b], numero[..a];
    Unidas(x, y, z);
    assert z + y + x == numero;
  }

  lemma Unidas(x: string, y: string, z: string)
    requires x != "" && '.' !in x && '.' !in y && '.' !in z
    requires y == "" ==> z == ""
    ensures Quitar(Unir([x, y, z]), '.') == z + y + x
    ensures Unir([x, y, z]) != "" && Unir([x, y, z])[0] == (z + y + x)[0]
  {
    hide Quitar, Unir;
    QuitarSin(x, '.');
    UnirTres(x, y, z);
    if y == "" {
      assert z + y + x == x;
    } else {
      QuitarSin(y, '.');
      QuitarSin(z, '.');
      ConPunto(y, x);
      ConPunto(z + "." + y, x);
      ConPunto(z, y);
      assert z == "" ==> z + y + x == y + x;
    }
  }

  lemma ConPunto(a: string, b: string)
    ensures Quitar(a + "." + b, '.') == Quitar(a, '.') + Quitar(b, '.')
  {
    QuitarSuma(a + ".", b, '.');
    QuitarSuma(a, ".", '.');
    assert Quitar(".", '.') == "";
    assert Quitar(a, '.') + "" == Quitar(a, '.');
  }

  // Normalizing what is displayed gives back what was normalized, for any text at all.
  lemma FormatoIdaYVuelta(rut: string)
    ensures NormalizeRut(FormatRutForDisplay(rut)) == NormalizeRut(rut)
  {
    hide Strip, Agrupado, NormalizeRut;
    var r := NormalizeRut(rut);
    if r.Ok? {
      var p := Split(r.value, '-');
      SplitUnido(r.value);
      AgrupadoConserva(p[0]);
      ConDv(Agrupado(p[0]), p[1]);
      var t := Agrupado(p[0]) + "-" + p[1];
      assert t[0] == p[0][0] && t[|t| - 1] == p[1][|p[1]| - 1];
      Canonico(t, p[0], p[1]);
    }
  }

  lemma ConDv(g: string, dv: string)
    requires '.' !in dv
    ensures Quitar(g + "-" + dv, '.') == Quitar(g, '.') + "-" + dv
  {
    QuitarSuma(g + "-", dv, '.');
    QuitarSuma(g, "-", '.');
    QuitarSin(dv, '.');
    QuitarSin("-", '.');
  }

  // ------------------------------------------------------------------ what validation catches

  lemma {:induction false} IntCero(s: string)
    requires Digitos(s)
    ensures Int(s) == 0 <==> forall i | 0 <= i < |s| :: s[i] == '0'
  {
    if |s| > 1 {
      var p := s[..|s| - 1];
      IntCero(p);
      if forall i | 0 <= i < |p| :: p[i] == '0' {
        assert forall i | 0 <= i < |p| :: s[i] == p[i];
      } else {
        var i :| 0 <= i < |p| && p[i] != '0';
        assert s[i] != '0';
      }
    }
  }

  // The canonical text of a number and a check digit.
  lemma CanonicoEscrito(numero: string, dv: string)
    requires Digitos(numero) && |numero| <= 8 && (Digitos(dv) || dv == "K")
    ensures NormalizeRut(numero + "-" + dv) == Ok(numero + "-" + dv)
  {
    hide Strip, NormalizeRut, EsCanonico, Quitar;
    var t := numero + "-" + dv;
    assert '.' !in t;
    QuitarSin(t, '.');
    assert t[0] == numero[0] && t[|t| - 1] == dv[|dv| - 1];
    Canonico(t, numero, dv);
  }

  lemma ValidarCanonico(numero: string, dv: string)
    requires Digitos(numero) && |numero| <= 8 && EsDv(dv)
    ensures ValidateRut(numero + "-" + dv) == Ok(Int(numero) > 0 && dv == Dv(Int(numero)))
  {
    hide Dv, NormalizeRut;
    EsDvEsTexto(dv);
    CanonicoEscrito(numero, dv);
    SplitDos(numero, dv);
  }

  lemma EsDvEsTexto(dv: string)
    requires EsDv(dv)
    ensures Digitos(dv) || dv == "K"
  {
  }

  // Exactly one check digit makes a number valid, and no number is valid with a wrong digit in it.
  lemma UnSoloDigitoValido(n: nat)
    requires 0 < n && |Str(n)| <= 8
    ensures forall dv | EsDv(dv) :: ValidateRut(Str(n) + "-" + dv) == Ok(dv == Dv(n))
  {
    IntDeStr(n);
    forall dv | EsDv(dv) ensures ValidateRut(Str(n) + "-" + dv) == Ok(dv == Dv(n)) {
      ValidarCanonico(Str(n), dv);
    }
  }

  lemma ErrorDeTecleo(numero: string, dv: string, k: nat, c: char)
    requires Digitos(numero) && |numero| <= 8 && EsDv(dv) && ValidateRut(numero + "-" + dv) == Ok(true)
    requires k < |numero| && EsCifra(c) && c != numero[k]
    ensures ValidateRut(numero[k := c] + "-" + dv) == Ok(false)
  {
    ValidarCanonico(numero, dv);
    ValidarCanonico(numero[k := c], dv);
    SustitucionDetectada(numero, k, c);
  }

  // Of the exchanges of two different digits, only those six places apart pass (eight digits leave no other multiple).
  lemma ErrorDeIntercambio(numero: string, dv: string, j: nat, k: nat)
    requires Digitos(numero) && |numero| <= 8 && EsDv(dv) && ValidateRut(numero + "-" + dv) == Ok(true)
    requires j < k < |numero|
    ensures ValidateRut(numero[j := numero[k]][k := numero[j]] + "-" + dv) == Ok(numero[j] == numero[k] || k - j == 6)
  {
    hide ValidateRut, Dv, Int;
    var u := numero[j := numero[k]][k := numero[j]];
    ValidarCanonico(numero, dv);
    ValidarCanonico(u, dv);
    IntercambioDetectado(numero, j, k);
    IntercambioNoCero(numero, j, k);
  }

  lemma IntercambioNoCero(s: string, j: nat, k: nat)
    requires Digitos(s) && Int(s) > 0 && j < k < |s|
    ensures Int(s[j := s[k]][k := s[j]]) > 0
  {
    hide Int;
    var u := s[j := s[k]][k := s[j]];
    IntCero(s);
    IntCero(u);
    var i :| 0 <= i < |s| && s[i] != '0';
    assert u[j] == s[k] && u[k] == s[j];
    assert u[if i == j then k else if i == k then j else i] == s[i];
  }

  // A check digit of several digits is normalized without complaint, and never valid.
  lemma DvLargo(numero: string, dv: string)
    requires Digitos(numero) && |numero| <= 8 && Digitos(dv) && |dv| > 1
    ensures NormalizeRut(numero + "-" + dv) == Ok(numero + "-" + dv)
    ensures ValidateRut(numero + "-" + dv) == Ok(false)
  {
    hide Dv, NormalizeRut;
    CanonicoEscrito(numero, dv);
    SplitDos(numero, dv);
  }

  // Of an accepted text, the check digit has one character exactly when no hyphen is written or one character
  // follows it.
  lemma DvDeUnCaracter(rut: string)
    requires NormalizeRut(rut).Ok?
    ensures var s := Quitar(Strip(rut), '.');
            |Split(NormalizeRut(rut).value, '-')[1]| == 1 <==> ('-' in s ==> |s| > 1 && s[|s| - 2] == '-')
  {
    hide Strip, Quitar, Split;
    var s := Quitar(Strip(rut), '.');
    if '-' in s {
      var p := Split(s, '-');
      SplitUnido(s);
      SplitDos(p[0], Mayus(p[1]));
      assert s[|p[0]|] == '-';
      assert |p[1]| > 1 ==> s[|s| - 2] == p[1][|p[1]| - 2] == Mayus(p[1])[|p[1]| - 2];
    } else {
      SplitDos(s[..|s| - 1], Mayus(s[|s| - 1..]));
    }
  }

  // The text s, without blanks around and without dots, is a number of one to eight digits and a check digit: one or
  // more digits, or a K in either case, after a hyphen; or its last character where there is no hyphen.
  ghost predicate EscritoComo(s: string, numero: string, dv: string) {
    && 1 <= |numero| <= 8 && (forall c | c in numero :: c in "0123456789")
    && (dv == "k" || dv == "K" || (dv != "" && forall c | c in dv :: c in "0123456789"))
    && (s == numero + "-" + dv || ('-' !in s && |dv| == 1 && s == numero + dv))
  }

  lemma CifraEs(c: char)
    ensures EsCifra(c) <==> c in "0123456789"
  {
    var t := "0123456789";
    if EsCifra(c) { assert t[c as int - '0' as int] == c; }
  }

  lemma DigitosEs(s: string)
    ensures Digitos(s) <==> s != "" && forall c | c in s :: c in "0123456789"
  {
    forall c: char ensures EsCifra(c) <==> c in "0123456789" { CifraEs(c); }
    if Digitos(s) {
      forall c | c in s ensures c in "0123456789" { var i :| 0 <= i < |s| && s[i] == c; }
    }
  }

  lemma MayusDv(dv: string)
    ensures Digitos(dv) ==> Mayus(dv) == dv
    ensures Digitos(Mayus(dv)) || Mayus(dv) == "K" <==> Digitos(dv) || dv == "k" || dv == "K"
  {
    if Digitos(Mayus(dv)) {
      forall i | 0 <= i < |dv| ensures EsCifra(dv[i]) { assert EsCifra(Mayus(dv)[i]); }
    }
    if Mayus(dv) == "K" {
      assert Mayus(dv)[0] == 'K';
      assert dv == [dv[0]] && (dv[0] == 'k' || dv[0] == 'K');
    }
  }

  // Exactly what is accepted, and as what.
  lemma AceptadoExacto(rut: string)
    ensures var s := Quitar(Strip(rut), '.');
            && (NormalizeRut(rut).Ok? <==> exists numero, dv :: EscritoComo(s, numero, dv))
            && forall numero, dv | EscritoComo(s, numero, dv) :: NormalizeRut(rut) == Ok(numero + "-" + Mayus(dv))
  {
    hide Strip, Quitar, Mayus, EsCifra;
    var s := Quitar(Strip(rut), '.');
    if NormalizeRut(rut).Ok? {
      AceptadoComo(rut);
    }
    forall numero, dv | EscritoComo(s, numero, dv) ensures NormalizeRut(rut) == Ok(numero + "-" + Mayus(dv)) {
      DigitosEs(numero);
      DigitosEs(dv);
      MayusDv(dv);
      if s == numero + "-" + dv {
        ConGuion(rut, numero, dv);
      } else {
        SinGuion(rut, numero, dv);
      }
    }
  }

  lemma AceptadoComo(rut: string)
    requires NormalizeRut(rut).Ok?
    ensures exists numero, dv :: EscritoComo(Quitar(Strip(rut), '.'), numero, dv)
  {
    hide Strip, Quitar, Mayus, EsCifra, Split;
    var s := Quitar(Strip(rut), '.');
    var numero, dv;
    if '-' in s {
      SplitUnido(s);
      numero, dv := Split(s, '-')[0], Split(s, '-')[1];
    } else {
      numero, dv := s[..|s| - 1], s[|s| - 1..];
      assert s == numero + dv;
    }
    DigitosEs(numero);
    DigitosEs(dv);
    MayusDv(dv);
    assert EscritoComo(s, numero, dv);
  }
}
