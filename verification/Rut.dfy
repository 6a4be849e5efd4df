// Chilean RUT numbers: the check digit, the canonical form and the form for display.
module Rut {
  import opened Texto

  // ------------------------------------------------------------------ decimal digits

  predicate EsCifra(c: char) { '0' <= c <= '9' }

  function Valor(c: char): (v: nat)
    requires EsCifra(c)
    ensures v < 10
  {
    c as int - '0' as int
  }

  function Cifra(v: nat): (c: char)
    requires v < 10
    ensures EsCifra(c) && Valor(c) == v
  {
    ('0' as int + v) as char
  }

  // str.isdigit
  predicate Digitos(s: string) { s != "" && forall i | 0 <= i < |s| :: EsCifra(s[i]) }

  // str(n)
  function Str(n: nat): (s: string)
    ensures Digitos(s)
  {
    if n < 10 then [Cifra(n)] else Str(n / 10) + [Cifra(n % 10)]
  }

  // int(s)
  function Int(s: string): nat
    requires Digitos(s)
  {
    if |s| == 1 then Valor(s[0]) else Int(s[..|s| - 1]) * 10 + Valor(s[|s| - 1])
  }

  lemma {:induction false} IntDeStr(n: nat)
    ensures Int(Str(n)) == n
  {
    if n >= 10 {
      IntDeStr(n / 10);
      assert Str(n)[..|Str(n)| - 1] == Str(n / 10);
    }
  }

  // ------------------------------------------------------------------ the check digit

  // The weights, from the units up: 2, 3, 4, 5, 6, 7 and again.
  function Peso(i: nat): (p: nat)
    ensures 2 <= p <= 7
  {
    2 + i % 6
  }

  lemma PesoSiguiente(i: nat)
    ensures Peso(i + 1) == if Peso(i) == 7 then 2 else Peso(i) + 1
  {
  }

  // Sum of the digits of n, each times the weight of its place, the units being place i.
  function Ponderada(n: nat, i: nat): nat {
    if n == 0 then 0 else n % 10 * Peso(i) + Ponderada(n / 10, i + 1)
  }

  predicate EsDv(d: string) { |d| == 1 && (EsCifra(d[0]) || d[0] == 'K') }

  function ValorDv(d: string): nat
    requires EsDv(d)
  {
    if d[0] == 'K' then 10 else Valor(d[0])
  }

  // The check digit of n completes its weighted sum to a multiple of 11.
  predicate Verifica(n: nat, d: string) { EsDv(d) && (Ponderada(n, 0) + ValorDv(d)) % 11 == 0 }

  function DvDe(suma: nat): (d: string)
    ensures EsDv(d) && (suma + ValorDv(d)) % 11 == 0
  {
    var dv := 11 - suma % 11;
    if dv == 11 then "0" else if dv == 10 then "K" else [Cifra(dv)]
  }

  function Dv(n: nat): (d: string)
    ensures Verifica(n, d)
  {
    DvDe(Ponderada(n, 0))
  }

  // Exactly one check digit fits.
  lemma DvUnico(n: nat, d: string)
    ensures Verifica(n, d) <==> d == Dv(n)
  {
    hide Ponderada, Dv, ValorDv, EsDv;
    if Verifica(n, d) {
      RestoUnico(Ponderada(n, 0), d, Dv(n));
    }
  }

  lemma RestoUnico(s: nat, d: string, e: string)
    requires EsDv(d) && EsDv(e) && (s + ValorDv(d)) % 11 == 0 && (s + ValorDv(e)) % 11 == 0
    ensures d == e
  {
    MismoResto(s, ValorDv(d), ValorDv(e));
    assert d == [d[0]] && e == [e[0]];
  }

  lemma MismoResto(s: nat, a: nat, b: nat)
    requires a <= 10 && b <= 10 && (s + a) % 11 == 0 && (s + b) % 11 == 0
    ensures a == b
  {
    Resto(s, a, b - a);
  }

  // _calculate_dv: the weight is looked up by the index of the digit.
  method CalculateDv(numero: nat) returns (dv: string)
    ensures dv == Dv(numero)
    ensures Verifica(numero, dv)
  {
    hide Peso, Valor, Int, DvDe, Str, Ponderada;
    var multiplicadores := [2, 3, 4, 5, 6, 7];
    var suma, indice := 0, 0;
    var cifras := Str(numero);
    IntDeStr(numero);
    assert cifras[..|cifras|] == cifras;
    PonderadaTexto(cifras, 0);
    while indice < |cifras|
      invariant indice <= |cifras|
      invariant PonderadaDe(cifras, 0) == suma + PonderadaDe(cifras[..|cifras| - indice], indice)
    {
      PonderadaSigue(cifras, indice);
      suma := suma + Valor(cifras[|cifras| - 1 - indice]) * multiplicadores[indice % 6];
      indice := indice + 1;
    }
    DvEscrito(suma);
    var resto := suma % 11;
    var d := 11 - resto;
    if d == 11 {
      return "0";
    } else if d == 10 {
      return "K";
    } else {
      return Str(d);
    }
  }

  // Taking the next digit, the units first, off the weighted sum.
  lemma PonderadaSigue(s: string, i: nat)
    requires Cifras(s) && i < |s|
    ensures 2 + i % 6 == Peso(i)
    ensures PonderadaDe(s[..|s| - i], i)
         == Valor(s[|s| - 1 - i]) * Peso(i) + PonderadaDe(s[..|s| - (i + 1)], i + 1)
  {
    var r := s[..|s| - i];
    assert r[..|r| - 1] == s[..|s| - (i + 1)];
  }

  lemma DvEscrito(suma: nat)
    ensures var d := 11 - suma % 11;
            DvDe(suma) == if d == 11 then "0" else if d == 10 then "K" else Str(d)
  {
  }

  lemma PesoCero()
    ensures Peso(0) == 2
  {
  }

  // dv_rut: the weight is carried from digit to digit.
  method DvRut(numero: nat) returns (dv: string)
    ensures dv == Dv(numero)
  {
    hide Peso, Valor, Int, DvDe, Str, Ponderada;
    var suma, factor := 0, 2;
    PesoCero();
    var cifras := Str(numero);
    IntDeStr(numero);
    assert cifras[..|cifras|] == cifras;
    PonderadaTexto(cifras, 0);
    for i := 0 to |cifras|
      invariant factor == Peso(i)
      invariant PonderadaDe(cifras, 0) == suma + PonderadaDe(cifras[..|cifras| - i], i)
    {
      PonderadaSigue(cifras, i);
      suma := suma + Valor(cifras[|cifras| - 1 - i]) * factor;
      PesoSiguiente(i);
      factor := if factor == 7 then 2 else factor + 1;
    }
    DvEscrito(suma);
    var resto := 11 - suma % 11;
    dv := if resto == 11 then "0" else if resto == 10 then "K" else Str(resto);
  }

  // ------------------------------------------------------------------ typing errors

  predicate Cifras(s: string) { forall i | 0 <= i < |s| :: EsCifra(s[i]) }

  // The weighted sum of a text of digits; leading zeros add nothing to it.
  function PonderadaDe(s: string, i: nat): nat
    requires Cifras(s)
  {
    if s == "" then 0 else Valor(s[|s| - 1]) * Peso(i) + PonderadaDe(s[..|s| - 1], i + 1)
  }

  lemma UnaCifraMas(m: nat, v: nat, i: nat)
    requires v < 10
    ensures Ponderada(m * 10 + v, i) == v * Peso(i) + Ponderada(m, i + 1)
  {
    hide Peso;
    var n := m * 10 + v;
    assert n % 10 == v && n / 10 == m;
  }

  lemma {:induction false} PonderadaTexto(s: string, i: nat)
    requires Digitos(s)
    ensures PonderadaDe(s, i) == Ponderada(Int(s), i)
    decreases |s|
  {
    hide Peso;
    var v, p := Valor(s[|s| - 1]), s[..|s| - 1];
    if p == "" {
      UnaCifraMas(0, v, i);
      assert PonderadaDe(p, i + 1) == 0 && Int(s) == v;
    } else {
      PonderadaTexto(p, i + 1);
      UnaCifraMas(Int(p), v, i);
    }
  }

  // Changing one digit moves the sum by the change times the weight of its place.
  lemma {:induction false} CambioDeCifra(s: string, k: nat, c: char, i: nat)
    requires Cifras(s) && k < |s| && EsCifra(c)
    ensures PonderadaDe(s[k := c], i) == PonderadaDe(s, i) + (Valor(c) - Valor(s[k])) * Peso(i + |s| - 1 - k)
    decreases |s|
  {
    hide Peso, Valor;
    var u := |s| - 1;
    if k == u {
      assert s[k := c][..u] == s[..u];
      Distributiva(Peso(i), Valor(c), Valor(s[k]));
    } else {
      assert s[k := c][..u] == s[..u][k := c];
      CambioDeCifra(s[..u], k, c, i + 1);
    }
  }

  // 11 is prime, and neither a difference of digits nor a weight reaches it.
  lemma NoMultiplo(a: int, b: int)
    requires -9 <= a <= 9 && -7 <= b <= 7
    ensures (a * b) % 11 == 0 <==> a == 0 || b == 0
  {
    if b == 0 {} else if b == 1 {} else if b == 2 {} else if b == 3 {} else if b == 4 {} else if b == 5 {}
    else if b == 6 {} else if b == 7 {} else if b == -1 {} else if b == -2 {} else if b == -3 {}
    else if b == -4 {} else if b == -5 {} else if b == -6 {} else {}
  }

  lemma Resto(a: int, v: int, d: int)
    requires (a + v) % 11 == 0
    ensures (a + d + v) % 11 == 0 <==> d % 11 == 0
  {
  }

  lemma MismoDv(s: string, t: string, d: int)
    requires Digitos(s) && Digitos(t) && PonderadaDe(t, 0) == PonderadaDe(s, 0) + d
    ensures Dv(Int(s)) == Dv(Int(t)) <==> d % 11 == 0
  {
    hide Peso, DvDe;
    PonderadaTexto(s, 0);
    PonderadaTexto(t, 0);
    DvUnico(Int(t), Dv(Int(s)));
    Resto(PonderadaDe(s, 0), ValorDv(Dv(Int(s))), d);
  }

  // Every wrong digit changes the check digit.
  lemma SustitucionDetectada(s: string, k: nat, c: char)
    requires Digitos(s) && k < |s| && EsCifra(c) && c != s[k]
    ensures Dv(Int(s[k := c])) != Dv(Int(s))
  {
    CambioDeCifra(s, k, c, 0);
    NoMultiplo(Valor(c) - Valor(s[k]), Peso(|s| - 1 - k));
    MismoDv(s, s[k := c], (Valor(c) - Valor(s[k])) * Peso(|s| - 1 - k));
  }

  // Exchanging two digits goes unseen exactly when they are equal or a multiple of six places apart.
  lemma IntercambioDetectado(s: string, j: nat, k: nat)
    requires Digitos(s) && j < k < |s|
    ensures Dv(Int(s[j := s[k]][k := s[j]])) == Dv(Int(s)) <==> s[j] == s[k] || (k - j) % 6 == 0
  {
    hide Peso, DvDe, Dv, Valor;
    var t := s[j := s[k]];
    var u := t[k := s[j]];
    CambioDeCifra(s, j, s[k], 0);
    CambioDeCifra(t, k, s[j], 0);
    MismoPeso(|s| - 1 - k, k - j);
    var vj: int, vk: int, wj: int, wk: int := Valor(s[j]), Valor(s[k]), Peso(|s| - 1 - j), Peso(|s| - 1 - k);
    Distributiva(vk - vj, wj, wk);
    NoMultiplo(vk - vj, wj - wk);
    MismoDv(s, u, (vk - vj) * (wj - wk));
    ValorInyectivo(s[j], s[k]);
  }

  lemma Distributiva(a: int, b: int, c: int)
    ensures a * b - a * c == a * (b - c) && b * a - c * a == (b - c) * a && (-a) * c == -(a * c)
  {
  }

  lemma ValorInyectivo(a: char, b: char)
    requires EsCifra(a) && EsCifra(b)
    ensures Valor(a) == Valor(b) <==> a == b
  {
  }

  lemma MismoPeso(i: nat, d: nat)
    ensures Peso(i + d) == Peso(i) <==> d % 6 == 0
  {
  }
}
