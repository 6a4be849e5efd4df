// Lengthening the guaranteed period: what it adds to the factor, what it takes away, and when the pension rises.
module Garantia {
  import opened Opcion
  import opened Sumas
  import opened RentaInmediata
  import M = Mortalidad

  // What month m gains by being guaranteed.
  function Alza(c: Caso, m: nat): real
    requires c.g > 0.0
  {
    Desc(c.g, m) * (B(c, m) * ((1.0 - c.sc(m)) * (1.0 - Sob(c, m))))
  }

  function Alzas(c: Caso): Curva
    requires c.g > 0.0
  {
    (m: nat) => Alza(c, m)
  }

  // What month m pays to the children, and loses when the rule for guarantees over the whole table cuts them off.
  function Perdida(c: Caso, m: nat): real
    requires c.g > 0.0
  {
    Desc(c.g, m) * (B(c, m) * ((1.0 - c.sc(m)) * (Sob(c, m) - SobConyuge(c, m))))
  }

  function Perdidas(c: Caso): Curva
    requires c.g > 0.0
  {
    (m: nat) => Perdida(c, m)
  }

  // The longer guarantee reaches the holder's horizon, and the old one did not.
  predicate Cruza(c: Caso, garantia: nat) { GarantiaLarga(c.(garantia := garantia)) && !GarantiaLarga(c) }

  function Ganado(c: Caso, garantia: nat): real
    requires c.g > 0.0
  {
    Suma(Alzas(c), Corte(c.garantia), Corte(garantia))
  }

  function Perdido(c: Caso, garantia: nat): real
    requires c.g > 0.0
  {
    if Cruza(c, garantia) then Suma(Perdidas(c), Corte(garantia), N) else 0.0
  }

  // ------------------------------------------------------------------ the change of the factor

  // The factor moves by the gains of the newly guaranteed months, less what the children lose after them when
  // the longer guarantee crosses the horizon.
  lemma GarantiaIdentidad(c: Caso, garantia: nat)
    requires Valido(c) && c.garantia <= garantia
    ensures A(c.(garantia := garantia)) - A(c) == Ganado(c, garantia) - Perdido(c, garantia)
  {
    hide Pago, Alza, Perdida, Termino, GarantiaLarga;
    var c' := c.(garantia := garantia);
    var k, k' := Corte(c.garantia), Corte(garantia);
    forall m: nat ensures Termino(c', m) - Termino(c, m) == Cambio(c, garantia, m) {
      GarantiaPorMes(c, garantia, m);
    }
    SumaPartida(Terminos(c), 0, k, N);
    SumaPartida(Terminos(c'), 0, k, N);
    SumaPartida(Terminos(c), k, k', N);
    SumaPartida(Terminos(c'), k, k', N);
    SumaIgual(Terminos(c), Terminos(c'), 0, k);
    SumaDiferencia(Terminos(c'), Terminos(c), Alzas(c), k, k');
    if Cruza(c, garantia) {
      SumaDiferencia(Terminos(c), Terminos(c'), Perdidas(c), k', N);
    } else {
      SumaIgual(Terminos(c), Terminos(c'), k', N);
    }
  }

  function Cambio(c: Caso, garantia: nat, m: nat): real
    requires c.g > 0.0
  {
    if m < c.garantia then 0.0
    else if m < garantia then Alza(c, m)
    else if Cruza(c, garantia) then -Perdida(c, m)
    else 0.0
  }

  lemma GarantiaPorMes(c: Caso, garantia: nat, m: nat)
    requires Valido(c) && c.garantia <= garantia
    ensures Termino(c.(garantia := garantia), m) - Termino(c, m) == Cambio(c, garantia, m)
  {
    hide Desc, B, SobHasta, SobConyuge;
    var c' := c.(garantia := garantia);
    assert B(c, m) == B(c', m) by { BIgual(c, c', m); }
    if m >= garantia {
      SobTrasGarantia(c, garantia, m);
      Desglose(Desc(c.g, m), B(c, m), c.sc(m), Sob(c, m), Sob(c', m));
    } else if m >= c.garantia {
      Desglose(Desc(c.g, m), B(c, m), c.sc(m), Sob(c, m), 1.0);
    }
  }

  // After the longer guarantee the shares are what they were, or the spouse's alone.
  lemma SobTrasGarantia(c: Caso, garantia: nat, m: nat)
    requires c.garantia <= garantia <= m
    ensures Sob(c.(garantia := garantia), m) == if Cruza(c, garantia) then SobConyuge(c, m) else Sob(c, m)
  {
    var c' := c.(garantia := garantia);
    if Cruza(c, garantia) {
      FlujoCortado(c', |c'.hijos|, m);
      SobEsTotal(c', m);
      ConyugeIgual(c, c', m);
    } else {
      SobIgualTotal(c, c', m);
    }
  }

  lemma ConyugeIgual(c: Caso, c': Caso, m: nat)
    requires c.conyuge == c'.conyuge && c.hijos == c'.hijos
    ensures SobConyuge(c, m) == SobConyuge(c', m)
  {
  }

  lemma BIgual(c: Caso, c': Caso, m: nat)
    requires c.mesesAumento == c'.mesesAumento && c.aumento == c'.aumento
    ensures B(c, m) == B(c', m)
  {
  }

  lemma Desglose(d: real, b: real, s: real, x: real, y: real)
    ensures d * (b * (s + (1.0 - s) * y)) - d * (b * (s + (1.0 - s) * x)) == d * (b * ((1.0 - s) * (y - x)))
    ensures y == 1.0 ==> s + (1.0 - s) * y == 1.0
    ensures d * (b * ((1.0 - s) * (y - x))) == -(d * (b * ((1.0 - s) * (x - y))))
  {
    var u, v := s + (1.0 - s) * x, s + (1.0 - s) * y;
    assert v - u == (1.0 - s) * (y - x) == -((1.0 - s) * (x - y));
    assert b * v - b * u == b * (v - u);
    assert d * (b * v) - d * (b * u) == d * (b * (v - u));
    assert b * (-((1.0 - s) * (x - y))) == -(b * ((1.0 - s) * (x - y)));
  }

  // ------------------------------------------------------------------ the pension

  // The exact condition, for every family: with a balance above the quota the pension does not rise if and only
  // if the months gain at least what the children lose; below the quota it is the other way round.
  lemma GarantiaExacta(c: Caso, garantia: nat, saldo: real)
    requires Valido(c) && c.edad < FIN && c.garantia <= garantia
    ensures var c' := c.(garantia := garantia);
            && A(c) >= 1.0 && A(c') >= 1.0 && Q(c') == Q(c)
            && (Mensual(c', saldo) <= Mensual(c, saldo)
                <==> saldo == Q(c)
                     || if saldo > Q(c) then Ganado(c, garantia) >= Perdido(c, garantia)
                        else Ganado(c, garantia) <= Perdido(c, garantia))
  {
    hide A, Q, Mensual, Ganado, Perdido;
    var c' := c.(garantia := garantia);
    GarantiaIdentidad(c, garantia);
    FactorAAlMenosUno(c);
    FactorAAlMenosUno(c');
    QIgual(c, c');
    MensualEs(c, saldo);
    MensualEs(c', saldo);
    CocientesOrdenados(saldo - Q(c), A(c), A(c'));
  }

  lemma MensualEs(c: Caso, saldo: real)
    requires c.g > 0.0 && A(c) != 0.0
    ensures Mensual(c, saldo) == (saldo - Q(c)) / A(c)
  {
  }

  lemma CocientesOrdenados(d: real, a: real, a': real)
    requires a > 0.0 && a' > 0.0
    ensures d / a' <= d / a <==> d == 0.0 || if d > 0.0 then a' >= a else a' <= a
  {
    Cruz(d, a', d, a);
    assert d * a' - d * a == d * (a' - a);
    if d > 0.0 && a' < a { assert d * (a' - a) < 0.0; }
    if d < 0.0 && a' > a { assert d * (a' - a) < 0.0; }
    if d < 0.0 && a' <= a { assert d * (a' - a) >= 0.0; }
  }

  // Month by month: one more guaranteed month lowers the factor exactly when the holder may be dead in it and the
  // shares exceed 100%; the month that reaches the horizon does exactly when its gain is below the children's loss.
  lemma UnMesMas(c: Caso)
    requires Valido(c) && c.garantia < N
    ensures var c' := c.(garantia := c.garantia + 1);
            A(c') < A(c) <==>
              if Cruza(c, c.garantia + 1) then Alza(c, c.garantia) < Perdido(c, c.garantia + 1)
              else c.sc(c.garantia) < 1.0 && Sob(c, c.garantia) > 1.0
  {
    hide Alza, Ganado, Perdido, A, Sob, Cruza;
    var k := c.garantia;
    GarantiaIdentidad(c, k + 1);
    UnMesGanado(c);
    SignoDelAlza(c, k);
    if !Cruza(c, k + 1) {
      PerdidoSinCruce(c, k + 1);
    }
  }

  lemma UnMesGanado(c: Caso)
    requires c.g > 0.0 && c.garantia < N
    ensures Ganado(c, c.garantia + 1) == Alza(c, c.garantia)
  {
    hide Alza;
    var k := c.garantia;
    assert Suma(Alzas(c), k, k + 1) == Suma(Alzas(c), k, k) + Alzas(c)(k);
  }

  lemma PerdidoSinCruce(c: Caso, garantia: nat)
    requires c.g > 0.0 && !Cruza(c, garantia)
    ensures Perdido(c, garantia) == 0.0
  {
  }

  lemma SignoDelAlza(c: Caso, m: nat)
    requires Valido(c)
    ensures Alza(c, m) < 0.0 <==> c.sc(m) < 1.0 && Sob(c, m) > 1.0
    ensures Sob(c, m) <= 1.0 ==> Alza(c, m) >= 0.0 && (Alza(c, m) == 0.0 <==> c.sc(m) == 1.0 || Sob(c, m) == 1.0)
  {
    hide Sob, Desc;
    var d, b, x, y := Desc(c.g, m), B(c, m), 1.0 - c.sc(m), 1.0 - Sob(c, m);
    assert Alza(c, m) == d * (b * (x * y));
    SignoDelProducto(d, b, x, y);
  }

  lemma SignoDelProducto(d: real, b: real, x: real, y: real)
    requires d > 0.0 && b > 0.0 && x >= 0.0
    ensures d * (b * (x * y)) < 0.0 <==> x > 0.0 && y < 0.0
    ensures y >= 0.0 ==> d * (b * (x * y)) >= 0.0 && (d * (b * (x * y)) == 0.0 <==> x == 0.0 || y == 0.0)
  {
    var z := x * y;
    var w := b * z;
    assert z < 0.0 <==> x > 0.0 && y < 0.0;
    assert z > 0.0 <==> x > 0.0 && y > 0.0;
    assert (w < 0.0 <==> z < 0.0) && (w > 0.0 <==> z > 0.0);
    assert (d * w < 0.0 <==> w < 0.0) && (d * w > 0.0 <==> w > 0.0);
  }

  // A longer guarantee that does not cross the horizon, or leaves no eligible child behind when it does, never
  // raises the pension of a balance that covers the quota, while the shares stay within 100 %, as CuotasHastaUno
  // shows they do for most families.
  lemma GarantiaNuncaSube(c: Caso, garantia: nat, saldo: real)
    requires Valido(c) && c.edad < FIN && c.garantia <= garantia
    requires Cruza(c, garantia) ==> forall m: nat | garantia <= m < N :: Elegibles(c.hijos, m) == 0
    requires forall m: nat | c.garantia <= m < garantia :: Sob(c, m) <= 1.0
    ensures var c' := c.(garantia := garantia);
            var cambia := exists m: nat :: c.garantia <= m < garantia && m < N && c.sc(m) < 1.0 && Sob(c, m) < 1.0;
            && 1.0 <= A(c) <= A(c') && (A(c) < A(c') <==> cambia)
            && (Mensual(c', saldo) <= Mensual(c, saldo) <==> saldo >= Q(c) || !cambia)
  {
    hide Alza, Sob, A, Mensual, Q, Cruza, Elegibles;
    GarantiaIdentidad(c, garantia);
    GarantiaExacta(c, garantia, saldo);
    NadaPerdido(c, garantia);
    forall m: nat | c.garantia <= m < garantia
      ensures Cero(m) <= Alzas(c)(m)
      ensures Alzas(c)(m) == Cero(m) <==> !(c.sc(m) < 1.0 && Sob(c, m) < 1.0)
    {
      SignoDelAlza(c, m);
    }
    var k, k' := Corte(c.garantia), Corte(garantia);
    SumaNula(Cero, k, k');
    SumaMonotona(Cero, Alzas(c), k, k');
    SumasIguales(Cero, Alzas(c), k, k');
  }

  function Cero(m: nat): real { 0.0 }

  lemma NadaPerdido(c: Caso, garantia: nat)
    requires Valido(c)
    requires Cruza(c, garantia) ==> forall m: nat | garantia <= m < N :: Elegibles(c.hijos, m) == 0
    ensures Perdido(c, garantia) == 0.0
  {
    hide Sob, Elegibles;
    if Cruza(c, garantia) {
      forall m: nat | Corte(garantia) <= m < N ensures Perdidas(c)(m) == 0.0 {
        SinElegibles(c, |c.hijos|, m);
        SobEsTotal(c, m);
      }
      SumaNula(Perdidas(c), Corte(garantia), N);
    }
  }

  lemma {:induction false} SinElegibles(c: Caso, k: nat, m: nat)
    requires k <= |c.hijos| && Elegibles(c.hijos, m) == 0
    ensures SobHasta(c, k, m) == SobConyuge(c, m)
  {
    hide Elegible, SobConyuge, Cuota;
    if k > 0 {
      SinElegibles(c, k - 1, m);
      ElegiblesPaso(c.hijos, k, m);
      ElegiblesPrefijo(c.hijos, k, m);
      assert Flujo(c, c.hijos[k - 1], m) == 0.0;
    }
  }

  // ------------------------------------------------------------------ two ways the pension rises

  // First way: the shares exceed 100%. A spouse and three minors of other partners, each at least 96% likely to be
  // alive in a month in which the holder may be dead, and that month becomes guaranteed.
  ghost predicate TresMenores(e: Entrada) {
    && e.Valida() && e.causante.edad0 < FIN && e.garantia + 1 < FIN - e.causante.edad0
    && M.S(e.causante, e.garantia) < 1.0
    && e.conyuge.Some? && M.S(e.conyuge.value, e.garantia) >= 0.96
    && |e.hijos| == 3
    && forall k | 0 <= k < 3 :: Menor(e.hijos[k], e.garantia)
  }

  ghost predicate Menor(h: Hijo<M.Vida>, m: nat) {
    h.s.Valida() && h.invalidez == NoInvalido && !h.comun && PorEdad(h, m) && M.S(h.s, m) >= 0.96
  }

  lemma GarantiaPuedeSubir(e: Entrada, saldo: real)
    requires TresMenores(e) && saldo > CUOTA_MORTUORIA
    ensures var c, c' := CasoDe(e), CasoDe(e.(garantia := e.garantia + 1));
            A(c) >= 1.0 && A(c') >= 1.0 && Mensual(c', saldo) > Mensual(c, saldo)
  {
    hide M.Vida.Valida, M.S, Sob, A, Mensual, Q, Alza, Perdido;
    var c := CasoDe(e);
    CasoValido(e);
    CuotasDeTresMenores(e);
    UnMesMas(c);
    SubeSiBaja(c, saldo);
    assert CasoDe(e.(garantia := e.garantia + 1)) == c.(garantia := c.garantia + 1);
  }

  lemma SubeSiBaja(c: Caso, saldo: real)
    requires Valido(c) && c.edad < FIN && saldo > CUOTA_MORTUORIA
    requires A(c.(garantia := c.garantia + 1)) < A(c)
    ensures var c' := c.(garantia := c.garantia + 1);
            A(c) >= 1.0 && A(c') >= 1.0 && Mensual(c', saldo) > Mensual(c, saldo)
  {
    hide A, Mensual, Q, Ganado, Perdido;
    CuotaMortuoriaEntre(c);
    GarantiaIdentidad(c, c.garantia + 1);
    GarantiaExacta(c, c.garantia + 1, saldo);
  }

  lemma CuotasDeTresMenores(e: Entrada)
    requires TresMenores(e)
    ensures var c := CasoDe(e);
            c.sc(c.garantia) < 1.0 && Sob(c, c.garantia) > 1.0
  {
    hide M.Vida.Valida, M.S;
    var c, m := CasoDe(e), e.garantia;
    assert c.sc(m) == M.S(e.causante, m);
    assert !HayComun(c.hijos, m);
    forall k | 0 <= k < 3 ensures Cuota(c, c.hijos[k], m) * Flujo(c, c.hijos[k], m) >= PCT_HIJO * 0.96 {
      assert Menor(e.hijos[k], m);
      MismaFicha(e.hijos[k], m);
      assert Flujo(c, c.hijos[k], m) == M.S(e.hijos[k].s, m);
    }
    hide Cuota, Flujo;
    assert SobConyuge(c, m) >= PCT_CONYUGE * 0.96;
    SobHijo(c, 0, m);
    SobHijo(c, 1, m);
    SobHijo(c, 2, m);
    SobEsTotal(c, m);
  }

  // Second way: the guarantee reaches the horizon and cuts off a child. No spouse and one child, disabled for
  // good and at least 95% likely to be alive one month after; the shares never exceed 65%.
  ghost predicate HijoCortado(e: Entrada) {
    && e.Valida() && e.g <= 1.5 && e.causante.edad0 < FIN && e.garantia + 1 == FIN - e.causante.edad0
    && e.mesesAumento == 0 && e.conyuge.None?
    && |e.hijos| == 1 && e.hijos[0].invalidez == Total && M.S(e.hijos[0].s, e.garantia + 1) >= 0.95
  }

  lemma CruceSube(e: Entrada, saldo: real)
    requires HijoCortado(e) && saldo > CUOTA_MORTUORIA
    ensures var c, c' := CasoDe(e), CasoDe(e.(garantia := e.garantia + 1));
            && (forall m: nat :: Sob(c, m) <= 0.65)
            && A(c) >= 1.0 && A(c') >= 1.0 && Mensual(c', saldo) > Mensual(c, saldo)
  {
    hide M.Vida.Valida, M.S, Sob, A, Mensual, Q, Alza, Perdido;
    var c := CasoDe(e);
    CasoValido(e);
    forall m: nat ensures Sob(c, m) <= 0.65 { CuotaDelUnico(e, m); }
    PerdidaDelUnico(e);
    UnMesMas(c);
    SubeSiBaja(c, saldo);
    assert CasoDe(e.(garantia := e.garantia + 1)) == c.(garantia := c.garantia + 1);
  }

  lemma CuotaDelUnico(e: Entrada, m: nat)
    requires HijoCortado(e)
    ensures var c := CasoDe(e);
            && !GarantiaLarga(c) && Sob(c, m) == 0.65 * M.S(e.hijos[0].s, m) && SobConyuge(c, m) == 0.0
            && 0.0 <= Sob(c, m) <= 0.65
  {
    hide M.Vida.Valida, M.S;
    var c := CasoDe(e);
    MismaFicha(e.hijos[0], m);
    assert e.hijos[..0] == [] && c.hijos[..0] == [];
    assert Elegibles(c.hijos, m) == Elegibles(c.hijos[..0], m) + 1 == 1;
    assert Extra(c.hijos, m) == PCT_EXTRA_SIN_CONYUGE;
    assert Flujo(c, c.hijos[0], m) == M.S(e.hijos[0].s, m);
    SobHijo(c, 0, m);
    SobEsTotal(c, m);
  }

  // What is lost in the first month after the horizon alone outweighs the gain of the last month before it.
  lemma PerdidaDelUnico(e: Entrada)
    requires HijoCortado(e)
    ensures var c := CasoDe(e);
            && Valido(c) && Cruza(c, c.garantia + 1) && c.garantia < N
            && Alza(c, c.garantia) < Perdido(c, c.garantia + 1)
  {
    hide M.Vida.Valida, M.S, Sob, Alza, Perdida, SobConyuge;
    var c := CasoDe(e);
    CasoValido(e);
    var k := c.garantia;
    CuotaDelUnico(e, k);
    CuotaDelUnico(e, k + 1);
    SinSubirS(e.hijos[0].s, k);
    AlzaAcotada(c, k);
    PerdidaEn(c, k + 1);
    DescPaso(c.g, k);
    UnMesPesaMas(Alza(c, k), Perdida(c, k + 1), c.g, Desc(c.g, k), Desc(c.g, k + 1), Sob(c, k), Sob(c, k + 1));
    forall m: nat | k + 1 <= m < N ensures 0.0 <= Perdidas(c)(m) {
      CuotaDelUnico(e, m);
      PerdidaEn(c, m);
    }
    SumaPartida(Perdidas(c), k + 1, k + 2, N);
    SumaNoNegativa(Perdidas(c), k + 2, N);
    assert Suma(Perdidas(c), k + 1, k + 2) == Suma(Perdidas(c), k + 1, k + 1) + Perdidas(c)(k + 1);
  }

  lemma SinSubirS(v: M.Vida, m: nat)
    requires v.Valida()
    ensures M.S(v, m + 1) <= M.S(v, m)
  {
    M.CurvaBienFormada(v, m);
  }

  lemma AlzaAcotada(c: Caso, m: nat)
    requires Valido(c) && c.mesesAumento == 0 && 0.0 <= Sob(c, m) <= 1.0
    ensures Alza(c, m) <= Desc(c.g, m) * (1.0 - Sob(c, m))
  {
    hide Sob, Desc;
    var x, y := 1.0 - c.sc(m), 1.0 - Sob(c, m);
    ProductoUnidad(x, y);
    Producto(x * y, y, Desc(c.g, m));
  }

  lemma PerdidaEn(c: Caso, m: nat)
    requires Valido(c) && c.mesesAumento == 0 && c.edad + m >= FIN && SobConyuge(c, m) == 0.0 && Sob(c, m) >= 0.0
    ensures Perdida(c, m) == Desc(c.g, m) * Sob(c, m) >= 0.0
  {
    hide Sob, Desc, SobConyuge;
    assert c.sc(m) == 0.0 && B(c, m) == 1.0;
  }

  lemma UnMesPesaMas(alza: real, perdida: real, g: real, d: real, d': real, x: real, y: real)
    requires 1.0 < g <= 1.5 && d > 0.0 && d' == d / g && 0.65 >= x >= y >= 0.65 * 0.95
    requires alza <= d * (1.0 - x) && perdida == d' * y
    ensures alza < perdida
  {
    assert d == d' * g;
    assert d' > 0.0;
    var z := 1.0 - x;
    Producto(g, 1.5, z);
    assert g * z < y;
    assert d' * (g * z) < d' * y;
    assert d * z == d' * (g * z);
  }

  // ------------------------------------------------------------------ both happen

  // A table in which everybody dies at the yearly rate q up to the last age, without improvement.
  function Plana(q: real): M.Tabla {
    M.Tabla(seq(M.EDAD_MAX, _ => q), seq(M.EDAD_MAX, _ => seq(16, _ => 0.0)))
  }

  function Persona(q: real, edad: nat): M.Vida { M.Vida(Plana(q), M.Interpolada, edad, 24300) }

  // A holder of 60 years and one month guaranteed, with a spouse of that age and three newborn children.
  ghost function ConTresMenores(g: real): Entrada {
    var h := Hijo(0, Persona(0.0, 0), false, NoInvalido);
    Entrada(g, Persona(1.0, 720), Some(Persona(0.0, 720)), [h, h, h], 1, 0, 0.0)
  }

  // A holder of 92 years, all but one month of the table guaranteed, with one disabled newborn child.
  ghost function ConHijoCortado(g: real): Entrada {
    Entrada(g, Persona(0.5, 1104), None, [Hijo(0, Persona(0.0, 0), false, Total)], 227, 0, 0.0)
  }

  lemma AmbosOcurren(g: real)
    requires 1.0 < g <= 1.5
    ensures TresMenores(ConTresMenores(g)) && HijoCortado(ConHijoCortado(g))
  {
    hide M.S, M.EsPotencia, M.Tabla.Valida;
    PersonaValida(0.0, 0);
    PersonaValida(0.0, 720);
    PersonaValida(0.5, 1104);
    PersonaValida(1.0, 720);
    Inmortal(0, 1);
    Inmortal(720, 1);
    Inmortal(0, 228);
    MuereUnAnio();
  }

  lemma PersonaValida(q: real, edad: nat)
    requires 0.0 <= q <= 1.0
    ensures Persona(q, edad).Valida()
  {
    M.PotenciaPosible();
    assert forall x | 0 <= x < M.EDAD_MAX :: Plana(q).q0[x] == q && |Plana(q).aa[x]| == 16;
  }

  lemma {:induction false} QPlana(q: real, edad: nat, n: nat)
    requires 0.0 <= q <= 1.0 && edad < M.EDAD_MAX
    ensures Plana(q).Valida() && M.QEntera(Plana(q), edad, n) == q
  {
    PersonaValida(q, 0);
    if n > 0 {
      QPlana(q, edad, n - 1);
      assert M.Mejora(Plana(q), edad, n - 1) == 1.0;
    }
  }

  lemma QDePlana(q: real, edad: nat, anios: real)
    requires 0.0 <= q <= 1.0 && edad < M.EDAD_MAX
    ensures Plana(q).Valida() && M.QMejorada(Plana(q), M.Interpolada, edad, anios) == q
  {
    var a := if anios < 0.0 then 0.0 else anios;
    QPlana(q, edad, a.Floor);
    assert M.Mejora(Plana(q), edad, a.Floor) == 1.0;
    assert forall e :: M.Interpolada(1.0, e) == 1.0;
  }

  lemma {:induction false} Inmortal(edad: nat, m: nat)
    requires edad + m <= 12 * M.EDAD_MAX
    ensures Persona(0.0, edad).Valida() && M.S(Persona(0.0, edad), m) == 1.0
  {
    hide M.QMejorada, M.EsPotencia, M.Tabla.Valida, M.Factor;
    PersonaValida(0.0, edad);
    var v := Persona(0.0, edad);
    if m > 0 {
      Inmortal(edad, m - 1);
      M.PasoActual(v, m - 1);
      QDePlana(0.0, (edad + m - 1) / 12, M.Anios(v.t0, m - 1));
      M.FactorCalculado(v, m - 1);
      assert M.FactorMes(0.0, (edad + m - 1) % 12) == 1.0;
    } else {
      M.CurvaBienFormada(v, 0);
    }
  }

  lemma MuereUnAnio()
    ensures Persona(1.0, 720).Valida() && M.S(Persona(1.0, 720), 1) < 1.0
  {
    hide M.QMejorada, M.EsPotencia, M.Tabla.Valida, M.Factor;
    PersonaValida(1.0, 720);
    var v := Persona(1.0, 720);
    M.CurvaBienFormada(v, 0);
    M.PasoActual(v, 0);
    QDePlana(1.0, 60, M.Anios(v.t0, 0));
    M.FactorCalculado(v, 0);
    assert M.FactorMes(1.0, 0) == 11.0 / 12.0;
  }
}
