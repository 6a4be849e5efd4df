// Monthly mortality: improved yearly rates, uniform deaths within a year of age and the survival curve.
module Mortalidad {
  import opened Sumas

  const EDAD_MAX: nat := 110
  const N_MAX_MESES: nat := (EDAD_MAX + 2) * 12
  const FIN_TABLA: nat := (EDAD_MAX + 1) * 12
  const A0_MESES: int := 1
  const C_CALENDARIO: real := -0.4568

  // q2020 by age and the improvement factors by age and year, as far as the engine reads them.
  datatype Tabla = Tabla(q0: seq<real>, aa: seq<seq<real>>) {
    predicate Valida() {
      && |q0| >= EDAD_MAX && |aa| >= EDAD_MAX
      && forall x | 0 <= x < EDAD_MAX ::
           0.0 <= q0[x] <= 1.0 && |aa[x]| >= 16 && forall k | 0 <= k < 16 :: 0.0 <= aa[x][k] <= 1.0
    }
  }

  // The fractional power b ** e. Only b in [0, 1] and e in (0, 1] ever reach it.
  type Potencia = (real, real) -> real

  ghost predicate EsPotencia(pw: Potencia) {
    && (forall b, e :: 0.0 <= b <= 1.0 && 0.0 < e <= 1.0 ==> 0.0 <= pw(b, e) <= 1.0)
    && (forall b :: 0.0 <= b <= 1.0 ==> pw(b, 1.0) == b)
    && (forall b, e, e' :: 0.0 <= b <= 1.0 && 0.0 < e <= e' <= 1.0 ==> pw(b, e') <= pw(b, e))
  }

  function Interpolada(b: real, e: real): real { 1.0 - e * (1.0 - b) }

  // Such functions exist: interpolating linearly between 1 and b is one.
  lemma PotenciaPosible()
    ensures EsPotencia(Interpolada)
  {
    forall b: real, e: real | 0.0 <= b <= 1.0 && 0.0 < e <= 1.0 ensures 0.0 <= Interpolada(b, e) <= 1.0 {
      ProductoUnidad(e, 1.0 - b);
    }
    forall b: real, e: real, e': real | 0.0 <= b <= 1.0 && 0.0 < e <= e' <= 1.0
      ensures Interpolada(b, e') <= Interpolada(b, e)
    {
      Producto(e, e', 1.0 - b);
    }
  }

  datatype Fecha = Fecha(anio: int, mes: int, dia: int)

  function EdadEnMeses(nacimiento: Fecha, referencia: Fecha): int {
    12 * (referencia.anio - nacimiento.anio) + (referencia.mes - nacimiento.mes)
    - (if nacimiento.dia >= 15 then 1 else 0) + A0_MESES
  }

  function MesAbsoluto(fecha: Fecha): int {
    fecha.anio * 12 + fecha.mes - 1
  }

  // ------------------------------------------------------------------ improved yearly rate

  function Min(a: int, b: int): int { if a <= b then a else b }

  // What one year of improvement leaves of the rate, in year n; the last factor repeats.
  function Mejora(t: Tabla, edad: nat, n: nat): (b: real)
    requires t.Valida() && edad < EDAD_MAX
    ensures 0.0 <= b <= 1.0
  {
    1.0 - t.aa[edad][Min(n, 15)]
  }

  // q2020 after n whole years of improvement.
  function QEntera(t: Tabla, edad: nat, n: nat): (q: real)
    requires t.Valida() && edad < EDAD_MAX
    ensures 0.0 <= q <= 1.0
  {
    if n == 0 then t.q0[edad]
    else
      ProductoUnidad(QEntera(t, edad, n - 1), Mejora(t, edad, n - 1));
      QEntera(t, edad, n - 1) * Mejora(t, edad, n - 1)
  }

  // A fraction fr of a year that leaves b when whole.
  function ConFraccion(pw: Potencia, q: real, b: real, fr: real): real {
    if fr > 0.0 then q * pw(b, fr) else q
  }

  function QMejorada(t: Tabla, pw: Potencia, edad: nat, anios: real): real
    requires t.Valida()
  {
    if edad >= EDAD_MAX then 1.0
    else
      var a := if anios < 0.0 then 0.0 else anios;
      var n := a.Floor;
      var q := ConFraccion(pw, QEntera(t, edad, n), Mejora(t, edad, n), a - n as real);
      if q <= 1.0 then q else 1.0
  }

  lemma PotenciaEntre(pw: Potencia, b: real, fr: real)
    requires EsPotencia(pw) && 0.0 <= b <= 1.0 && 0.0 < fr <= 1.0
    ensures b <= pw(b, fr) <= 1.0
  {
    assert pw(b, 1.0) == b;
  }

  // The rate with a fraction lies between those without it and with the whole year, and decreases with it.
  lemma FraccionEncajada(pw: Potencia, q: real, b: real, fr: real)
    requires EsPotencia(pw) && 0.0 <= q <= 1.0 && 0.0 <= b <= 1.0 && 0.0 <= fr < 1.0
    ensures 0.0 <= q * b <= ConFraccion(pw, q, b, fr) <= q
  {
    var x := ConFraccion(pw, q, b, fr);
    if fr > 0.0 {
      PotenciaEntre(pw, b, fr);
      Encajado(x, q, b, pw(b, fr));
    } else {
      Encajado(x, q, b, 1.0);
    }
  }

  lemma FraccionDecrece(pw: Potencia, q: real, b: real, fr: real, fr': real)
    requires EsPotencia(pw) && 0.0 <= q <= 1.0 && 0.0 <= b <= 1.0 && 0.0 <= fr <= fr' < 1.0
    ensures ConFraccion(pw, q, b, fr') <= ConFraccion(pw, q, b, fr)
  {
    if fr > 0.0 {
      assert pw(b, fr') <= pw(b, fr);
      Ordenados(ConFraccion(pw, q, b, fr'), ConFraccion(pw, q, b, fr), q, pw(b, fr'), pw(b, fr));
    } else {
      FraccionEncajada(pw, q, b, fr');
    }
  }

  lemma Encajado(x: real, q: real, b: real, p: real)
    requires x == q * p && 0.0 <= q && 0.0 <= b <= p <= 1.0
    ensures 0.0 <= q * b <= x <= q
  {
    ProductosEncajados(q, b, p);
  }

  lemma ProductosEncajados(q: real, b: real, p: real)
    requires 0.0 <= q && 0.0 <= b <= p <= 1.0
    ensures 0.0 <= q * b <= q * p <= q
  {
    Producto(0.0, b, q);
    Producto(b, p, q);
    Producto(p, 1.0, q);
    assert q * 0.0 == 0.0 && q * 1.0 == q;
  }

  lemma Ordenados(x: real, y: real, q: real, p: real, p': real)
    requires x == q * p && y == q * p' && p <= p' && q >= 0.0
    ensures x <= y
  {
    Producto(p, p', q);
  }

  // The outer cut at 1 never acts, and after a fraction of a year the rate lies between the two whole-year rates.
  lemma QMejoradaEncajada(t: Tabla, pw: Potencia, edad: nat, anios: real)
    requires t.Valida() && EsPotencia(pw) && edad < EDAD_MAX && anios >= 0.0
    ensures QEntera(t, edad, anios.Floor + 1) <= QMejorada(t, pw, edad, anios) <= QEntera(t, edad, anios.Floor)
    ensures var n := anios.Floor;
            QMejorada(t, pw, edad, anios)
            == ConFraccion(pw, QEntera(t, edad, n), Mejora(t, edad, n), anios - n as real)
  {
    hide Mejora, ConFraccion;
    var n := anios.Floor;
    FraccionEncajada(pw, QEntera(t, edad, n), Mejora(t, edad, n), anios - n as real);
    assert QEntera(t, edad, n + 1) == QEntera(t, edad, n) * Mejora(t, edad, n);
  }

  lemma QMejoradaEntre(t: Tabla, pw: Potencia, edad: nat, anios: real)
    requires t.Valida() && EsPotencia(pw)
    ensures 0.0 <= QMejorada(t, pw, edad, anios) <= 1.0
  {
    hide Mejora, ConFraccion;
    if edad < EDAD_MAX {
      var a := if anios < 0.0 then 0.0 else anios;
      var n := a.Floor;
      FraccionEncajada(pw, QEntera(t, edad, n), Mejora(t, edad, n), a - n as real);
    }
  }

  lemma {:induction false} QEnteraDecrece(t: Tabla, edad: nat, n: nat, k: nat)
    requires t.Valida() && edad < EDAD_MAX && n <= k
    ensures QEntera(t, edad, k) <= QEntera(t, edad, n)
    decreases k
  {
    hide Mejora;
    if n < k {
      QEnteraDecrece(t, edad, n, k - 1);
      var q, b := QEntera(t, edad, k - 1), Mejora(t, edad, k - 1);
      ProductoUnidad(q, b);
      assert QEntera(t, edad, k) == q * b;
    }
  }

  // More accumulated improvement never raises the rate, across whole-year boundaries too.
  lemma QMejoradaDecrece(t: Tabla, pw: Potencia, edad: nat, anios: real, anios': real)
    requires t.Valida() && EsPotencia(pw) && anios <= anios'
    ensures QMejorada(t, pw, edad, anios') <= QMejorada(t, pw, edad, anios)
  {
    if edad < EDAD_MAX {
      var a := if anios < 0.0 then 0.0 else anios;
      var a' := if anios' < 0.0 then 0.0 else anios';
      assert QMejorada(t, pw, edad, a) == QMejorada(t, pw, edad, anios);
      assert QMejorada(t, pw, edad, a') == QMejorada(t, pw, edad, anios');
      QMejoradaEncajada(t, pw, edad, a);
      QMejoradaEncajada(t, pw, edad, a');
      if a.Floor < a'.Floor {
        QEnteraDecrece(t, edad, a.Floor + 1, a'.Floor);
      } else {
        MismoAnioDecrece(t, pw, edad, a, a');
      }
    }
  }

  lemma MismoAnioDecrece(t: Tabla, pw: Potencia, edad: nat, a: real, a': real)
    requires t.Valida() && EsPotencia(pw) && edad < EDAD_MAX && 0.0 <= a <= a' && a.Floor == a'.Floor
    ensures QMejorada(t, pw, edad, a') <= QMejorada(t, pw, edad, a)
  {
    hide QMejorada, QEntera, Mejora, ConFraccion;
    QMejoradaEncajada(t, pw, edad, a);
    QMejoradaEncajada(t, pw, edad, a');
    var n := a.Floor;
    FraccionDecrece(pw, QEntera(t, edad, n), Mejora(t, edad, n), a - n as real, a' - n as real);
  }

  // The loop of _q_mejorada.
  method CalcularQMejorada(t: Tabla, pw: Potencia, edad: nat, anios: real) returns (q: real)
    requires t.Valida()
    ensures q == QMejorada(t, pw, edad, anios)
  {
    if edad >= EDAD_MAX {
      return 1.0;
    }
    var a := if anios < 0.0 then 0.0 else anios;
    var n := a.Floor;
    var fr := a - n as real;
    q := t.q0[edad];
    for j := 1 to n + 1
      invariant q == QEntera(t, edad, j - 1)
    {
      q := q * (1.0 - t.aa[edad][Min(j - 1, 15)]);
    }
    if fr > 0.0 {
      q := q * pw(1.0 - t.aa[edad][Min(n, 15)], fr);
    }
    q := if q <= 1.0 then q else 1.0;
  }

  // ------------------------------------------------------------------ one month

  // Probability of surviving month mu of a year of age whose yearly rate is q.
  function FactorMes(q: real, mu: nat): real
    requires 0.0 <= q <= 1.0 && mu < 12
  {
    assert mu as real / 12.0 <= 11.0 / 12.0;
    ProductoUnidad(q, mu as real / 12.0);
    (1.0 - (mu + 1) as real / 12.0 * q) / (1.0 - mu as real / 12.0 * q)
  }

  lemma DenominadorReal(q: real, a: real, b: real)
    requires 0.0 <= q <= 1.0 && 0.0 <= a <= 11.0 / 12.0 && a <= b <= 1.0
    ensures 1.0 - a * q >= 1.0 / 12.0
    ensures 0.0 <= 1.0 - b * q <= 1.0 - a * q
  {
    Producto(a, b, q);
    ProductoUnidad(a, q);
    ProductoUnidad(b, q);
  }

  lemma Denominador(q: real, mu: nat)
    requires 0.0 <= q <= 1.0 && mu < 12
    ensures 1.0 - mu as real / 12.0 * q >= 1.0 / 12.0
    ensures 0.0 <= 1.0 - (mu + 1) as real / 12.0 * q <= 1.0 - mu as real / 12.0 * q
  {
    DenominadorReal(q, mu as real / 12.0, (mu + 1) as real / 12.0);
  }

  lemma FactorMesEntre(q: real, mu: nat)
    requires 0.0 <= q <= 1.0 && mu < 12
    ensures 0.0 <= FactorMes(q, mu) <= 1.0
  {
    Denominador(q, mu);
    var x, y := 1.0 - (mu + 1) as real / 12.0 * q, 1.0 - mu as real / 12.0 * q;
    Cruz(x, y, 1.0, 1.0);
    Cruz(0.0, 1.0, x, y);
  }

  lemma FactorMesDecrece(q: real, q': real, mu: nat)
    requires 0.0 <= q <= q' <= 1.0 && mu < 12
    ensures FactorMes(q', mu) <= FactorMes(q, mu)
  {
    Denominador(q, mu);
    Denominador(q', mu);
    var a, b := mu as real / 12.0, (mu + 1) as real / 12.0;
    assert a <= b;
    assert (1.0 - b * q) * (1.0 - a * q') - (1.0 - b * q') * (1.0 - a * q) == (b - a) * (q' - q);
    assert (b - a) * (q' - q) >= 0.0;
    Cruz(1.0 - b * q', 1.0 - a * q', 1.0 - b * q, 1.0 - a * q);
  }

  // Product of the first k monthly factors of one year of age.
  function FactorMeses(q: real, k: nat): real
    requires 0.0 <= q <= 1.0 && k <= 12
  {
    if k == 0 then 1.0 else FactorMeses(q, k - 1) * FactorMes(q, k - 1)
  }

  // Uniform deaths: after k months of the year exactly k/12 of the yearly deaths have occurred.
  lemma {:induction false} MuertesUniformes(q: real, k: nat)
    requires 0.0 <= q <= 1.0 && k <= 12
    ensures FactorMeses(q, k) == 1.0 - k as real / 12.0 * q
    decreases k
  {
    if k > 0 {
      MuertesUniformes(q, k - 1);
      Denominador(q, k - 1);
    }
  }

  // ------------------------------------------------------------------ survival curve

  // A person as the survival loop sees one: table, age in months and absolute month of the simulation.
  datatype Vida = Vida(tabla: Tabla, pw: Potencia, edad0: nat, t0: int) {
    ghost predicate Valida() { tabla.Valida() && EsPotencia(pw) }

    function Luego(k: nat): Vida { Vida(tabla, pw, edad0 + k, t0 + k) }
  }

  function Anios(t0: int, m: nat): real {
    (t0 + m) as real / 12.0 - 2020.0 + C_CALENDARIO
  }

  function QMes(v: Vida, m: nat): real
    requires v.tabla.Valida()
  {
    QMejorada(v.tabla, v.pw, (v.edad0 + m) / 12, Anios(v.t0, m))
  }

  // Probability of surviving month m, for every m, also past the end of the table.
  ghost function Factor(v: Vida, m: nat): (f: real)
    requires v.Valida()
    ensures 0.0 <= f <= 1.0
  {
    QMejoradaEntre(v.tabla, v.pw, (v.edad0 + m) / 12, Anios(v.t0, m));
    FactorMesEntre(QMes(v, m), (v.edad0 + m) % 12);
    FactorMes(QMes(v, m), (v.edad0 + m) % 12)
  }

  ghost function Factores(v: Vida): nat -> real
    requires v.Valida()
  {
    (m: nat) => Factor(v, m)
  }

  // The running product before month m, continued past the end of the table.
  ghost function Actual(v: Vida, m: nat): real
    requires v.Valida()
  {
    Prod(Factores(v), m)
  }

  lemma ActualEsProducto(v: Vida, m: nat)
    requires v.Valida()
    ensures Actual(v, m) == Prod(Factores(v), m)
  {
  }

  lemma PasoActual(v: Vida, m: nat)
    requires v.Valida()
    ensures Actual(v, m + 1) == Actual(v, m) * Factor(v, m)
    ensures 0.0 <= Actual(v, m + 1) <= Actual(v, m) <= 1.0
  {
    hide Factor;
    ProdEntre(Factores(v), m);
    assert Factores(v)(m) == Factor(v, m);
    ProductoUnidad(Prod(Factores(v), m), Factor(v, m));
    assert Prod(Factores(v), m + 1) == Prod(Factores(v), m) * Factores(v)(m);
  }

  // Entry m of the survival array: zero from the month in which the age passes 110.
  ghost function S(v: Vida, m: nat): (p: real)
    requires v.Valida()
    ensures 0.0 <= p <= 1.0
  {
    ProdEntre(Factores(v), m);
    if v.edad0 + m < FIN_TABLA then Actual(v, m) else 0.0
  }

  lemma FactorFinal(v: Vida, m: nat)
    requires v.Valida() && v.edad0 + m == FIN_TABLA - 1
    ensures Factor(v, m) == 0.0
  {
    assert (v.edad0 + m) / 12 == EDAD_MAX && (v.edad0 + m) % 12 == 11;
    assert FactorMes(1.0, 11) == 0.0;
  }

  // The product is exactly 0 once the table is exhausted, so the break of the loop loses no probability.
  lemma SinProbabilidadPerdida(v: Vida, m: nat)
    requires v.Valida() && v.edad0 < FIN_TABLA
    ensures S(v, m) == Actual(v, m)
    ensures v.edad0 + m >= FIN_TABLA ==> Actual(v, m) == 0.0
  {
    if v.edad0 + m >= FIN_TABLA {
      FactorFinal(v, FIN_TABLA - 1 - v.edad0);
      ProdNulo(Factores(v), FIN_TABLA - 1 - v.edad0, m);
    }
  }

  // A survival curve starts at 1 (for anyone still in the table), never rises and ends at 0.
  lemma CurvaBienFormada(v: Vida, m: nat)
    requires v.Valida()
    ensures S(v, 0) == if v.edad0 < FIN_TABLA then 1.0 else 0.0
    ensures S(v, m + 1) <= S(v, m)
    ensures v.edad0 + m >= FIN_TABLA ==> S(v, m) == 0.0
  {
    hide QMejorada, QMes, FactorMes, EsPotencia, Tabla.Valida;
    PasoActual(v, m);
  }

  // Same age, later simulation month: no month is less likely to be survived ...
  lemma FactorPosterior(v: Vida, t0': int, m: nat)
    requires v.Valida() && v.t0 <= t0'
    ensures Factor(v, m) <= Factor(v.(t0 := t0'), m)
  {
    var v' := v.(t0 := t0');
    var x, mu := (v.edad0 + m) / 12, (v.edad0 + m) % 12;
    QMejoradaEntre(v.tabla, v.pw, x, Anios(v.t0, m));
    QMejoradaEntre(v.tabla, v.pw, x, Anios(t0', m));
    QMejoradaDecrece(v.tabla, v.pw, x, Anios(v.t0, m), Anios(t0', m));
    FactorMesDecrece(QMes(v', m), QMes(v, m), mu);
  }

  // ... so the whole survival curve is pointwise at least as high.
  lemma SimulacionPosteriorSobrevive(v: Vida, t0': int, m: nat)
    requires v.Valida() && v.t0 <= t0'
    ensures S(v, m) <= S(v.(t0 := t0'), m)
  {
    var v' := v.(t0 := t0');
    forall i: nat | i < m ensures 0.0 <= Factores(v)(i) <= Factores(v')(i) {
      FactorPosterior(v, t0', i);
    }
    ProdMonotono(Factores(v), Factores(v'), m);
  }

  lemma FactorLuego(v: Vida, k: nat, i: nat)
    requires v.Valida()
    ensures Factor(v, k + i) == Factor(v.Luego(k), i)
  {
    assert Anios(v.t0, k + i) == Anios(v.t0 + k, i);
    assert QMes(v, k + i) == QMes(v.Luego(k), i) by { hide QMejorada; }
  }

  // Simulating the same person k months later is conditioning on having survived those k months.
  lemma SupervivenciaCondicional(v: Vida, k: nat, m: nat)
    requires v.Valida()
    ensures Actual(v, k + m) == Actual(v, k) * Actual(v.Luego(k), m)
  {
    hide Factor, Actual, Prod;
    ActualEsProducto(v, k + m);
    ActualEsProducto(v, k);
    ActualEsProducto(v.Luego(k), m);
    forall i: nat | i < m ensures Factores(v)(k + i) == Factores(v.Luego(k))(i) {
      FactorLuego(v, k, i);
    }
    ProdPartido(Factores(v), Factores(v.Luego(k)), k, m);
  }

  lemma CurvaCondicional(v: Vida, k: nat, m: nat)
    requires v.Valida() && v.edad0 + k < FIN_TABLA
    ensures S(v, k + m) == S(v, k) * S(v.Luego(k), m)
  {
    hide S, Actual;
    SupervivenciaCondicional(v, k, m);
    SinProbabilidadPerdida(v, k + m);
    SinProbabilidadPerdida(v, k);
    SinProbabilidadPerdida(v.Luego(k), m);
  }

  function VidaEn(tabla: Tabla, pw: Potencia, nacimiento: Fecha, fecha: Fecha): Vida
    requires EdadEnMeses(nacimiento, fecha) >= 0
  {
    Vida(tabla, pw, EdadEnMeses(nacimiento, fecha), MesAbsoluto(fecha))
  }

  // The same in calendar terms: two simulations of one person at two dates agree by conditioning,
  // whatever the days of the month are.
  lemma DosSimulacionesDeUnaPersona(tabla: Tabla, pw: Potencia, nac: Fecha, antes: Fecha, despues: Fecha, m: nat)
    requires tabla.Valida() && EsPotencia(pw)
    requires EdadEnMeses(nac, antes) >= 0 && MesAbsoluto(antes) <= MesAbsoluto(despues)
    requires EdadEnMeses(nac, despues) < FIN_TABLA
    ensures EdadEnMeses(nac, despues) >= 0
    ensures var v, k := VidaEn(tabla, pw, nac, antes), MesAbsoluto(despues) - MesAbsoluto(antes);
            S(v, k + m) == S(v, k) * S(VidaEn(tabla, pw, nac, despues), m)
  {
    hide S, EsPotencia, Tabla.Valida;
    var k := MesAbsoluto(despues) - MesAbsoluto(antes);
    assert EdadEnMeses(nac, despues) == EdadEnMeses(nac, antes) + k;
    CurvaCondicional(VidaEn(tabla, pw, nac, antes), k, m);
  }

  lemma FactorCalculado(v: Vida, m: nat)
    requires v.Valida()
    ensures var q, mu := QMejorada(v.tabla, v.pw, (v.edad0 + m) / 12, Anios(v.t0, m)), (v.edad0 + m) % 12;
            0.0 <= q <= 1.0 && Factor(v, m) == FactorMes(q, mu)
  {
    hide QMejorada, FactorMes;
    QMejoradaEntre(v.tabla, v.pw, (v.edad0 + m) / 12, Anios(v.t0, m));
  }

  lemma CurvaCalculada(v: Vida, m: nat)
    requires v.Valida()
    ensures S(v, m) == if v.edad0 + m < FIN_TABLA then Actual(v, m) else 0.0
    ensures Actual(v, 0) == 1.0
  {
    hide Factor;
  }

  // The loop of supervivencia, with its memo of improved rates.
  method Supervivencia(v: Vida, nMeses: nat) returns (s: array<real>)
    requires v.Valida()
    ensures fresh(s) && s.Length == nMeses
    ensures forall m | 0 <= m < nMeses :: s[m] == S(v, m)
  {
    hide QMejorada, EsPotencia, Tabla.Valida, FactorMes, Factor, Actual, S;
    CurvaCalculada(v, 0);
    s := new real[nMeses](_ => 0.0);
    var actual := 1.0;
    var cache: map<(int, real), real> := map[];
    var m := 0;
    while m < nMeses
      invariant 0 <= m <= nMeses
      invariant actual == Actual(v, m)
      invariant forall k | 0 <= k < m :: s[k] == S(v, k)
      invariant forall k | m <= k < nMeses :: s[k] == 0.0
      invariant forall x: nat, n | (x, n) in cache :: cache[(x, n)] == QMejorada(v.tabla, v.pw, x, n)
    {
      var am := v.edad0 + m;
      var x := am / 12;
      if x > EDAD_MAX {
        forall k: nat | m <= k ensures S(v, k) == 0.0 { CurvaCalculada(v, k); }
        break;
      }
      CurvaCalculada(v, m);
      s[m] := actual;
      var n := Anios(v.t0, m);
      if (x, n) !in cache {
        var nueva := CalcularQMejorada(v.tabla, v.pw, x, n);
        cache := cache[(x, n) := nueva];
      }
      var q := cache[(x, n)];
      PasoActual(v, m);
      FactorCalculado(v, m);
      actual := actual * FactorMes(q, am % 12);
      m := m + 1;
    }
  }
}
