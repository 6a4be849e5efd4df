// The survival curve in the terms of the mortality tables: which rate of which age acts in which month.
module TablaDeVida {
  import opened Sumas
  import opened Mortalidad

  // ------------------------------------------------------------------ dates

  // A birth on the 15th or later counts as one on the first day of the next month.
  function NacimientoContado(n: Fecha): Fecha {
    if n.dia < 15 then n.(dia := 1)
    else if n.mes == 12 then Fecha(n.anio + 1, 1, 1)
    else Fecha(n.anio, n.mes + 1, 1)
  }

  // The age is one month more than the months from there to the month of the simulation, whatever its day.
  lemma EdadContada(n: Fecha, r: Fecha)
    ensures EdadEnMeses(n, r) == MesAbsoluto(r) - MesAbsoluto(NacimientoContado(n)) + 1
    ensures EdadEnMeses(n, r.(dia := 1)) == EdadEnMeses(n, r)
  {
  }

  // Months are counted one by one, over the ends of the years too.
  lemma MesSiguiente(f: Fecha)
    ensures MesAbsoluto(if f.mes == 12 then Fecha(f.anio + 1, 1, 1) else Fecha(f.anio, f.mes + 1, 1))
            == MesAbsoluto(f) + 1
    ensures MesAbsoluto(Fecha(2020, 1, 1)) == 24240
  {
  }

  // ------------------------------------------------------------------ the rate of one age

  // What each year of improvement leaves of the rate of age x; from the sixteenth on the last factor repeats.
  ghost function Restos(t: Tabla, x: nat): nat -> real
    requires t.Valida() && x < 110
  {
    (j: nat) => 1.0 - (if j < 15 then t.aa[x][j] else t.aa[x][15])
  }

  lemma {:induction false} TasaEntera(t: Tabla, x: nat, n: nat)
    requires t.Valida() && x < 110
    ensures QEntera(t, x, n) == t.q0[x] * Prod(Restos(t, x), n)
  {
    hide Mejora, Prod;
    ProductoPaso(Restos(t, x), n);
    if n > 0 {
      TasaEntera(t, x, n - 1);
      RestoEs(t, x, n - 1);
      TresFactores(QEntera(t, x, n), t.q0[x], Prod(Restos(t, x), n - 1), Mejora(t, x, n - 1), Prod(Restos(t, x), n));
    }
  }

  lemma RestoEs(t: Tabla, x: nat, j: nat)
    requires t.Valida() && x < 110
    ensures Restos(t, x)(j) == Mejora(t, x, j) && 0.0 <= Restos(t, x)(j) <= 1.0
  {
  }

  lemma ProductoPaso(f: nat -> real, n: nat)
    ensures Prod(f, n) == if n == 0 then 1.0 else Prod(f, n - 1) * f(n - 1)
  {
  }

  lemma TresFactores(x: real, a: real, b: real, c: real, y: real)
    requires x == (a * b) * c && y == b * c
    ensures x == a * y
  {
  }

  // The rate of age x after n years and a fraction fr: its own rate of 2020, times what each year leaves, the last
  // in part; before mid-2020 the rate of 2020 itself; from 110 on certain death.
  lemma TasaDeLaEdad(t: Tabla, pw: Potencia, x: nat, n: nat, fr: real)
    requires t.Valida() && EsPotencia(pw) && 0.0 <= fr < 1.0
    ensures x < 110 ==>
              QMejorada(t, pw, x, n as real + fr)
              == t.q0[x] * Prod(Restos(t, x), n) * if fr > 0.0 then pw(Restos(t, x)(n), fr) else 1.0
    ensures x >= 110 ==> QMejorada(t, pw, x, n as real + fr) == 1.0
  {
    hide EsPotencia, QMejorada, QEntera, Mejora, Restos, ConFraccion, Prod;
    if x < 110 {
      assert (n as real + fr).Floor == n;
      QMejoradaEncajada(t, pw, x, n as real + fr);
      TasaEntera(t, x, n);
      RestoEs(t, x, n);
      FraccionEs(pw, QEntera(t, x, n), Restos(t, x)(n), fr);
    } else {
      DesdeCientoDiez(t, pw, x, n as real + fr);
    }
  }

  lemma FraccionEs(pw: Potencia, q: real, b: real, fr: real)
    ensures ConFraccion(pw, q, b, fr) == q * if fr > 0.0 then pw(b, fr) else 1.0
  {
  }

  lemma DesdeCientoDiez(t: Tabla, pw: Potencia, x: nat, anios: real)
    requires t.Valida() && x >= 110
    ensures QMejorada(t, pw, x, anios) == 1.0
  {
  }

  lemma TasaDe2020(t: Tabla, pw: Potencia, x: nat, anios: real)
    requires t.Valida() && EsPotencia(pw) && x < 110 && anios <= 0.0
    ensures QMejorada(t, pw, x, anios) == t.q0[x]
  {
  }

  // Improvement runs from 0.4568 years after January 2020: the first month it acts on is July 2020.
  lemma AniosDeMejora(f: Fecha, m: nat)
    ensures Anios(MesAbsoluto(f), m) == (f.anio - 2020) as real + (f.mes - 1 + m) as real / 12.0 - 0.4568
    ensures f.anio == 2020 && f.mes >= 1 ==> (Anios(MesAbsoluto(f), m) > 0.0 <==> f.mes + m >= 7)
  {
  }

  // ------------------------------------------------------------------ one month

  // Of those alive at the start of month m, the rate of the age then completed, at that month, takes its twelfth of
  // the year: survivors are to each other as 1 - (mu + 1)/12·q is to 1 - mu/12·q.
  lemma MesDeVida(v: Vida, m: nat)
    requires v.Valida() && v.edad0 + m < 1332
    ensures var x, mu := (v.edad0 + m) / 12, (v.edad0 + m) % 12;
            var q := QMejorada(v.tabla, v.pw, x, (v.t0 + m) as real / 12.0 - 2020.0 - 0.4568);
            S(v, m + 1) * (1.0 - mu as real / 12.0 * q) == S(v, m) * (1.0 - (mu + 1) as real / 12.0 * q)
  {
    hide QMejorada, EsPotencia, Tabla.Valida, Factor, Actual, S;
    SinProbabilidadPerdida(v, m);
    SinProbabilidadPerdida(v, m + 1);
    PasoActual(v, m);
    FactorCalculado(v, m);
    var q := QMejorada(v.tabla, v.pw, (v.edad0 + m) / 12, Anios(v.t0, m));
    Denominador(q, (v.edad0 + m) % 12);
    Cruzado(S(v, m + 1), S(v, m), 1.0 - ((v.edad0 + m) % 12 + 1) as real / 12.0 * q,
            1.0 - ((v.edad0 + m) % 12) as real / 12.0 * q);
  }

  lemma Cruzado(y: real, x: real, a: real, b: real)
    requires b != 0.0 && y == x * (a / b)
    ensures y * b == x * a
  {
    var f := a / b;
    assert f * b == a;
    assert x * f * b == x * (f * b);
  }

  // ------------------------------------------------------------------ the life table

  ghost predicate SinMejora(t: Tabla) {
    t.Valida() && forall x, k | 0 <= x < 110 && 0 <= k < 16 :: t.aa[x][k] == 0.0
  }

  // The probability of not dying within the year of age x, by the column q of the table.
  ghost function Vivir(t: Tabla, x: nat): nat -> real
    requires t.Valida()
  {
    (i: nat) => if x + i < 110 then 1.0 - t.q0[x + i] else 0.0
  }

  lemma {:induction false} RestosNulos(t: Tabla, x: nat, n: nat)
    requires SinMejora(t) && x < 110
    ensures Prod(Restos(t, x), n) == 1.0
  {
    if n > 0 {
      RestosNulos(t, x, n - 1);
      assert Restos(t, x)(n - 1) == 1.0;
    }
  }

  lemma TasaSinMejora(t: Tabla, pw: Potencia, x: nat, anios: real)
    requires SinMejora(t) && EsPotencia(pw) && x < 110
    ensures QMejorada(t, pw, x, anios) == t.q0[x]
  {
    if anios <= 0.0 {
      TasaDe2020(t, pw, x, anios);
    } else {
      var n := anios.Floor;
      TasaDeLaEdad(t, pw, x, n, anios - n as real);
      RestosNulos(t, x, n);
      assert Restos(t, x)(n) == 1.0;
      UnoALaPotencia(pw, anios - n as real);
    }
  }

  lemma UnoALaPotencia(pw: Potencia, fr: real)
    requires EsPotencia(pw) && 0.0 <= fr < 1.0
    ensures fr > 0.0 ==> pw(1.0, fr) == 1.0
  {
    if fr > 0.0 {
      PotenciaEntre(pw, 1.0, fr);
    }
  }

  // Whoever completes age x today survives its first j months with 1 - j/12 times the rate of x.
  lemma {:induction false} MesesDelAnio(v: Vida, x: nat, j: nat)
    requires v.Valida() && SinMejora(v.tabla) && v.edad0 == 12 * x && x < 110 && j <= 12
    ensures Actual(v, j) == FactorMeses(v.tabla.q0[x], j)
    decreases j
  {
    hide QMejorada, EsPotencia, Tabla.Valida, Factor, FactorMes, Actual, SinMejora;
    CurvaCalculada(v, j);
    if j > 0 {
      MesesDelAnio(v, x, j - 1);
      PasoActual(v, j - 1);
      FactorCalculado(v, j - 1);
      assert (12 * x + (j - 1)) / 12 == x && (12 * x + (j - 1)) % 12 == j - 1;
      TasaSinMejora(v.tabla, v.pw, x, Anios(v.t0, j - 1));
    }
  }

  lemma UnAnio(v: Vida, x: nat)
    requires v.Valida() && SinMejora(v.tabla) && v.edad0 == 12 * x && x < 110
    ensures S(v, 12) == 1.0 - v.tabla.q0[x]
  {
    hide EsPotencia, Actual, S, SinMejora;
    CurvaCalculada(v, 12);
    MesesDelAnio(v, x, 12);
    MuertesUniformes(v.tabla.q0[x], 12);
  }

  // Without improvement, k years from a birthday on are survived as the column q of the table says, age by age.
  lemma {:induction false} LeyDeVida(v: Vida, x: nat, k: nat)
    requires v.Valida() && SinMejora(v.tabla) && v.edad0 == 12 * x && x + k <= 110
    ensures S(v, 12 * k) == Prod(Vivir(v.tabla, x), k)
    decreases k
  {
    hide EsPotencia, Tabla.Valida, S, SinMejora;
    if k == 0 {
      CurvaBienFormada(v, 0);
    } else {
      LeyDeVida(v, x, k - 1);
      CurvaCondicional(v, 12 * (k - 1), 12);
      UnAnio(v.Luego(12 * (k - 1)), x + k - 1);
      ProductoPaso(Vivir(v.tabla, x), k);
    }
  }
}
