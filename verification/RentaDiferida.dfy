// Temporary income followed by a deferred annuity: the capital equation and its bisection.
module RentaDiferida {
  import opened Opcion
  import opened Sumas
  import M = Mortalidad
  import I = RentaInmediata

  const FACTOR_RT: real := 1.0367
  const KAPPA: real := 0.2445
  const TOPE_COMISION: real := 60.0
  const CAPITAL_PRORRATEO: real := 3000.0
  const PASOS: nat := 200
  const N: nat := M.N_MAX_MESES

  function MinR(a: real, b: real): real { if a <= b then a else b }

  function MaxR(a: real, b: real): real { if a >= b then a else b }

  // The coefficients of the capital equation S = Prima + D·RT + E, with RT = P / r; coste is the commission
  // per unit of temporary income before its cap, KAPPA · a_N.
  datatype Ecuacion = Ecuacion(saldo: real, r: real, aDef: real, qIns: real, d: real, coste: real) {
    predicate Valida() {
      saldo > 0.0 && 0.0 < r <= 1.0 && aDef >= 0.0 && qIns >= 0.0 && d >= 12.0 && coste >= 0.0
    }

    function Prima(p: real): real { aDef * p + qIns }

    function SinTope(p: real): real
      requires Valida()
    {
      coste * p / r
    }

    function Tope(p: real): real
      requires Valida()
    {
      MinR(SinTope(p), TOPE_COMISION)
    }

    function Prorrateo(p: real): real
      requires Valida()
    {
      MaxR(Prima(p) / saldo, MinR(1.0, CAPITAL_PRORRATEO / saldo))
    }

    function Comision(p: real): real
      requires Valida()
    {
      Tope(p) * Prorrateo(p)
    }

    function Exceso(p: real): real
      requires Valida()
    {
      Prima(p) + d * p / r + Comision(p) - saldo
    }

    // Largest factor the prorating can take on [0, saldo].
    function ProrrateoMaximo(): real
      requires Valida()
    {
      aDef + qIns / saldo + 1.0
    }

    // An explicit Lipschitz constant of Exceso on [0, saldo].
    function Lipschitz(): real
      requires Valida()
    {
      aDef + d / r + LipschitzComision(this)
    }
  }

  lemma Escala(a: real, b: real, c: real)
    requires c != 0.0
    ensures a * b / c == a / c * b
  {
    var x := a / c;
    assert x * c == a;
    assert (x * b) * c == a * b;
  }

  function PendienteTope(x: Ecuacion): (k: real)
    requires x.Valida()
    ensures k >= 0.0
  {
    Cruz(0.0, 1.0, x.coste, x.r);
    x.coste / x.r
  }

  function PendienteProrrateo(x: Ecuacion): (k: real)
    requires x.Valida()
    ensures k >= 0.0
  {
    Cruz(0.0, 1.0, x.aDef, x.saldo);
    x.aDef / x.saldo
  }

  lemma TopeForma(x: Ecuacion, p: real)
    requires x.Valida()
    ensures x.SinTope(p) == PendienteTope(x) * p
  {
    var y, k, r := x.SinTope(p), PendienteTope(x), x.r;
    assert y * r == x.coste * p;
    assert k * r == x.coste;
    assert (k * p) * r == y * r;
    Cancela(y, k * p, r);
  }

  lemma Cancela(a: real, b: real, c: real)
    requires c != 0.0 && a * c == b * c
    ensures a == b
  {
    assert (a - b) * c == 0.0;
  }

  lemma MinLipschitz(y: real, y': real, tope: real)
    requires 0.0 <= tope && 0.0 <= y <= y'
    ensures 0.0 <= MinR(y, tope) <= MinR(y', tope) <= tope
    ensures MinR(y', tope) - MinR(y, tope) <= y' - y
  {
  }

  lemma Distribuye(k: real, p: real, p': real)
    ensures k * (p' - p) == k * p' - k * p
  {
  }

  // The capped commission never falls, and rises at most at its linear rate.
  lemma TopeLipschitz(x: Ecuacion, p: real, p': real)
    requires x.Valida() && 0.0 <= p <= p'
    ensures 0.0 <= x.Tope(p) <= x.Tope(p') <= TOPE_COMISION
    ensures x.Tope(p') - x.Tope(p) <= PendienteTope(x) * (p' - p)
  {
    hide Ecuacion.SinTope, PendienteTope;
    TopeForma(x, p);
    TopeForma(x, p');
    var k := PendienteTope(x);
    Producto(0.0, p, k);
    Producto(p, p', k);
    MinLipschitz(k * p, k * p', TOPE_COMISION);
    Distribuye(k, p, p');
  }

  function PisoProrrateo(x: Ecuacion): (c: real)
    requires x.Valida()
    ensures 0.0 <= c <= 1.0
  {
    Cruz(0.0, 1.0, CAPITAL_PRORRATEO, x.saldo);
    MinR(1.0, CAPITAL_PRORRATEO / x.saldo)
  }

  function QRelativa(x: Ecuacion): (q: real)
    requires x.Valida()
    ensures q >= 0.0
  {
    Cruz(0.0, 1.0, x.qIns, x.saldo);
    x.qIns / x.saldo
  }

  lemma ProrrateoForma(x: Ecuacion, p: real)
    requires x.Valida()
    ensures x.Prorrateo(p) == MaxR(PendienteProrrateo(x) * p + QRelativa(x), PisoProrrateo(x))
  {
    Escala(x.aDef, p, x.saldo);
    SumaCociente(x.aDef * p, x.qIns, x.saldo);
  }

  lemma SumaCociente(a: real, b: real, c: real)
    requires c != 0.0
    ensures (a + b) / c == a / c + b / c
  {
  }

  lemma MaxLipschitz(y: real, y': real, piso: real)
    requires 0.0 <= piso <= 1.0 && 0.0 <= y <= y'
    ensures 0.0 <= MaxR(y, piso) <= MaxR(y', piso) <= y' + 1.0
    ensures MaxR(y', piso) - MaxR(y, piso) <= y' - y
  {
  }

  lemma ProrrateoLipschitz(x: Ecuacion, p: real, p': real)
    requires x.Valida() && 0.0 <= p <= p'
    ensures 0.0 <= x.Prorrateo(p) <= x.Prorrateo(p')
    ensures x.Prorrateo(p') - x.Prorrateo(p) <= PendienteProrrateo(x) * (p' - p)
    ensures p' <= x.saldo ==> x.Prorrateo(p') <= x.ProrrateoMaximo()
  {
    hide Ecuacion.Prorrateo, PendienteProrrateo, QRelativa, PisoProrrateo;
    ProrrateoForma(x, p);
    ProrrateoForma(x, p');
    var k, q := PendienteProrrateo(x), QRelativa(x);
    Producto(0.0, p, k);
    Producto(p, p', k);
    MaxLipschitz(k * p + q, k * p' + q, PisoProrrateo(x));
    Distribuye(k, p, p');
    if p' <= x.saldo {
      Producto(p', x.saldo, k);
      PrimaMaxima(x);
    }
  }

  lemma PrimaMaxima(x: Ecuacion)
    requires x.Valida()
    ensures PendienteProrrateo(x) * x.saldo + QRelativa(x) + 1.0 == x.ProrrateoMaximo()
  {
  }

  // Lipschitz constant of the commission on [0, saldo].
  function LipschitzComision(x: Ecuacion): real
    requires x.Valida()
  {
    PendienteTope(x) * x.ProrrateoMaximo() + TOPE_COMISION * PendienteProrrateo(x)
  }

  lemma ComisionLipschitz(x: Ecuacion, p: real, p': real)
    requires x.Valida() && 0.0 <= p <= p'
    ensures 0.0 <= x.Comision(p) <= x.Comision(p')
    ensures p' <= x.saldo ==> x.Comision(p') - x.Comision(p) <= LipschitzComision(x) * (p' - p)
  {
    hide Ecuacion.Tope, Ecuacion.Prorrateo, Ecuacion.ProrrateoMaximo, PendienteTope, PendienteProrrateo;
    TopeLipschitz(x, p, p');
    ProrrateoLipschitz(x, p, p');
    ProductoLipschitz(x.Tope(p), x.Tope(p'), x.Prorrateo(p), x.Prorrateo(p'),
                      PendienteTope(x), x.ProrrateoMaximo(), TOPE_COMISION, PendienteProrrateo(x), p' - p);
  }

  // A product of two bounded, non-decreasing quantities moves by at most the crossed products.
  lemma ProductoLipschitz(c: real, c': real, f: real, f': real, k: real, fMax: real, cMax: real, l: real, h: real)
    requires 0.0 <= c <= c' && 0.0 <= f <= f' && c <= cMax && h >= 0.0
    requires c' - c <= k * h && f' - f <= l * h
    ensures 0.0 <= c * f <= c' * f'
    ensures f' <= fMax ==> c' * f' - c * f <= (k * fMax + cMax * l) * h
  {
    var dc, df := c' - c, f' - f;
    assert c' * f' - c * f == dc * f' + c * df;
    Producto(0.0, dc, f');
    Producto(0.0, df, c);
    Producto(0.0, c, f);
    if f' <= fMax {
      Producto(f', fMax, dc);
      Producto(dc, k * h, fMax);
      Producto(c, cMax, df);
      Producto(df, l * h, cMax);
      Agrupa(k, fMax, cMax, l, h);
    }
  }

  lemma Agrupa(k: real, fMax: real, cMax: real, l: real, h: real)
    ensures k * h * fMax + cMax * (l * h) == (k * fMax + cMax * l) * h
  {
    assert k * h * fMax == (k * fMax) * h;
    assert cMax * (l * h) == (cMax * l) * h;
  }

  // exceso as a line plus the commission.
  lemma ExcesoForma(x: Ecuacion, p: real) returns (k: real)
    requires x.Valida()
    ensures k == x.d / x.r >= 12.0
    ensures x.Exceso(p) == x.aDef * p + k * p + x.qIns + x.Comision(p) - x.saldo
  {
    hide Ecuacion.Comision;
    k := x.d / x.r;
    Cruz(12.0, 1.0, x.d, x.r);
    Escala(x.d, p, x.r);
  }

  // exceso is strictly increasing on P >= 0, and moves by at most Lipschitz() per unit inside the bracket.
  lemma ExcesoCreciente(x: Ecuacion, p: real, p': real)
    requires x.Valida() && 0.0 <= p < p'
    ensures x.Exceso(p) < x.Exceso(p')
    ensures p' <= x.saldo ==> x.Exceso(p') - x.Exceso(p) <= x.Lipschitz() * (p' - p)
  {
    hide Ecuacion.Comision, Ecuacion.Exceso, LipschitzComision;
    ComisionLipschitz(x, p, p');
    var k := ExcesoForma(x, p);
    var k' := ExcesoForma(x, p');
    Pendientes(x.Exceso(p), x.Exceso(p'), x.aDef, k, p, p', x.Comision(p) + x.qIns - x.saldo,
               x.Comision(p') + x.qIns - x.saldo, LipschitzComision(x));
  }

  lemma Pendientes(e: real, e': real, a: real, k: real, p: real, p': real, c: real, c': real, l: real)
    requires e == a * p + k * p + c && e' == a * p' + k * p' + c'
    requires a >= 0.0 && k >= 12.0 && p < p' && c <= c'
    ensures e < e'
    ensures c' - c <= l * (p' - p) ==> e' - e <= (a + k + l) * (p' - p)
  {
    var h := p' - p;
    Distribuye(a, p, p');
    Distribuye(k, p, p');
    var ah, kh, lh := a * h, k * h, l * h;
    assert e' - e == ah + kh + (c' - c);
    PendientesOrden(ah, kh, a, k, h);
    SumaDeTres(a, k, l, h);
  }

  lemma PendientesOrden(ah: real, kh: real, a: real, k: real, h: real)
    requires ah == a * h && kh == k * h && a >= 0.0 && k >= 12.0 && h > 0.0
    ensures ah >= 0.0 && kh > 0.0
  {
    Producto(0.0, a, h);
    Producto(12.0, k, h);
  }

  lemma SumaDeTres(a: real, b: real, c: real, h: real)
    ensures (a + b + c) * h == a * h + b * h + c * h
  {
  }

  lemma TopeEnCero(x: Ecuacion)
    requires x.Valida()
    ensures x.Tope(0.0) == 0.0
  {
    TopeForma(x, 0.0);
    hide Ecuacion.SinTope;
  }

  lemma SinComision(x: Ecuacion)
    requires x.Valida()
    ensures x.Comision(0.0) == 0.0
  {
    hide Ecuacion.Tope, Ecuacion.Prorrateo;
    TopeForma(x, 0.0);
    TopeEnCero(x);
  }

  // The initial bracket: its left end is at or below the solution exactly when the balance covers the
  // deferred funeral quota; its right end is always above.
  lemma Encuadre(x: Ecuacion)
    requires x.Valida()
    ensures x.Exceso(0.0) == x.qIns - x.saldo
    ensures x.Exceso(x.saldo) > 0.0
  {
    hide Ecuacion.Comision, Ecuacion.Exceso;
    SinComision(x);
    ComisionLipschitz(x, 0.0, x.saldo);
    var k := ExcesoForma(x, 0.0);
    var k' := ExcesoForma(x, x.saldo);
    Extremos(x.Exceso(0.0), x.Exceso(x.saldo), x.aDef, k, x.qIns, x.Comision(x.saldo), x.saldo);
  }

  lemma Extremos(e0: real, e1: real, a: real, k: real, q: real, c: real, s: real)
    requires e0 == a * 0.0 + k * 0.0 + q - s && e1 == a * s + k * s + q + c - s
    requires a >= 0.0 && k >= 12.0 && q >= 0.0 && c >= 0.0 && s > 0.0
    ensures e0 == q - s && e1 > 0.0
  {
    Producto(0.0, a, s);
    Producto(12.0, k, s);
  }

  function Pot2(n: nat): (p: real)
    ensures p > 0.0
  {
    if n == 0 then 1.0 else 2.0 * Pot2(n - 1)
  }

  lemma Mitad(s: real, n: nat)
    ensures s / Pot2(n + 1) == s / Pot2(n) / 2.0
  {
    var x := s / Pot2(n);
    assert x * Pot2(n) == s;
    assert (x / 2.0) * Pot2(n + 1) == s;
  }

  // What the returned P means. Either the balance covers the quota and P solves the capital equation up to
  // Lipschitz() · saldo / 2^201, closer than saldo / 2^201 to any exact solution; or nothing solves it and
  // P is the last midpoint above 0.
  ghost predicate Resuelve(x: Ecuacion, p: real)
    requires x.Valida()
  {
    var ancho := x.saldo / Pot2(PASOS + 1);
    && 0.0 < p <= x.saldo
    && (x.saldo >= x.qIns ==>
          && -x.Lipschitz() * ancho <= x.Exceso(p) <= x.Lipschitz() * ancho
          && forall s | s >= 0.0 && x.Exceso(s) == 0.0 :: -ancho <= p - s <= ancho)
    && (x.saldo < x.qIns ==> p == ancho && forall s | s >= 0.0 :: x.Exceso(s) > 0.0)
  }

  // The 200-step loop.
  method Biseccion(x: Ecuacion) returns (p: real)
    requires x.Valida()
    ensures Resuelve(x, p)
  {
    hide Ecuacion.Exceso, Ecuacion.Lipschitz;
    var lo, hi := 0.0, x.saldo;
    Encuadre(x);
    assert x.saldo / Pot2(0) == x.saldo;
    for i := 0 to PASOS
      invariant 0.0 <= lo < hi <= x.saldo
      invariant hi - lo == x.saldo / Pot2(i)
      invariant x.Exceso(hi) > 0.0
      invariant x.saldo >= x.qIns ==> x.Exceso(lo) <= 0.0
      invariant x.saldo < x.qIns ==> lo == 0.0
    {
      Mitad(x.saldo, i);
      var medio := 0.5 * (lo + hi);
      if x.saldo < x.qIns {
        ExcesoCreciente(x, 0.0, medio);
      }
      if x.Exceso(medio) > 0.0 {
        hi := medio;
      } else {
        lo := medio;
      }
    }
    p := 0.5 * (lo + hi);
    Mitad(x.saldo, PASOS);
    Residuo(x, lo, p, hi);
  }

  lemma Residuo(x: Ecuacion, lo: real, p: real, hi: real)
    requires x.Valida() && 0.0 <= lo < hi <= x.saldo && p == 0.5 * (lo + hi)
    requires hi - p == x.saldo / Pot2(PASOS + 1)
    requires x.Exceso(hi) > 0.0
    requires x.saldo >= x.qIns ==> x.Exceso(lo) <= 0.0
    requires x.saldo < x.qIns ==> lo == 0.0
    ensures Resuelve(x, p)
  {
    hide Ecuacion.Exceso, Ecuacion.Lipschitz;
    var ancho := x.saldo / Pot2(PASOS + 1);
    if x.saldo >= x.qIns {
      ExcesoCreciente(x, lo, p);
      ExcesoCreciente(x, p, hi);
      var l := x.Lipschitz();
      assert p - lo == ancho && hi - p == ancho;
      assert l * (p - lo) == l * ancho && l * (hi - p) == l * ancho && -l * ancho == -(l * ancho);
      forall s | s >= 0.0 && x.Exceso(s) == 0.0 ensures -ancho <= p - s <= ancho {
        if s < lo { ExcesoCreciente(x, s, lo); }
        if s > hi { ExcesoCreciente(x, hi, s); }
      }
    } else {
      Encuadre(x);
      forall s | s >= 0.0 ensures x.Exceso(s) > 0.0 {
        if s > 0.0 { ExcesoCreciente(x, 0.0, s); }
      }
    }
  }

  // ------------------------------------------------------------------ from the table to the equation

  // Deferred life annuity and deferred funeral quota, from month n on.
  function ADef(g: real, s: I.Curva, n: nat): real
    requires g > 0.0
  {
    Suma(Vivos(g, s), n, N)
  }

  function QIns(g: real, s: I.Curva, n: nat): real
    requires g > 0.0
  {
    I.CUOTA_MORTUORIA * Suma(Muertes(g, s), n, N)
  }

  function Anualidad(k: nat): real { Desc(FACTOR_RT, k) }

  function Anualidades(): I.Curva { (k: nat) => Anualidad(k) }

  function AnualidadVital(s: I.Curva, k: nat): real { s(12 * k) * Desc(FACTOR_RT, k) }

  function AnualidadesVitales(s: I.Curva): I.Curva { (k: nat) => AnualidadVital(s, k) }

  function EcuacionDe(g: real, s: I.Curva, saldo: real, r: real, anios: nat): Ecuacion
    requires g > 0.0
  {
    Ecuacion(saldo, r, ADef(g, s, 12 * anios), QIns(g, s, 12 * anios),
             12.0 * Suma(Anualidades(), 0, anios), KAPPA * Suma(AnualidadesVitales(s), 0, anios))
  }

  // The same funeral quota as the immediate annuity's when nothing is deferred, and in general its
  // closed form from month n on.
  lemma CuotaDiferida(c: I.Caso, n: nat)
    requires I.Valido(c) && n <= N
    ensures QIns(c.g, c.sc, n)
            == I.CUOTA_MORTUORIA * (c.g * (c.sc(n) * Desc(c.g, n)) - (c.g - 1.0) * ADef(c.g, c.sc, n))
    ensures n == 0 ==> (QIns(c.g, c.sc, n) == I.Q(c) <==> c.edad < I.FIN)
    ensures QIns(c.g, c.sc, n) >= 0.0
  {
    hide Suma, Desc, Muertes, Vivos, ADef, QIns, I.Q;
    CuotaForma(c, n);
    CuotaNoNegativa(c, n);
    if n == 0 {
      CuotaInmediata(c);
    }
  }

  lemma CuotaForma(c: I.Caso, n: nat)
    requires I.Valido(c) && n <= N
    ensures QIns(c.g, c.sc, n)
            == I.CUOTA_MORTUORIA * (c.g * (c.sc(n) * Desc(c.g, n)) - (c.g - 1.0) * ADef(c.g, c.sc, n))
  {
    hide Suma, Desc, Muertes, Vivos;
    Abel(c.g, c.sc, n, N);
    Escalada(QIns(c.g, c.sc, n), Suma(Muertes(c.g, c.sc), n, N), c.g, c.sc(n) * Desc(c.g, n), c.sc(N), Desc(c.g, N),
             (c.g - 1.0) * ADef(c.g, c.sc, n));
  }

  lemma Escalada(q: real, suma: real, g: real, inicio: real, z: real, d: real, v: real)
    requires q == I.CUOTA_MORTUORIA * suma && suma == g * (inicio - z * d) - v && z == 0.0
    ensures q == I.CUOTA_MORTUORIA * (g * inicio - v)
  {
    assert z * d == 0.0;
  }

  lemma CuotaInmediata(c: I.Caso)
    requires I.Valido(c)
    ensures QIns(c.g, c.sc, 0) == I.Q(c) <==> c.edad < I.FIN
  {
    hide Suma, Muertes, I.Q;
    I.CuotaMortuoria(c);
  }

  lemma CuotaNoNegativa(c: I.Caso, n: nat)
    requires I.Valido(c)
    ensures QIns(c.g, c.sc, n) >= 0.0
  {
    hide Suma, Desc;
    forall m: nat ensures 0.0 <= Muertes(c.g, c.sc)(m) {
      I.NoNegativo(Muertes(c.g, c.sc)(m), c.sc(m) - c.sc(m + 1), Desc(c.g, m));
    }
    SumaNoNegativa(Muertes(c.g, c.sc), n, N);
  }

  lemma EcuacionValida(c: I.Caso, saldo: real, r: real, anios: nat)
    requires I.Valido(c) && saldo > 0.0 && 0.0 < r <= 1.0 && anios >= 1
    ensures EcuacionDe(c.g, c.sc, saldo, r, anios).Valida()
  {
    hide Suma, Desc;
    forall m: nat ensures 0.0 <= Vivos(c.g, c.sc)(m) && 0.0 <= Anualidades()(m) && 0.0 <= AnualidadesVitales(c.sc)(m) {
      Producto(0.0, c.sc(m), Desc(c.g, m));
      Producto(0.0, c.sc(12 * m), Desc(FACTOR_RT, m));
    }
    SumaNoNegativa(Vivos(c.g, c.sc), 12 * anios, N);
    SumaNoNegativa(AnualidadesVitales(c.sc), 0, anios);
    if 12 * anios <= N {
      CuotaDiferida(c, 12 * anios);
    } else {
      SumaPaso(Muertes(c.g, c.sc), 12 * anios, N);
    }
    PrimeraAnualidad(anios);
  }

  lemma PrimeraAnualidad(anios: nat)
    requires anios >= 1
    ensures Suma(Anualidades(), 0, anios) >= 1.0
  {
    SumaPartida(Anualidades(), 0, 1, anios);
    SumaNoNegativa(Anualidades(), 1, anios);
    assert Suma(Anualidades(), 0, 1) == Suma(Anualidades(), 0, 0) + Anualidades()(0);
  }

  datatype Resultado =
    | FueraDeTabla
    | Ok(P: real, prima: real, cnu: real, rentaTemporal: real, comision: real, meses: nat)

  // calcular for an individual holder. A deferral of more than 112 years reads past the survival array.
  // Otherwise the reported premium, temporary-income reserve and commission add up to the balance within the
  // residual of the bisection, whenever the balance covers the deferred quota.
  method Calcular(v: M.Vida, g: real, saldo: real, r: real, anios: nat) returns (res: Resultado)
    requires v.Valida() && g > 1.0 && saldo > 0.0 && 0.5 <= r <= 1.0 && anios >= 1
    ensures res.FueraDeTabla? <==> anios > 112
    ensures var x := EcuacionDe(g, I.CurvaDeVida(v), saldo, r, anios);
            x.Valida() &&
            (res.Ok? ==>
               && Resuelve(x, res.P) && res.meses == 12 * anios
               && res.prima == x.Prima(res.P) && res.comision == x.Comision(res.P)
               && res.cnu * res.P == res.prima && res.rentaTemporal * r == res.P
               && (saldo >= x.qIns ==>
                     var suma := res.prima + x.d * res.rentaTemporal + res.comision;
                     var cota := x.Lipschitz() * (saldo / Pot2(PASOS + 1));
                     -cota <= suma - saldo <= cota))
  {
    hide M.S, M.Vida.Valida, Ecuacion.Exceso, Ecuacion.Prima, Ecuacion.Comision, Ecuacion.Lipschitz,
         ADef, QIns, Anualidades, AnualidadesVitales, Suma;
    I.CurvaDeTabla(v);
    EcuacionValida(I.Caso(g, v.edad0, I.CurvaDeVida(v), None, [], 0, 0, 0.0), saldo, r, anios);
    var s := M.Supervivencia(v, N);
    if anios > 112 {
      return FueraDeTabla;
    }
    var aDef, qIns := SumasDiferidas(v, g, s, 12 * anios);
    var d, coste := SumasTemporales(v, s, anios);
    var x := Ecuacion(saldo, r, aDef, qIns, d, coste);
    assert x == EcuacionDe(g, I.CurvaDeVida(v), saldo, r, anios);
    var p := Biseccion(x);
    Cuadre(x, p);
    res := Ok(p, x.Prima(p), x.Prima(p) / p, p / r, x.Comision(p), 12 * anios);
  }

  method SumasDiferidas(v: M.Vida, g: real, s: array<real>, n: nat) returns (aDef: real, qIns: real)
    requires v.Valida() && g > 1.0
    requires s.Length == N && forall m | 0 <= m < N :: s[m] == M.S(v, m)
    ensures aDef == ADef(g, I.CurvaDeVida(v), n) && qIns == QIns(g, I.CurvaDeVida(v), n)
  {
    hide M.S, M.Vida.Valida, Desc, Suma, Vivos, Muertes;
    ghost var sc := I.CurvaDeVida(v);
    I.CurvaDeTabla(v);
    SumaPaso(Vivos(g, sc), n, n);
    SumaPaso(Muertes(g, sc), n, n);
    SumaPaso(Vivos(g, sc), n, N);
    SumaPaso(Muertes(g, sc), n, N);
    var muertes := 0.0;
    aDef := 0.0;
    for m := n to if n < N then N else n
      invariant aDef == Suma(Vivos(g, sc), n, m)
      invariant muertes == Suma(Muertes(g, sc), n, m)
    {
      var siguiente := if m + 1 < N then s[m + 1] else 0.0;
      assert siguiente == sc(m + 1) && s[m] == sc(m);
      SumasPaso(g, sc, n, m);
      aDef := aDef + Desc(g, m) * s[m];
      muertes := muertes + (s[m] - siguiente) * Desc(g, m);
    }
    qIns := I.CUOTA_MORTUORIA * muertes;
  }

  method SumasTemporales(v: M.Vida, s: array<real>, anios: nat) returns (d: real, coste: real)
    requires v.Valida() && anios <= 112
    requires s.Length == N && forall m | 0 <= m < N :: s[m] == M.S(v, m)
    ensures d == 12.0 * Suma(Anualidades(), 0, anios)
    ensures coste == KAPPA * Suma(AnualidadesVitales(I.CurvaDeVida(v)), 0, anios)
  {
    hide M.S, M.Vida.Valida, Desc;
    ghost var sc := I.CurvaDeVida(v);
    var a, aN := 0.0, 0.0;
    for k := 0 to anios
      invariant a == Suma(Anualidades(), 0, k)
      invariant aN == Suma(AnualidadesVitales(sc), 0, k)
    {
      assert s[12 * k] == sc(12 * k);
      a := a + Desc(FACTOR_RT, k);
      aN := aN + s[12 * k] * Desc(FACTOR_RT, k);
    }
    d, coste := 12.0 * a, KAPPA * aN;
  }

  lemma Cuadre(x: Ecuacion, p: real)
    requires x.Valida() && p > 0.0
    ensures x.Prima(p) / p * p == x.Prima(p) && p / x.r * x.r == p
    ensures x.Prima(p) + x.d * (p / x.r) + x.Comision(p) - x.saldo == x.Exceso(p)
  {
    hide Ecuacion.Prima, Ecuacion.Comision;
    var q := p / x.r;
    assert q * x.r == p;
    var z := x.d * p / x.r;
    assert z * x.r == x.d * p;
    assert (x.d * q) * x.r == x.d * (q * x.r);
    Cancela(z, x.d * q, x.r);
  }

  // ------------------------------------------------------------------ what the coefficients are

  // A yearly annuity in advance at 3.67 %, in closed form.
  lemma {:induction false} AnualidadCerrada(n: nat)
    ensures Suma(Anualidades(), 0, n) * 0.0367 == 1.0367 * (1.0 - Desc(1.0367, n))
  {
    if n > 0 {
      AnualidadCerrada(n - 1);
      DescPaso(1.0367, n - 1);
      hide Desc;
      assert 1.0367 * Desc(1.0367, n) == Desc(1.0367, n - 1);
      SumaPaso(Anualidades(), 0, n);
    }
  }

  lemma AnualidadesDe(s: I.Curva, k: nat)
    ensures Anualidades()(k) == Desc(1.0367, k)
    ensures AnualidadesVitales(s)(k) == s(12 * k) * Desc(1.0367, k)
  {
  }

  // The reserve per unit of temporary income is twelve such annuities. Each further year of deferral adds to the
  // commission 0.2445 of the year's discounted payment, if the holder lives to that anniversary.
  lemma CoeficientesTemporales(g: real, s: I.Curva, saldo: real, r: real, anios: nat)
    requires g > 0.0
    ensures var x, y := EcuacionDe(g, s, saldo, r, anios), EcuacionDe(g, s, saldo, r, anios + 1);
            && x.d * 0.0367 == 12.0 * (1.0367 * (1.0 - Desc(1.0367, anios)))
            && y.coste - x.coste == 0.2445 * (s(12 * anios) * Desc(1.0367, anios))
            && (anios == 0 ==> x.coste == 0.0)
  {
    hide Desc, Anualidades, AnualidadesVitales, ADef, QIns, Suma;
    AnualidadCerrada(anios);
    AnualidadesDe(s, anios);
    SumaPaso(AnualidadesVitales(s), 0, anios + 1);
    SumaPaso(AnualidadesVitales(s), 0, anios);
  }

  // Surely dead at the first anniversary, the holder costs one payment; surely alive at all of them, the whole annuity.
  lemma CosteExtremos(g: real, s: I.Curva, saldo: real, r: real, anios: nat)
    requires g > 0.0 && anios >= 1 && s(0) == 1.0
    ensures var x := EcuacionDe(g, s, saldo, r, anios);
            && ((forall k: nat | 0 < k < anios :: s(12 * k) == 0.0) ==> x.coste == 0.2445)
            && ((forall k: nat | k < anios :: s(12 * k) == 1.0) ==> x.coste == 0.2445 * x.d / 12.0)
  {
    hide Desc, ADef, QIns;
    forall k: nat ensures Anualidades()(k) == Desc(1.0367, k) { AnualidadesDe(s, k); }
    forall k: nat ensures AnualidadesVitales(s)(k) == s(12 * k) * Desc(1.0367, k) { AnualidadesDe(s, k); }
    if forall k: nat | 0 < k < anios :: s(12 * k) == 0.0 {
      SumaPartida(AnualidadesVitales(s), 0, 1, anios);
      SumaNula(AnualidadesVitales(s), 1, anios);
      SumaPaso(AnualidadesVitales(s), 0, 1);
      SumaPaso(AnualidadesVitales(s), 0, 0);
      DescCero();
    }
    if forall k: nat | k < anios :: s(12 * k) == 1.0 {
      SumaIgual(Anualidades(), AnualidadesVitales(s), 0, anios);
    }
  }

  lemma DescCero()
    ensures Desc(1.0367, 0) == 1.0
  {
  }

  // The commission: at most 60 UF, and of it the part that the premium, or the first 3000 UF if that is more, is of
  // the balance.
  lemma ComisionDelSaldo(x: Ecuacion, p: real)
    requires x.Valida() && p >= 0.0
    ensures var rt := p / x.r;
            var tope := if x.coste * rt <= 60.0 then x.coste * rt else 60.0;
            var piso := if x.saldo <= 3000.0 then x.saldo else 3000.0;
            var prima := x.aDef * p + x.qIns;
            x.Comision(p) * x.saldo == tope * if prima >= piso then prima else piso
  {
    hide Ecuacion.SinTope, Ecuacion.Prorrateo;
    var rt := p / x.r;
    Escala(x.coste, p, x.r);
    SinTopeEs(x, p);
    ProrrateoEs(x, p);
    Reordena(x.Tope(p), x.Prorrateo(p), x.saldo);
  }

  lemma SinTopeEs(x: Ecuacion, p: real)
    requires x.Valida()
    ensures x.SinTope(p) == x.coste * (p / x.r)
  {
    CocientePor(x.coste, p, x.r);
  }

  lemma CocientePor(a: real, p: real, r: real)
    requires r != 0.0
    ensures a * p / r == a * (p / r)
  {
    var z, q := a * p / r, p / r;
    assert z * r == a * p && q * r == p;
    Reordena(a, q, r);
    Cancela(z, a * q, r);
  }

  lemma ProrrateoEs(x: Ecuacion, p: real)
    requires x.Valida()
    ensures var piso := if x.saldo <= 3000.0 then x.saldo else 3000.0;
            var prima := x.aDef * p + x.qIns;
            x.Prorrateo(p) * x.saldo == if prima >= piso then prima else piso
  {
    MayorPorSaldo(x.Prima(p) / x.saldo, CAPITAL_PRORRATEO / x.saldo, x.saldo, x.Prima(p));
  }

  lemma MayorPorSaldo(a: real, b: real, s: real, prima: real)
    requires s > 0.0 && a == prima / s && b == 3000.0 / s
    ensures var piso := if s <= 3000.0 then s else 3000.0;
            MaxR(a, MinR(1.0, b)) * s == if prima >= piso then prima else piso
  {
    PorDivisor(prima, s);
    PorDivisor(3000.0, s);
    Ordena(a, b, s);
    Ordena(a, 1.0, s);
    Ordena(1.0, b, s);
  }

  lemma PorDivisor(a: real, s: real)
    requires s != 0.0
    ensures a / s * s == a
  {
  }

  lemma Ordena(a: real, b: real, s: real)
    requires s > 0.0
    ensures a <= b <==> a * s <= b * s
  {
    if a <= b { Producto(a, b, s); } else { assert (a - b) * s > 0.0; }
  }

  lemma Reordena(a: real, b: real, c: real)
    ensures a * b * c == a * (b * c)
  {
  }

  lemma {:induction false} Pot2Suma(m: nat, n: nat)
    ensures Pot2(m + n) == Pot2(m) * Pot2(n)
  {
    if m > 0 {
      Pot2Suma(m - 1, n);
      Reordena(2.0, Pot2(m - 1), Pot2(n));
    }
  }

  lemma Pot2AlMenos(m: nat, n: nat, a: real, b: real)
    requires Pot2(m) >= a >= 0.0 && Pot2(n) >= b >= 0.0
    ensures Pot2(m + n) >= a * b
  {
    hide Pot2;
    Pot2Suma(m, n);
    Producto(a, Pot2(m), b);
    Producto(b, Pot2(n), Pot2(m));
  }

  lemma Mil()
    ensures Pot2(10) >= 1000.0 && Pot2(1) == 2.0
  {
    assert Pot2(5) == 32.0;
    Pot2Suma(5, 5);
  }

  // 201 halvings divide by more than 10^60.
  lemma Mitades()
    ensures Pot2(PASOS + 1) >= 1_000_000_000_000_000_000_000_000_000_000_000_000_000_000_000_000_000_000_000_000.0
  {
    hide Pot2;
    Mil();
    var m := 1000.0;
    Pot2AlMenos(10, 10, m, m);
    Pot2AlMenos(20, 20, m * m, m * m);
    Pot2AlMenos(40, 40, 1_000_000_000_000.0, 1_000_000_000_000.0);
    Pot2AlMenos(80, 80, 1_000_000_000_000_000_000_000_000.0, 1_000_000_000_000_000_000_000_000.0);
    Pot2AlMenos(160, 40, 1_000_000_000_000_000_000_000_000_000_000_000_000_000_000_000_000.0, 1_000_000_000_000.0);
    Pot2AlMenos(200, 1, 1_000_000_000_000_000_000_000_000_000_000_000_000_000_000_000_000_000_000_000_000.0, 1.0);
  }

  // So the pension found is within a 10^60th of the balance of any that solves the equation.
  lemma Precision(x: Ecuacion, p: real, exacta: real)
    requires x.Valida() && Resuelve(x, p) && x.saldo >= x.qIns && exacta >= 0.0 && x.Exceso(exacta) == 0.0
    ensures var cota := x.saldo / 1_000_000_000_000_000_000_000_000_000_000_000_000_000_000_000_000_000_000_000_000.0;
            -cota <= p - exacta <= cota
  {
    hide Ecuacion.Exceso, Ecuacion.Lipschitz, Pot2;
    Mitades();
    MasDivisor(x.saldo, 1_000_000_000_000_000_000_000_000_000_000_000_000_000_000_000_000_000_000_000_000.0,
               Pot2(PASOS + 1));
  }

  lemma MasDivisor(s: real, a: real, b: real)
    requires s >= 0.0 && 0.0 < a <= b
    ensures s / b <= s / a
  {
    Cruz(s, b, s, a);
    Producto(a, b, s);
  }
}
