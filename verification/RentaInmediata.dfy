// Immediate annuity: holder, optional spouse, children, guaranteed period and temporary increase.
module RentaInmediata {
  import opened Opcion
  import opened Sumas
  import M = Mortalidad

  const CUOTA_MORTUORIA: real := 15.0
  const PCT_CONYUGE: real := 0.60
  const PCT_CONYUGE_CON_HIJO_COMUN: real := 0.50
  const PCT_HIJO: real := 0.15
  const PCT_HIJO_PARCIAL_ADULTO: real := 0.11
  const PCT_EXTRA_SIN_CONYUGE: real := 0.50
  const EDAD_LIMITE_HIJO: int := 24 * 12
  const N: nat := M.N_MAX_MESES
  const FIN: nat := M.FIN_TABLA

  type Curva = nat -> real

  datatype Invalidez = NoInvalido | Parcial | Total

  // A child: age in months today, survival (a curve, or the table data it comes from), whether it is the
  // spouse's child too, and disability.
  datatype Hijo<S> = Hijo(edad: nat, s: S, comun: bool, invalidez: Invalidez)

  // One valuation, per 1 UF of the holder's pension.
  datatype Caso = Caso(
    g: real, edad: nat, sc: Curva, conyuge: Option<Curva>, hijos: seq<Hijo<Curva>>,
    garantia: nat, mesesAumento: nat, aumento: real)

  ghost predicate EsCurva(s: Curva) {
    forall m: nat :: 0.0 <= s(m) <= 1.0
  }

  // What survival curves of the mortality tables satisfy (see CurvaDeTabla).
  ghost predicate CurvaDesde(s: Curva, edad: nat) {
    && EsCurva(s)
    && s(0) == (if edad < FIN then 1.0 else 0.0)
    && (forall m: nat :: s(m + 1) <= s(m))
    && (forall m: nat :: edad + m >= FIN ==> s(m) == 0.0)
  }

  ghost predicate Valido(c: Caso) {
    && c.g > 1.0
    && CurvaDesde(c.sc, c.edad)
    && (c.conyuge.Some? ==> EsCurva(c.conyuge.value))
    && (forall h | h in c.hijos :: EsCurva(h.s))
    && 0.0 <= c.aumento <= 1.0
  }

  // ------------------------------------------------------------------ survivors' shares

  predicate PorEdad<S>(h: Hijo<S>, m: nat) { h.edad + m < EDAD_LIMITE_HIJO }

  predicate Elegible<S>(h: Hijo<S>, m: nat) { h.invalidez != NoInvalido || PorEdad(h, m) }

  predicate HayComun<S>(hijos: seq<Hijo<S>>, m: nat) {
    exists k | 0 <= k < |hijos| :: hijos[k].comun && Elegible(hijos[k], m)
  }

  function Elegibles<S>(hijos: seq<Hijo<S>>, m: nat): nat {
    if hijos == [] then 0
    else Elegibles(hijos[..|hijos| - 1], m) + if Elegible(hijos[|hijos| - 1], m) then 1 else 0
  }

  function NConDerecho<S>(hijos: seq<Hijo<S>>, m: nat): nat {
    if Elegibles(hijos, m) == 0 then 1 else Elegibles(hijos, m)
  }

  function Pct<S>(h: Hijo<S>, m: nat): real {
    if h.invalidez == Parcial && !PorEdad(h, m) then PCT_HIJO_PARCIAL_ADULTO else PCT_HIJO
  }

  // The extra share of one eligible child when there is no spouse.
  function Extra<S>(hijos: seq<Hijo<S>>, m: nat): real {
    PCT_EXTRA_SIN_CONYUGE / NConDerecho(hijos, m) as real
  }

  function Horizonte(c: Caso): int { FIN - c.edad }

  // A guarantee that covers the rest of the holder's table cuts the children's own flow at its end.
  predicate GarantiaLarga(c: Caso) { c.garantia != 0 && c.garantia >= Horizonte(c) }

  function Cuota(c: Caso, h: Hijo<Curva>, m: nat): real {
    if c.conyuge.Some? then Pct(h, m) else Pct(h, m) + Extra(c.hijos, m)
  }

  function Flujo(c: Caso, h: Hijo<Curva>, m: nat): real {
    if Elegible(h, m) && (GarantiaLarga(c) ==> m < c.garantia) then h.s(m) else 0.0
  }

  function SobConyuge(c: Caso, m: nat): real {
    match c.conyuge
    case None => 0.0
    case Some(ss) => ss(m) * (if HayComun(c.hijos, m) then PCT_CONYUGE_CON_HIJO_COMUN else PCT_CONYUGE)
  }

  // Survivors' pension of month m with the first k children accumulated.
  function SobHasta(c: Caso, k: nat, m: nat): real
    requires k <= |c.hijos|
  {
    if k == 0 then SobConyuge(c, m)
    else SobHasta(c, k - 1, m) + Cuota(c, c.hijos[k - 1], m) * Flujo(c, c.hijos[k - 1], m)
  }

  function Sob(c: Caso, m: nat): real { SobHasta(c, |c.hijos|, m) }

  // ------------------------------------------------------------------ payment stream and pension

  function U(c: Caso, m: nat): real { c.sc(m) + (1.0 - c.sc(m)) * Sob(c, m) }

  function B(c: Caso, m: nat): real { if m < c.mesesAumento then 1.0 + c.aumento else 1.0 }

  function Base(c: Caso, m: nat): real { if m < c.garantia then 1.0 else U(c, m) }

  function Pago(c: Caso, m: nat): real { B(c, m) * Base(c, m) }

  function Termino(c: Caso, m: nat): real
    requires c.g > 0.0
  {
    Desc(c.g, m) * Pago(c, m)
  }

  function Terminos(c: Caso): Curva
    requires c.g > 0.0
  {
    (m: nat) => Termino(c, m)
  }

  function A(c: Caso): real
    requires c.g > 0.0
  {
    Suma(Terminos(c), 0, N)
  }

  function ACausante(c: Caso): real
    requires c.g > 0.0
  {
    Suma(Vivos(c.g, c.sc), 0, N)
  }

  function Q(c: Caso): real
    requires c.g > 0.0
  {
    CUOTA_MORTUORIA * (c.g - (c.g - 1.0) * ACausante(c))
  }

  // ------------------------------------------------------------------ the funeral quota

  // The closed form is the discounted death benefit, term by term, exactly when the holder is alive today.
  lemma CuotaMortuoria(c: Caso)
    requires Valido(c)
    ensures Q(c) - CUOTA_MORTUORIA * Suma(Muertes(c.g, c.sc), 0, N) == CUOTA_MORTUORIA * c.g * (1.0 - c.sc(0))
    ensures Q(c) == CUOTA_MORTUORIA * Suma(Muertes(c.g, c.sc), 0, N) <==> c.edad < FIN
  {
    hide Suma;
    Abel(c.g, c.sc, 0, N);
    assert c.sc(N) == 0.0 && Desc(c.g, 0) == 1.0;
  }

  lemma {:induction false} MuertesDescontadas(g: real, s: Curva, n: nat)
    requires g > 1.0 && forall m: nat :: s(m + 1) <= s(m)
    ensures Desc(g, n) * (s(0) - s(n)) <= Suma(Muertes(g, s), 0, n) <= s(0) - s(n)
  {
    hide Suma, Muertes, Desc;
    SumaPaso(Muertes(g, s), 0, n);
    if n > 0 {
      MuertesDescontadas(g, s, n - 1);
      DescDecrece(g, n - 1, n);
      Baja(s, n - 1);
      assert s((n - 1) + 1) <= s(n - 1);
      TerminosEn(g, s, n - 1);
      PasoDescontado(Desc(g, n - 1), Desc(g, n), s(0), s(n - 1), s(n), Suma(Muertes(g, s), 0, n - 1));
    }
  }

  lemma {:induction false} Baja(s: Curva, n: nat)
    requires forall m: nat :: s(m + 1) <= s(m)
    ensures s(n) <= s(0)
  {
    if n > 0 {
      Baja(s, n - 1);
      assert s((n - 1) + 1) <= s(n - 1);
    }
  }

  lemma PasoDescontado(d: real, d': real, s0: real, x: real, y: real, v: real)
    requires 0.0 < d' <= d <= 1.0 && x <= s0 && y <= x
    requires d * (s0 - x) <= v <= s0 - x
    ensures d' * (s0 - y) <= v + (x - y) * d <= s0 - y
  {
    Producto(d', d, s0 - y);
    assert d * (s0 - y) == d * (s0 - x) + (x - y) * d;
    Producto(d, 1.0, x - y);
  }

  lemma CuotaMortuoriaEntre(c: Caso)
    requires Valido(c) && c.edad < FIN
    ensures 0.0 < Q(c) <= CUOTA_MORTUORIA
  {
    hide Suma;
    CuotaMortuoria(c);
    MuertesDescontadas(c.g, c.sc, N);
    assert c.sc(0) - c.sc(N) == 1.0;
  }

  // ------------------------------------------------------------------ the pension

  datatype Resultado = DivisionPorCero | Ok(P: real, A: real, Q: real, cnu: real)

  // What calcular returns: the quotient of the pension, or of the cnu, may have a zero denominator.
  function Pension(c: Caso, saldo: real): Resultado
    requires c.g > 0.0
  {
    if A(c) == 0.0 || saldo == Q(c) then DivisionPorCero
    else Ok((saldo - Q(c)) / A(c), A(c), Q(c), saldo * A(c) / (saldo - Q(c)))
  }

  lemma SobNoNegativa(c: Caso, k: nat, m: nat)
    requires Valido(c) && k <= |c.hijos|
    ensures SobHasta(c, k, m) >= 0.0
  {
    hide Cuota, Flujo, HayComun;
    if k > 0 {
      SobNoNegativa(c, k - 1, m);
      FlujoNoNegativo(c, c.hijos[k - 1], m);
    } else if c.conyuge.Some? {
      Producto(0.0, c.conyuge.value(m), if HayComun(c.hijos, m) then PCT_CONYUGE_CON_HIJO_COMUN else PCT_CONYUGE);
    }
  }

  lemma FlujoNoNegativo(c: Caso, h: Hijo<Curva>, m: nat)
    requires EsCurva(h.s)
    ensures 0.0 <= Cuota(c, h, m) && 0.0 <= Flujo(c, h, m) && 0.0 <= Cuota(c, h, m) * Flujo(c, h, m)
  {
    hide Extra;
    ExtraPositivo(c.hijos, m);
    Producto(0.0, Cuota(c, h, m), Flujo(c, h, m));
  }

  lemma ExtraPositivo<S>(hijos: seq<Hijo<S>>, m: nat)
    ensures 0.0 <= Extra(hijos, m) <= PCT_EXTRA_SIN_CONYUGE
  {
    var n := NConDerecho(hijos, m) as real;
    Cruz(0.0, 1.0, PCT_EXTRA_SIN_CONYUGE, n);
    Cruz(PCT_EXTRA_SIN_CONYUGE, n, PCT_EXTRA_SIN_CONYUGE, 1.0);
  }

  lemma PagoNoNegativo(c: Caso, m: nat)
    requires Valido(c)
    ensures U(c, m) >= c.sc(m) && Base(c, m) >= 0.0 && Pago(c, m) >= 0.0
  {
    hide U, Sob;
    UAlMenosVivo(c, m);
    NoNegativo(Pago(c, m), B(c, m), Base(c, m));
  }

  lemma UAlMenosVivo(c: Caso, m: nat)
    requires Valido(c)
    ensures U(c, m) >= c.sc(m) >= 0.0
  {
    hide Sob;
    SobNoNegativaTotal(c, m);
    MezclaSube(c.sc(m), Sob(c, m));
  }

  lemma NoNegativo(p: real, b: real, x: real)
    requires p == b * x && b >= 0.0 && x >= 0.0
    ensures p >= 0.0
  {
  }

  lemma MezclaSube(s: real, y: real)
    requires 0.0 <= s <= 1.0 && y >= 0.0
    ensures s + (1.0 - s) * y >= s
  {
    var x := 1.0 - s;
    assert x * y >= 0.0;
  }

  lemma SobNoNegativaTotal(c: Caso, m: nat)
    requires Valido(c)
    ensures Sob(c, m) >= 0.0
  {
    SobNoNegativa(c, |c.hijos|, m);
  }

  lemma TerminosNoNegativos(c: Caso, m: nat)
    requires Valido(c)
    ensures Terminos(c)(m) >= 0.0
    ensures m == 0 && c.edad < FIN ==> Terminos(c)(m) >= 1.0
  {
    hide U, B, Desc;
    PagoNoNegativo(c, m);
    Producto(0.0, Desc(c.g, m), Pago(c, m));
    if m == 0 && c.edad < FIN {
      PrimerPago(c);
    }
  }

  lemma PrimerPago(c: Caso)
    requires Valido(c) && c.edad < FIN
    ensures Termino(c, 0) >= 1.0
  {
    hide Sob;
    assert U(c, 0) == 1.0;
    assert Base(c, 0) == 1.0;
  }

  lemma FactorAAlMenosUno(c: Caso)
    requires Valido(c) && c.edad < FIN
    ensures A(c) >= 1.0
  {
    hide Termino, Terminos;
    SumaPartida(Terminos(c), 0, 1, N);
    assert Suma(Terminos(c), 0, 1) == Suma(Terminos(c), 0, 0) + Terminos(c)(0);
    forall m: nat ensures Terminos(c)(m) >= 0.0 { TerminosNoNegativos(c, m); }
    TerminosNoNegativos(c, 0);
    SumaNoNegativa(Terminos(c), 1, N);
  }

  // For a holder within the table the valuation is total but for saldo == Q; the premium is exhausted by
  // A·P + Q, the cnu is premium over pension, and the pension is positive exactly above the quota.
  lemma PensionEquilibra(c: Caso, saldo: real)
    requires Valido(c) && c.edad < FIN && saldo > 0.0
    ensures Pension(c, saldo).Ok? <==> saldo != Q(c)
    ensures var r := Pension(c, saldo);
            r.Ok? ==> r.A * r.P + r.Q == saldo && (r.P > 0.0 <==> saldo > Q(c)) && r.cnu * r.P == saldo
    ensures saldo > CUOTA_MORTUORIA ==> Pension(c, saldo).Ok? && Pension(c, saldo).P > 0.0
  {
    hide A, Q;
    FactorAAlMenosUno(c);
    CuotaMortuoriaEntre(c);
    if saldo != Q(c) {
      Cocientes(saldo, Q(c), A(c));
    }
  }

  lemma Cocientes(s: real, q: real, a: real)
    requires a >= 1.0 && s != q && s > 0.0
    ensures a * ((s - q) / a) + q == s
    ensures (s - q) / a > 0.0 <==> s > q
    ensures (s * a / (s - q)) * ((s - q) / a) == s
  {
    var d := s - q;
    var p, k := d / a, s * a / d;
    assert p * a == d && k * d == s * a;
    assert k * p * a == k * (p * a) == s * a;
    assert (k * p - s) * a == 0.0;
  }

  // ------------------------------------------------------------------ what never raises the pension

  // With the same funeral quota a larger factor lowers the pension exactly when the balance covers the quota.
  lemma MasFactorMenosPension(s: real, q: real, a: real, a': real)
    requires 0.0 < a <= a'
    ensures (s - q) / a' <= (s - q) / a <==> s >= q || a == a'
  {
    Cruz(s - q, a', s - q, a);
    if s >= q {
      Producto(a, a', s - q);
    } else if a < a' {
      Producto(a, a', q - s);
      assert (s - q) * a' < (s - q) * a;
    }
  }

  function Mensual(c: Caso, saldo: real): real
    requires c.g > 0.0 && A(c) != 0.0
  {
    (saldo - Q(c)) / A(c)
  }

  // Pointwise larger payments to the same holder; the factor stays only if every payment does.
  lemma PagosMayores(c: Caso, c': Caso, saldo: real)
    requires Valido(c) && Valido(c') && c.edad == c'.edad < FIN && c.g == c'.g && c.sc == c'.sc
    requires forall m: nat | m < N :: Pago(c, m) <= Pago(c', m)
    ensures 1.0 <= A(c) <= A(c') && Q(c) == Q(c')
    ensures A(c) == A(c') <==> forall m: nat | m < N :: Pago(c, m) == Pago(c', m)
    ensures Mensual(c', saldo) <= Mensual(c, saldo) <==> saldo >= Q(c) || A(c) == A(c')
  {
    hide Pago, Suma;
    FactorAAlMenosUno(c);
    FactorAAlMenosUno(c');
    forall m: nat | m < N
      ensures Terminos(c)(m) <= Terminos(c')(m)
      ensures Terminos(c)(m) == Terminos(c')(m) <==> Pago(c, m) == Pago(c', m)
    {
      OrdenEscalado(Desc(c.g, m), Pago(c, m), Pago(c', m));
    }
    SumaMonotona(Terminos(c), Terminos(c'), 0, N);
    SumasIguales(Terminos(c), Terminos(c'), 0, N);
    MasFactorMenosPension(saldo, Q(c), A(c), A(c'));
  }

  lemma OrdenEscalado(d: real, x: real, y: real)
    requires d > 0.0 && x <= y
    ensures d * x <= d * y && (d * x == d * y <==> x == y)
  {
    assert d * y - d * x == d * (y - x);
  }

  // Month m is paid, and the new increase is larger in it than the old one was.
  predicate MesAumentado(c: Caso, meses: nat, aumento: real, m: nat) {
    && m < meses && (if m < c.mesesAumento then c.aumento < aumento else aumento > 0.0)
    && (m < c.garantia || c.sc(m) > 0.0 || Sob(c, m) > 0.0)
  }

  // A longer or larger temporary increase, whatever the family is. The factor grows exactly when some paid
  // month is increased by more.
  lemma AumentoNuncaSube(c: Caso, meses: nat, aumento: real, saldo: real)
    requires Valido(c) && c.edad < FIN && c.mesesAumento <= meses && c.aumento <= aumento <= 1.0
    ensures var c' := c.(mesesAumento := meses, aumento := aumento);
            var cambia := exists m: nat :: m < N && MesAumentado(c, meses, aumento, m);
            && 1.0 <= A(c) <= A(c') && (A(c) < A(c') <==> cambia)
            && (Mensual(c', saldo) <= Mensual(c, saldo) <==> saldo >= Q(c) || !cambia)
  {
    hide Pago, MesAumentado, A, Mensual, Q;
    var c' := c.(mesesAumento := meses, aumento := aumento);
    forall m: nat
      ensures Pago(c, m) <= Pago(c', m) && (Pago(c, m) == Pago(c', m) <==> !MesAumentado(c, meses, aumento, m))
    {
      AumentoPaga(c, meses, aumento, m);
    }
    PagosMayores(c, c', saldo);
  }

  lemma AumentoPaga(c: Caso, meses: nat, aumento: real, m: nat)
    requires Valido(c) && c.mesesAumento <= meses && c.aumento <= aumento <= 1.0
    ensures var c' := c.(mesesAumento := meses, aumento := aumento);
            Pago(c, m) <= Pago(c', m) && (Pago(c, m) == Pago(c', m) <==> !MesAumentado(c, meses, aumento, m))
  {
    hide U, Sob, Pago, B, Base, MesAumentado;
    var b, b', x := AumentoFactores(c, meses, aumento, m);
    OrdenProductos(Pago(c, m), Pago(c.(mesesAumento := meses, aumento := aumento), m), b, b', x);
  }

  // Both payments are the same base, each times its own increase.
  lemma AumentoFactores(c: Caso, meses: nat, aumento: real, m: nat) returns (b: real, b': real, x: real)
    requires Valido(c) && c.mesesAumento <= meses && c.aumento <= aumento <= 1.0
    ensures var c' := c.(mesesAumento := meses, aumento := aumento);
            && Pago(c, m) == b * x && Pago(c', m) == b' * x && 0.0 <= b <= b' && x >= 0.0
            && (MesAumentado(c, meses, aumento, m) <==> b != b' && x != 0.0)
  {
    hide U, Sob;
    var c' := c.(mesesAumento := meses, aumento := aumento);
    SobIgualTotal(c, c', m);
    UIgual(c, c', m);
    UPositivo(c, m);
    b, b', x := B(c, m), B(c', m), Base(c, m);
  }

  // Two products with a common factor.
  lemma OrdenProductos(p: real, p': real, b: real, b': real, x: real)
    requires p == b * x && p' == b' * x && b <= b' && x >= 0.0
    ensures p <= p' && (p == p' <==> b == b' || x == 0.0)
  {
    var d := b' - b;
    assert p' - p == d * x;
    Signo(d, x);
  }

  // A month outside the guarantee is paid exactly when the holder or somebody else may be alive to receive it.
  lemma UPositivo(c: Caso, m: nat)
    requires Valido(c)
    ensures U(c, m) >= 0.0 && (U(c, m) > 0.0 <==> c.sc(m) > 0.0 || Sob(c, m) > 0.0)
  {
    hide Sob;
    SobNoNegativaTotal(c, m);
    Signo(1.0 - c.sc(m), Sob(c, m));
  }

  // The survivors' share depends on the family and on the guarantee cut only.
  lemma {:induction false} SobIgual(c: Caso, c': Caso, k: nat, m: nat)
    requires c.conyuge == c'.conyuge && c.hijos == c'.hijos && k <= |c.hijos|
    requires (GarantiaLarga(c) && m >= c.garantia) == (GarantiaLarga(c') && m >= c'.garantia)
    ensures SobHasta(c, k, m) == SobHasta(c', k, m)
  {
    hide Elegible, Cuota, Extra, Pct;
    if k > 0 {
      SobIgual(c, c', k - 1, m);
      assert Flujo(c, c.hijos[k - 1], m) == Flujo(c', c'.hijos[k - 1], m);
      assert Cuota(c, c.hijos[k - 1], m) == Cuota(c', c'.hijos[k - 1], m) by { CuotaIgual(c, c', c.hijos[k - 1], m); }
    }
  }

  lemma SobIgualTotal(c: Caso, c': Caso, m: nat)
    requires c.conyuge == c'.conyuge && c.hijos == c'.hijos
    requires (GarantiaLarga(c) && m >= c.garantia) == (GarantiaLarga(c') && m >= c'.garantia)
    ensures Sob(c, m) == Sob(c', m)
  {
    SobIgual(c, c', |c.hijos|, m);
  }

  lemma CuotaIgual(c: Caso, c': Caso, h: Hijo<Curva>, m: nat)
    requires c.conyuge == c'.conyuge && c.hijos == c'.hijos
    ensures Cuota(c, h, m) == Cuota(c', h, m)
  {
  }

  lemma UIgual(c: Caso, c': Caso, m: nat)
    requires c.sc == c'.sc && Sob(c, m) == Sob(c', m)
    ensures U(c, m) == U(c', m)
  {
    hide Sob;
  }

  // Adding a spouse to a holder without children. The factor grows exactly when in some month after the
  // guarantee the holder may be dead and the spouse alive.
  lemma ConyugeNuncaSube(c: Caso, ss: Curva, saldo: real)
    requires Valido(c) && c.edad < FIN && c.conyuge.None? && c.hijos == [] && EsCurva(ss)
    ensures var c' := c.(conyuge := Some(ss));
            var cambia := exists m: nat :: c.garantia <= m < N && c.sc(m) < 1.0 && ss(m) > 0.0;
            && 1.0 <= A(c) <= A(c') && (A(c) < A(c') <==> cambia)
            && (Mensual(c', saldo) <= Mensual(c, saldo) <==> saldo >= Q(c) || !cambia)
  {
    hide Pago, A, Mensual, Q;
    var c' := c.(conyuge := Some(ss));
    forall m: nat
      ensures Pago(c, m) <= Pago(c', m)
      ensures Pago(c, m) == Pago(c', m) <==> !(m >= c.garantia && c.sc(m) < 1.0 && ss(m) > 0.0)
    {
      ConyugePaga(c, ss, m);
    }
    PagosMayores(c, c', saldo);
  }

  lemma ConyugePaga(c: Caso, ss: Curva, m: nat)
    requires Valido(c) && c.conyuge.None? && c.hijos == [] && EsCurva(ss)
    ensures var c' := c.(conyuge := Some(ss));
            && Pago(c, m) <= Pago(c', m)
            && (Pago(c, m) == Pago(c', m) <==> !(m >= c.garantia && c.sc(m) < 1.0 && ss(m) > 0.0))
  {
    hide U, Sob;
    var c' := c.(conyuge := Some(ss));
    ConyugeU(c, ss, m);
    assert Pago(c, m) == Base(c, m) * B(c, m) && Pago(c', m) == Base(c', m) * B(c, m);
    OrdenProductos(Pago(c, m), Pago(c', m), Base(c, m), Base(c', m), B(c, m));
  }

  lemma ConyugeU(c: Caso, ss: Curva, m: nat)
    requires Valido(c) && c.conyuge.None? && c.hijos == [] && EsCurva(ss)
    ensures var c' := c.(conyuge := Some(ss));
            U(c, m) <= U(c', m) && (U(c, m) == U(c', m) <==> !(c.sc(m) < 1.0 && ss(m) > 0.0))
  {
    var c' := c.(conyuge := Some(ss));
    assert Sob(c, m) == 0.0 && Sob(c', m) == ss(m) * PCT_CONYUGE;
    hide Sob;
    MezclaCrece(U(c', m), c.sc(m), Sob(c', m));
    assert U(c, m) == c.sc(m);
  }

  lemma MezclaCrece(u: real, s: real, y: real)
    requires u == s + (1.0 - s) * y && s <= 1.0 && y >= 0.0
    ensures u >= s && (u == s <==> s == 1.0 || y == 0.0)
  {
    var d := 1.0 - s;
    assert u - s == d * y;
    Signo(d, y);
  }

  lemma Signo(d: real, y: real)
    requires d >= 0.0 && y >= 0.0
    ensures d * y >= 0.0 && (d * y == 0.0 <==> d == 0.0 || y == 0.0)
  {
  }

  // The months of the valuation before m.
  function Corte(m: nat): nat { if m < N then m else N }

  lemma QIgual(c: Caso, c': Caso)
    requires c.g == c'.g > 0.0 && c.sc == c'.sc
    ensures Q(c) == Q(c')
  {
  }

  // Shares: at most 60% (spouse) or 50% (extra) plus 15% for each eligible child.
  lemma {:induction false} CuotasAcotadas(c: Caso, k: nat, m: nat)
    requires Valido(c) && k <= |c.hijos|
    ensures Elegibles(c.hijos[..k], m) <= Elegibles(c.hijos, m)
    ensures SobHasta(c, k, m) <= (if c.conyuge.Some? then PCT_CONYUGE else 0.0)
            + PorCabeza(Elegibles(c.hijos[..k], m), PCT_HIJO + if c.conyuge.Some? then 0.0 else Extra(c.hijos, m))
  {
    hide SobHasta, Elegibles, Extra, Elegible, Cuota, Flujo, PorCabeza;
    ElegiblesPrefijo(c.hijos, k, m);
    SobPaso(c, k, m);
    ElegiblesPaso(c.hijos, k, m);
    var tope := PCT_HIJO + if c.conyuge.Some? then 0.0 else Extra(c.hijos, m);
    if k > 0 {
      CuotasAcotadas(c, k - 1, m);
      CuotaAcotada(c, c.hijos[k - 1], m, tope);
      UnoMas(Elegibles(c.hijos[..k - 1], m), tope);
    } else {
      UnoMas(0, tope);
    }
  }

  lemma SobPaso(c: Caso, k: nat, m: nat)
    requires Valido(c) && k <= |c.hijos|
    ensures k > 0 ==>
              SobHasta(c, k, m) == SobHasta(c, k - 1, m) + Cuota(c, c.hijos[k - 1], m) * Flujo(c, c.hijos[k - 1], m)
    ensures SobHasta(c, 0, m) <= if c.conyuge.Some? then PCT_CONYUGE else 0.0
  {
    if c.conyuge.Some? {
      Producto(c.conyuge.value(m), 1.0, if HayComun(c.hijos, m) then PCT_CONYUGE_CON_HIJO_COMUN else PCT_CONYUGE);
    }
  }

  lemma ElegiblesPaso<S>(hijos: seq<Hijo<S>>, k: nat, m: nat)
    requires k <= |hijos|
    ensures k > 0 ==>
              Elegibles(hijos[..k], m) == Elegibles(hijos[..k - 1], m) + if Elegible(hijos[k - 1], m) then 1 else 0
    ensures Elegibles(hijos[..0], m) == 0
  {
    if k > 0 {
      assert hijos[..k][..k - 1] == hijos[..k - 1];
    }
  }

  lemma CuotaAcotada(c: Caso, h: Hijo<Curva>, m: nat, tope: real)
    requires Valido(c) && h in c.hijos
    requires tope == PCT_HIJO + if c.conyuge.Some? then 0.0 else Extra(c.hijos, m)
    ensures Cuota(c, h, m) * Flujo(c, h, m) <= if Elegible(h, m) then tope else 0.0
  {
    ExtraPositivo(c.hijos, m);
    hide Extra, Elegible;
    ProductoHasta(Cuota(c, h, m) * Flujo(c, h, m), Cuota(c, h, m), Flujo(c, h, m), tope);
  }

  lemma ProductoHasta(p: real, a: real, b: real, tope: real)
    requires p == a * b && 0.0 <= a <= tope && 0.0 <= b <= 1.0
    ensures p <= tope && (b == 0.0 ==> p == 0.0)
  {
    Producto(b, 1.0, a);
  }

  lemma {:induction false} ElegiblesPrefijo<S>(hijos: seq<Hijo<S>>, k: nat, m: nat)
    requires k <= |hijos|
    ensures Elegibles(hijos[..k], m) <= Elegibles(hijos, m)
    decreases |hijos|
  {
    if k < |hijos| {
      ElegiblesPrefijo(hijos[..|hijos| - 1], k, m);
      assert hijos[..|hijos| - 1][..k] == hijos[..k];
    } else {
      assert hijos[..k] == hijos;
    }
  }

  lemma CuotasHastaUno(c: Caso, m: nat)
    requires Valido(c) && Elegibles(c.hijos, m) <= if c.conyuge.Some? then 2 else 3
    ensures Sob(c, m) <= 1.0
  {
    hide SobHasta, Extra, Elegible, PorCabeza;
    assert c.hijos[..|c.hijos|] == c.hijos;
    CuotasAcotadas(c, |c.hijos|, m);
    ExtraPorCabeza(c.hijos, m);
    PorCabezaSuma(Elegibles(c.hijos, m), PCT_HIJO, if c.conyuge.Some? then 0.0 else Extra(c.hijos, m));
  }

  lemma PorCabezaSuma(n: nat, a: real, b: real)
    ensures PorCabeza(n, a + b) == PorCabeza(n, a) + PorCabeza(n, b)
    ensures PorCabeza(n, 0.0) == 0.0
    ensures n <= 2 ==> PorCabeza(n, PCT_HIJO) <= 0.30
    ensures n <= 3 ==> PorCabeza(n, PCT_HIJO) <= 0.45
  {
  }

  lemma ExtraPorCabeza<S>(hijos: seq<Hijo<S>>, m: nat)
    ensures PorCabeza(Elegibles(hijos, m), Extra(hijos, m))
            == if Elegibles(hijos, m) > 0 then PCT_EXTRA_SIN_CONYUGE else 0.0
  {
  }

  // What the loop over the first k children adds to the percentages of the eligible ones.
  function Repartido(c: Caso, k: nat, m: nat): real
    requires k <= |c.hijos|
  {
    if k == 0 then 0.0
    else
      var h := c.hijos[k - 1];
      Repartido(c, k - 1, m) + if Elegible(h, m) then Cuota(c, h, m) - Pct(h, m) else 0.0
  }

  function PorCabeza(n: nat, e: real): real { n as real * e }

  // Over all the children the loop hands out exactly 50% without a spouse, if any child is eligible, else nothing.
  lemma RepartoExacto(c: Caso, m: nat)
    ensures Repartido(c, |c.hijos|, m)
            == if c.conyuge.None? && Elegibles(c.hijos, m) > 0 then PCT_EXTRA_SIN_CONYUGE else 0.0
  {
    hide Extra, Elegible, Cuota, Pct, NConDerecho, PorCabeza;
    RepartidoPorCabeza(c, |c.hijos|, m);
    assert c.hijos[..|c.hijos|] == c.hijos;
    ExtraPorCabeza(c.hijos, m);
  }

  lemma {:induction false} RepartidoPorCabeza(c: Caso, k: nat, m: nat)
    requires k <= |c.hijos|
    ensures Repartido(c, k, m)
            == if c.conyuge.None? then PorCabeza(Elegibles(c.hijos[..k], m), Extra(c.hijos, m)) else 0.0
  {
    hide Extra, Elegible, Pct, PorCabeza;
    ElegiblesPaso(c.hijos, k, m);
    if k > 0 {
      RepartidoPorCabeza(c, k - 1, m);
      UnoMas(Elegibles(c.hijos[..k - 1], m), Extra(c.hijos, m));
    } else {
      UnoMas(0, Extra(c.hijos, m));
    }
  }

  lemma UnoMas(n: nat, e: real)
    ensures PorCabeza(n + 1, e) == PorCabeza(n, e) + e && PorCabeza(0, e) == 0.0
  {
  }

  // ------------------------------------------------------------------ long guarantee, lone holder

  function Cierto(c: Caso, m: nat): real
    requires c.g > 0.0
  {
    Desc(c.g, m) * B(c, m)
  }

  function Ciertos(c: Caso): Curva
    requires c.g > 0.0
  {
    (m: nat) => Cierto(c, m)
  }

  // With no spouse and a guarantee covering the rest of the table, the factor is the annuity certain of the
  // guaranteed months, whatever the children are.
  lemma GarantiaCierta(c: Caso)
    requires Valido(c) && c.conyuge.None? && GarantiaLarga(c)
    ensures A(c) == Suma(Ciertos(c), 0, Corte(c.garantia))
  {
    hide Termino, Cierto;
    var k := Corte(c.garantia);
    SumaPartida(Terminos(c), 0, k, N);
    forall m: nat | m < N ensures Terminos(c)(m) == (if m < c.garantia then Ciertos(c)(m) else 0.0) {
      TerminoCierto(c, m);
    }
    SumaIgual(Terminos(c), Ciertos(c), 0, k);
    SumaNula(Terminos(c), k, N);
  }

  lemma TerminoCierto(c: Caso, m: nat)
    requires Valido(c) && c.conyuge.None? && GarantiaLarga(c)
    ensures Termino(c, m) == if m < c.garantia then Cierto(c, m) else 0.0
  {
    hide B, Desc, SobHasta;
    if m >= c.garantia {
      FlujoCortado(c, |c.hijos|, m);
      assert c.sc(m) == 0.0 && Sob(c, m) == 0.0 && U(c, m) == 0.0;
    }
  }

  // From its end on, a long guarantee leaves the spouse's share alone.
  lemma {:induction false} FlujoCortado(c: Caso, k: nat, m: nat)
    requires GarantiaLarga(c) && m >= c.garantia && k <= |c.hijos|
    ensures SobHasta(c, k, m) == SobConyuge(c, m)
  {
    if k > 0 {
      FlujoCortado(c, k - 1, m);
      assert Flujo(c, c.hijos[k - 1], m) == 0.0;
    }
  }

  predicate Solo(c: Caso) {
    c.conyuge.None? && c.hijos == [] && c.garantia == 0 && c.mesesAumento == 0
  }

  lemma FactorDelSolo(c: Caso)
    requires Valido(c) && Solo(c)
    ensures A(c) == ACausante(c)
  {
    forall m: nat | m < N ensures Terminos(c)(m) == Vivos(c.g, c.sc)(m) {
      TerminoDelSolo(c, m);
      hide Desc;
    }
    SumaIgual(Terminos(c), Vivos(c.g, c.sc), 0, N);
  }

  lemma TerminoDelSolo(c: Caso, m: nat)
    requires Valido(c) && Solo(c)
    ensures Termino(c, m) == Desc(c.g, m) * c.sc(m)
  {
    hide Desc;
    assert Sob(c, m) == 0.0 && U(c, m) == c.sc(m);
  }

  // The pension of a lone holder as a function of the factor alone.
  lemma MensualDelSolo(c: Caso, saldo: real)
    requires Valido(c) && Solo(c) && c.edad < FIN
    ensures A(c) >= 1.0
    ensures Mensual(c, saldo) == (saldo - CUOTA_MORTUORIA * c.g) / A(c) + CUOTA_MORTUORIA * (c.g - 1.0)
  {
    FactorAAlMenosUno(c);
    FactorDelSolo(c);
    hide A, ACausante;
    var a, j, k := A(c), c.g - 1.0, saldo - CUOTA_MORTUORIA * c.g;
    assert saldo - Q(c) == k + CUOTA_MORTUORIA * j * a;
    assert (k + CUOTA_MORTUORIA * j * a) / a == k / a + CUOTA_MORTUORIA * j;
  }

  // A lone holder who is likelier to survive every month gets a lower or equal pension exactly when the
  // balance covers 15·g (or no month is any likelier).
  lemma MasVidaMenosPension(c: Caso, sc': Curva, saldo: real)
    requires Valido(c) && Solo(c) && c.edad < FIN && CurvaDesde(sc', c.edad)
    requires forall m: nat | m < N :: c.sc(m) <= sc'(m)
    ensures var c' := c.(sc := sc');
            && Valido(c') && 1.0 <= A(c) <= A(c')
            && (Mensual(c', saldo) <= Mensual(c, saldo)
                <==> saldo >= CUOTA_MORTUORIA * c.g || forall m: nat | m < N :: c.sc(m) == sc'(m))
  {
    var c' := c.(sc := sc');
    FactorDelSolo(c);
    FactorDelSolo(c');
    forall m: nat | m < N
      ensures Vivos(c.g, c.sc)(m) <= Vivos(c.g, sc')(m)
      ensures Vivos(c.g, c.sc)(m) == Vivos(c.g, sc')(m) <==> c.sc(m) == sc'(m)
    {
      hide Desc;
      OrdenEscalado(Desc(c.g, m), c.sc(m), sc'(m));
    }
    SumaMonotona(Vivos(c.g, c.sc), Vivos(c.g, sc'), 0, N);
    SumasIguales(Vivos(c.g, c.sc), Vivos(c.g, sc'), 0, N);
    MensualDelSolo(c, saldo);
    MensualDelSolo(c', saldo);
    hide A, ACausante, Mensual;
    MasFactorMenosPension(saldo, CUOTA_MORTUORIA * c.g, A(c), A(c'));
  }

  // ------------------------------------------------------------------ from tables to pensions

  ghost function CurvaPunto(v: M.Vida, m: nat): real
    requires v.Valida()
  {
    M.S(v, m)
  }

  ghost function CurvaDeVida(v: M.Vida): Curva
    requires v.Valida()
  {
    (m: nat) => CurvaPunto(v, m)
  }

  lemma CurvaDeTabla(v: M.Vida)
    requires v.Valida()
    ensures CurvaDesde(CurvaDeVida(v), v.edad0)
  {
    hide M.S;
    forall m: nat
      ensures CurvaDeVida(v)(m + 1) <= CurvaDeVida(v)(m) && (v.edad0 + m >= FIN ==> CurvaDeVida(v)(m) == 0.0)
    {
      M.CurvaBienFormada(v, m);
    }
    M.CurvaBienFormada(v, 0);
  }

  // The arguments of calcular, with persons as the mortality tables see them.
  datatype Entrada = Entrada(
    g: real, causante: M.Vida, conyuge: Option<M.Vida>, hijos: seq<Hijo<M.Vida>>,
    garantia: nat, mesesAumento: nat, aumento: real)
  {
    ghost predicate Valida() {
      && g > 1.0 && 0.0 <= aumento <= 1.0
      && causante.Valida() && (conyuge.Some? ==> conyuge.value.Valida())
      && forall k | 0 <= k < |hijos| :: hijos[k].s.Valida() && hijos[k].s.edad0 == hijos[k].edad
    }
  }

  ghost function HijoDe(h: Hijo<M.Vida>): Hijo<Curva>
    requires h.s.Valida()
  {
    Hijo(h.edad, CurvaDeVida(h.s), h.comun, h.invalidez)
  }

  ghost function CasoDe(e: Entrada): Caso
    requires e.Valida()
  {
    Caso(e.g, e.causante.edad0, CurvaDeVida(e.causante),
         if e.conyuge.Some? then Some(CurvaDeVida(e.conyuge.value)) else None,
         seq(|e.hijos|, k requires 0 <= k < |e.hijos| => HijoDe(e.hijos[k])),
         e.garantia, e.mesesAumento, e.aumento)
  }

  lemma CasoValido(e: Entrada)
    requires e.Valida()
    ensures Valido(CasoDe(e))
  {
    hide M.Vida.Valida;
    CurvaDeTabla(e.causante);
    if e.conyuge.Some? {
      CurvaDeTabla(e.conyuge.value);
    }
    forall k | 0 <= k < |e.hijos| ensures EsCurva(CasoDe(e).hijos[k].s) {
      CurvaDeTabla(e.hijos[k].s);
    }
  }

  // The same holder simulated in a later month, at the same age: improvement lowers the pension or leaves
  // it, exactly when the balance covers 15·g (or no month is any likelier to be survived).
  lemma SimulacionPosteriorMenosPension(g: real, v: M.Vida, t0': int, saldo: real)
    requires g > 1.0 && v.Valida() && v.edad0 < FIN && v.t0 <= t0'
    ensures var antes := Entrada(g, v, None, [], 0, 0, 0.0);
            var despues := antes.(causante := v.(t0 := t0'));
            && 1.0 <= A(CasoDe(antes)) <= A(CasoDe(despues))
            && (Mensual(CasoDe(despues), saldo) <= Mensual(CasoDe(antes), saldo)
                <==> saldo >= CUOTA_MORTUORIA * g || forall m: nat | m < N :: M.S(v, m) == M.S(v.(t0 := t0'), m))
  {
    hide M.S, M.EsPotencia, M.Tabla.Valida, A, Mensual;
    var antes := Entrada(g, v, None, [], 0, 0, 0.0);
    var despues := antes.(causante := v.(t0 := t0'));
    CurvaDeTabla(v);
    CurvaDeTabla(despues.causante);
    CasoValido(antes);
    forall m: nat | m < N ensures CurvaDeVida(v)(m) <= CurvaDeVida(despues.causante)(m) {
      M.SimulacionPosteriorSobrevive(v, t0', m);
    }
    assert forall m: nat :: CurvaDeVida(v)(m) == M.S(v, m);
    assert forall m: nat :: CurvaDeVida(despues.causante)(m) == M.S(despues.causante, m);
    assert CasoDe(despues) == CasoDe(antes).(sc := CurvaDeVida(despues.causante));
    MasVidaMenosPension(CasoDe(antes), CurvaDeVida(despues.causante), saldo);
  }

  lemma {:induction false} MismosElegibles(e: Entrada, k: nat, m: nat)
    requires e.Valida() && k <= |e.hijos|
    ensures Elegibles(e.hijos[..k], m) == Elegibles(CasoDe(e).hijos[..k], m)
  {
    hide M.Vida.Valida;
    var c := CasoDe(e);
    if k > 0 {
      MismosElegibles(e, k - 1, m);
      ElegiblesPaso(e.hijos, k, m);
      ElegiblesPaso(c.hijos, k, m);
      assert Elegible(e.hijos[k - 1], m) == Elegible(c.hijos[k - 1], m);
    }
  }

  lemma MismosRecuentos(e: Entrada, m: nat)
    requires e.Valida()
    ensures Extra(e.hijos, m) == Extra(CasoDe(e).hijos, m)
    ensures HayComun(e.hijos, m) == HayComun(CasoDe(e).hijos, m)
  {
    hide M.Vida.Valida;
    var c := CasoDe(e);
    MismosElegibles(e, |e.hijos|, m);
    assert e.hijos[..|e.hijos|] == e.hijos && c.hijos[..|c.hijos|] == c.hijos;
    forall k | 0 <= k < |e.hijos|
      ensures (e.hijos[k].comun && Elegible(e.hijos[k], m)) == (c.hijos[k].comun && Elegible(c.hijos[k], m))
    {
    }
    if HayComun(e.hijos, m) {
      var k :| 0 <= k < |e.hijos| && e.hijos[k].comun && Elegible(e.hijos[k], m);
      assert c.hijos[k].comun && Elegible(c.hijos[k], m);
    }
    if HayComun(c.hijos, m) {
      var k :| 0 <= k < |c.hijos| && c.hijos[k].comun && Elegible(c.hijos[k], m);
      assert e.hijos[k].comun && Elegible(e.hijos[k], m);
    }
  }

  // The survivors' vector, accumulated child by child.
  method Sobrevivencia(e: Entrada) returns (sob: array<real>)
    requires e.Valida()
    ensures fresh(sob) && sob.Length == N
    ensures forall m | 0 <= m < N :: sob[m] == Sob(CasoDe(e), m)
  {
    hide M.Vida.Valida, SobHasta;
    sob := new real[N](_ => 0.0);
    SumarConyuge(e, sob);
    for k := 0 to |e.hijos|
      invariant forall i | 0 <= i < N :: sob[i] == SobHasta(CasoDe(e), k, i)
    {
      SumarHijo(e, k, sob);
    }
    forall m | 0 <= m < N ensures SobHasta(CasoDe(e), |e.hijos|, m) == Sob(CasoDe(e), m) {
      SobEsTotal(CasoDe(e), m);
    }
  }

  lemma SobEsTotal(c: Caso, m: nat)
    ensures SobHasta(c, |c.hijos|, m) == Sob(c, m)
  {
  }

  method SumarConyuge(e: Entrada, sob: array<real>)
    requires e.Valida() && sob.Length == N && forall i | 0 <= i < N :: sob[i] == 0.0
    modifies sob
    ensures forall i | 0 <= i < N :: sob[i] == SobHasta(CasoDe(e), 0, i)
  {
    hide M.S, M.Vida.Valida, HayComun, SobHasta;
    if e.conyuge.None? {
      forall i | 0 <= i < N ensures SobHasta(CasoDe(e), 0, i) == 0.0 { SinConyuge(CasoDe(e), i); }
      return;
    }
    var ss := M.Supervivencia(e.conyuge.value, N);
    for m := 0 to N
      invariant forall i | 0 <= i < m :: sob[i] == SobHasta(CasoDe(e), 0, i)
      modifies sob
    {
      sob[m] := ss[m] * (if HayComun(e.hijos, m) then PCT_CONYUGE_CON_HIJO_COMUN else PCT_CONYUGE);
      ConyugeDeTabla(e, m);
    }
  }

  lemma SinConyuge(c: Caso, m: nat)
    requires c.conyuge.None?
    ensures SobHasta(c, 0, m) == 0.0
  {
  }

  method SumarHijo(e: Entrada, k: nat, sob: array<real>)
    requires e.Valida() && k < |e.hijos|
    requires sob.Length == N && forall i | 0 <= i < N :: sob[i] == SobHasta(CasoDe(e), k, i)
    modifies sob
    ensures forall i | 0 <= i < N :: sob[i] == SobHasta(CasoDe(e), k + 1, i)
  {
    hide M.S, M.Vida.Valida, Extra, Elegible, Pct, SobHasta, Cuota, Flujo;
    ghost var c := CasoDe(e);
    var h := e.hijos[k];
    var larga := e.garantia != 0 && e.garantia >= FIN - e.causante.edad0;
    var sh := M.Supervivencia(h.s, N);
    for m := 0 to N
      invariant forall i | 0 <= i < m :: sob[i] == SobHasta(c, k + 1, i)
      invariant forall i | m <= i < N :: sob[i] == SobHasta(c, k, i)
      modifies sob
    {
      var cuota := if e.conyuge.Some? then Pct(h, m) else Pct(h, m) + Extra(e.hijos, m);
      var flujo := if Elegible(h, m) && (larga ==> m < e.garantia) then sh[m] else 0.0;
      HijoDeTabla(e, k, m);
      SobHijo(c, k, m);
      sob[m] := sob[m] + cuota * flujo;
    }
  }

  lemma SobHijo(c: Caso, k: nat, m: nat)
    requires k < |c.hijos|
    ensures SobHasta(c, k + 1, m) == SobHasta(c, k, m) + Cuota(c, c.hijos[k], m) * Flujo(c, c.hijos[k], m)
  {
    hide Cuota, Flujo;
  }

  lemma ConyugeDeTabla(e: Entrada, m: nat)
    requires e.Valida() && e.conyuge.Some?
    ensures SobHasta(CasoDe(e), 0, m) ==
            M.S(e.conyuge.value, m) * (if HayComun(e.hijos, m) then PCT_CONYUGE_CON_HIJO_COMUN else PCT_CONYUGE)
  {
    hide M.S, M.Vida.Valida, HayComun;
    MismosRecuentos(e, m);
  }

  lemma HijoDeTabla(e: Entrada, k: nat, m: nat)
    requires e.Valida() && k < |e.hijos|
    ensures var c, h := CasoDe(e), e.hijos[k];
            && Cuota(c, c.hijos[k], m) == (if e.conyuge.Some? then Pct(h, m) else Pct(h, m) + Extra(e.hijos, m))
            && Flujo(c, c.hijos[k], m) ==
               if Elegible(h, m) && (e.garantia != 0 && e.garantia >= FIN - e.causante.edad0 ==> m < e.garantia)
               then M.S(h.s, m) else 0.0
  {
    hide M.S, M.Vida.Valida, Extra, Elegible, Pct;
    MismosRecuentos(e, m);
    MismaFicha(e.hijos[k], m);
  }

  lemma MismaFicha(h: Hijo<M.Vida>, m: nat)
    requires h.s.Valida()
    ensures Elegible(h, m) == Elegible(HijoDe(h), m) && Pct(h, m) == Pct(HijoDe(h), m)
    ensures HijoDe(h).s(m) == M.S(h.s, m)
  {
  }

  lemma FactorPaso(c: Caso, m: nat)
    requires c.g > 0.0
    ensures var u := c.sc(m) + (1.0 - c.sc(m)) * Sob(c, m);
            var b := if m < c.mesesAumento then 1.0 + c.aumento else 1.0;
            Suma(Terminos(c), 0, m + 1) ==
              Suma(Terminos(c), 0, m) + Desc(c.g, m) * (b * (if m < c.garantia then 1.0 else u))
  {
    hide Sob, Desc;
    assert Terminos(c)(m) == Desc(c.g, m) * Pago(c, m);
  }

  // calcular: the vectors, the two discounted sums and the quotient.
  method Calcular(e: Entrada, saldo: real) returns (r: Resultado)
    requires e.Valida()
    ensures r == Pension(CasoDe(e), saldo)
  {
    hide M.S, M.Vida.Valida, SobHasta, Sob, Desc, Suma, Vivos, Terminos, Termino, Pago;
    ghost var c := CasoDe(e);
    var sc := M.Supervivencia(e.causante, N);
    var sob := Sobrevivencia(e);
    var aCausante, a := 0.0, 0.0;
    SumaPaso(Vivos(c.g, c.sc), 0, 0);
    SumaPaso(Terminos(c), 0, 0);
    for m := 0 to N
      invariant aCausante == Suma(Vivos(c.g, c.sc), 0, m)
      invariant a == Suma(Terminos(c), 0, m)
      modifies {}
    {
      var u := sc[m] + (1.0 - sc[m]) * sob[m];
      var b := if m < e.mesesAumento then 1.0 + e.aumento else 1.0;
      var pago := b * (if m < e.garantia then 1.0 else u);
      SumasPaso(c.g, c.sc, 0, m);
      FactorPaso(c, m);
      assert c.sc(m) == sc[m] && Sob(c, m) == sob[m] && c.g == e.g;
      aCausante := aCausante + Desc(e.g, m) * sc[m];
      a := a + Desc(e.g, m) * pago;
    }
    var q := CUOTA_MORTUORIA * (e.g - (e.g - 1.0) * aCausante);
    if a == 0.0 || saldo == q {
      return DivisionPorCero;
    }
    r := Ok((saldo - q) / a, a, q, saldo * a / (saldo - q));
  }
}
