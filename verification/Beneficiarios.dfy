// Who is paid what after the holder's death: the shares in the terms of the persons, from the mortality tables to the
// factor of the annuity.
module Beneficiarios {
  import opened Opcion
  import opened Sumas
  import opened RentaInmediata
  import M = Mortalidad

  // ------------------------------------------------------------------ the rule

  // The children entitled in month m: the disabled ones, and the others until they are 24.
  ghost function ConDerecho<S>(hijos: seq<Hijo<S>>, m: nat): set<nat> {
    set k: nat | k < |hijos| && (hijos[k].invalidez != NoInvalido || hijos[k].edad + m < 288)
  }

  // The spouse: 50 % while a common child is entitled, 60 % otherwise.
  ghost function ParaConyuge<S>(hijos: seq<Hijo<S>>, m: nat): real {
    if exists k :: k in ConDerecho(hijos, m) && hijos[k].comun then 0.50 else 0.60
  }

  // A child: 15 %, or 11 % if partially disabled and 24 or older; without a spouse, its part of another 50 % as well.
  ghost function ParaHijo<S>(hijos: seq<Hijo<S>>, k: nat, viuda: bool, m: nat): real {
    if k !in ConDerecho(hijos, m) then 0.0
    else
      (if hijos[k].invalidez == Parcial && hijos[k].edad + m >= 288 then 0.11 else 0.15)
      + (if viuda then 0.0 else 0.50 / |ConDerecho(hijos, m)| as real)
  }

  // A guarantee that reaches the end of the holder's table, 111 years, ends what the children are paid.
  ghost predicate Cortada(garantia: nat, edad: nat, m: nat) { 0 < garantia <= m && edad + garantia >= 1332 }

  // ------------------------------------------------------------------ the shares of the valuation

  lemma {:induction false} CuantosElegibles<S>(hijos: seq<Hijo<S>>, m: nat)
    ensures Elegibles(hijos, m) == |ConDerecho(hijos, m)|
  {
    if hijos != [] {
      var n := |hijos| - 1;
      CuantosElegibles(hijos[..n], m);
      var antes := ConDerecho(hijos[..n], m);
      assert n !in antes;
      assert ConDerecho(hijos, m) == antes + if Elegible(hijos[n], m) then {n} else {};
    }
  }

  lemma ConyugePinta(c: Caso, m: nat)
    ensures SobConyuge(c, m) == if c.conyuge.Some? then c.conyuge.value(m) * ParaConyuge(c.hijos, m) else 0.0
  {
    if HayComun(c.hijos, m) {
      var k :| 0 <= k < |c.hijos| && c.hijos[k].comun && Elegible(c.hijos[k], m);
      assert k in ConDerecho(c.hijos, m);
    }
  }

  lemma CuotaDelHijo(c: Caso, k: nat, m: nat)
    requires k < |c.hijos|
    ensures Cuota(c, c.hijos[k], m) * Flujo(c, c.hijos[k], m)
            == (if Cortada(c.garantia, c.edad, m) then 0.0
                else ParaHijo(c.hijos, k, c.conyuge.Some?, m) * c.hijos[k].s(m))
  {
    CuantosElegibles(c.hijos, m);
    var h := c.hijos[k];
    assert Flujo(c, h, m) != 0.0 ==> k in ConDerecho(c.hijos, m);
  }

  ghost function PartesDeHijos(c: Caso, m: nat): nat -> real {
    (k: nat) =>
      if k < |c.hijos| && !Cortada(c.garantia, c.edad, m)
      then ParaHijo(c.hijos, k, c.conyuge.Some?, m) * c.hijos[k].s(m) else 0.0
  }

  lemma {:induction false} SobPorPersonas(c: Caso, k: nat, m: nat)
    requires k <= |c.hijos|
    ensures SobHasta(c, k, m)
            == (if c.conyuge.Some? then c.conyuge.value(m) * ParaConyuge(c.hijos, m) else 0.0)
               + Suma(PartesDeHijos(c, m), 0, k)
  {
    hide Cuota, Flujo, SobConyuge, ParaConyuge, ParaHijo, Cortada;
    if k == 0 {
      ConyugePinta(c, m);
    } else {
      SobPorPersonas(c, k - 1, m);
      CuotaDelHijo(c, k - 1, m);
    }
  }

  // Every survivor's part of month m, for every family.
  lemma SobrevivenciaPorPersona(c: Caso, m: nat)
    ensures Sob(c, m)
            == (if c.conyuge.Some? then c.conyuge.value(m) * ParaConyuge(c.hijos, m) else 0.0)
               + Suma(PartesDeHijos(c, m), 0, |c.hijos|)
  {
    hide SobHasta, ParaConyuge, PartesDeHijos;
    SobPorPersonas(c, |c.hijos|, m);
    SobEsTotal(c, m);
  }

  function Nadie(): Curva { (m: nat) => 0.0 }

  // What the spouse adds to the children's parts.
  lemma ParteDelConyuge(c: Caso, ss: Curva, m: nat)
    requires c.conyuge == Some(ss)
    ensures Sob(c, m) == Sob(c.(conyuge := Some(Nadie())), m) + ss(m) *
              if exists k :: 0 <= k < |c.hijos| && c.hijos[k].comun
                             && (c.hijos[k].invalidez != NoInvalido || c.hijos[k].edad + m < 288)
              then 0.50 else 0.60
  {
    hide Sob, ParaHijo, Cortada;
    var c' := c.(conyuge := Some(Nadie()));
    SobrevivenciaPorPersona(c, m);
    SobrevivenciaPorPersona(c', m);
    SumaIgual(PartesDeHijos(c, m), PartesDeHijos(c', m), 0, |c.hijos|);
    QuienComparte(c.hijos, m);
  }

  lemma QuienComparte<S>(hijos: seq<Hijo<S>>, m: nat)
    ensures ParaConyuge(hijos, m)
            == if exists k :: 0 <= k < |hijos| && hijos[k].comun
                              && (hijos[k].invalidez != NoInvalido || hijos[k].edad + m < 288)
               then 0.50 else 0.60
  {
    if k :| 0 <= k < |hijos| && hijos[k].comun && (hijos[k].invalidez != NoInvalido || hijos[k].edad + m < 288) {
      assert k in ConDerecho(hijos, m);
    }
  }

  // ------------------------------------------------------------------ from the tables to the factor

  ghost function PartesDeTabla(e: Entrada, m: nat): nat -> real
    requires e.Valida()
  {
    (k: nat) =>
      if k < |e.hijos| && !Cortada(e.garantia, e.causante.edad0, m)
      then ParaHijo(e.hijos, k, e.conyuge.Some?, m) * M.S(e.hijos[k].s, m) else 0.0
  }

  // What all survivors are paid in month m if the holder is dead by then.
  ghost function Sobrevivientes(e: Entrada, m: nat): real
    requires e.Valida()
  {
    (if e.conyuge.Some? then M.S(e.conyuge.value, m) * ParaConyuge(e.hijos, m) else 0.0)
    + Suma(PartesDeTabla(e, m), 0, |e.hijos|)
  }

  // The expected payment of month m.
  ghost function PagoDelMes(e: Entrada, m: nat): real
    requires e.Valida()
  {
    (if m < e.mesesAumento then 1.0 + e.aumento else 1.0)
    * (if m < e.garantia then 1.0
       else M.S(e.causante, m) + (1.0 - M.S(e.causante, m)) * Sobrevivientes(e, m))
  }

  ghost function ValorDelMes(e: Entrada, m: nat): real
    requires e.Valida()
  {
    PagoDelMes(e, m) * Desc(e.g, m)
  }

  ghost function ValoresDelMes(e: Entrada): nat -> real
    requires e.Valida()
  {
    (m: nat) => ValorDelMes(e, m)
  }

  ghost function CausanteDelMes(e: Entrada): nat -> real
    requires e.Valida()
  {
    (m: nat) => M.S(e.causante, m) * Desc(e.g, m)
  }

  function Constante(g: real): nat -> real { (i: nat) => g }

  // The discount factor of month m is the reciprocal of g multiplied m times.
  lemma {:induction false} Descontado(g: real, m: nat)
    requires g > 0.0
    ensures Desc(g, m) * Prod(Constante(g), m) == 1.0
  {
    if m > 0 {
      Descontado(g, m - 1);
      UnoMenos(Desc(g, m - 1), Prod(Constante(g), m - 1), g, Desc(g, m), Prod(Constante(g), m));
    }
  }

  lemma UnoMenos(d: real, p: real, g: real, d': real, p': real)
    requires g > 0.0 && d * p == 1.0 && d' == d / g && p' == p * g
    ensures d' * p' == 1.0
  {
    assert d' * g == d;
    assert d' * p' == d' * g * p;
  }

  lemma MismosDerechos(e: Entrada, m: nat)
    requires e.Valida()
    ensures ConDerecho(CasoDe(e).hijos, m) == ConDerecho(e.hijos, m)
    ensures ParaConyuge(CasoDe(e).hijos, m) == ParaConyuge(e.hijos, m)
    ensures forall k, viuda | 0 <= k < |e.hijos| ::
              ParaHijo(CasoDe(e).hijos, k, viuda, m) == ParaHijo(e.hijos, k, viuda, m)
  {
    hide M.S, M.Vida.Valida;
    var c := CasoDe(e);
    assert ConDerecho(c.hijos, m) == ConDerecho(e.hijos, m);
    forall k | k in ConDerecho(e.hijos, m) ensures c.hijos[k].comun == e.hijos[k].comun { }
  }

  lemma SobDeTabla(e: Entrada, m: nat)
    requires e.Valida()
    ensures Sob(CasoDe(e), m) == Sobrevivientes(e, m)
  {
    hide M.S, M.Vida.Valida, Sob, ParaHijo, ParaConyuge, Cortada;
    var c := CasoDe(e);
    SobrevivenciaPorPersona(c, m);
    MismosDerechos(e, m);
    assert forall k: nat | k < |e.hijos| :: c.hijos[k].s(m) == M.S(e.hijos[k].s, m);
    SumaIgual(PartesDeHijos(c, m), PartesDeTabla(e, m), 0, |e.hijos|);
  }

  lemma PagoDeTabla(e: Entrada, m: nat)
    requires e.Valida()
    ensures Terminos(CasoDe(e))(m) == ValorDelMes(e, m)
  {
    hide M.S, M.Vida.Valida, Sob, Sobrevivientes, Desc;
    SobDeTabla(e, m);
    assert CasoDe(e).sc(m) == M.S(e.causante, m);
  }

  // The factor of any family sums over the 1344 months of the table what each is expected to pay, discounted; the
  // quota is 15 times g less the interest on the holder's own annuity; the pension is what is left over the factor.
  lemma FactorDesdeTablas(e: Entrada, saldo: real)
    requires e.Valida()
    ensures A(CasoDe(e)) == Suma(ValoresDelMes(e), 0, 1344)
    ensures Q(CasoDe(e)) == 15.0 * (e.g - (e.g - 1.0) * Suma(CausanteDelMes(e), 0, 1344))
    ensures var a, q := Suma(ValoresDelMes(e), 0, 1344), 15.0 * (e.g - (e.g - 1.0) * Suma(CausanteDelMes(e), 0, 1344));
            Pension(CasoDe(e), saldo).Ok? ==> Pension(CasoDe(e), saldo).P == (saldo - q) / a
  {
    hide M.S, M.Vida.Valida, PagoDelMes, Terminos, Desc, Suma, Termino;
    var c := CasoDe(e);
    forall m: nat ensures Terminos(c)(m) == ValoresDelMes(e)(m) { PagoDeTabla(e, m); }
    SumaIgual(Terminos(c), ValoresDelMes(e), 0, 1344);
    forall m: nat ensures Vivos(c.g, c.sc)(m) == CausanteDelMes(e)(m) { }
    SumaIgual(Vivos(c.g, c.sc), CausanteDelMes(e), 0, 1344);
  }
}
