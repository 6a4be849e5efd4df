// Objects in storage against marks in the notes: what agrees, what every call keeps, what a clean-up leaves.
module Almacen {
  import opened Marcas
  import opened Notas
  import opened NotasCorridas

  type Id = nat

  // leads/<lead>/<attachment>
  datatype Clave = Clave(lead: Id, id: string)

  // What a storage call did. A failed call may have taken effect before it failed.
  datatype Respuesta = Bien | FallaSinEfecto | FallaConEfecto {
    predicate Efecto() { !FallaSinEfecto? }
  }

  // What the UPDATE of the note did: it may match no row, or fail before or after committing.
  datatype Escritura = Escrita | SinFila | FallaSinEscribir | FallaEscrita {
    predicate Efecto() { Escrita? || FallaEscrita? }
  }

  // First failing call, or the number of calls.
  function PrimeraFalla(rs: seq<Respuesta>): (n: nat)
    ensures n <= |rs| && (n < |rs| ==> !rs[n].Bien?) && forall i | 0 <= i < n :: rs[i].Bien?
  {
    if rs == [] || !rs[0].Bien? then 0 else 1 + PrimeraFalla(rs[1..])
  }

  function LineasActivas(ms: seq<Marca>): (r: seq<LineaMarca>)
    ensures |r| == |ms|
  {
    seq(|ms|, i requires 0 <= i < |ms| => LineaMarca(true, ms[i]))
  }

  function ClavesDe(lead: Id, ms: seq<Marca>): (r: seq<Clave>)
    ensures |r| == |ms|
  {
    seq(|ms|, i requires 0 <= i < |ms| => Clave(lead, ms[i].id))
  }

  ghost predicate Distintas(ks: seq<Clave>) { forall i, j | 0 <= i < j < |ks| :: ks[i] != ks[j] }

  // Whether the object of attachment i stays in storage after a failed upload.
  predicate Queda(puts: seq<Respuesta>, deletes: seq<Respuesta>, i: nat)
    requires i < |puts| == |deletes|
  {
    var n := PrimeraFalla(puts);
    (i < n && !deletes[i].Efecto()) || (i == n && puts[n].Efecto())
  }

  // Nothing of a failed upload stays behind: the failing put left no object, and every compensating delete of
  // an uploaded object took effect.
  predicate LimpiezaCompleta(puts: seq<Respuesta>, deletes: seq<Respuesta>)
    requires |puts| == |deletes|
  {
    var n := PrimeraFalla(puts);
    (n < |puts| ==> !puts[n].Efecto()) && forall i | 0 <= i < n :: deletes[i].Efecto()
  }

  lemma NadaQueda(puts: seq<Respuesta>, deletes: seq<Respuesta>)
    requires |puts| == |deletes|
    ensures LimpiezaCompleta(puts, deletes) <==> forall i | 0 <= i < |puts| :: !Queda(puts, deletes, i)
  {
    var n := PrimeraFalla(puts);
    if forall i | 0 <= i < |puts| :: !Queda(puts, deletes, i) {
      forall i | 0 <= i < n ensures deletes[i].Efecto() { assert !Queda(puts, deletes, i); }
      if n < |puts| { assert !Queda(puts, deletes, n); }
    }
  }

  function Conjunto(ks: seq<Clave>): set<Clave> { set k | k in ks }

  // Outside the keys ks both stores agree.
  ghost predicate IgualFuera(a: map<Clave, Tipo>, b: map<Clave, Tipo>, ks: seq<Clave>) {
    forall k: Clave | k !in ks :: (k in a <==> k in b) && (k in a ==> a[k] == b[k])
  }

  // One mark against the storage: a deleted mark has no object; an active mark has one, of its own type,
  // unless a delete of it has already started.
  ghost predicate Coherente(a: map<Clave, Tipo>, usadas: set<Clave>, iniciados: set<Clave>, k: Clave, l: LineaMarca) {
    && k in usadas
    && (!l.activa ==> k !in a)
    && (l.activa ==> k in a || k in iniciados)
    && (l.activa && k in a ==> a[k] == l.marca.tipo)
  }

  // Storage and notes agree; no two marks of a lead have the same identifier.
  ghost predicate Acordes(a: map<Clave, Tipo>, m: map<Id, seq<LineaMarca>>, usadas: set<Clave>, iniciados: set<Clave>) {
    && a.Keys <= usadas
    && (forall lead, i | lead in m && 0 <= i < |m[lead]| ::
          Coherente(a, usadas, iniciados, Clave(lead, m[lead][i].marca.id), m[lead][i]))
    && (forall lead, i, j | lead in m && 0 <= i < j < |m[lead]| :: m[lead][i].marca.id != m[lead][j].marca.id)
  }

  // Only fresh keys changed, and the marks did not.
  lemma SinNotaMantiene(a: map<Clave, Tipo>, m: map<Id, seq<LineaMarca>>, usadas: set<Clave>, iniciados: set<Clave>,
                        a': map<Clave, Tipo>, iniciados': set<Clave>, ks: seq<Clave>)
    requires Acordes(a, m, usadas, iniciados) && IgualFuera(a', a, ks) && forall k | k in ks :: k !in usadas
    requires iniciados <= iniciados' && forall k | k in iniciados' :: k in iniciados || k in ks
    ensures Acordes(a', m, usadas + Conjunto(ks), iniciados')
  {
    forall k | k in a' ensures k in usadas + Conjunto(ks) {
      if k !in ks { assert k in a; }
    }
    forall lead, i | lead in m && 0 <= i < |m[lead]|
      ensures Coherente(a', usadas + Conjunto(ks), iniciados', Clave(lead, m[lead][i].marca.id), m[lead][i])
    {
      var k := Clave(lead, m[lead][i].marca.id);
      assert Coherente(a, usadas, iniciados, k, m[lead][i]);
      assert k !in ks;
    }
  }

  // A note with fresh marks was written: each has its object, or its delete has started.
  lemma NotaMantiene(a: map<Clave, Tipo>, m: map<Id, seq<LineaMarca>>, usadas: set<Clave>, iniciados: set<Clave>,
                     lead: Id, ms: seq<Marca>)
    requires Acordes(a, m, usadas, iniciados) && lead in m && Distintas(ClavesDe(lead, ms))
    requires forall i | 0 <= i < |ms| :: var k := ClavesDe(lead, ms)[i];
               && k in usadas && (k in a || k in iniciados) && (k in a ==> a[k] == ms[i].tipo)
    requires forall i, j | 0 <= i < |ms| && 0 <= j < |m[lead]| :: m[lead][j].marca.id != ms[i].id
    ensures Acordes(a, m[lead := m[lead] + LineasActivas(ms)], usadas, iniciados)
  {
    var m': map<Id, seq<LineaMarca>> := m[lead := m[lead] + LineasActivas(ms)];
    forall l, i | l in m' && 0 <= i < |m'[l]|
      ensures Coherente(a, usadas, iniciados, Clave(l, m'[l][i].marca.id), m'[l][i])
    {
      if l == lead && i >= |m[lead]| {
        assert Clave(l, m'[l][i].marca.id) == ClavesDe(lead, ms)[i - |m[lead]|];
      } else {
        assert m'[l][i] == m[l][i];
      }
    }
    forall l, i, j | l in m' && 0 <= i < j < |m'[l]| ensures m'[l][i].marca.id != m'[l][j].marca.id {
      if l == lead && i >= |m[lead]| {
        assert ClavesDe(lead, ms)[i - |m[lead]|] != ClavesDe(lead, ms)[j - |m[lead]|];
      }
    }
  }

  // No mark of the lead carries a key that was never drawn.
  lemma SinMarcaFresca(a: map<Clave, Tipo>, m: map<Id, seq<LineaMarca>>, usadas: set<Clave>, iniciados: set<Clave>,
                       lead: Id, ms: seq<Marca>)
    requires Acordes(a, m, usadas, iniciados) && lead in m && forall k | k in ClavesDe(lead, ms) :: k !in usadas
    ensures forall i, j | 0 <= i < |ms| && 0 <= j < |m[lead]| :: m[lead][j].marca.id != ms[i].id
  {
    forall i, j | 0 <= i < |ms| && 0 <= j < |m[lead]| ensures m[lead][j].marca.id != ms[i].id {
      assert Coherente(a, usadas, iniciados, Clave(lead, m[lead][j].marca.id), m[lead][j]);
      assert ClavesDe(lead, ms)[i] in ClavesDe(lead, ms);
    }
  }

  // Every object of the note is stored with its type.
  ghost predicate Guardados(a: map<Clave, Tipo>, lead: Id, ms: seq<Marca>) {
    forall i | 0 <= i < |ms| :: ClavesDe(lead, ms)[i] in a && a[ClavesDe(lead, ms)[i]] == ms[i].tipo
  }

  // What a failed upload leaves of its objects.
  ghost predicate Restos(a: map<Clave, Tipo>, lead: Id, ms: seq<Marca>, puts: seq<Respuesta>, deletes: seq<Respuesta>)
    requires |ms| == |puts| == |deletes|
  {
    forall i | 0 <= i < |ms| :: ClavesDe(lead, ms)[i] in a <==> Queda(puts, deletes, i)
  }

  // Starting a delete of any object keeps the agreement, whether or not it takes effect.
  lemma BorradoMantiene(a: map<Clave, Tipo>, m: map<Id, seq<LineaMarca>>, usadas: set<Clave>, iniciados: set<Clave>,
                        k: Clave)
    requires Acordes(a, m, usadas, iniciados)
    ensures Acordes(a, m, usadas, iniciados + {k}) && Acordes(a - {k}, m, usadas, iniciados + {k})
  {
    forall l, j | l in m && 0 <= j < |m[l]|
      ensures Coherente(a, usadas, iniciados + {k}, Clave(l, m[l][j].marca.id), m[l][j])
      ensures Coherente(a - {k}, usadas, iniciados + {k}, Clave(l, m[l][j].marca.id), m[l][j])
    {
      assert Coherente(a, usadas, iniciados, Clave(l, m[l][j].marca.id), m[l][j]);
    }
  }

  // So does marking the notes once the object is gone.
  lemma MarcadoMantiene(a: map<Clave, Tipo>, m: map<Id, seq<LineaMarca>>, usadas: set<Clave>, iniciados: set<Clave>,
                        lead: Id, x: Marca)
    requires Acordes(a, m, usadas, iniciados) && lead in m && Clave(lead, x.id) !in a
    ensures Acordes(a, m[lead := LineasMarcadas(m[lead], x)], usadas, iniciados)
  {
    var m': map<Id, seq<LineaMarca>> := m[lead := LineasMarcadas(m[lead], x)];
    forall l, j | l in m' && 0 <= j < |m'[l]|
      ensures Coherente(a, usadas, iniciados, Clave(l, m'[l][j].marca.id), m'[l][j])
    {
      assert Coherente(a, usadas, iniciados, Clave(l, m[l][j].marca.id), m[l][j]);
      assert m'[l][j].marca == m[l][j].marca;
    }
    forall l, i, j | l in m' && 0 <= i < j < |m'[l]| ensures m'[l][i].marca.id != m'[l][j].marca.id {
      assert m'[l][i].marca == m[l][i].marca && m'[l][j].marca == m[l][j].marca;
      assert m[l][i].marca.id != m[l][j].marca.id;
    }
  }

  // A new lead has no marks in its notes.
  lemma LeadNuevoMantiene(a: map<Clave, Tipo>, m: map<Id, seq<LineaMarca>>, usadas: set<Clave>, iniciados: set<Clave>,
                          lead: Id)
    requires Acordes(a, m, usadas, iniciados) && lead !in m
    ensures Acordes(a, m[lead := []], usadas, iniciados)
  {
  }

  lemma MenosLeadsMantiene(a: map<Clave, Tipo>, m: map<Id, seq<LineaMarca>>, usadas: set<Clave>, iniciados: set<Clave>,
                           lead: Id)
    requires Acordes(a, m, usadas, iniciados)
    ensures Acordes(a, m - {lead}, usadas, iniciados)
  {
  }

  lemma SinClavesFrescas(a: map<Clave, Tipo>, m: map<Id, seq<LineaMarca>>, usadas: set<Clave>, iniciados: set<Clave>,
                         ks: seq<Clave>)
    requires Acordes(a, m, usadas, iniciados) && forall k | k in ks :: k !in usadas
    ensures forall k | k in ks :: k !in a
  {
  }

  lemma {:induction false} PrimeraEs(rs: seq<Respuesta>, n: nat)
    requires n <= |rs| && (forall i | 0 <= i < n :: rs[i].Bien?) && (n < |rs| ==> !rs[n].Bien?)
    ensures PrimeraFalla(rs) == n
  {
    if n > 0 {
      PrimeraEs(rs[1..], n - 1);
    }
  }

  // The store is back to what it was exactly when no new key is left in it.
  lemma SinRestos(a: map<Clave, Tipo>, b: map<Clave, Tipo>, ks: seq<Clave>, puts: seq<Respuesta>,
      deletes: seq<Respuesta>)
    requires |ks| == |puts| == |deletes| && IgualFuera(a, b, ks)
    requires forall k | k in ks :: k !in b
    requires forall i | 0 <= i < |ks| :: ks[i] in a <==> Queda(puts, deletes, i)
    ensures a == b <==> LimpiezaCompleta(puts, deletes)
  {
    NadaQueda(puts, deletes);
    if LimpiezaCompleta(puts, deletes) {
      forall k ensures (k in a <==> k in b) && (k in a ==> a[k] == b[k]) {
        if k in ks { var i :| 0 <= i < |ks| && ks[i] == k; }
      }
    } else {
      var i :| 0 <= i < |puts| && Queda(puts, deletes, i);
      assert ks[i] in a && ks[i] in ks;
    }
  }
}
