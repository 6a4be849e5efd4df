// The lanes of one day of the calendar: a greedy in-place colouring of overlapping meetings.
module Carriles {

  // A meeting of the day, in minutes. The engine writes lane and lanes; the interval never changes.
  class Evento {
    const start: int
    const dur: int
    var lane: int
    var lanes: int

    constructor (start: int, dur: int)
      ensures this.start == start && this.dur == dur
    {
      this.start, this.dur := start, dur;
      lane, lanes := 0, 0;
    }

    function Fin(): int { start + dur }
  }

  predicate VivoEn(e: Evento, t: int) { e.start <= t < e.Fin() }

  predicate Solapan(a: Evento, b: Evento) { a.start < b.Fin() && b.start < a.Fin() }

  ghost predicate Distintos<T>(s: seq<T>) { forall i, j | 0 <= i < j < |s| :: s[i] != s[j] }

  // What the calendar hands over: no meeting before the start of the day, none shorter than 15 minutes.
  ghost predicate EnHorario(dia: seq<Evento>) { forall e | e in dia :: e.start >= 0 && e.dur >= 15 }

  // ------------------------------------------------------------------ the sort key

  predicate Antes(a: Evento, b: Evento) { a.start < b.start || (a.start == b.start && a.dur <= b.dur) }

  ghost predicate Ordenado(s: seq<Evento>) { forall i, j | 0 <= i < j < |s| :: Antes(s[i], s[j]) }

  function Insertar(e: Evento, s: seq<Evento>): seq<Evento> {
    if s == [] || Antes(s[|s| - 1], e) then s + [e]
    else Insertar(e, s[..|s| - 1]) + [s[|s| - 1]]
  }

  // Stable sort by (start, dur).
  function Ordenar(s: seq<Evento>): seq<Evento> {
    if s == [] then [] else Insertar(s[|s| - 1], Ordenar(s[..|s| - 1]))
  }

  lemma {:induction false} InsertarConserva(e: Evento, s: seq<Evento>)
    ensures multiset(Insertar(e, s)) == multiset(s) + multiset{e}
    ensures forall x | x in Insertar(e, s) :: x == e || x in s
  {
    if s != [] && !Antes(s[|s| - 1], e) {
      assert s == s[..|s| - 1] + [s[|s| - 1]];
      InsertarConserva(e, s[..|s| - 1]);
    }
  }

  lemma {:induction false} InsertarOrdena(e: Evento, s: seq<Evento>)
    requires Ordenado(s)
    ensures Ordenado(Insertar(e, s))
  {
    if s != [] && !Antes(s[|s| - 1], e) {
      var r := s[..|s| - 1];
      InsertarOrdena(e, r);
      InsertarConserva(e, r);
      var t := Insertar(e, r);
      forall k | 0 <= k < |t| ensures Antes(t[k], s[|s| - 1]) {
        assert t[k] in t;
        if t[k] != e {
          var i :| 0 <= i < |r| && r[i] == t[k];
          assert Antes(s[i], s[|s| - 1]);
        }
      }
      assert Insertar(e, s) == t + [s[|s| - 1]];
    }
  }

  lemma {:induction false} OrdenarOrdena(s: seq<Evento>)
    ensures Ordenado(Ordenar(s)) && multiset(Ordenar(s)) == multiset(s)
  {
    if s != [] {
      assert s == s[..|s| - 1] + [s[|s| - 1]];
      OrdenarOrdena(s[..|s| - 1]);
      InsertarOrdena(s[|s| - 1], Ordenar(s[..|s| - 1]));
      InsertarConserva(s[|s| - 1], Ordenar(s[..|s| - 1]));
    }
  }

  // The meetings of one start and one duration, in order.
  function ConClave(s: seq<Evento>, start: int, dur: int): seq<Evento> {
    if s == [] then []
    else
      var e := s[|s| - 1];
      ConClave(s[..|s| - 1], start, dur) + if e.start == start && e.dur == dur then [e] else []
  }

  lemma {:induction false} ConClaveSuma(a: seq<Evento>, b: seq<Evento>, start: int, dur: int)
    ensures ConClave(a + b, start, dur) == ConClave(a, start, dur) + ConClave(b, start, dur)
  {
    if b == [] {
      assert a + b == a;
    } else {
      assert (a + b)[..|a + b| - 1] == a + b[..|b| - 1];
      ConClaveSuma(a, b[..|b| - 1], start, dur);
    }
  }

  lemma {:induction false} ConClaveNada(s: seq<Evento>, start: int, dur: int)
    requires forall e | e in s :: !(e.start == start && e.dur == dur)
    ensures ConClave(s, start, dur) == []
  {
    if s != [] { ConClaveNada(s[..|s| - 1], start, dur); }
  }

  // Inserting puts e after every meeting whose key is not larger.
  lemma {:induction false} InsertarEn(e: Evento, s: seq<Evento>) returns (p: nat)
    ensures p <= |s| && Insertar(e, s) == s[..p] + [e] + s[p..]
    ensures forall x | x in s[p..] :: !Antes(x, e)
  {
    if s == [] || Antes(s[|s| - 1], e) {
      p := |s|;
      assert s[..p] == s && s[p..] == [];
    } else {
      var r, x := s[..|s| - 1], s[|s| - 1];
      p := InsertarEn(e, r);
      assert s[p..] == r[p..] + [x];
      assert r[..p] == s[..p];
      assert r[..p] + [e] + r[p..] + [x] == r[..p] + [e] + (r[p..] + [x]);
    }
  }

  lemma InsertarEstable(e: Evento, s: seq<Evento>, start: int, dur: int)
    ensures ConClave(Insertar(e, s), start, dur) == ConClave(s + [e], start, dur)
  {
    hide Insertar, ConClave;
    var p := InsertarEn(e, s);
    var a, b := s[..p], s[p..];
    ConClaveSuma(a + [e], b, start, dur);
    ConClaveSuma(a, [e], start, dur);
    assert s == a + b;
    ConClaveSuma(s, [e], start, dur);
    ConClaveSuma(a, b, start, dur);
    if e.start == start && e.dur == dur {
      ConClaveNada(b, start, dur);
    } else {
      ConClaveNada([e], start, dur);
    }
  }

  // The sort is stable: meetings of the same start and duration keep their order.
  lemma {:induction false} OrdenarEstable(s: seq<Evento>, start: int, dur: int)
    ensures ConClave(Ordenar(s), start, dur) == ConClave(s, start, dur)
  {
    hide Insertar;
    if s != [] {
      var r, e := s[..|s| - 1], s[|s| - 1];
      OrdenarEstable(r, start, dur);
      InsertarEstable(e, Ordenar(r), start, dur);
      assert (Ordenar(r) + [e])[..|Ordenar(r)|] == Ordenar(r);
    }
  }

  lemma MismosElementos(s: seq<Evento>, r: seq<Evento>)
    requires multiset(s) == multiset(r)
    ensures forall x :: x in s <==> x in r
  {
    forall x ensures x in s <==> x in r {
      assert x in s <==> x in multiset(s);
      assert x in r <==> x in multiset(r);
    }
  }

  lemma MismoHorario(s: seq<Evento>, r: seq<Evento>)
    requires multiset(s) == multiset(r) && EnHorario(s)
    ensures EnHorario(r)
  {
    MismosElementos(s, r);
  }

  lemma MismosDistintos(s: seq<Evento>, r: seq<Evento>)
    requires multiset(s) == multiset(r) && Distintos(s)
    ensures Distintos(r)
  {
    forall i, j | 0 <= i < j < |r| ensures r[i] != r[j] {
      if r[i] == r[j] {
        var x := r[i];
        assert r == r[..i] + [r[i]] + r[i + 1..j] + [r[j]] + r[j + 1..];
        assert multiset(r)[x] >= 2;
        Repetido(s, x);
      }
    }
  }

  lemma {:induction false} Repetido(s: seq<Evento>, x: Evento)
    requires multiset(s)[x] >= 2
    ensures !Distintos(s)
  {
    assert s == s[..|s| - 1] + [s[|s| - 1]];
    if s[|s| - 1] == x {
      assert multiset(s[..|s| - 1])[x] >= 1;
      assert x in s[..|s| - 1];
      var i :| 0 <= i < |s| - 1 && s[i] == x;
      assert s[i] == s[|s| - 1];
    } else {
      Repetido(s[..|s| - 1], x);
      var i, j :| 0 <= i < j < |s| - 1 && s[i] == s[j];
    }
  }

  // ------------------------------------------------------------------ what the pass establishes

  // All predicates speak of the first |grupos| == |lanes| meetings of the sorted day.

  // Meeting j overlaps an earlier member of its group.
  ghost predicate Enlazado(dia: seq<Evento>, grupos: seq<nat>, j: nat)
    requires j < |grupos| <= |dia|
  {
    exists i :: 0 <= i < j && grupos[i] == grupos[j] && Solapan(dia[i], dia[j])
  }

  // Groups are consecutive runs, disjoint from each other and connected within.
  ghost predicate GruposConexos(dia: seq<Evento>, grupos: seq<nat>)
    requires |grupos| <= |dia|
  {
    && (forall i, j | 0 <= i < j < |grupos| :: grupos[i] <= grupos[j])
    && (forall i, j | 0 <= i < j < |grupos| && grupos[i] != grupos[j] :: !Solapan(dia[i], dia[j]))
    && (forall j | 0 < j < |grupos| && grupos[j - 1] == grupos[j] :: Enlazado(dia, grupos, j))
  }

  ghost predicate Ocupado(dia: seq<Evento>, grupos: seq<nat>, lanes: seq<int>, j: nat, l: int)
    requires j < |grupos| == |lanes| <= |dia|
  {
    exists i :: 0 <= i < j && grupos[i] == grupos[j] && lanes[i] == l && VivoEn(dia[i], dia[j].start)
  }

  // First fit: no clash within a lane, and every lower lane is busy when the meeting starts.
  ghost predicate PrimerCarril(dia: seq<Evento>, grupos: seq<nat>, lanes: seq<int>, j: nat)
    requires j < |grupos| == |lanes| <= |dia|
  {
    && lanes[j] >= 0
    && (forall i | 0 <= i < j && lanes[i] == lanes[j] :: !Solapan(dia[i], dia[j]))
    && (forall l | 0 <= l < lanes[j] :: Ocupado(dia, grupos, lanes, j, l))
  }

  // One meeting of group k in each of total lanes, all of them live at the instant t.
  ghost predicate EsPico(dia: seq<Evento>, grupos: seq<nat>, lanes: seq<int>, k: nat, total: nat, t: int, ws: seq<nat>)
    requires |grupos| == |lanes| <= |dia|
  {
    && |ws| == total
    && forall l | 0 <= l < total ::
         ws[l] < |grupos| && grupos[ws[l]] == k && lanes[ws[l]] == l && VivoEn(dia[ws[l]], t)
  }

  ghost predicate TienePico(dia: seq<Evento>, grupos: seq<nat>, lanes: seq<int>, k: nat, total: nat)
    requires |grupos| == |lanes| <= |dia|
  {
    exists t, ws :: EsPico(dia, grupos, lanes, k, total, t, ws)
  }

  // ------------------------------------------------------------------ the pass, on values

  // The variables of the loop after |gr| meetings, with the group numbers, the lanes handed out, the totals
  // of the closed groups and the instant at which the open group last needed a new lane.
  datatype Pase = Pase(
    gr: seq<nat>, ln: seq<int>, g0: nat, fines: seq<int>, fin: int, t: int, ws: seq<nat>, tot: seq<nat>)

  ghost predicate Avance(dia: seq<Evento>, p: Pase) {
    && p.g0 <= |p.gr| == |p.ln| <= |dia|
    && (forall i | 0 <= i < p.g0 :: p.gr[i] < |p.tot|)
    && (forall i | p.g0 <= i < |p.gr| :: p.gr[i] == |p.tot|)
    && GruposConexos(dia, p.gr)
    && (forall i, j | 0 <= i < p.g0 <= j < |dia| :: dia[i].Fin() <= dia[j].start)
    && (forall j | 0 <= j < |p.gr| :: PrimerCarril(dia, p.gr, p.ln, j))
    && Abierto(dia, p)
    && (forall i | 0 <= i < p.g0 :: p.ln[i] < p.tot[p.gr[i]])
    && (forall k | 0 <= k < |p.tot| :: TienePico(dia, p.gr, p.ln, k, p.tot[k]))
    && EsPico(dia, p.gr, p.ln, |p.tot|, |p.fines|, p.t, p.ws)
  }

  // The open group: its latest end, and the end of the last meeting in each lane.
  ghost predicate Abierto(dia: seq<Evento>, p: Pase)
    requires p.g0 <= |p.gr| == |p.ln| <= |dia|
  {
    && (p.g0 < |p.gr| <==> p.fines != [])
    && (forall i | p.g0 <= i < |p.gr| :: dia[i].Fin() <= p.fin)
    && (p.g0 == |p.gr| ==> p.fin == -1)
    && (p.g0 < |p.gr| ==> exists i :: p.g0 <= i < |p.gr| && dia[i].Fin() == p.fin)
    && (forall i | p.g0 <= i < |p.gr| :: 0 <= p.ln[i] < |p.fines| && dia[i].Fin() <= p.fines[p.ln[i]])
    && (forall l | 0 <= l < |p.fines| :: UltimoDe(dia, p, l))
  }

  ghost predicate UltimoDe(dia: seq<Evento>, p: Pase, l: nat)
    requires p.g0 <= |p.gr| == |p.ln| <= |dia| && l < |p.fines|
  {
    exists i :: p.g0 <= i < |p.gr| && p.ln[i] == l && dia[i].Fin() == p.fines[l]
  }

  const VACIO := Pase([], [], 0, [], -1, 0, [], [])

  lemma AvanceVacio(dia: seq<Evento>)
    ensures Avance(dia, VACIO)
  {
  }

  function Cerrado(p: Pase): Pase {
    Pase(p.gr, p.ln, |p.gr|, [], -1, 0, [], p.tot + [if |p.fines| > 1 then |p.fines| else 1])
  }

  // Closing the open group before a meeting that starts at or after its latest end, or at the end of the day.
  lemma AvanceCerrado(dia: seq<Evento>, p: Pase)
    requires Avance(dia, p) && Ordenado(dia) && p.g0 < |p.gr|
    requires |p.gr| < |dia| ==> dia[|p.gr|].start >= p.fin
    ensures Avance(dia, Cerrado(p))
  {
    var q := Cerrado(p);
    forall i, j | 0 <= i < q.g0 <= j < |dia| ensures dia[i].Fin() <= dia[j].start {
      if j > |p.gr| {
        assert Antes(dia[|p.gr|], dia[j]);
      }
    }
    forall k | 0 <= k < |q.tot| ensures TienePico(dia, q.gr, q.ln, k, q.tot[k]) {
      if k < |p.tot| {
        assert TienePico(dia, p.gr, p.ln, k, p.tot[k]);
      } else {
        assert EsPico(dia, q.gr, q.ln, k, q.tot[k], p.t, p.ws);
      }
    }
  }

  // Placing the next meeting in lane c: the first whose last meeting has ended, or a new one.
  ghost predicate Colocable(dia: seq<Evento>, p: Pase, c: nat) {
    && Avance(dia, p) && Ordenado(dia) && |p.gr| < |dia|
    && EnHorario(dia)
    && (p.g0 < |p.gr| ==> dia[|p.gr|].start < p.fin)
    && c <= |p.fines|
    && (forall l | 0 <= l < c :: p.fines[l] > dia[|p.gr|].start)
    && (c < |p.fines| ==> p.fines[c] <= dia[|p.gr|].start)
  }

  function Colocado(p: Pase, e: Evento, c: nat, t: int, ws: seq<nat>): Pase
    requires c <= |p.fines|
  {
    Pase(p.gr + [|p.tot|], p.ln + [c], p.g0,
         if c < |p.fines| then p.fines[c := e.Fin()] else p.fines + [e.Fin()],
         if p.fin >= e.Fin() then p.fin else e.Fin(), t, ws, p.tot)
  }

  // The last meeting of each of the first k lanes of the open group.
  lemma {:induction false} Ultimos(dia: seq<Evento>, p: Pase, k: nat) returns (ws: seq<nat>)
    requires Avance(dia, p) && k <= |p.fines|
    ensures |ws| == k
    ensures forall l | 0 <= l < k :: p.g0 <= ws[l] < |p.gr| && p.ln[ws[l]] == l && dia[ws[l]].Fin() == p.fines[l]
  {
    if k == 0 {
      ws := [];
    } else {
      ws := Ultimos(dia, p, k - 1);
      assert UltimoDe(dia, p, k - 1);
      var i :| p.g0 <= i < |p.gr| && p.ln[i] == k - 1 && dia[i].Fin() == p.fines[k - 1];
      ws := ws + [i];
    }
  }

  lemma AvanceColocado(dia: seq<Evento>, p: Pase, c: nat) returns (t: int, ws: seq<nat>)
    requires Colocable(dia, p, c)
    ensures Avance(dia, Colocado(p, dia[|p.gr|], c, t, ws))
  {
    hide PrimerCarril, GruposConexos, Abierto, EsPico, TienePico, Ordenado, EnHorario;
    var n := |p.gr|;
    if c < |p.fines| {
      t, ws := p.t, p.ws;
    } else {
      ws := Ultimos(dia, p, |p.fines|);
      t, ws := dia[n].start, ws + [n];
    }
    var q := Colocado(p, dia[n], c, t, ws);
    ColocadoConexo(dia, p, c);
    ColocadoCarril(dia, p, c);
    ColocadoAbierto(dia, p, c, t, ws);
    ColocadoPicos(dia, p, c);
    ColocadoPico(dia, p, c, t, ws);
    assert q.gr[..n] == p.gr && q.ln[..n] == p.ln;
  }

  lemma ColocadoPicos(dia: seq<Evento>, p: Pase, c: nat)
    requires |p.gr| == |p.ln| < |dia|
    requires forall k | 0 <= k < |p.tot| :: TienePico(dia, p.gr, p.ln, k, p.tot[k])
    ensures forall k | 0 <= k < |p.tot| :: TienePico(dia, p.gr + [|p.tot|], p.ln + [c], k, p.tot[k])
  {
    hide TienePico;
    forall k | 0 <= k < |p.tot| ensures TienePico(dia, p.gr + [|p.tot|], p.ln + [c], k, p.tot[k]) {
      PicoSigue(dia, p.gr, p.ln, |p.tot|, c, k, p.tot[k]);
    }
  }

  lemma PicoSigue(dia: seq<Evento>, gr: seq<nat>, ln: seq<int>, g: nat, c: int, k: nat, total: nat)
    requires |gr| == |ln| < |dia| && TienePico(dia, gr, ln, k, total)
    ensures TienePico(dia, gr + [g], ln + [c], k, total)
  {
    var t, ws :| EsPico(dia, gr, ln, k, total, t, ws);
    assert EsPico(dia, gr + [g], ln + [c], k, total, t, ws);
  }

  lemma ColocadoPico(dia: seq<Evento>, p: Pase, c: nat, t: int, ws: seq<nat>)
    requires Colocable(dia, p, c)
    requires c < |p.fines| ==> t == p.t && ws == p.ws
    requires c == |p.fines| ==> t == dia[|p.gr|].start && |ws| == c + 1 && ws[c] == |p.gr|
    requires c == |p.fines| ==>
      forall l | 0 <= l < c :: p.g0 <= ws[l] < |p.gr| && p.ln[ws[l]] == l && dia[ws[l]].Fin() == p.fines[l]
    ensures var q := Colocado(p, dia[|p.gr|], c, t, ws);
            EsPico(dia, q.gr, q.ln, |q.tot|, |q.fines|, t, ws)
  {
    hide PrimerCarril, GruposConexos, TienePico, Abierto;
    if c == |p.fines| {
      forall l | 0 <= l < c ensures VivoEn(dia[ws[l]], t) {
        assert Antes(dia[ws[l]], dia[|p.gr|]);
      }
    }
  }

  lemma ColocadoConexo(dia: seq<Evento>, p: Pase, c: nat)
    requires Colocable(dia, p, c)
    ensures GruposConexos(dia, p.gr + [|p.tot|])
  {
    hide PrimerCarril, EsPico, TienePico, Abierto, Enlazado;
    var n := |p.gr|;
    var gr := p.gr + [|p.tot|];
    forall i, j | 0 <= i < j < |gr| && gr[i] != gr[j] ensures !Solapan(dia[i], dia[j]) {
      if j == n {
        assert i < p.g0;
      }
    }
    forall j | 0 < j < |gr| && gr[j - 1] == gr[j] ensures Enlazado(dia, gr, j) {
      if j < n {
        EnlaceSigue(dia, p.gr, |p.tot|, j);
      } else {
        EnlaceNuevo(dia, p, c);
      }
    }
  }

  lemma EnlaceSigue(dia: seq<Evento>, gr: seq<nat>, g: nat, j: nat)
    requires j < |gr| < |dia| && Enlazado(dia, gr, j)
    ensures Enlazado(dia, gr + [g], j)
  {
    var i :| 0 <= i < j && gr[i] == gr[j] && Solapan(dia[i], dia[j]);
    assert (gr + [g])[i] == (gr + [g])[j];
  }

  lemma EnlaceNuevo(dia: seq<Evento>, p: Pase, c: nat)
    requires Colocable(dia, p, c) && p.g0 < |p.gr|
    ensures Enlazado(dia, p.gr + [|p.tot|], |p.gr|)
  {
    hide PrimerCarril, EsPico, TienePico, UltimoDe;
    var n := |p.gr|;
    var i :| p.g0 <= i < n && dia[i].Fin() == p.fin;
    assert Antes(dia[i], dia[n]);
    assert (p.gr + [|p.tot|])[i] == (p.gr + [|p.tot|])[n] && Solapan(dia[i], dia[n]);
  }

  lemma ColocadoCarril(dia: seq<Evento>, p: Pase, c: nat)
    requires Colocable(dia, p, c)
    ensures forall j | 0 <= j <= |p.gr| :: PrimerCarril(dia, p.gr + [|p.tot|], p.ln + [c], j)
  {
    hide Abierto, GruposConexos, EsPico, TienePico, PrimerCarril;
    forall j | 0 <= j <= |p.gr| ensures PrimerCarril(dia, p.gr + [|p.tot|], p.ln + [c], j) {
      if j < |p.gr| {
        CarrilSigue(dia, p.gr, p.ln, |p.tot|, c, j);
      } else {
        CarrilNuevo(dia, p, c);
      }
    }
  }

  lemma CarrilSigue(dia: seq<Evento>, gr: seq<nat>, ln: seq<int>, g: nat, c: int, j: nat)
    requires j < |gr| == |ln| < |dia| && PrimerCarril(dia, gr, ln, j)
    ensures PrimerCarril(dia, gr + [g], ln + [c], j)
  {
    forall l | 0 <= l < ln[j] ensures Ocupado(dia, gr + [g], ln + [c], j, l) {
      assert Ocupado(dia, gr, ln, j, l);
      var i :| 0 <= i < j && gr[i] == gr[j] && ln[i] == l && VivoEn(dia[i], dia[j].start);
      assert (gr + [g])[i] == (gr + [g])[j] && (ln + [c])[i] == l;
    }
  }

  lemma CarrilNuevo(dia: seq<Evento>, p: Pase, c: nat)
    requires Colocable(dia, p, c)
    ensures PrimerCarril(dia, p.gr + [|p.tot|], p.ln + [c], |p.gr|)
  {
    hide GruposConexos, EsPico, TienePico;
    var n := |p.gr|;
    var gr, ln := p.gr + [|p.tot|], p.ln + [c];
    forall i | 0 <= i < n && ln[i] == c ensures !Solapan(dia[i], dia[n]) {
      if i >= p.g0 {
        assert dia[i].Fin() <= p.fines[c];
      }
    }
    forall l | 0 <= l < c ensures Ocupado(dia, gr, ln, n, l) {
      assert UltimoDe(dia, p, l);
      var i :| p.g0 <= i < n && p.ln[i] == l && dia[i].Fin() == p.fines[l];
      assert Antes(dia[i], dia[n]);
      assert gr[i] == gr[n] && ln[i] == l && VivoEn(dia[i], dia[n].start);
    }
  }

  lemma ColocadoAbierto(dia: seq<Evento>, p: Pase, c: nat, t: int, ws: seq<nat>)
    requires Colocable(dia, p, c)
    ensures Abierto(dia, Colocado(p, dia[|p.gr|], c, t, ws))
  {
    hide PrimerCarril, GruposConexos, EsPico, TienePico, UltimoDe;
    var n := |p.gr|;
    var q := Colocado(p, dia[n], c, t, ws);
    forall l | 0 <= l < |q.fines| ensures UltimoDe(dia, q, l) {
      UltimoSigue(dia, p, c, t, ws, l);
    }
    if q.fin == dia[n].Fin() {
      assert q.g0 <= n < |q.gr| && dia[n].Fin() == q.fin;
    } else {
      var i :| p.g0 <= i < n && dia[i].Fin() == p.fin;
      assert i < |q.gr|;
    }
    forall i | q.g0 <= i < |q.gr| ensures 0 <= q.ln[i] < |q.fines| && dia[i].Fin() <= q.fines[q.ln[i]] {
      if i < n {
        assert dia[i].Fin() <= p.fines[p.ln[i]];
      }
    }
  }

  lemma UltimoSigue(dia: seq<Evento>, p: Pase, c: nat, t: int, ws: seq<nat>, l: nat)
    requires p.g0 <= |p.gr| == |p.ln| < |dia| && c <= |p.fines|
    requires l != c ==> l < |p.fines| && UltimoDe(dia, p, l)
    ensures UltimoDe(dia, Colocado(p, dia[|p.gr|], c, t, ws), l)
  {
    var n := |p.gr|;
    var q := Colocado(p, dia[n], c, t, ws);
    if l == c {
      assert q.ln[n] == l && dia[n].Fin() == q.fines[l];
    } else {
      var i :| p.g0 <= i < n && p.ln[i] == l && dia[i].Fin() == p.fines[l];
      assert q.ln[i] == l && dia[i].Fin() == q.fines[l];
    }
  }

  // ------------------------------------------------------------------ the pass, in place

  // The first lane whose last meeting has ended.
  method PrimerLibre(fines: seq<int>, start: int) returns (carril: nat)
    ensures carril <= |fines|
    ensures forall l | 0 <= l < carril :: fines[l] > start
    ensures carril < |fines| ==> fines[carril] <= start
  {
    carril := 0;
    while carril < |fines| && fines[carril] > start
      invariant carril <= |fines|
      invariant forall l | 0 <= l < carril :: fines[l] > start
    {
      carril := carril + 1;
    }
  }

  // What the first |gr| meetings already carry: their lane, and the total of their group once it is closed.
  ghost predicate Escrito(dia: seq<Evento>, p: Pase)
    reads dia
  {
    && p.g0 <= |p.gr| == |p.ln| <= |dia|
    && (forall i | 0 <= i < |p.gr| :: dia[i].lane == p.ln[i])
    && (forall i | 0 <= i < p.g0 :: p.gr[i] < |p.tot| && dia[i].lanes == p.tot[p.gr[i]])
  }

  // cerrar: every meeting of the open group learns its number of lanes.
  method Cerrar(dia: seq<Evento>, ghost p: Pase, grupo: seq<Evento>, fines: seq<int>)
    requires Distintos(dia) && Avance(dia, p) && Escrito(dia, p)
    requires grupo == dia[p.g0..|p.gr|] && fines == p.fines
    modifies dia
    ensures Escrito(dia, Cerrado(p))
  {
    hide PrimerCarril, GruposConexos, Abierto, EsPico, TienePico;
    for i := 0 to |grupo|
      invariant forall j | 0 <= j < |p.gr| :: dia[j].lane == p.ln[j]
      invariant forall j | 0 <= j < p.g0 :: dia[j].lanes == p.tot[p.gr[j]]
      invariant forall j | p.g0 <= j < p.g0 + i :: dia[j].lanes == if |fines| > 1 then |fines| else 1
    {
      assert grupo[i] == dia[p.g0 + i];
      grupo[i].lanes := if |fines| > 1 then |fines| else 1;
    }
  }

  method Colocar(dia: seq<Evento>, ghost p: Pase, e: Evento, c: nat, ghost t: int, ghost ws: seq<nat>)
    requires Distintos(dia) && Escrito(dia, p) && |p.gr| < |dia| && e == dia[|p.gr|] && c <= |p.fines|
    modifies e
    ensures Escrito(dia, Colocado(p, e, c, t, ws))
  {
    e.lane := c;
  }

  lemma SigueColocable(dia: seq<Evento>, p: Pase, c: nat)
    requires Avance(dia, p) && Ordenado(dia) && |p.gr| < |dia|
    requires EnHorario(dia)
    requires p.g0 < |p.gr| ==> dia[|p.gr|].start < p.fin
    requires c <= |p.fines|
    requires forall l | 0 <= l < c :: p.fines[l] > dia[|p.gr|].start
    requires c < |p.fines| ==> p.fines[c] <= dia[|p.gr|].start
    ensures Colocable(dia, p, c)
  {
  }

  // The loop over the sorted meetings.
  method Repartir(dia: seq<Evento>) returns (ghost p: Pase)
    requires Distintos(dia) && Ordenado(dia) && EnHorario(dia)
    modifies dia
    ensures p.g0 == |p.gr| == |dia| && Avance(dia, p) && Escrito(dia, p)
  {
    hide Avance, Colocable, Escrito, Ordenado, Distintos, EnHorario, Colocado;
    p := VACIO;
    AvanceVacio(dia);
    assert Escrito(dia, p) by { EscritoVacio(dia); }
    var grupo: seq<Evento>, finGrupo, fines: seq<int> := [], -1, [];
    var n := 0;
    while n < |dia|
      invariant p.g0 <= |p.gr| == n <= |dia| && Avance(dia, p) && Escrito(dia, p)
      invariant p.fines == fines && p.fin == finGrupo && grupo == dia[p.g0..n]
      invariant n > 0 ==> p.g0 < n
    {
      var e := dia[n];
      if grupo != [] && e.start >= finGrupo {
        Cerrar(dia, p, grupo, fines);
        AvanceCerrado(dia, p);
        p := Cerrado(p);
        grupo, fines, finGrupo := [], [], -1;
      }
      var carril := PrimerLibre(fines, e.start);
      SigueColocable(dia, p, carril);
      ghost var t, ws := AvanceColocado(dia, p, carril);
      Colocar(dia, p, e, carril, t, ws);
      ColocadoCampos(p, e, carril, t, ws);
      p := Colocado(p, e, carril, t, ws);
      TramoMas(dia, p.g0, n);
      fines := if carril == |fines| then fines + [e.Fin()] else fines[carril := e.Fin()];
      grupo := grupo + [e];
      finGrupo := if finGrupo >= e.Fin() then finGrupo else e.Fin();
      n := n + 1;
    }
    if grupo != [] {
      Cerrar(dia, p, grupo, fines);
      AvanceCerrado(dia, p);
      p := Cerrado(p);
    }
  }

  lemma TramoMas(dia: seq<Evento>, a: nat, n: nat)
    requires a <= n < |dia|
    ensures dia[a..n + 1] == dia[a..n] + [dia[n]]
  {
  }

  lemma ColocadoCampos(p: Pase, e: Evento, c: nat, t: int, ws: seq<nat>)
    requires c <= |p.fines|
    ensures var q := Colocado(p, e, c, t, ws);
            && |q.gr| == |p.gr| + 1 && q.g0 == p.g0
            && q.fines == (if c < |p.fines| then p.fines[c := e.Fin()] else p.fines + [e.Fin()])
            && q.fin == if p.fin >= e.Fin() then p.fin else e.Fin()
  {
  }

  lemma EscritoVacio(dia: seq<Evento>)
    ensures Escrito(dia, VACIO)
  {
  }

  // The lanes of the meetings, as a value.
  ghost function Lanes(dia: seq<Evento>): (r: seq<int>)
    reads dia
    ensures |r| == |dia|
  {
    seq(|dia|, i requires 0 <= i < |dia| reads dia => dia[i].lane)
  }

  // A finished day: connected groups, each meeting in the lowest lane free at its start, and for each group as
  // many lanes as it has meetings live at some one instant.
  ghost predicate Repartido(dia: seq<Evento>, grupos: seq<nat>)
    reads dia
  {
    && |grupos| == |dia| && GruposConexos(dia, grupos)
    && (forall j | 0 <= j < |dia| :: PrimerCarril(dia, grupos, Lanes(dia), j))
    && (forall j | 0 <= j < |dia| :: 0 <= dia[j].lane < dia[j].lanes)
    && (forall i, j | 0 <= i < j < |dia| && grupos[i] == grupos[j] :: dia[i].lanes == dia[j].lanes)
    && (forall j | 0 <= j < |dia| :: TienePico(dia, grupos, Lanes(dia), grupos[j], dia[j].lanes))
  }

  lemma PaseFinal(dia: seq<Evento>, p: Pase)
    requires p.g0 == |p.gr| == |dia| && Avance(dia, p) && Escrito(dia, p)
    ensures Repartido(dia, p.gr)
  {
    hide GruposConexos, Abierto, EsPico, TienePico;
    assert Lanes(dia) == p.ln;
    forall j | 0 <= j < |dia| ensures 0 <= dia[j].lane < dia[j].lanes {
      assert PrimerCarril(dia, p.gr, p.ln, j);
    }
    forall j | 0 <= j < |dia| ensures TienePico(dia, p.gr, p.ln, p.gr[j], dia[j].lanes) {
      assert dia[j].lanes == p.tot[p.gr[j]];
    }
  }

  class Dia {
    var eventos: seq<Evento>

    constructor (eventos: seq<Evento>)
      ensures this.eventos == eventos
    {
      this.eventos := eventos;
    }

    // _asignar_carriles: sorts the list in place and writes lane and lanes into its meetings.
    method AsignarCarriles() returns (ghost grupos: seq<nat>)
      requires Distintos(eventos) && EnHorario(eventos)
      modifies this, eventos
      ensures eventos == Ordenar(old(eventos))
      ensures Ordenado(eventos) && multiset(eventos) == multiset(old(eventos))
      ensures forall i, j | 0 <= i < j < |eventos| ::
                eventos[i].start < eventos[j].start
                || (eventos[i].start == eventos[j].start && eventos[i].dur <= eventos[j].dur)
      ensures forall start, dur :: ConClave(eventos, start, dur) == ConClave(old(eventos), start, dur)
      ensures Repartido(eventos, grupos)
    {
      hide Avance, Escrito, Repartido, EnHorario, Ordenado;
      OrdenarOrdena(eventos);
      OrdenPorClave(Ordenar(eventos));
      forall start, dur ensures ConClave(Ordenar(eventos), start, dur) == ConClave(eventos, start, dur) {
        OrdenarEstable(eventos, start, dur);
      }
      MismosElementos(eventos, Ordenar(eventos));
      MismosDistintos(eventos, Ordenar(eventos));
      MismoHorario(eventos, Ordenar(eventos));
      var dia := Ordenar(eventos);
      eventos := dia;
      assert forall i | 0 <= i < |dia| :: dia[i] in dia && dia[i] in old(eventos);
      ghost var p := Repartir(dia);
      PaseFinal(dia, p);
      grupos := p.gr;
    }
  }

  // ------------------------------------------------------------------ no fewer lanes are possible

  // Another way to hand out lanes: no two overlapping meetings share one.
  ghost predicate SinChoques(dia: seq<Evento>, f: Evento -> nat) {
    forall i, j | 0 <= i < j < |dia| && Solapan(dia[i], dia[j]) :: f(dia[i]) != f(dia[j])
  }

  // Any clash-free hand-out needs, within each group, at least the group's number of lanes.
  lemma MinimoDeCarriles(dia: seq<Evento>, grupos: seq<nat>, f: Evento -> nat, j: nat, n: nat)
    requires Repartido(dia, grupos) && j < |dia| && SinChoques(dia, f)
    requires forall i | 0 <= i < |dia| && grupos[i] == grupos[j] :: f(dia[i]) < n
    ensures dia[j].lanes <= n
  {
    var lanes := Lanes(dia);
    assert TienePico(dia, grupos, lanes, grupos[j], dia[j].lanes);
    var t, ws :| EsPico(dia, grupos, lanes, grupos[j], dia[j].lanes, t, ws);
    var usados := seq(|ws|, l requires 0 <= l < |ws| => f(dia[ws[l]]));
    forall l, l' | 0 <= l < l' < |ws| ensures usados[l] != usados[l'] {
      assert lanes[ws[l]] == l && lanes[ws[l']] == l';
      assert Solapan(dia[ws[l]], dia[ws[l']]) && Solapan(dia[ws[l']], dia[ws[l]]);
    }
    Palomar(usados, n);
  }

  // Pigeonhole.
  lemma {:induction false} Palomar(s: seq<nat>, n: nat)
    requires Distintos(s) && forall i | 0 <= i < |s| :: s[i] < n
    ensures |s| <= n
    decreases n
  {
    if s != [] {
      assert s[0] < n;
      if i :| 0 <= i < |s| && s[i] == n - 1 {
        Palomar(s[..i] + s[i + 1..], n - 1);
      } else {
        Palomar(s, n - 1);
      }
    }
  }

  // No two meetings of the day share a lane while they overlap.
  lemma CarrilesSinChoques(dia: seq<Evento>, grupos: seq<nat>, i: nat, j: nat)
    requires Repartido(dia, grupos) && i < j < |dia| && dia[i].lane == dia[j].lane
    ensures !Solapan(dia[i], dia[j])
  {
    assert PrimerCarril(dia, grupos, Lanes(dia), j);
    assert Lanes(dia)[i] == Lanes(dia)[j];
  }

  lemma OrdenPorClave(s: seq<Evento>)
    ensures Ordenado(s) <==>
              forall i, j | 0 <= i < j < |s| ::
                s[i].start < s[j].start || (s[i].start == s[j].start && s[i].dur <= s[j].dur)
  {
  }

  // ------------------------------------------------------------------ the finished day, in minutes

  // In one lane each meeting is over when the next one starts.
  lemma EnSerie(dia: seq<Evento>, grupos: seq<nat>, i: nat, j: nat)
    requires Repartido(dia, grupos) && Ordenado(dia) && EnHorario(dia)
    requires i < j < |dia| && dia[i].lane == dia[j].lane
    ensures dia[i].start + dia[i].dur <= dia[j].start
  {
    hide Repartido;
    CarrilesSinChoques(dia, grupos, i, j);
    assert Antes(dia[i], dia[j]);
  }

  // A meeting is in the lowest lane it can have: in each lower one a meeting of its group is going on at its start.
  lemma MasBajo(dia: seq<Evento>, grupos: seq<nat>, j: nat, l: int)
    requires Repartido(dia, grupos) && j < |dia| && 0 <= l < dia[j].lane
    ensures exists i :: 0 <= i < j && grupos[i] == grupos[j] && dia[i].lane == l
                        && dia[i].start <= dia[j].start < dia[i].start + dia[i].dur
  {
    hide TienePico, GruposConexos;
    assert PrimerCarril(dia, grupos, Lanes(dia), j);
    assert Ocupado(dia, grupos, Lanes(dia), j, l);
    var i :| 0 <= i < j && grupos[i] == grupos[j] && Lanes(dia)[i] == l && VivoEn(dia[i], dia[j].start);
    assert dia[i].lane == l;
  }

  // A meeting shares the group of the one before it exactly when some earlier meeting is not over at its start.
  lemma MismoGrupo(dia: seq<Evento>, grupos: seq<nat>, j: nat)
    requires Repartido(dia, grupos) && Ordenado(dia) && EnHorario(dia) && 0 < j < |dia|
    ensures grupos[j - 1] == grupos[j] <==> exists i :: 0 <= i < j && dia[i].start + dia[i].dur > dia[j].start
  {
    hide PrimerCarril, TienePico;
    if grupos[j - 1] == grupos[j] {
      assert Enlazado(dia, grupos, j);
      var i :| 0 <= i < j && grupos[i] == grupos[j] && Solapan(dia[i], dia[j]);
      assert dia[i].start + dia[i].dur > dia[j].start;
    }
    if i :| 0 <= i < j && dia[i].start + dia[i].dur > dia[j].start {
      assert Antes(dia[i], dia[j]);
      assert Solapan(dia[i], dia[j]);
      assert grupos[i] == grupos[j];
    }
  }

  // The meetings ws of group k are all going on at minute t.
  ghost predicate ALaVez(dia: seq<Evento>, grupos: seq<nat>, k: nat, t: int, ws: seq<nat>) {
    Distintos(ws) && forall l | 0 <= l < |ws| ::
      ws[l] < |dia| && ws[l] < |grupos| && grupos[ws[l]] == k
      && dia[ws[l]].start <= t < dia[ws[l]].start + dia[ws[l]].dur
  }

  // The lanes of a group are exactly as many as its meetings that go on at once, at the busiest minute.
  lemma PicoExacto(dia: seq<Evento>, grupos: seq<nat>, j: nat)
    requires Repartido(dia, grupos) && j < |dia|
    ensures exists t, ws :: ALaVez(dia, grupos, grupos[j], t, ws) && |ws| == dia[j].lanes
    ensures forall t, ws | ALaVez(dia, grupos, grupos[j], t, ws) :: |ws| <= dia[j].lanes
  {
    hide PrimerCarril;
    var lanes := Lanes(dia);
    assert TienePico(dia, grupos, lanes, grupos[j], dia[j].lanes);
    var t, ws :| EsPico(dia, grupos, lanes, grupos[j], dia[j].lanes, t, ws);
    forall l, l' | 0 <= l < l' < |ws| ensures ws[l] != ws[l'] {
      assert lanes[ws[l]] == l && lanes[ws[l']] == l';
    }
    assert ALaVez(dia, grupos, grupos[j], t, ws);
    forall t, ws | ALaVez(dia, grupos, grupos[j], t, ws) ensures |ws| <= dia[j].lanes {
      NoMasQueCarriles(dia, grupos, j, t, ws);
    }
  }

  lemma NoMasQueCarriles(dia: seq<Evento>, grupos: seq<nat>, j: nat, t: int, ws: seq<nat>)
    requires Repartido(dia, grupos) && j < |dia| && ALaVez(dia, grupos, grupos[j], t, ws)
    ensures |ws| <= dia[j].lanes
  {
    hide PrimerCarril, TienePico, GruposConexos;
    forall l | 0 <= l < |ws| ensures 0 <= dia[ws[l]].lane < dia[j].lanes {
      assert grupos[ws[l]] == grupos[j];
    }
    var usados: seq<nat> := seq(|ws|, l requires 0 <= l < |ws| reads dia => dia[ws[l]].lane);
    forall l, l' | 0 <= l < l' < |ws| ensures usados[l] != usados[l'] {
      var a, b := if ws[l] < ws[l'] then ws[l] else ws[l'], if ws[l] < ws[l'] then ws[l'] else ws[l];
      assert Solapan(dia[a], dia[b]);
      if dia[a].lane == dia[b].lane {
        CarrilesSinChoques(dia, grupos, a, b);
      }
    }
    Palomar(usados, dia[j].lanes);
  }
}
