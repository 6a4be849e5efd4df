// Idempotent registration over whole runs: one lead and one notification per live key.
module CrmIdempotencia {
  import opened Opcion
  import opened Crm

  // No registration of the run happens at or after the expiry of the key.
  ghost predicate Vigente(ops: seq<Op>, expira: int) {
    forall i | 0 <= i < |ops| && ops[i].CrearIdem? :: ops[i].ahora < expira
  }

  // The run does not delete the lead.
  ghost predicate NoBorra(db: Db, ops: seq<Op>, lead: Id) {
    forall i | 0 <= i < |ops| && ops[i] == BorrarLead(lead) :: !SalidaDe(db, ops, i).Hecho?
  }

  lemma PasoRespetaClave(db: Db, op: Op, k: Id)
    requires k in db.claves && db.claves[k].lead.Some?
    requires op.CrearIdem? ==> op.ahora < db.claves[k].expira
    requires op == BorrarLead(db.claves[k].lead.value) ==> !Paso(db, op).1.Hecho?
    ensures k in Paso(db, op).0.claves && Paso(db, op).0.claves[k] == db.claves[k]
  {
    hide Superpuesta, OtraAgendada, EnAlcance, TieneActiva, Referido, AdmiteAgenda;
  }

  // What a registration answers when its key is already bound to a lead and still live.
  lemma RespuestaDeClaveViva(db: Db, op: Op)
    requires op.CrearIdem? && op.clave in db.claves && db.claves[op.clave].lead.Some?
        && op.ahora < db.claves[op.clave].expira
    ensures Paso(db, op).1 ==
            if op.expira <= op.ahora then ErrorBase
            else if db.claves[op.clave].huella != op.huella then Conflicto
            else Repetido(db.claves[op.clave].lead.value)
    ensures Paso(db, op).0.leads == db.leads
  {
  }

  // A creation binds its key.
  lemma CreacionFijaClave(db: Db, op: Op)
    requires op.CrearIdem? && Paso(db, op).1.Creado?
    ensures Paso(db, op).1 == Creado(op.lead) && op.lead !in db.leads && op.lead in Paso(db, op).0.leads
    ensures op.clave in Paso(db, op).0.claves
    ensures Paso(db, op).0.claves[op.clave] == Clave(op.huella, Some(op.lead), op.expira)
    ensures op.clave in db.claves ==> db.claves[op.clave].expira <= op.ahora
  {
  }

  lemma PrefijoDeCorrida(db: Db, ops: seq<Op>, i: nat)
    requires i < |ops|
    ensures forall j | 0 <= j < i :: SalidaDe(db, ops[..i], j) == SalidaDe(db, ops, j)
    ensures Correr(db, ops[..i + 1]) == Paso(Correr(db, ops[..i]), ops[i]).0
  {
    forall j | 0 <= j < i ensures SalidaDe(db, ops[..i], j) == SalidaDe(db, ops, j) {
      assert ops[..i][..j] == ops[..j];
    }
    assert ops[..i + 1][..i] == ops[..i];
  }

  // A bound key keeps its row through any run during its life that does not delete its lead.
  lemma {:induction false} ClaveEstable(db: Db, ops: seq<Op>, k: Id)
    requires k in db.claves && db.claves[k].lead.Some?
    requires Vigente(ops, db.claves[k].expira) && NoBorra(db, ops, db.claves[k].lead.value)
    ensures k in Correr(db, ops).claves && Correr(db, ops).claves[k] == db.claves[k]
  {
    hide Paso;
    if ops != [] {
      var n := |ops| - 1;
      PrefijoDeCorrida(db, ops, n);
      ClaveEstable(db, ops[..n], k);
      assert SalidaDe(db, ops, n) == Paso(Correr(db, ops[..n]), ops[n]).1;
      PasoRespetaClave(Correr(db, ops[..n]), ops[n], k);
    }
  }

  lemma {:induction false} CorrerSigue(db: Db, op: Op, ops: seq<Op>)
    ensures Correr(db, [op] + ops) == Correr(Paso(db, op).0, ops)
  {
    if ops == [] {
      assert [op] + ops == [op];
      assert [op][..0] == [];
    } else {
      var n := |ops| - 1;
      assert ([op] + ops)[..|ops|] == [op] + ops[..n];
      CorrerSigue(db, op, ops[..n]);
    }
  }

  // Leads created under key k along a run: exactly the calls that trigger a notification for it.
  function Avisos(db: Db, ops: seq<Op>, k: Id): seq<Id> {
    if ops == [] then []
    else
      var n := |ops| - 1;
      var antes := Avisos(db, ops[..n], k);
      var r := Paso(Correr(db, ops[..n]), ops[n]).1;
      if ops[n].CrearIdem? && ops[n].clave == k && r.Creado? then antes + [r.lead] else antes
  }

  // One published event: the lead, and the key it was registered under, if any.
  datatype Aviso = Aviso(clave: Option<Id>, lead: Id)

  // Everything a run publishes, in order: one event for each registration that created its lead.
  function Publicaciones(db: Db, ops: seq<Op>): seq<Aviso> {
    if ops == [] then []
    else
      var n := |ops| - 1;
      Publicaciones(db, ops[..n]) + Publicacion(ops[n], Paso(Correr(db, ops[..n]), ops[n]).1)
  }

  function Publicacion(op: Op, r: Salida): seq<Aviso> {
    if r.Creado? then [Aviso(if op.CrearIdem? then Some(op.clave) else None, r.lead)] else []
  }

  function LeadsDe(avisos: seq<Aviso>): seq<Id> {
    seq(|avisos|, i requires 0 <= i < |avisos| => avisos[i].lead)
  }

  function DeClave(avisos: seq<Aviso>, k: Id): seq<Id> {
    if avisos == [] then []
    else
      var n := |avisos| - 1;
      DeClave(avisos[..n], k) + if avisos[n].clave == Some(k) then [avisos[n].lead] else []
  }

  // The notifications of a key are its share of what the run publishes.
  lemma {:induction false} AvisosDeClave(db: Db, ops: seq<Op>, k: Id)
    ensures Avisos(db, ops, k) == DeClave(Publicaciones(db, ops), k)
  {
    hide Paso;
    if ops != [] {
      var n := |ops| - 1;
      AvisosDeClave(db, ops[..n], k);
      var antes, ahora := Publicaciones(db, ops[..n]), Publicacion(ops[n], Paso(Correr(db, ops[..n]), ops[n]).1);
      if ahora == [] {
        assert antes + ahora == antes;
      } else {
        assert (antes + ahora)[..|antes|] == antes;
      }
    }
  }

  // The answer of one more registration with the key of an earlier creation.
  lemma RespuestaTrasCreacion(db: Db, op: Op, ops: seq<Op>, otra: Op)
    requires op.CrearIdem? && Paso(db, op).1.Creado?
    requires otra.CrearIdem? && otra.clave == op.clave
    requires Vigente(ops + [otra], op.expira) && NoBorra(Paso(db, op).0, ops, op.lead)
    ensures Paso(Correr(db, [op] + ops), otra).1 ==
            if otra.expira <= otra.ahora then ErrorBase
            else if otra.huella != op.huella then Conflicto
            else Repetido(op.lead)
  {
    CreacionFijaClave(db, op);
    CorrerSigue(db, op, ops);
    assert (ops + [otra])[|ops|] == otra;
    assert forall i | 0 <= i < |ops| :: (ops + [otra])[i] == ops[i];
    ClaveEstable(Paso(db, op).0, ops, op.clave);
    RespuestaDeClaveViva(Correr(db, [op] + ops), otra);
  }

  // After the creating call, however many registrations follow while the key lives and its lead is not
  // deleted, one lead was created under the key and one notification sent.
  lemma {:induction false} UnaSolaNotificacion(db: Db, op: Op, ops: seq<Op>)
    requires op.CrearIdem? && Paso(db, op).1.Creado?
    requires Vigente(ops, op.expira) && NoBorra(Paso(db, op).0, ops, op.lead)
    ensures Avisos(db, [op] + ops, op.clave) == [op.lead]
  {
    hide Paso;
    var todas := [op] + ops;
    if ops == [] {
      CreacionFijaClave(db, op);
      assert todas == [op] && todas[..0] == [];
      assert Avisos(db, todas[..0], op.clave) == [];
      assert Correr(db, todas[..0]) == db;
    } else {
      var n := |ops| - 1;
      var d := Paso(db, op).0;
      assert todas[..|ops|] == [op] + ops[..n] && todas[|ops|] == ops[n];
      PrefijoDeCorrida(d, ops, n);
      UnaSolaNotificacion(db, op, ops[..n]);
      if ops[n].CrearIdem? && ops[n].clave == op.clave {
        assert ops[..n] + [ops[n]] == ops;
        RespuestaTrasCreacion(db, op, ops[..n], ops[n]);
      }
    }
  }

  // A committed key without lead: some transaction of the run deleted the lead it was bound to.
  ghost predicate BorradoDe(db: Db, ops: seq<Op>, k: Id, i: nat) {
    && i < |ops| && ops[i].BorrarLead? && SalidaDe(db, ops, i).Hecho?
    && k in Correr(db, ops[..i]).claves && Correr(db, ops[..i]).claves[k].lead == Some(ops[i].lead)
  }

  lemma {:induction false} ClaveHuerfana(asesores: map<Id, Asesor>, ops: seq<Op>, k: Id)
    requires k in Correr(Inicial(asesores), ops).claves && Correr(Inicial(asesores), ops).claves[k].lead.None?
    ensures exists i: nat :: BorradoDe(Inicial(asesores), ops, k, i)
  {
    hide Paso;
    var db := Inicial(asesores);
    if ops != [] {
      var n := |ops| - 1;
      var antes := Correr(db, ops[..n]);
      PrefijoDeCorrida(db, ops, n);
      PasoDeHuerfana(antes, ops[n], k);
      if antes.claves[k].lead.None? {
        ClaveHuerfana(asesores, ops[..n], k);
        var i: nat :| BorradoDe(db, ops[..n], k, i);
        BorradoSigue(db, ops, k, n, i);
      } else {
        assert BorradoDe(db, ops, k, n);
      }
    }
  }

  lemma BorradoSigue(db: Db, ops: seq<Op>, k: Id, n: nat, i: nat)
    requires n <= |ops| && BorradoDe(db, ops[..n], k, i)
    ensures BorradoDe(db, ops, k, i)
  {
    hide Paso;
    assert ops[..n][..i] == ops[..i];
  }

  lemma PasoDeHuerfana(db: Db, op: Op, k: Id)
    requires k in Paso(db, op).0.claves && Paso(db, op).0.claves[k].lead.None?
    ensures k in db.claves
    ensures db.claves[k].lead.Some? ==> op == BorrarLead(db.claves[k].lead.value) && Paso(db, op).1.Hecho?
  {
    hide Superpuesta, OtraAgendada, EnAlcance, TieneActiva, Referido, AdmiteAgenda;
  }
}
