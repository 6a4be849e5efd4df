// What every run of CRM transactions keeps: the declared constraints, and an audit log that rebuilds the tables.
module CrmInvariantes {
  import opened Opcion
  import opened Crm

  // ------------------------------------------------------------------ declared constraints

  ghost predicate Restricciones(db: Db) {
    && (forall a | a in db.asignaciones ::
          db.asignaciones[a].lead in db.leads && db.asignaciones[a].asesor in db.asesores)
    && (forall c | c in db.citas :: db.citas[c].lead in db.leads && db.citas[c].asesor in db.asesores)
    && (forall i | 0 <= i < |db.auditoria| :: db.auditoria[i].lead in db.leads)
    && (forall k | k in db.claves && db.claves[k].lead.Some? :: db.claves[k].lead.value in db.leads)
    && db.consentimientos == db.leads.Keys
    && UnaActivaPorLead(db) && AgendaSinChoques(db)
  }

  ghost predicate UnaActivaPorLead(db: Db) {
    forall a, b | a in db.asignaciones && b in db.asignaciones && db.asignaciones[a].activa && db.asignaciones[b].activa
      && db.asignaciones[a].lead == db.asignaciones[b].lead :: a == b
  }

  ghost predicate AgendaSinChoques(db: Db) {
    && (forall c | c in db.citas :: db.citas[c].inicio < db.citas[c].fin)
    && (forall c, d | c in db.citas && d in db.citas && c != d
          && db.citas[c].estado == Agendada && db.citas[d].estado == Agendada ::
          && db.citas[c].lead != db.citas[d].lead
          && (db.citas[c].asesor == db.citas[d].asesor ==> !SePisan(db.citas[c], db.citas[d])))
  }

  ghost predicate AsignadoTieneActiva(db: Db) {
    forall l | l in db.leads && db.leads[l] == Asignado :: TieneActiva(db.asignaciones, l)
  }

  // ------------------------------------------------------------------ replaying the audit log

  datatype Traza<T> = Rota | Hasta(valor: T)

  // A lead's state as its rows tell it: from Nuevo, each row must start where the previous one ended and
  // must change something.
  function ReplayLead(aud: seq<Registro>, lead: Id): Traza<EstadoLead> {
    if aud == [] then Hasta(Nuevo)
    else
      var antes := ReplayLead(aud[..|aud| - 1], lead);
      var r := aud[|aud| - 1];
      if r.EventoCita? || r.lead != lead then antes
      else if antes == Hasta(r.anterior) && r.anterior != r.nuevo then Hasta(r.nuevo)
      else Rota
  }

  datatype Ficha = Ficha(lead: Id, asesor: Id, inicio: int, estado: EstadoCita)

  // A meeting as its rows tell it.
  function ReplayCita(aud: seq<Registro>, cita: Id): Traza<Option<Ficha>> {
    if aud == [] then Hasta(None)
    else
      var antes := ReplayCita(aud[..|aud| - 1], cita);
      var r := aud[|aud| - 1];
      if !r.EventoCita? || r.cita != cita then antes
      else AplicarFila(antes, r)
  }

  function AplicarFila(antes: Traza<Option<Ficha>>, r: Registro): Traza<Option<Ficha>>
    requires r.EventoCita?
  {
    match antes
    case Rota => Rota
    case Hasta(None) =>
      if r.citaAnterior.None? && r.fechaAnterior.None? && r.fechaNueva.Some? && r.citaNueva == Agendada
      then Hasta(Some(Ficha(r.lead, r.responsable, r.fechaNueva.value, r.citaNueva))) else Rota
    case Hasta(Some(f)) =>
      if r.citaAnterior == Some(f.estado) && r.fechaAnterior == Some(f.inicio)
         && r.lead == f.lead && f.estado == Agendada
      then Hasta(Some(Ficha(f.lead, r.responsable, if r.fechaNueva.Some? then r.fechaNueva.value else f.inicio,
          r.citaNueva)))
      else Rota
  }

  function FichaDe(c: Cita): Ficha { Ficha(c.lead, c.asesor, c.inicio, c.estado) }

  function EnTabla(citas: map<Id, Cita>, c: Id): Option<Ficha> {
    if c in citas then Some(FichaDe(citas[c])) else None
  }

  // The log rebuilds every lead's state and every meeting, and tells of nothing else.
  ghost predicate BitacoraFiel(db: Db) {
    && (forall l | l in db.leads :: ReplayLead(db.auditoria, l) == Hasta(db.leads[l]))
    && (forall c: Id :: ReplayCita(db.auditoria, c) == Hasta(EnTabla(db.citas, c)))
  }

  ghost predicate Inv(db: Db) {
    Restricciones(db) && AsignadoTieneActiva(db) && BitacoraFiel(db)
  }

  lemma ReplayMas(aud: seq<Registro>, r: Registro)
    ensures forall l: Id :: ReplayLead(aud + [r], l) ==
              (if r.EventoCita? || r.lead != l then ReplayLead(aud, l)
               else if ReplayLead(aud, l) == Hasta(r.anterior) && r.anterior != r.nuevo then Hasta(r.nuevo) else Rota)
    ensures forall c: Id :: ReplayCita(aud + [r], c) ==
              (if !r.EventoCita? || r.cita != c then ReplayCita(aud, c) else AplicarFila(ReplayCita(aud, c), r))
  {
    assert (aud + [r])[..|aud|] == aud;
  }

  // A lead nobody wrote about is at the start of its trace.
  lemma {:induction false} SinFilas(aud: seq<Registro>, lead: Id)
    requires forall i | 0 <= i < |aud| :: aud[i].lead != lead
    ensures ReplayLead(aud, lead) == Hasta(Nuevo)
  {
    if aud != [] {
      SinFilas(aud[..|aud| - 1], lead);
      assert aud[|aud| - 1].lead != lead;
    }
  }

  // ------------------------------------------------------------------ each transaction keeps the invariant

  lemma ConEstadoKeeps(db: Db, lead: Id, nuevo: EstadoLead, actor: string)
    requires Inv(db) && lead in db.leads && nuevo != Asignado
    ensures Inv(ConEstado(db, lead, nuevo, actor))
  {
    if db.leads[lead] != nuevo {
      ReplayMas(db.auditoria, CambioEstado(lead, actor, db.leads[lead], nuevo));
    }
  }

  // The meeting written is new, or was scheduled; it violates no constraint.
  ghost predicate CitaAdmisible(db: Db, id: Id, c: Cita, fechaNueva: Option<int>) {
    && c.lead in db.leads && c.asesor in db.asesores && c.inicio < c.fin
    && !Superpuesta(db.citas, id, c) && !OtraAgendada(db.citas, id, c)
    && (id !in db.citas ==> c.estado == Agendada && fechaNueva == Some(c.inicio))
    && (id in db.citas ==>
          && db.citas[id].estado == Agendada && db.citas[id].lead == c.lead
          && (fechaNueva == Some(c.inicio) || (fechaNueva == None && c.inicio == db.citas[id].inicio)))
  }

  function FilaDeCita(db: Db, id: Id, c: Cita, actor: string, fechaNueva: Option<int>): Registro {
    EventoCita(c.lead, actor, id, c.asesor,
               if id in db.citas then Some(db.citas[id].estado) else None, c.estado,
               if id in db.citas then Some(db.citas[id].inicio) else None, fechaNueva)
  }

  lemma ConCitaKeeps(db: Db, id: Id, c: Cita, estado: EstadoLead, actor: string, fechaNueva: Option<int>)
    requires Inv(db) && CitaAdmisible(db, id, c, fechaNueva) && estado != Asignado
    ensures Inv(ConCita(db, id, c, estado, actor, fechaNueva))
  {
    hide Restricciones, AsignadoTieneActiva, BitacoraFiel, Superpuesta, OtraAgendada;
    ConEstadoKeeps(db, c.lead, estado, actor);
    var d := ConEstado(db, c.lead, estado, actor);
    var fila := FilaDeCita(d, id, c, actor, fechaNueva);
    assert ConCita(db, id, c, estado, actor, fechaNueva)
        == d.(citas := d.citas[id := c], auditoria := d.auditoria + [fila]);
    EscribirCitaKeeps(d, id, c, actor, fechaNueva);
  }

  lemma EscribirCitaKeeps(d: Db, id: Id, c: Cita, actor: string, fechaNueva: Option<int>)
    requires Inv(d) && CitaAdmisible(d, id, c, fechaNueva)
    ensures Inv(d.(citas := d.citas[id := c], auditoria := d.auditoria + [FilaDeCita(d, id, c, actor, fechaNueva)]))
  {
    hide BitacoraFiel, AgendaSinChoques;
    CitasSinChoques(d, id, c, fechaNueva);
    BitacoraTrasCita(d, id, c, actor, fechaNueva);
    var e := d.(citas := d.citas[id := c], auditoria := d.auditoria + [FilaDeCita(d, id, c, actor, fechaNueva)]);
    assert AgendaSinChoques(e) by { MismaAgenda(d.(citas := d.citas[id := c]), e); }
  }

  lemma MismaAgenda(d: Db, e: Db)
    requires AgendaSinChoques(d) && d.citas == e.citas
    ensures AgendaSinChoques(e)
  {
  }

  lemma BitacoraTrasCita(d: Db, id: Id, c: Cita, actor: string, fechaNueva: Option<int>)
    requires BitacoraFiel(d) && CitaAdmisible(d, id, c, fechaNueva)
    ensures BitacoraFiel(d.(citas := d.citas[id := c],
                            auditoria := d.auditoria + [FilaDeCita(d, id, c, actor, fechaNueva)]))
  {
    hide ReplayLead, ReplayCita;
    ReplayMas(d.auditoria, FilaDeCita(d, id, c, actor, fechaNueva));
  }

  lemma CitasSinChoques(db: Db, id: Id, c: Cita, fechaNueva: Option<int>)
    requires AgendaSinChoques(db) && CitaAdmisible(db, id, c, fechaNueva)
    ensures AgendaSinChoques(db.(citas := db.citas[id := c]))
  {
  }

  // The checks on a row of tpi.citas accept it exactly when the table with the row in it meets the constraints.
  lemma RestriccionesExactas(db: Db, id: Id, c: Cita)
    requires AgendaSinChoques(db)
    ensures c.inicio < c.fin && !Superpuesta(db.citas, id, c) && !OtraAgendada(db.citas, id, c)
            <==> AgendaSinChoques(db.(citas := db.citas[id := c]))
  {
    var citas := db.citas[id := c];
    forall x | x in db.citas && x != id ensures x in citas && citas[x] == db.citas[x] { }
    if AgendaSinChoques(db.(citas := citas)) {
      assert citas[id] == c;
    }
  }

  lemma AsignarKeeps(db: Db, op: Op)
    requires Inv(db) && op.Asignar?
    ensures Inv(PasoAsignar(db, op).0)
  {
    hide BitacoraFiel, AsignadoTieneActiva;
    var d := PasoAsignar(db, op).0;
    AsignarBitacora(db, op);
    AsignarActivas(db, op);
    if d != db {
      assert UnaActivaPorLead(d);
    }
  }

  lemma AsignarBitacora(db: Db, op: Op)
    requires BitacoraFiel(db) && AsignadoTieneActiva(db) && op.Asignar?
    ensures BitacoraFiel(PasoAsignar(db, op).0)
  {
    hide ReplayLead, ReplayCita;
    if PasoAsignar(db, op).0 != db {
      assert db.leads[op.lead] != Asignado;
      ReplayMas(db.auditoria, AsignacionLead(op.lead, op.actor, op.asesor, db.leads[op.lead], Asignado));
    }
  }

  lemma AsignarActivas(db: Db, op: Op)
    requires AsignadoTieneActiva(db) && op.Asignar?
    ensures AsignadoTieneActiva(PasoAsignar(db, op).0)
  {
    var d := PasoAsignar(db, op).0;
    if d != db {
      forall l | l in d.leads && d.leads[l] == Asignado ensures TieneActiva(d.asignaciones, l) {
        if l == op.lead {
          assert d.asignaciones[op.asignacion].activa;
        } else {
          var a :| a in db.asignaciones && db.asignaciones[a].lead == l && db.asignaciones[a].activa;
          assert d.asignaciones[a] == db.asignaciones[a];
        }
      }
    }
  }

  lemma ConLeadKeeps(db: Db, lead: Id)
    requires Inv(db) && lead !in db.leads
    ensures Inv(ConLead(db, lead))
  {
    SinFilas(db.auditoria, lead);
  }

  lemma BorrarKeeps(db: Db, lead: Id)
    requires Inv(db)
    ensures Inv(PasoBorrarLead(db, lead).0)
  {
  }

  lemma CrearIdemKeeps(db: Db, op: Op)
    requires Inv(db) && op.CrearIdem?
    ensures Inv(PasoCrearIdem(db, op).0)
  {
    hide BitacoraFiel, AgendaSinChoques, UnaActivaPorLead, AsignadoTieneActiva;
    ClavesKeep(db, Vigentes(db.claves, op.ahora));
    if op.lead !in db.leads {
      ConLeadKeeps(db, op.lead);
      ClavesKeep(ConLead(db, op.lead), PasoCrearIdem(db, op).0.claves);
    }
  }

  // The idempotency keys take part in one constraint only.
  lemma ClavesKeep(db: Db, claves: map<Id, Clave>)
    requires Inv(db) && forall k | k in claves && claves[k].lead.Some? :: claves[k].lead.value in db.leads
    ensures Inv(db.(claves := claves))
  {
  }

  lemma AgendarKeeps(db: Db, op: Op)
    requires Inv(db) && op.Agendar?
    ensures Inv(PasoAgendar(db, op).0)
  {
    hide Inv, Superpuesta, OtraAgendada, EnAlcance, ConCita;
    if PasoAgendar(db, op).1.Hecho? {
      ConCitaKeeps(db, op.cita, Cita(op.lead, op.responsable, op.inicio, op.fin, Agendada),
                   ReunionAgendada, op.actor, Some(op.inicio));
    }
  }

  lemma ReagendarKeeps(db: Db, op: Op)
    requires Inv(db) && op.Reagendar?
    ensures Inv(PasoReagendar(db, op).0)
  {
    hide Inv, Superpuesta, OtraAgendada, EnAlcance, ConCita;
    if PasoReagendar(db, op).1.Hecho? {
      ConCitaKeeps(db, op.cita, db.citas[op.cita].(asesor := op.responsable, inicio := op.inicio, fin := op.fin),
                   ReunionAgendada, op.actor, Some(op.inicio));
    }
  }

  lemma CrearKeeps(db: Db, lead: Id)
    requires Inv(db)
    ensures Inv(PasoCrear(db, lead).0)
  {
    if lead !in db.leads { ConLeadKeeps(db, lead); }
  }

  lemma CambiarEstadoKeeps(db: Db, op: Op)
    requires Inv(db) && op.CambiarEstado?
    ensures Inv(PasoCambiarEstado(db, op).0)
  {
    hide Inv, EnAlcance, ConEstado;
    if PasoCambiarEstado(db, op).1.Hecho? { ConEstadoKeeps(db, op.lead, op.estado.value, op.actor); }
  }

  // Every transaction keeps the invariant, whether it commits or fails.
  lemma PasoKeeps(db: Db, op: Op)
    requires Inv(db)
    ensures Inv(Paso(db, op).0)
  {
    hide Inv, PasoAgendar, PasoReagendar, PasoCerrarCita, PasoCambiarEstado, PasoAsignar, PasoCrear, PasoCrearIdem,
        PasoBorrarLead;
    match op
    case Crear(lead) => CrearKeeps(db, lead);
    case CrearIdem(_, _, _, _, _) => CrearIdemKeeps(db, op);
    case CambiarEstado(_, _, _, _) => CambiarEstadoKeeps(db, op);
    case Asignar(_, _, _, _) => AsignarKeeps(db, op);
    case Agendar(_, _, _, _, _, _, _) => AgendarKeeps(db, op);
    case Reagendar(_, _, _, _, _, _) => ReagendarKeeps(db, op);
    case Cancelar(cita, actor, alcance) => CerrarKeeps(db, cita, actor, alcance, Cancelada, EnSeguimiento);
    case Completar(cita, actor, alcance) => CerrarKeeps(db, cita, actor, alcance, Realizada, ReunionRealizada);
    case NoAsistir(cita, actor, alcance) => CerrarKeeps(db, cita, actor, alcance, NoAsistio, EnSeguimiento);
    case BorrarLead(lead) => BorrarKeeps(db, lead);
  }

  lemma CerrarKeeps(db: Db, cita: Id, actor: string, alcance: Option<Id>, fin: EstadoCita, lead: EstadoLead)
    requires Inv(db) && fin != Agendada && lead != Asignado
    ensures Inv(PasoCerrarCita(db, cita, actor, alcance, fin, lead).0)
  {
    if PasoCerrarCita(db, cita, actor, alcance, fin, lead).1.Hecho? {
      ConCitaKeeps(db, cita, db.citas[cita].(estado := fin), lead, actor, None);
    }
  }

  // Every reachable state.
  lemma {:induction false} CorrerKeeps(asesores: map<Id, Asesor>, ops: seq<Op>)
    ensures Inv(Correr(Inicial(asesores), ops))
  {
    if ops != [] {
      CorrerKeeps(asesores, ops[..|ops| - 1]);
      PasoKeeps(Correr(Inicial(asesores), ops[..|ops| - 1]), ops[|ops| - 1]);
    }
  }

  // ------------------------------------------------------------------ runs

  // A transaction that does not succeed changes no table.
  lemma FalloNoCambia(db: Db, op: Op)
    ensures !Paso(db, op).1.Exito() ==> Paso(db, op).0 == db
  {
    hide Superpuesta, OtraAgendada, EnAlcance, TieneActiva, Referido, ConCita, ConEstado, ConLead, AdmiteAgenda;
  }

  // The audit log is append-only.
  lemma BitacoraCrece(db: Db, op: Op)
    ensures db.auditoria <= Paso(db, op).0.auditoria
  {
    hide Superpuesta, OtraAgendada, EnAlcance, TieneActiva, Referido, AdmiteAgenda;
  }

  // A meeting is never deleted nor moved to another lead, and once it is over it never changes again.
  lemma PasoRespetaCita(db: Db, op: Op, c: Id)
    requires c in db.citas
    ensures c in Paso(db, op).0.citas
    ensures Paso(db, op).0.citas[c].lead == db.citas[c].lead
    ensures db.citas[c].estado != Agendada ==> Paso(db, op).0.citas[c] == db.citas[c]
  {
    hide Superpuesta, OtraAgendada, EnAlcance, TieneActiva, Referido, AdmiteAgenda;
  }

  lemma {:induction false} CitaTerminadaNoCambia(db: Db, ops: seq<Op>, c: Id)
    requires c in db.citas && db.citas[c].estado != Agendada
    ensures c in Correr(db, ops).citas && Correr(db, ops).citas[c] == db.citas[c]
  {
    if ops != [] {
      CitaTerminadaNoCambia(db, ops[..|ops| - 1], c);
      PasoRespetaCita(Correr(db, ops[..|ops| - 1]), ops[|ops| - 1], c);
    }
  }
}
