// Exactly when each transaction succeeds, in the terms of the rows, and what it leaves in the tables.
module CrmReglas {
  import opened Opcion
  import opened Crm
  import opened CrmInvariantes

  // ------------------------------------------------------------------ whose lead it is

  // The advisor to whose portfolio a transaction is limited, if it is.
  function AlcanceDe(op: Op): Option<Id> {
    match op
    case CambiarEstado(_, _, _, s) => s
    case Agendar(_, _, _, _, _, _, s) => s
    case Reagendar(_, _, _, _, _, s) => s
    case Cancelar(_, _, s) => s
    case Completar(_, _, s) => s
    case NoAsistir(_, _, s) => s
    case _ => None
  }

  function SinAlcance(op: Op): Op {
    match op
    case CambiarEstado(l, e, actor, _) => CambiarEstado(l, e, actor, None)
    case Agendar(c, l, r, i, f, actor, _) => Agendar(c, l, r, i, f, actor, None)
    case Reagendar(c, r, i, f, actor, _) => Reagendar(c, r, i, f, actor, None)
    case Cancelar(c, actor, _) => Cancelar(c, actor, None)
    case Completar(c, actor, _) => Completar(c, actor, None)
    case NoAsistir(c, actor, _) => NoAsistir(c, actor, None)
    case _ => op
  }

  // The lead it touches: its own argument, or the lead of the meeting.
  function LeadTocado(db: Db, op: Op): Option<Id> {
    match op
    case CambiarEstado(l, _, _, _) => Some(l)
    case Agendar(_, l, _, _, _, _, _) => Some(l)
    case Reagendar(c, _, _, _, _, _) => if c in db.citas then Some(db.citas[c].lead) else None
    case Cancelar(c, _, _) => if c in db.citas then Some(db.citas[c].lead) else None
    case Completar(c, _, _) => if c in db.citas then Some(db.citas[c].lead) else None
    case NoAsistir(c, _, _) => if c in db.citas then Some(db.citas[c].lead) else None
    case _ => None
  }

  // A transaction limited to advisor s does what it would do without the limit if some active row ties the lead to
  // s, and otherwise succeeds in nothing and changes nothing.
  lemma SoloSuCartera(db: Db, op: Op, s: Id)
    requires AlcanceDe(op) == Some(s)
    ensures var l := LeadTocado(db, op);
            if l.Some? && exists a | a in db.asignaciones ::
                 db.asignaciones[a].lead == l.value && db.asignaciones[a].activa && db.asignaciones[a].asesor == s
            then Paso(db, op) == Paso(db, SinAlcance(op))
            else !Paso(db, op).1.Exito() && Paso(db, op).0 == db
  {
    hide Superpuesta, OtraAgendada, ConCita, ConEstado;
  }

  // Without a limit nothing is refused but for rows that do not exist.
  lemma SinLimite(db: Db, op: Op)
    requires Inv(db) && AlcanceDe(op).None?
    requires op.CambiarEstado? || op.Agendar? || op.Reagendar? || op.Cancelar? || op.Completar? || op.NoAsistir?
    ensures Paso(db, op).1.NoEncontrado? ==> LeadTocado(db, op).None? || LeadTocado(db, op).value !in db.leads
  {
    hide Superpuesta, OtraAgendada, ConCita, ConEstado, BitacoraFiel, AsignadoTieneActiva, AgendaSinChoques;
  }

  // ------------------------------------------------------------------ meetings

  predicate Ocupa(c: Cita, t: int) { c.inicio <= t < c.fin }

  lemma MismoInstante(a: Cita, b: Cita)
    requires a.inicio < a.fin && b.inicio < b.fin
    ensures SePisan(a, b) <==> exists t :: Ocupa(a, t) && Ocupa(b, t)
  {
    if SePisan(a, b) {
      var t := if a.inicio <= b.inicio then b.inicio else a.inicio;
      assert Ocupa(a, t) && Ocupa(b, t);
    }
  }

  // The meeting c, written as id, is the only scheduled one of its lead, and its responsible is never in two at once.
  ghost predicate Cabe(db: Db, id: Id, c: Cita) {
    forall x | x in db.citas && x != id && db.citas[x].estado == Agendada ::
      db.citas[x].lead != c.lead
      && (db.citas[x].asesor == c.asesor ==> forall t :: !(Ocupa(db.citas[x], t) && Ocupa(c, t)))
  }

  lemma CabeEs(db: Db, id: Id, c: Cita)
    requires AgendaSinChoques(db) && c.inicio < c.fin && c.estado == Agendada
    ensures Cabe(db, id, c) <==> !Superpuesta(db.citas, id, c) && !OtraAgendada(db.citas, id, c)
  {
    forall x | x in db.citas
      ensures SePisan(db.citas[x], c) <==> exists t :: Ocupa(db.citas[x], t) && Ocupa(c, t)
    {
      MismoInstante(db.citas[x], c);
    }
  }

  // A row of the lead's active assignment to s, when a limit s is given.
  ghost predicate Permitido(db: Db, lead: Id, alcance: Option<Id>) {
    alcance.Some? ==> exists a | a in db.asignaciones ::
      db.asignaciones[a].lead == lead && db.asignaciones[a].activa && db.asignaciones[a].asesor == alcance.value
  }

  ghost predicate LeadAbierto(db: Db, lead: Id) {
    lead in db.leads
    && db.leads[lead] !in {Cerrado, Perdido, NoInteresado, DatosErroneos, NoContactado}
  }

  // Scheduling: when it succeeds, and the tables after it.
  lemma ExitoAgendar(db: Db, op: Op)
    requires Inv(db) && op.Agendar?
    ensures var c := Cita(op.lead, op.responsable, op.inicio, op.fin, Agendada);
            var d := Paso(db, op).0;
            && (Paso(db, op).1.Hecho? <==>
                  && LeadAbierto(db, op.lead) && Permitido(db, op.lead, op.alcance)
                  && op.cita !in db.citas && op.inicio < op.fin && Cabe(db, op.cita, c)
                  && op.responsable in db.asesores && 1 <= |op.actor| <= 150)
            && (Paso(db, op).1.Hecho? ==>
                  && d.citas == db.citas[op.cita := c] && d.leads == db.leads[op.lead := ReunionAgendada]
                  && d.asignaciones == db.asignaciones && d.consentimientos == db.consentimientos
                  && d.claves == db.claves)
  {
    hide BitacoraFiel, AsignadoTieneActiva, AgendaSinChoques, Superpuesta, OtraAgendada, Cabe, Permitido, EnAlcance,
         ConCita;
    var c := Cita(op.lead, op.responsable, op.inicio, op.fin, Agendada);
    PermitidoEs(db, op.lead, op.alcance);
    if op.inicio < op.fin {
      CabeEs(db, op.cita, c);
    }
    if Paso(db, op).1.Hecho? {
      ConCitaDeja(db, op.cita, c, ReunionAgendada, op.actor, Some(op.inicio));
    }
  }

  // Rescheduling.
  lemma ExitoReagendar(db: Db, op: Op)
    requires Inv(db) && op.Reagendar?
    ensures var d := Paso(db, op).0;
            && (Paso(db, op).1.Hecho? <==>
                  && op.cita in db.citas && db.citas[op.cita].estado == Agendada
                  && LeadAbierto(db, db.citas[op.cita].lead) && Permitido(db, db.citas[op.cita].lead, op.alcance)
                  && op.inicio < op.fin
                  && Cabe(db, op.cita, Cita(db.citas[op.cita].lead, op.responsable, op.inicio, op.fin, Agendada))
                  && op.responsable in db.asesores && 1 <= |op.actor| <= 150)
            && (Paso(db, op).1.Hecho? ==>
                  var l := db.citas[op.cita].lead;
                  && d.citas == db.citas[op.cita := Cita(l, op.responsable, op.inicio, op.fin, Agendada)]
                  && d.leads == db.leads[l := ReunionAgendada]
                  && d.asignaciones == db.asignaciones && d.consentimientos == db.consentimientos
                  && d.claves == db.claves)
  {
    hide BitacoraFiel, AsignadoTieneActiva, AgendaSinChoques, Superpuesta, OtraAgendada, Cabe, Permitido, EnAlcance,
         ConCita;
    if op.cita in db.citas && db.citas[op.cita].estado == Agendada {
      var c := Cita(db.citas[op.cita].lead, op.responsable, op.inicio, op.fin, Agendada);
      PermitidoEs(db, c.lead, op.alcance);
      if op.inicio < op.fin {
        CabeEs(db, op.cita, c);
      }
      if Paso(db, op).1.Hecho? {
        ConCitaDeja(db, op.cita, c, ReunionAgendada, op.actor, Some(op.inicio));
      }
    }
  }

  lemma PermitidoEs(db: Db, lead: Id, alcance: Option<Id>)
    ensures Permitido(db, lead, alcance) <==> EnAlcance(db.asignaciones, lead, alcance)
  {
  }

  // What writing a meeting and the state of its lead leaves.
  lemma ConCitaDeja(db: Db, id: Id, c: Cita, estado: EstadoLead, actor: string, fecha: Option<int>)
    requires c.lead in db.leads
    ensures var d := ConCita(db, id, c, estado, actor, fecha);
            && d.citas == db.citas[id := c] && d.leads == db.leads[c.lead := estado]
            && d.asignaciones == db.asignaciones && d.consentimientos == db.consentimientos
            && d.claves == db.claves
  {
  }

  // What ends a meeting, and the two states it leaves.
  function FinDe(op: Op): Option<(EstadoCita, EstadoLead)> {
    match op
    case Cancelar(_, _, _) => Some((EstadoCita.Cancelada, EnSeguimiento))
    case Completar(_, _, _) => Some((Realizada, ReunionRealizada))
    case NoAsistir(_, _, _) => Some((NoAsistio, EnSeguimiento))
    case _ => None
  }

  // Cancelling, completing and no-show.
  lemma ExitoCerrar(db: Db, op: Op)
    requires Inv(db) && FinDe(op).Some?
    ensures var (fin, estado) := FinDe(op).value;
            var d := Paso(db, op).0;
            && (Paso(db, op).1.Hecho? <==>
                  && op.cita in db.citas && db.citas[op.cita].estado == Agendada
                  && Permitido(db, db.citas[op.cita].lead, op.alcance) && 1 <= |op.actor| <= 150)
            && (Paso(db, op).1.Hecho? ==>
                  var c := db.citas[op.cita];
                  && d.citas == db.citas[op.cita := Cita(c.lead, c.asesor, c.inicio, c.fin, fin)]
                  && d.leads == db.leads[c.lead := estado]
                  && d.asignaciones == db.asignaciones && d.consentimientos == db.consentimientos
                  && d.claves == db.claves)
  {
    hide BitacoraFiel, AsignadoTieneActiva, AgendaSinChoques, Permitido, EnAlcance, ConCita;
    var (fin, estado) := FinDe(op).value;
    if op.cita in db.citas {
      var c := db.citas[op.cita];
      PermitidoEs(db, c.lead, op.alcance);
      if Paso(db, op).1.Hecho? {
        ConCitaDeja(db, op.cita, c.(estado := fin), estado, op.actor, None);
      }
    }
  }

  // ------------------------------------------------------------------ leads

  lemma ExitoCambiarEstado(db: Db, op: Op)
    requires op.CambiarEstado?
    ensures var d := Paso(db, op).0;
            && (Paso(db, op).1.Hecho? <==>
                  && op.estado.Some? && op.estado.value != Asignado && 1 <= |op.actor| <= 150
                  && op.lead in db.leads && Permitido(db, op.lead, op.alcance))
            && (Paso(db, op).1.Hecho? ==>
                  d == db.(leads := db.leads[op.lead := op.estado.value], auditoria := d.auditoria))
  {
  }

  lemma ExitoAsignar(db: Db, op: Op)
    requires op.Asignar?
    ensures var d := Paso(db, op).0;
            && (Paso(db, op).1.Hecho? <==>
                  && 1 <= |op.actor| <= 150 && op.lead in db.leads
                  && op.asesor in db.asesores && db.asesores[op.asesor] == Asesor(true, true)
                  && op.asignacion !in db.asignaciones
                  && forall a | a in db.asignaciones && db.asignaciones[a].activa :: db.asignaciones[a].lead != op.lead)
            && (Paso(db, op).1.Hecho? ==>
                  d == db.(leads := db.leads[op.lead := Asignado],
                           asignaciones := db.asignaciones[op.asignacion := Asignacion(op.lead, op.asesor, true)],
                           auditoria := d.auditoria))
  {
  }

  // A test lead goes with its consent exactly when no assignment, meeting or audit row is its own; the keys that
  // answered with it stay, without a lead.
  lemma ExitoBorrar(db: Db, lead: Id)
    ensures var d := Paso(db, BorrarLead(lead)).0;
            && (Paso(db, BorrarLead(lead)).1.Hecho? <==>
                  && lead in db.leads
                  && (forall a | a in db.asignaciones :: db.asignaciones[a].lead != lead)
                  && (forall c | c in db.citas :: db.citas[c].lead != lead)
                  && forall r | r in db.auditoria :: r.lead != lead)
            && (Paso(db, BorrarLead(lead)).1.Hecho? ==>
                  && d == db.(leads := db.leads - {lead}, consentimientos := db.consentimientos - {lead},
                              claves := d.claves)
                  && d.claves.Keys == db.claves.Keys
                  && forall k | k in db.claves ::
                       d.claves[k] == if db.claves[k].lead == Some(lead)
                                      then Clave(db.claves[k].huella, None, db.claves[k].expira) else db.claves[k])
  {
  }

  // ------------------------------------------------------------------ the audit rows

  // A change of state is written only if there is one.
  function FilaDeEstado(db: Db, lead: Id, nuevo: EstadoLead, actor: string): seq<Registro>
    requires lead in db.leads
  {
    if db.leads[lead] == nuevo then [] else [CambioEstado(lead, actor, db.leads[lead], nuevo)]
  }

  // What a successful transaction leaves in the audit table: who did it, to which lead, from which state to which.
  ghost predicate Anota(db: Db, op: Op, filas: seq<Registro>) {
    match op
    case CambiarEstado(l, e, actor, _) => l in db.leads && e.Some? && filas == FilaDeEstado(db, l, e.value, actor)
    case Asignar(_, l, s, actor) => l in db.leads && filas == [AsignacionLead(l, actor, s, db.leads[l], Asignado)]
    case Agendar(c, l, r, i, _, actor, _) =>
      l in db.leads && filas == FilaDeEstado(db, l, ReunionAgendada, actor)
                                + [EventoCita(l, actor, c, r, None, Agendada, None, Some(i))]
    case Reagendar(c, r, i, _, actor, _) =>
      && c in db.citas && db.citas[c].lead in db.leads
      && var l := db.citas[c].lead;
         filas == FilaDeEstado(db, l, ReunionAgendada, actor)
                  + [EventoCita(l, actor, c, r, Some(Agendada), Agendada, Some(db.citas[c].inicio), Some(i))]
    case Cancelar(c, actor, _) => AnotaFin(db, c, actor, EstadoCita.Cancelada, EnSeguimiento, filas)
    case Completar(c, actor, _) => AnotaFin(db, c, actor, Realizada, ReunionRealizada, filas)
    case NoAsistir(c, actor, _) => AnotaFin(db, c, actor, NoAsistio, EnSeguimiento, filas)
    case _ => filas == []
  }

  ghost predicate AnotaFin(db: Db, c: Id, actor: string, fin: EstadoCita, estado: EstadoLead, filas: seq<Registro>) {
    && c in db.citas && db.citas[c].lead in db.leads
    && var x := db.citas[c];
       filas == FilaDeEstado(db, x.lead, estado, actor)
                + [EventoCita(x.lead, actor, c, x.asesor, Some(Agendada), fin, Some(x.inicio), None)]
  }

  lemma FilasDeCita(db: Db, id: Id, c: Cita, estado: EstadoLead, actor: string, fecha: Option<int>)
    requires c.lead in db.leads
    ensures ConCita(db, id, c, estado, actor, fecha).auditoria
            == db.auditoria + (FilaDeEstado(db, c.lead, estado, actor) + [EventoCita(
                 c.lead, actor, id, c.asesor, if id in db.citas then Some(db.citas[id].estado) else None, c.estado,
                 if id in db.citas then Some(db.citas[id].inicio) else None, fecha)])
  {
    var f := FilaDeEstado(db, c.lead, estado, actor);
    assert db.auditoria + [] == db.auditoria;
    assert forall r: Registro :: db.auditoria + f + [r] == db.auditoria + (f + [r]);
  }

  lemma FilasDeEstado(db: Db, lead: Id, nuevo: EstadoLead, actor: string)
    requires lead in db.leads
    ensures ConEstado(db, lead, nuevo, actor).auditoria == db.auditoria + FilaDeEstado(db, lead, nuevo, actor)
  {
    assert db.auditoria + [] == db.auditoria;
  }

  lemma FilasDeFin(db: Db, cita: Id, actor: string, alcance: Option<Id>, fin: EstadoCita, estado: EstadoLead)
    returns (filas: seq<Registro>)
    requires PasoCerrarCita(db, cita, actor, alcance, fin, estado).1.Exito()
    ensures PasoCerrarCita(db, cita, actor, alcance, fin, estado).0.auditoria == db.auditoria + filas
    ensures AnotaFin(db, cita, actor, fin, estado, filas)
  {
    hide EnAlcance, ActorValido, ConCita;
    var x := db.citas[cita];
    filas := FilaDeEstado(db, x.lead, estado, actor)
             + [EventoCita(x.lead, actor, cita, x.asesor, Some(Agendada), fin, Some(x.inicio), None)];
    FilasDeCita(db, cita, x.(estado := fin), estado, actor, None);
  }

  lemma FilasDeAgendar(db: Db, op: Op) returns (filas: seq<Registro>)
    requires op.Agendar? && PasoAgendar(db, op).1.Exito()
    ensures PasoAgendar(db, op).0.auditoria == db.auditoria + filas && Anota(db, op, filas)
  {
    hide EnAlcance, ActorValido, AdmiteAgenda, Superpuesta, OtraAgendada, ConCita;
    filas := FilaDeEstado(db, op.lead, ReunionAgendada, op.actor)
             + [EventoCita(op.lead, op.actor, op.cita, op.responsable, None, Agendada, None, Some(op.inicio))];
    FilasDeCita(db, op.cita, Cita(op.lead, op.responsable, op.inicio, op.fin, Agendada), ReunionAgendada, op.actor,
                Some(op.inicio));
  }

  lemma FilasDeReagendar(db: Db, op: Op) returns (filas: seq<Registro>)
    requires op.Reagendar? && PasoReagendar(db, op).1.Exito()
    ensures PasoReagendar(db, op).0.auditoria == db.auditoria + filas && Anota(db, op, filas)
  {
    hide EnAlcance, ActorValido, AdmiteAgenda, Superpuesta, OtraAgendada, ConCita;
    var x := db.citas[op.cita];
    filas := FilaDeEstado(db, x.lead, ReunionAgendada, op.actor)
             + [EventoCita(x.lead, op.actor, op.cita, op.responsable, Some(Agendada), Agendada, Some(x.inicio),
                  Some(op.inicio))];
    FilasDeCita(db, op.cita, Cita(x.lead, op.responsable, op.inicio, op.fin, Agendada), ReunionAgendada, op.actor,
                Some(op.inicio));
  }

  // The rows a successful transaction appends.
  lemma FilasEscritas(db: Db, op: Op) returns (filas: seq<Registro>)
    requires Paso(db, op).1.Exito()
    ensures Paso(db, op).0.auditoria == db.auditoria + filas && Anota(db, op, filas)
  {
    hide PasoAgendar, PasoReagendar, PasoCerrarCita, EnAlcance, ActorValido, Referido, TieneActiva, SinLead, Vigentes,
         ConEstado, AnotaFin;
    assert db.auditoria + [] == db.auditoria;
    match op {
      case CambiarEstado(l, e, actor, _) =>
        FilasDeEstado(db, l, e.value, actor);
        filas := FilaDeEstado(db, l, e.value, actor);
      case Asignar(_, l, s, actor) => filas := [AsignacionLead(l, actor, s, db.leads[l], Asignado)];
      case Agendar(_, _, _, _, _, _, _) => filas := FilasDeAgendar(db, op);
      case Reagendar(_, _, _, _, _, _) => filas := FilasDeReagendar(db, op);
      case Cancelar(c, actor, s) => filas := FilasDeFin(db, c, actor, s, EstadoCita.Cancelada, EnSeguimiento);
      case Completar(c, actor, s) => filas := FilasDeFin(db, c, actor, s, Realizada, ReunionRealizada);
      case NoAsistir(c, actor, s) => filas := FilasDeFin(db, c, actor, s, NoAsistio, EnSeguimiento);
      case _ => filas := [];
    }
  }

  // ------------------------------------------------------------------ keys

  // A row of the key that has not expired.
  ghost predicate Vive(db: Db, clave: Id, ahora: int) { clave in db.claves && ahora < db.claves[clave].expira }

  // The four answers of a registration under a key, and what it leaves.
  lemma RespuestaDeClave(db: Db, op: Op)
    requires op.CrearIdem? && op.ahora < op.expira
    ensures var (d, r) := Paso(db, op);
            && (r == Creado(op.lead) <==> !Vive(db, op.clave, op.ahora) && op.lead !in db.leads)
            && (r == ErrorBase <==> !Vive(db, op.clave, op.ahora) && op.lead in db.leads)
            && (r == Conflicto <==> Vive(db, op.clave, op.ahora) && db.claves[op.clave].huella != op.huella)
            && (r == EnProceso <==> Vive(db, op.clave, op.ahora) && db.claves[op.clave].huella == op.huella
                                    && db.claves[op.clave].lead.None?)
            && forall l: Id ::
                 r == Repetido(l)
                 <==> (&& Vive(db, op.clave, op.ahora) && db.claves[op.clave].huella == op.huella
                       && db.claves[op.clave].lead == Some(l))
  {
  }

  // Creating binds the key; a new lead starts with its consent; the expired keys are gone, and the live ones stay.
  lemma TablasTrasClave(db: Db, op: Op)
    requires op.CrearIdem? && op.ahora < op.expira && Paso(db, op).1.Exito()
    ensures var (d, r) := Paso(db, op);
            && (forall k :: k in d.claves <==> Vive(db, k, op.ahora) || k == op.clave)
            && (r.Creado? ==> d.claves[op.clave] == Clave(op.huella, Some(op.lead), op.expira))
            && (forall k | Vive(db, k, op.ahora) && !(r.Creado? && k == op.clave) :: d.claves[k] == db.claves[k])
            && (r.Creado? ==> d == db.(leads := db.leads[op.lead := Nuevo],
                                       consentimientos := db.consentimientos + {op.lead}, claves := d.claves))
            && (r.Repetido? ==> d == db.(claves := d.claves))
  {
  }

  // ------------------------------------------------------------------ reachable states

  // What a reader of the tables may rely on after any run: nobody is in two scheduled meetings at one instant, a lead
  // has at most one scheduled meeting and one active assignment, an assigned lead has one, to a known advisor, and
  // the consents are exactly those of the leads.
  lemma TrasCualquierCorrida(asesores: map<Id, Asesor>, ops: seq<Op>)
    ensures var db := Correr(Inicial(asesores), ops);
            && (forall c, d, t | c in db.citas && d in db.citas && db.citas[c].estado == db.citas[d].estado == Agendada
                  && db.citas[c].asesor == db.citas[d].asesor && Ocupa(db.citas[c], t) && Ocupa(db.citas[d], t) ::
                  c == d)
            && (forall c, d | c in db.citas && d in db.citas && db.citas[c].estado == db.citas[d].estado == Agendada
                  && db.citas[c].lead == db.citas[d].lead :: c == d)
            && (forall a, b | a in db.asignaciones && b in db.asignaciones && db.asignaciones[a].activa
                  && db.asignaciones[b].activa && db.asignaciones[a].lead == db.asignaciones[b].lead :: a == b)
            && (forall l | l in db.leads && db.leads[l] == Asignado ::
                  exists a | a in db.asignaciones :: db.asignaciones[a].lead == l && db.asignaciones[a].activa
                    && db.asignaciones[a].asesor in asesores)
            && db.consentimientos == db.leads.Keys
  {
    hide BitacoraFiel, Paso, Correr;
    CorrerKeeps(asesores, ops);
    MismosAsesores(asesores, ops);
  }

  lemma {:induction false} MismosAsesores(asesores: map<Id, Asesor>, ops: seq<Op>)
    ensures Correr(Inicial(asesores), ops).asesores == asesores
  {
    hide Paso;
    if ops != [] {
      MismosAsesores(asesores, ops[..|ops| - 1]);
      PasoMismosAsesores(Correr(Inicial(asesores), ops[..|ops| - 1]), ops[|ops| - 1]);
    }
  }

  lemma PasoMismosAsesores(db: Db, op: Op)
    ensures Paso(db, op).0.asesores == db.asesores
  {
    hide EnAlcance, Superpuesta, OtraAgendada, Referido, TieneActiva;
  }
}
