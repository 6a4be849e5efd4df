// Scheduled meetings and the state of their lead: which transactions keep them together, and which part them.
module CrmAgenda {
  import opened Opcion
  import opened Crm
  import opened CrmInvariantes
  import opened CrmIdempotencia

  // Every lead with a scheduled meeting is in "reunion_agendada".
  ghost predicate Ligada(db: Db) {
    forall c | c in db.citas && db.citas[c].estado == Agendada ::
      db.citas[c].lead in db.leads && db.leads[db.citas[c].lead] == ReunionAgendada
  }

  predicate ConAgendada(db: Db, lead: Id) {
    exists c | c in db.citas :: db.citas[c].estado == Agendada && db.citas[c].lead == lead
  }

  // The two ways to part them, visible before the call: a state other than "reunion_agendada" set by hand, or an
  // assignment, for a lead with a scheduled meeting.
  predicate Rompe(db: Db, op: Op) {
    match op
    case CambiarEstado(lead, estado, _, _) => estado != Some(ReunionAgendada) && ConAgendada(db, lead)
    case Asignar(_, lead, _, _) => ConAgendada(db, lead)
    case _ => false
  }

  lemma ConEstadoLigada(db: Db, lead: Id, nuevo: EstadoLead, actor: string)
    requires Ligada(db) && lead in db.leads
    ensures Ligada(ConEstado(db, lead, nuevo, actor)) <==> nuevo == ReunionAgendada || !ConAgendada(db, lead)
  {
    var d := ConEstado(db, lead, nuevo, actor);
    assert d.citas == db.citas && d.leads == db.leads[lead := nuevo];
  }

  lemma AsignarLigada(db: Db, op: Op)
    requires Ligada(db) && op.Asignar?
    ensures Ligada(PasoAsignar(db, op).0) <==> !(PasoAsignar(db, op).1.Hecho? && ConAgendada(db, op.lead))
  {
    hide TieneActiva;
    var d := PasoAsignar(db, op).0;
    assert d.citas == db.citas;
    if PasoAsignar(db, op).1.Hecho? {
      assert d.leads == db.leads[op.lead := Asignado];
    }
  }

  // Writing a meeting: the lead follows it if it stays scheduled, and no other meeting of the lead is scheduled.
  lemma ConCitaLigada(db: Db, id: Id, c: Cita, estado: EstadoLead, actor: string, fechaNueva: Option<int>)
    requires Ligada(db) && c.lead in db.leads && (c.estado == Agendada ==> estado == ReunionAgendada)
    requires forall x | x in db.citas && x != id && db.citas[x].estado == Agendada :: db.citas[x].lead != c.lead
    ensures Ligada(ConCita(db, id, c, estado, actor, fechaNueva))
  {
    var d := ConCita(db, id, c, estado, actor, fechaNueva);
    assert d.citas == db.citas[id := c] && d.leads == db.leads[c.lead := estado];
  }

  // The only scheduled meeting of its lead.
  lemma UnicaAgendada(db: Db, id: Id)
    requires AgendaSinChoques(db) && id in db.citas && db.citas[id].estado == Agendada
    ensures forall x | x in db.citas && x != id && db.citas[x].estado == Agendada ::
              db.citas[x].lead != db.citas[id].lead
  {
  }

  lemma AgendarLigada(db: Db, op: Op)
    requires Ligada(db) && op.Agendar?
    ensures Ligada(PasoAgendar(db, op).0)
  {
    hide Superpuesta, EnAlcance, ConCita;
    if PasoAgendar(db, op).1.Hecho? {
      ConCitaLigada(db, op.cita, Cita(op.lead, op.responsable, op.inicio, op.fin, Agendada), ReunionAgendada, op.actor,
                    Some(op.inicio));
    }
  }

  lemma ReagendarLigada(db: Db, op: Op)
    requires Ligada(db) && AgendaSinChoques(db) && op.Reagendar?
    ensures Ligada(PasoReagendar(db, op).0)
  {
    hide Superpuesta, OtraAgendada, EnAlcance, ConCita;
    if PasoReagendar(db, op).1.Hecho? {
      UnicaAgendada(db, op.cita);
      ConCitaLigada(db, op.cita, db.citas[op.cita].(asesor := op.responsable, inicio := op.inicio, fin := op.fin),
                    ReunionAgendada, op.actor, Some(op.inicio));
    }
  }

  lemma CerrarLigada(db: Db, cita: Id, actor: string, alcance: Option<Id>, fin: EstadoCita, lead: EstadoLead)
    requires Ligada(db) && AgendaSinChoques(db) && fin != Agendada
    ensures Ligada(PasoCerrarCita(db, cita, actor, alcance, fin, lead).0)
  {
    hide EnAlcance, ConCita;
    if PasoCerrarCita(db, cita, actor, alcance, fin, lead).1.Hecho? {
      UnicaAgendada(db, cita);
      ConCitaLigada(db, cita, db.citas[cita].(estado := fin), lead, actor, None);
    }
  }

  lemma MismosEstados(db: Db, d: Db)
    requires Ligada(db) && d.citas == db.citas
    requires forall c | c in db.citas && db.citas[c].lead in db.leads ::
               db.citas[c].lead in d.leads && d.leads[db.citas[c].lead] == db.leads[db.citas[c].lead]
    ensures Ligada(d)
  {
  }

  lemma LeadsLigada(db: Db, op: Op)
    requires Ligada(db) && (op.Crear? || op.CrearIdem? || op.BorrarLead?)
    ensures Ligada(Paso(db, op).0)
  {
    hide Ligada, Vigentes;
    MismosEstados(db, Paso(db, op).0);
  }

  // One transaction keeps every lead with a scheduled meeting in its state, exactly unless it is one of the two.
  lemma PasoLigada(db: Db, op: Op)
    requires Inv(db) && Ligada(db)
    ensures Ligada(Paso(db, op).0) <==> !(Paso(db, op).1.Hecho? && Rompe(db, op))
  {
    hide Ligada, ConAgendada, PasoAgendar, PasoReagendar, PasoCerrarCita, PasoAsignar, PasoCrear, PasoCrearIdem,
         PasoBorrarLead, ConEstado, EnAlcance, BitacoraFiel, AsignadoTieneActiva, AgendaSinChoques;
    match op {
      case CambiarEstado(lead, estado, actor, _) =>
        if Paso(db, op).1.Hecho? {
          ConEstadoLigada(db, lead, estado.value, actor);
        }
      case Asignar(_, _, _, _) => AsignarLigada(db, op);
      case Agendar(_, _, _, _, _, _, _) => AgendarLigada(db, op);
      case Reagendar(_, _, _, _, _, _) => ReagendarLigada(db, op);
      case Cancelar(cita, actor, alcance) => CerrarLigada(db, cita, actor, alcance, Cancelada, EnSeguimiento);
      case Completar(cita, actor, alcance) => CerrarLigada(db, cita, actor, alcance, Realizada, ReunionRealizada);
      case NoAsistir(cita, actor, alcance) => CerrarLigada(db, cita, actor, alcance, NoAsistio, EnSeguimiento);
      case _ => LeadsLigada(db, op);
    }
  }

  // ------------------------------------------------------------------ runs

  ghost predicate RompeEn(db: Db, ops: seq<Op>, i: nat)
    requires i < |ops|
  {
    SalidaDe(db, ops, i).Hecho? && Rompe(Correr(db, ops[..i]), ops[i])
  }

  ghost predicate LigadaTras(db: Db, ops: seq<Op>, i: nat)
    requires i <= |ops|
  {
    Ligada(Correr(db, ops[..i]))
  }

  // They stay together in every state of a run exactly when no step of it is one of the two.
  lemma {:induction false} CorridaLigada(asesores: map<Id, Asesor>, ops: seq<Op>)
    ensures var db := Inicial(asesores);
            (forall i | 0 <= i <= |ops| :: LigadaTras(db, ops, i))
            <==> (forall i | 0 <= i < |ops| :: !RompeEn(db, ops, i))
  {
    hide Paso, Ligada, Rompe, Inv;
    var db := Inicial(asesores);
    if ops == [] {
      InicialLigada(asesores);
    } else {
      var n := |ops| - 1;
      var antes := ops[..n];
      CorridaLigada(asesores, antes);
      CorrerKeeps(asesores, antes);
      MismosPasos(db, ops, n);
      if forall i | 0 <= i <= n :: LigadaTras(db, antes, i) {
        assert LigadaTras(db, antes, n) && antes[..n] == antes;
        PasoLigada(Correr(db, antes), ops[n]);
      }
      TodasHasta(db, ops, n);
    }
  }

  lemma InicialLigada(asesores: map<Id, Asesor>)
    ensures LigadaTras(Inicial(asesores), [], 0)
  {
  }

  // A run and its first n steps agree up to there.
  lemma MismosPasos(db: Db, ops: seq<Op>, n: nat)
    requires n + 1 == |ops|
    ensures forall i | 0 <= i <= n :: LigadaTras(db, ops, i) == LigadaTras(db, ops[..n], i)
    ensures forall i | 0 <= i < n :: RompeEn(db, ops, i) == RompeEn(db, ops[..n], i)
    ensures LigadaTras(db, ops, n + 1) == Ligada(Paso(Correr(db, ops[..n]), ops[n]).0)
    ensures RompeEn(db, ops, n)
            == (Paso(Correr(db, ops[..n]), ops[n]).1.Hecho? && Rompe(Correr(db, ops[..n]), ops[n]))
  {
    hide Paso, Ligada, Rompe;
    forall i | 0 <= i <= n ensures ops[..n][..i] == ops[..i] { }
    assert ops[..n + 1] == ops;
  }

  lemma TodasHasta(db: Db, ops: seq<Op>, n: nat)
    requires n + 1 == |ops|
    ensures (forall i | 0 <= i <= n + 1 :: LigadaTras(db, ops, i))
            <==> (forall i | 0 <= i <= n :: LigadaTras(db, ops, i)) && LigadaTras(db, ops, n + 1)
    ensures (forall i | 0 <= i < n + 1 :: !RompeEn(db, ops, i))
            <==> (forall i | 0 <= i < n :: !RompeEn(db, ops, i)) && !RompeEn(db, ops, n)
  {
    hide LigadaTras, RompeEn;
  }

  // ------------------------------------------------------------------ both happen

  // One lead and its meeting, scheduled without an assignment, as the management may do.
  function Agendado(s: Id): seq<Op> { [Crear(0), Agendar(0, 0, s, 0, 30, "ceo", None)] }

  function UnAsesor(s: Id): Db { Inicial(map[s := Asesor(true, true)]) }

  lemma AgendadoEs(s: Id)
    ensures var d := Correr(UnAsesor(s), Agendado(s));
            && d.leads == map[0 := ReunionAgendada] && d.citas == map[0 := Cita(0, s, 0, 30, Agendada)]
            && d.asignaciones == map[] && d.asesores == map[s := Asesor(true, true)]
  {
    hide Paso, Correr;
    var db := UnAsesor(s);
    var d, op := Paso(db, Crear(0)).0, Agendado(s)[1];
    CorrerSigue(db, Crear(0), [op]);
    CorrerSigue(d, op, []);
    CorrerNada(Paso(d, op).0);
    assert [op] + [] == [op] && [Crear(0)] + [op] == Agendado(s);
    PrimerLead(db, 0);
    PrimeraCita(d, s);
  }

  lemma CorrerNada(db: Db)
    ensures Correr(db, []) == db
  {
  }

  lemma PrimerLead(db: Db, lead: Id)
    requires db.leads == map[]
    ensures var d := Paso(db, Crear(lead)).0;
            && d.leads == map[lead := Nuevo] && d.citas == db.citas
            && d.asignaciones == db.asignaciones && d.asesores == db.asesores
  {
  }

  lemma PrimeraCita(db: Db, s: Id)
    requires db.leads == map[0 := Nuevo] && db.citas == map[] && s in db.asesores
    ensures var d := Paso(db, Agendar(0, 0, s, 0, 30, "ceo", None)).0;
            && d.leads == map[0 := ReunionAgendada] && d.citas == map[0 := Cita(0, s, 0, 30, Agendada)]
            && d.asignaciones == db.asignaciones && d.asesores == db.asesores
  {
  }

  lemma AgendadoMas(s: Id, op: Op)
    ensures Inv(Correr(UnAsesor(s), Agendado(s) + [op]))
    ensures Correr(UnAsesor(s), Agendado(s) + [op]) == Paso(Correr(UnAsesor(s), Agendado(s)), op).0
  {
    hide Paso, Inv;
    var ops := Agendado(s);
    assert (ops + [op])[..|ops|] == ops;
    CorrerKeeps(map[s := Asesor(true, true)], ops + [op]);
  }

  // Assigning the lead parts them, with no change of state by hand.
  lemma AsignarSepara(s: Id)
    ensures var ops := Agendado(s) + [Asignar(0, 0, s, "ceo")];
            var d := Correr(UnAsesor(s), ops);
            && Inv(d) && 0 in d.leads && d.leads[0] == Asignado
            && 0 in d.citas && d.citas[0].estado == Agendada && !Ligada(d)
  {
    hide Correr, Inv;
    AgendadoEs(s);
    AgendadoMas(s, Asignar(0, 0, s, "ceo"));
  }

  // So does a change of state by hand.
  lemma CambiarSepara(s: Id)
    ensures var ops := Agendado(s) + [CambiarEstado(0, Some(Cerrado), "ceo", None)];
            var d := Correr(UnAsesor(s), ops);
            && Inv(d) && 0 in d.leads && d.leads[0] == Cerrado
            && 0 in d.citas && d.citas[0].estado == Agendada && !Ligada(d)
  {
    hide Correr, Inv;
    AgendadoEs(s);
    AgendadoMas(s, CambiarEstado(0, Some(Cerrado), "ceo", None));
  }
}
