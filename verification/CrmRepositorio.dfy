// The repositories as they run: statement by statement on mutable tables, with rollback on every failure.
module CrmRepositorio {
  import opened Opcion
  import opened Crm
  import opened CrmInvariantes
  import opened CrmIdempotencia
  import opened CrmReglas

  // What PostgreSQL can refuse about a row.
  datatype Violacion = Ninguna | Check | Unica | Exclusion | Foranea

  // What the shared status update answers inside a transaction.
  datatype EstadoTx = Si | No | ValorInvalido

  class Repositorio {
    const asesores: map<Id, Asesor>
    var leads: map<Id, EstadoLead>
    var consentimientos: set<Id>
    var asignaciones: map<Id, Asignacion>
    var citas: map<Id, Cita>
    var auditoria: seq<Registro>
    var claves: map<Id, Clave>

    constructor (asesores: map<Id, Asesor>)
      ensures Estado() == Inicial(asesores) && Inv(Estado())
    {
      this.asesores := asesores;
      leads, consentimientos, asignaciones, citas, auditoria, claves := map[], {}, map[], map[], [], map[];
    }

    function Estado(): Db
      reads this
    {
      Db(asesores, leads, consentimientos, asignaciones, citas, auditoria, claves)
    }

    // ROLLBACK to the state at the start of the transaction.
    method Deshacer(foto: Db)
      requires foto.asesores == asesores
      modifies this
      ensures Estado() == foto
    {
      leads, consentimientos, asignaciones := foto.leads, foto.consentimientos, foto.asignaciones;
      citas, auditoria, claves := foto.citas, foto.auditoria, foto.claves;
    }

    // ---------------------------------------------------------------- statements

    // INSERT or UPDATE of one row of tpi.citas, with the constraints of the table in their order.
    method EscribirCita(id: Id, c: Cita, nueva: bool) returns (v: Violacion)
      requires c.lead in leads
      modifies this`citas
      ensures v == (if c.fin <= c.inicio then Check
                    else if nueva && id in old(citas) then Unica
                    else if Superpuesta(old(citas), id, c) then Exclusion
                    else if OtraAgendada(old(citas), id, c) then Unica
                    else if c.asesor !in asesores then Foranea else Ninguna)
      ensures citas == if v == Ninguna then old(citas)[id := c] else old(citas)
    {
      if c.fin <= c.inicio {
        return Check;
      }
      if nueva && id in citas {
        return Unica;
      }
      if Superpuesta(citas, id, c) {
        return Exclusion;
      }
      if OtraAgendada(citas, id, c) {
        return Unica;
      }
      if c.asesor !in asesores {
        return Foranea;
      }
      citas := citas[id := c];
      v := Ninguna;
    }

    // _translate_constraint; other violations surface as database errors.
    function Traducir(v: Violacion): Salida
      requires v != Ninguna
    {
      match v
      case Exclusion => Conflicto
      case Unica => Invalido
      case _ => ErrorBase
    }

    // _update_lead_status_tx.
    method ActualizarEstado(lead: Id, nuevo: Option<EstadoLead>, actor: string, alcance: Option<Id>)
        returns (r: EstadoTx)
      modifies this`leads, this`auditoria
      ensures r == (if nuevo.None? || nuevo.value == Asignado || !ActorValido(actor) then ValorInvalido
                    else if lead !in old(leads) || !EnAlcance(asignaciones, lead, alcance) then No else Si)
      ensures Estado() == if r == Si then ConEstado(old(Estado()), lead, nuevo.value, actor) else old(Estado())
    {
      if nuevo.None? || nuevo.value == Asignado || !ActorValido(actor) {
        return ValorInvalido;
      }
      if lead !in leads || !EnAlcance(asignaciones, lead, alcance) {
        return No;
      }
      var anterior := leads[lead];
      if anterior == nuevo.value {
        return Si;
      }
      leads := leads[lead := nuevo.value];
      auditoria := auditoria + [CambioEstado(lead, actor, anterior, nuevo.value)];
      r := Si;
    }

    // ---------------------------------------------------------------- agenda transactions

    method CrearCita(cita: Id, lead: Id, responsable: Id, inicio: int, fin: int, actor: string, alcance: Option<Id>)
      returns (r: Salida)
      modifies this
      ensures (Estado(), r) == Paso(old(Estado()), Agendar(cita, lead, responsable, inicio, fin, actor, alcance))
    {
      hide EnAlcance, Superpuesta, OtraAgendada, AdmiteAgenda;
      var foto := Estado();
      if lead !in leads || !EnAlcance(asignaciones, lead, alcance) {
        return NoEncontrado;
      }
      if !AdmiteAgenda(leads[lead]) {
        return Invalido;
      }
      var v := EscribirCita(cita, Cita(lead, responsable, inicio, fin, Agendada), true);
      if v != Ninguna {
        return Traducir(v);
      }
      var ok := ActualizarEstado(lead, Some(ReunionAgendada), actor, alcance);
      if ok != Si {
        Deshacer(foto);
        return if ok == No then NoEncontrado else ErrorBase;
      }
      auditoria := auditoria + [EventoCita(lead, actor, cita, responsable, None, Agendada, None, Some(inicio))];
      r := Hecho;
    }

    method ActualizarCita(cita: Id, responsable: Id, inicio: int, fin: int, actor: string, alcance: Option<Id>)
      returns (r: Salida)
      modifies this
      ensures (Estado(), r) == Paso(old(Estado()), Reagendar(cita, responsable, inicio, fin, actor, alcance))
    {
      hide EnAlcance, Superpuesta, OtraAgendada, AdmiteAgenda;
      var foto := Estado();
      if cita !in citas {
        return NoEncontrado;
      }
      var fila := citas[cita];
      if fila.estado != Agendada {
        return Invalido;
      }
      if fila.lead !in leads || !EnAlcance(asignaciones, fila.lead, alcance) {
        return NoEncontrado;
      }
      if !AdmiteAgenda(leads[fila.lead]) {
        return Invalido;
      }
      var v := EscribirCita(cita, fila.(asesor := responsable, inicio := inicio, fin := fin), false);
      if v != Ninguna {
        return Traducir(v);
      }
      var ok := ActualizarEstado(fila.lead, Some(ReunionAgendada), actor, alcance);
      if ok != Si {
        Deshacer(foto);
        return if ok == No then NoEncontrado else ErrorBase;
      }
      auditoria := auditoria +
        [EventoCita(fila.lead, actor, cita, responsable, Some(Agendada), Agendada, Some(fila.inicio), Some(inicio))];
      r := Hecho;
    }

    // cancel_cita and _set_cita_outcome: the meeting leaves the partial indexes, so no constraint can fail.
    method CerrarCita(cita: Id, actor: string, alcance: Option<Id>, fin: EstadoCita, estadoLead: EstadoLead)
      returns (r: Salida)
      requires fin != Agendada && estadoLead != Asignado
      modifies this
      ensures (Estado(), r) == PasoCerrarCita(old(Estado()), cita, actor, alcance, fin, estadoLead)
    {
      hide EnAlcance, ActorValido, ConEstado;
      var foto := Estado();
      if cita !in citas {
        return NoEncontrado;
      }
      var fila := citas[cita];
      if fila.estado != Agendada {
        return Invalido;
      }
      if fila.lead !in leads || !EnAlcance(asignaciones, fila.lead, alcance) {
        return NoEncontrado;
      }
      citas := citas[cita := fila.(estado := fin)];
      var ok := ActualizarEstado(fila.lead, Some(estadoLead), actor, alcance);
      if ok != Si {
        Deshacer(foto);
        return if ok == No then NoEncontrado else ErrorBase;
      }
      auditoria := auditoria +
        [EventoCita(fila.lead, actor, cita, fila.asesor, Some(Agendada), fin, Some(fila.inicio), None)];
      EstadoYCitas(foto, citas, fila.lead, estadoLead, actor);
      r := Hecho;
    }

    // ---------------------------------------------------------------- lead transactions

    method ActualizarEstadoLead(lead: Id, estado: Option<EstadoLead>, actor: string, alcance: Option<Id>)
        returns (r: Salida)
      modifies this
      ensures (Estado(), r) == Paso(old(Estado()), CambiarEstado(lead, estado, actor, alcance))
    {
      hide EnAlcance;
      var ok := ActualizarEstado(lead, estado, actor, alcance);
      r := match ok case Si => Hecho case No => NoEncontrado case ValorInvalido => ErrorValor;
    }

    method AsignarLead(asignacion: Id, lead: Id, asesor: Id, actor: string) returns (r: Salida)
      modifies this
      ensures (Estado(), r) == Paso(old(Estado()), Asignar(asignacion, lead, asesor, actor))
    {
      hide TieneActiva;
      if !ActorValido(actor) {
        return ErrorValor;
      }
      var foto := Estado();
      if lead !in leads {
        return NoEncontrado;
      }
      var anterior := leads[lead];
      if asesor !in asesores || !asesores[asesor].esAsesor || !asesores[asesor].activo {
        return Invalido;
      }
      if TieneActiva(asignaciones, lead) {
        return Conflicto;
      }
      leads := leads[lead := Asignado];
      if asignacion in asignaciones {
        Deshacer(foto);
        return Conflicto;
      }
      asignaciones := asignaciones[asignacion := Asignacion(lead, asesor, true)];
      auditoria := auditoria + [AsignacionLead(lead, actor, asesor, anterior, Asignado)];
      r := Hecho;
    }

    // _create_solicitud_in_cursor: lead and consent, in the caller's transaction.
    method InsertarLead(lead: Id) returns (v: Violacion)
      modifies this`leads, this`consentimientos
      ensures v == if lead in old(leads) then Unica else Ninguna
      ensures Estado() == if v == Ninguna then ConLead(old(Estado()), lead) else old(Estado())
    {
      if lead in leads {
        return Unica;
      }
      leads := leads[lead := Nuevo];
      consentimientos := consentimientos + {lead};
      v := Ninguna;
    }

    method CrearSolicitud(lead: Id) returns (r: Salida)
      modifies this
      ensures (Estado(), r) == Paso(old(Estado()), Crear(lead))
    {
      var v := InsertarLead(lead);
      r := if v == Ninguna then Creado(lead) else ErrorBase;
    }

    method CrearSolicitudIdempotente(clave: Id, huella: string, lead: Id, ahora: int, expira: int) returns (r: Salida)
      modifies this
      ensures (Estado(), r) == Paso(old(Estado()), CrearIdem(clave, huella, lead, ahora, expira))
    {
      var foto := Estado();
      claves := Vigentes(claves, ahora);
      if expira <= ahora {
        Deshacer(foto);
        return ErrorBase;
      }
      if clave in claves {
        var fila := claves[clave];
        if fila.huella != huella {
          Deshacer(foto);
          return Conflicto;
        }
        if fila.lead.None? {
          Deshacer(foto);
          return EnProceso;
        }
        return Repetido(fila.lead.value);
      }
      claves := claves[clave := Clave(huella, None, expira)];
      var v := InsertarLead(lead);
      if v != Ninguna {
        Deshacer(foto);
        return ErrorBase;
      }
      claves := claves[clave := claves[clave].(lead := Some(lead))];
      assert claves == Vigentes(foto.claves, ahora)[clave := Clave(huella, Some(lead), expira)];
      r := Creado(lead);
    }

    // The consents go first; if the lead is still referenced they come back.
    method BorrarLeadDePrueba(lead: Id) returns (r: Salida)
      modifies this
      ensures (Estado(), r) == Paso(old(Estado()), BorrarLead(lead))
    {
      hide Referido;
      var foto := Estado();
      if lead !in leads {
        return NoEncontrado;
      }
      consentimientos := consentimientos - {lead};
      if Referido(Estado(), lead) {
        assert Referido(foto, lead) by { MismasReferencias(foto, Estado(), lead); }
        Deshacer(foto);
        return Bloqueado;
      }
      MismasReferencias(foto, Estado(), lead);
      leads := leads - {lead};
      claves := SinLead(claves, lead);
      r := Hecho;
    }

    // Any transaction, on a consistent database: the specified step, and consistency again.
    method Ejecutar(op: Op) returns (r: Salida)
      requires Inv(Estado())
      modifies this
      ensures (Estado(), r) == Paso(old(Estado()), op)
      ensures Inv(Estado())
      ensures !r.Exito() ==> Estado() == old(Estado())
      ensures AlcanceDe(op).Some? && r.Exito() ==>
                var l := LeadTocado(old(Estado()), op);
                l.Some? && exists a | a in old(asignaciones) ::
                  && old(asignaciones)[a].lead == l.value && old(asignaciones)[a].activa
                  && old(asignaciones)[a].asesor == AlcanceDe(op).value
    {
      hide Inv, PasoAgendar, PasoReagendar, PasoCerrarCita, PasoCambiarEstado, PasoAsignar, PasoCrear, PasoCrearIdem,
          PasoBorrarLead;
      PasoKeeps(Estado(), op);
      FalloNoCambia(Estado(), op);
      if AlcanceDe(op).Some? {
        SoloSuCartera(Estado(), op, AlcanceDe(op).value);
      }
      match op {
        case Crear(lead) => r := CrearSolicitud(lead);
        case CrearIdem(clave, huella, lead, ahora, expira) =>
          r := CrearSolicitudIdempotente(clave, huella, lead, ahora, expira);
        case CambiarEstado(lead, estado, actor, alcance) => r := ActualizarEstadoLead(lead, estado, actor, alcance);
        case Asignar(asignacion, lead, asesor, actor) => r := AsignarLead(asignacion, lead, asesor, actor);
        case Agendar(cita, lead, responsable, inicio, fin, actor, alcance) =>
          r := CrearCita(cita, lead, responsable, inicio, fin, actor, alcance);
        case Reagendar(cita, responsable, inicio, fin, actor, alcance) =>
          r := ActualizarCita(cita, responsable, inicio, fin, actor, alcance);
        case Cancelar(cita, actor, alcance) => r := CerrarCita(cita, actor, alcance, Cancelada, EnSeguimiento);
        case Completar(cita, actor, alcance) => r := CerrarCita(cita, actor, alcance, Realizada, ReunionRealizada);
        case NoAsistir(cita, actor, alcance) => r := CerrarCita(cita, actor, alcance, NoAsistio, EnSeguimiento);
        case BorrarLead(lead) => r := BorrarLeadDePrueba(lead);
      }
    }
  }

  // Writing the lead's state and writing the meetings do not interfere.
  lemma EstadoYCitas(d: Db, citas: map<Id, Cita>, lead: Id, nuevo: EstadoLead, actor: string)
    requires lead in d.leads
    ensures ConEstado(d.(citas := citas), lead, nuevo, actor) == ConEstado(d, lead, nuevo, actor).(citas := citas)
    ensures ConEstado(d, lead, nuevo, actor).citas == d.citas
  {
  }

  lemma MismasReferencias(d: Db, e: Db, lead: Id)
    requires d.asignaciones == e.asignaciones && d.citas == e.citas && d.auditoria == e.auditoria
    ensures Referido(d, lead) == Referido(e, lead)
  {
  }

  // The registrations of the service: a notification after the commit that created the lead, and only then.
  class Servicio {
    const repo: Repositorio
    var publicados: seq<Id>

    constructor (repo: Repositorio)
      ensures this.repo == repo && publicados == []
    {
      this.repo := repo;
      publicados := [];
    }

    method Registrar(lead: Id) returns (r: Salida)
      modifies this, repo
      ensures (repo.Estado(), r) == Paso(old(repo.Estado()), Crear(lead))
      ensures publicados == old(publicados) + if r.Creado? then [r.lead] else []
    {
      r := repo.CrearSolicitud(lead);
      if r.Creado? {
        publicados := publicados + [r.lead];
      }
    }

    method RegistrarIdempotente(clave: Id, huella: string, lead: Id, ahora: int, expira: int) returns (r: Salida)
      modifies this, repo
      ensures (repo.Estado(), r) == Paso(old(repo.Estado()), CrearIdem(clave, huella, lead, ahora, expira))
      ensures publicados == old(publicados) + if r.Creado? then [r.lead] else []
      ensures ahora < expira && !Vive(old(repo.Estado()), clave, ahora) && lead !in old(repo.leads) ==>
                publicados == old(publicados) + [lead]
    {
      RespuestaSegunExpira(repo.Estado(), CrearIdem(clave, huella, lead, ahora, expira));
      r := repo.CrearSolicitudIdempotente(clave, huella, lead, ahora, expira);
      if r.Creado? {
        publicados := publicados + [r.lead];
      }
    }

    // Any run of requests: what is published is exactly what the creations report, in order.
    method Atender(ops: seq<Op>)
      requires Inv(repo.Estado())
      modifies this, repo
      ensures Inv(repo.Estado()) && repo.Estado() == Correr(old(repo.Estado()), ops)
      ensures publicados == old(publicados) + LeadsDe(Publicaciones(old(repo.Estado()), ops))
    {
      hide Inv, Paso, Publicacion;
      ghost var db := repo.Estado();
      assert ops[..0] == [] && publicados + [] == publicados;
      for i := 0 to |ops|
        invariant Inv(repo.Estado()) && repo.Estado() == Correr(db, ops[..i])
        invariant publicados == old(publicados) + LeadsDe(Publicaciones(db, ops[..i]))
      {
        assert ops[..i + 1][..i] == ops[..i];
        ghost var estado, antes := repo.Estado(), publicados;
        var r := Uno(ops[i]);
        PublicaUno(Publicaciones(db, ops[..i]), ops[i], r);
      }
      assert ops[..|ops|] == ops;
    }

    method Uno(op: Op) returns (r: Salida)
      requires Inv(repo.Estado())
      modifies this, repo
      ensures Inv(repo.Estado()) && (repo.Estado(), r) == Paso(old(repo.Estado()), op)
      ensures publicados == old(publicados) + LeadsDe(Publicacion(op, r))
    {
      hide Inv;
      PasoKeeps(repo.Estado(), op);
      match op {
        case Crear(lead) => r := Registrar(lead);
        case CrearIdem(clave, huella, lead, ahora, expira) =>
          r := RegistrarIdempotente(clave, huella, lead, ahora, expira);
        case _ =>
          SoloRegistrosCrean(repo.Estado(), op);
          r := repo.Ejecutar(op);
          assert publicados + [] == publicados;
      }
    }
  }

  lemma RespuestaSegunExpira(db: Db, op: Op)
    requires op.CrearIdem?
    ensures op.ahora < op.expira ==>
              (Paso(db, op).1 == Creado(op.lead) <==> !Vive(db, op.clave, op.ahora) && op.lead !in db.leads)
  {
    hide Paso, Vive;
    if op.ahora < op.expira {
      RespuestaDeClave(db, op);
    }
  }

  lemma SoloRegistrosCrean(db: Db, op: Op)
    requires !op.Crear? && !op.CrearIdem?
    ensures !Paso(db, op).1.Creado?
  {
  }

  lemma PublicaUno(avisos: seq<Aviso>, op: Op, r: Salida)
    ensures LeadsDe(avisos + Publicacion(op, r)) == LeadsDe(avisos) + LeadsDe(Publicacion(op, r))
  {
  }
}
