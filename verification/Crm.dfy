// The CRM tables and what each transaction does to them, as functions of the state before it.
module Crm {
  import opened Opcion

  type Id = nat

  datatype EstadoLead =
    | Nuevo | Asignado | SinContacto | EnSeguimiento | ReunionAgendada | ReunionRealizada
    | FichaGenerada | Cerrado | NoInteresado | DatosErroneos | NoContactado | Perdido

  datatype EstadoCita = Agendada | Realizada | NoAsistio | Cancelada

  datatype Asesor = Asesor(esAsesor: bool, activo: bool)

  datatype Asignacion = Asignacion(lead: Id, asesor: Id, activa: bool)

  datatype Cita = Cita(lead: Id, asesor: Id, inicio: int, fin: int, estado: EstadoCita)

  // Rows of the append-only audit table.
  datatype Registro =
    | CambioEstado(lead: Id, actor: string, anterior: EstadoLead, nuevo: EstadoLead)
    | AsignacionLead(lead: Id, actor: string, asesor: Id, anterior: EstadoLead, nuevo: EstadoLead)
    | EventoCita(lead: Id, actor: string, cita: Id, responsable: Id,
                 citaAnterior: Option<EstadoCita>, citaNueva: EstadoCita,
                 fechaAnterior: Option<int>, fechaNueva: Option<int>)

  // A row of api_idempotency.
  datatype Clave = Clave(huella: string, lead: Option<Id>, expira: int)

  datatype Db = Db(
    asesores: map<Id, Asesor>,
    leads: map<Id, EstadoLead>,
    consentimientos: set<Id>,
    asignaciones: map<Id, Asignacion>,
    citas: map<Id, Cita>,
    auditoria: seq<Registro>,
    claves: map<Id, Clave>)

  datatype Op =
    | Crear(lead: Id)
    | CrearIdem(clave: Id, huella: string, lead: Id, ahora: int, expira: int)
    | CambiarEstado(lead: Id, estado: Option<EstadoLead>, actor: string, alcance: Option<Id>)
    | Asignar(asignacion: Id, lead: Id, asesor: Id, actor: string)
    | Agendar(cita: Id, lead: Id, responsable: Id, inicio: int, fin: int, actor: string, alcance: Option<Id>)
    | Reagendar(cita: Id, responsable: Id, inicio: int, fin: int, actor: string, alcance: Option<Id>)
    | Cancelar(cita: Id, actor: string, alcance: Option<Id>)
    | Completar(cita: Id, actor: string, alcance: Option<Id>)
    | NoAsistir(cita: Id, actor: string, alcance: Option<Id>)
    | BorrarLead(lead: Id)

  datatype Salida =
    | Hecho
    | Creado(lead: Id)
    | Repetido(lead: Id)
    | NoEncontrado
    | Invalido
    | Conflicto
    | EnProceso
    | Bloqueado
    | ErrorValor
    | ErrorBase
  {
    predicate Exito() { Hecho? || Creado? || Repetido? }
  }

  // ------------------------------------------------------------------ predicates of the queries

  predicate ActorValido(actor: string) { 0 < |actor| <= 150 }

  predicate AdmiteAgenda(e: EstadoLead) {
    !(e in {Cerrado, Perdido, NoInteresado, DatosErroneos, NoContactado})
  }

  // An active assignment of the lead to somebody.
  predicate TieneActiva(asignaciones: map<Id, Asignacion>, lead: Id) {
    exists a | a in asignaciones :: asignaciones[a].lead == lead && asignaciones[a].activa
  }

  // The ownership query of advisor-scoped writes.
  predicate EnAlcance(asignaciones: map<Id, Asignacion>, lead: Id, alcance: Option<Id>) {
    alcance.None? ||
    exists a | a in asignaciones ::
      asignaciones[a].lead == lead && asignaciones[a].activa && asignaciones[a].asesor == alcance.value
  }

  predicate SePisan(a: Cita, b: Cita) { a.inicio < b.fin && b.inicio < a.fin }

  // The exclusion constraint: some other scheduled meeting of the same responsible overlaps c.
  predicate Superpuesta(citas: map<Id, Cita>, id: Id, c: Cita) {
    c.estado == Agendada &&
    exists x | x in citas :: x != id && citas[x].estado == Agendada && citas[x].asesor == c.asesor
        && SePisan(citas[x], c)
  }

  // The partial unique index: some other scheduled meeting of the same lead.
  predicate OtraAgendada(citas: map<Id, Cita>, id: Id, c: Cita) {
    c.estado == Agendada &&
    exists x | x in citas :: x != id && citas[x].estado == Agendada && citas[x].lead == c.lead
  }

  // Rows that reference a lead and would block its deletion.
  predicate Referido(db: Db, lead: Id) {
    || (exists a | a in db.asignaciones :: db.asignaciones[a].lead == lead)
    || (exists c | c in db.citas :: db.citas[c].lead == lead)
    || (exists i | 0 <= i < |db.auditoria| :: db.auditoria[i].lead == lead)
  }

  // ------------------------------------------------------------------ transactions

  // Writing a lead's state: no row at all when it does not change.
  function ConEstado(db: Db, lead: Id, nuevo: EstadoLead, actor: string): Db
    requires lead in db.leads
  {
    if db.leads[lead] == nuevo then db
    else db.(leads := db.leads[lead := nuevo],
             auditoria := db.auditoria + [CambioEstado(lead, actor, db.leads[lead], nuevo)])
  }

  // Writing a meeting together with its audit row and the state of its lead.
  function ConCita(db: Db, id: Id, c: Cita, estado: EstadoLead, actor: string, fechaNueva: Option<int>): Db
    requires c.lead in db.leads
  {
    var d := ConEstado(db, c.lead, estado, actor);
    var antes := if id in db.citas then Some(db.citas[id]) else None;
    d.(citas := d.citas[id := c],
       auditoria := d.auditoria + [EventoCita(
         c.lead, actor, id, c.asesor,
         if antes.Some? then Some(antes.value.estado) else None, c.estado,
         if antes.Some? then Some(antes.value.inicio) else None, fechaNueva)])
  }

  function PasoAgendar(db: Db, op: Op): (Db, Salida)
    requires op.Agendar?
  {
    var c := Cita(op.lead, op.responsable, op.inicio, op.fin, Agendada);
    if op.lead !in db.leads || !EnAlcance(db.asignaciones, op.lead, op.alcance) then (db, NoEncontrado)
    else if !AdmiteAgenda(db.leads[op.lead]) then (db, Invalido)
    else if c.fin <= c.inicio then (db, ErrorBase)
    else if op.cita in db.citas then (db, Invalido)
    else if Superpuesta(db.citas, op.cita, c) then (db, Conflicto)
    else if OtraAgendada(db.citas, op.cita, c) then (db, Invalido)
    else if op.responsable !in db.asesores || !ActorValido(op.actor) then (db, ErrorBase)
    else (ConCita(db, op.cita, c, ReunionAgendada, op.actor, Some(op.inicio)), Hecho)
  }

  function PasoReagendar(db: Db, op: Op): (Db, Salida)
    requires op.Reagendar?
  {
    if op.cita !in db.citas then (db, NoEncontrado)
    else if db.citas[op.cita].estado != Agendada then (db, Invalido)
    else
      var vieja := db.citas[op.cita];
      var c := vieja.(asesor := op.responsable, inicio := op.inicio, fin := op.fin);
      if vieja.lead !in db.leads || !EnAlcance(db.asignaciones, vieja.lead, op.alcance) then (db, NoEncontrado)
      else if !AdmiteAgenda(db.leads[vieja.lead]) then (db, Invalido)
      else if c.fin <= c.inicio then (db, ErrorBase)
      else if Superpuesta(db.citas, op.cita, c) then (db, Conflicto)
      else if OtraAgendada(db.citas, op.cita, c) then (db, Invalido)
      else if op.responsable !in db.asesores || !ActorValido(op.actor) then (db, ErrorBase)
      else (ConCita(db, op.cita, c, ReunionAgendada, op.actor, Some(op.inicio)), Hecho)
  }

  // Cancelled, held and missed meetings differ only in the states they write.
  function PasoCerrarCita(db: Db, cita: Id, actor: string, alcance: Option<Id>, fin: EstadoCita,
      lead: EstadoLead): (Db, Salida)
  {
    if cita !in db.citas then (db, NoEncontrado)
    else if db.citas[cita].estado != Agendada then (db, Invalido)
    else
      var vieja := db.citas[cita];
      if vieja.lead !in db.leads || !EnAlcance(db.asignaciones, vieja.lead, alcance) then (db, NoEncontrado)
      else if !ActorValido(actor) then (db, ErrorBase)
      else (ConCita(db, cita, vieja.(estado := fin), lead, actor, None), Hecho)
  }

  function PasoCambiarEstado(db: Db, op: Op): (Db, Salida)
    requires op.CambiarEstado?
  {
    if op.estado.None? || op.estado.value == Asignado || !ActorValido(op.actor) then (db, ErrorValor)
    else if op.lead !in db.leads || !EnAlcance(db.asignaciones, op.lead, op.alcance) then (db, NoEncontrado)
    else (ConEstado(db, op.lead, op.estado.value, op.actor), Hecho)
  }

  function PasoAsignar(db: Db, op: Op): (Db, Salida)
    requires op.Asignar?
  {
    if !ActorValido(op.actor) then (db, ErrorValor)
    else if op.lead !in db.leads then (db, NoEncontrado)
    else if op.asesor !in db.asesores || !db.asesores[op.asesor].esAsesor || !db.asesores[op.asesor].activo
        then (db, Invalido)
    else if TieneActiva(db.asignaciones, op.lead) || op.asignacion in db.asignaciones then (db, Conflicto)
    else
      (db.(leads := db.leads[op.lead := Asignado],
           asignaciones := db.asignaciones[op.asignacion := Asignacion(op.lead, op.asesor, true)],
           auditoria := db.auditoria + [AsignacionLead(op.lead, op.actor, op.asesor, db.leads[op.lead], Asignado)]),
       Hecho)
  }

  function ConLead(db: Db, lead: Id): Db {
    db.(leads := db.leads[lead := Nuevo], consentimientos := db.consentimientos + {lead})
  }

  function PasoCrear(db: Db, lead: Id): (Db, Salida) {
    if lead in db.leads then (db, ErrorBase) else (ConLead(db, lead), Creado(lead))
  }

  function Vigentes(claves: map<Id, Clave>, ahora: int): map<Id, Clave> {
    map k | k in claves && claves[k].expira > ahora :: claves[k]
  }

  function PasoCrearIdem(db: Db, op: Op): (Db, Salida)
    requires op.CrearIdem?
  {
    var vigentes := Vigentes(db.claves, op.ahora);
    if op.expira <= op.ahora then (db, ErrorBase)
    else if op.clave in vigentes then
      var k := vigentes[op.clave];
      if k.huella != op.huella then (db, Conflicto)
      else if k.lead.None? then (db, EnProceso)
      else (db.(claves := vigentes), Repetido(k.lead.value))
    else if op.lead in db.leads then (db, ErrorBase)
    else (ConLead(db, op.lead).(claves := vigentes[op.clave := Clave(op.huella, Some(op.lead), op.expira)]),
        Creado(op.lead))
  }

  // ON DELETE SET NULL.
  function SinLead(claves: map<Id, Clave>, lead: Id): map<Id, Clave> {
    map k | k in claves :: if claves[k].lead == Some(lead) then claves[k].(lead := None) else claves[k]
  }

  function PasoBorrarLead(db: Db, lead: Id): (Db, Salida) {
    if lead !in db.leads then (db, NoEncontrado)
    else if Referido(db, lead) then (db, Bloqueado)
    else (db.(leads := db.leads - {lead}, consentimientos := db.consentimientos - {lead},
              claves := SinLead(db.claves, lead)), Hecho)
  }

  // One committed or rolled-back transaction.
  function Paso(db: Db, op: Op): (Db, Salida) {
    match op
    case Crear(lead) => PasoCrear(db, lead)
    case CrearIdem(_, _, _, _, _) => PasoCrearIdem(db, op)
    case CambiarEstado(_, _, _, _) => PasoCambiarEstado(db, op)
    case Asignar(_, _, _, _) => PasoAsignar(db, op)
    case Agendar(_, _, _, _, _, _, _) => PasoAgendar(db, op)
    case Reagendar(_, _, _, _, _, _) => PasoReagendar(db, op)
    case Cancelar(cita, actor, alcance) => PasoCerrarCita(db, cita, actor, alcance, Cancelada, EnSeguimiento)
    case Completar(cita, actor, alcance) => PasoCerrarCita(db, cita, actor, alcance, Realizada, ReunionRealizada)
    case NoAsistir(cita, actor, alcance) => PasoCerrarCita(db, cita, actor, alcance, NoAsistio, EnSeguimiento)
    case BorrarLead(lead) => PasoBorrarLead(db, lead)
  }

  function Correr(db: Db, ops: seq<Op>): Db {
    if ops == [] then db else Paso(Correr(db, ops[..|ops| - 1]), ops[|ops| - 1]).0
  }

  // What operation i of a run answers.
  function SalidaDe(db: Db, ops: seq<Op>, i: nat): Salida
    requires i < |ops|
  {
    Paso(Correr(db, ops[..i]), ops[i]).1
  }

  function Inicial(asesores: map<Id, Asesor>): Db {
    Db(asesores, map[], {}, map[], map[], [], map[])
  }
}
