# TPI: pension simulator, CRM and attachments, verified in Dafny

A model of the parts of the TPI back office whose behaviour is hardest to see from reading one function:

- **the pension engine**: mortality improvement and the monthly survival curve, the immediate annuity with spouse,
  children, guarantee and temporary increase, and the deferred annuity solved by bisection;
- **the CRM**: leads, assignments, meetings, the append-only audit table and the idempotency keys, as transactions
  that roll back whole;
- **the weekly agenda**: the partition of a day's meetings into lanes;
- **notes and attachments**: printing, appending, parsing and deleting marks in the comments of a lead, the
  upload/compensate protocol between object storage and notes, and the scanners that look into PDF and JPEG files;
- **small rules**: the RUT check digit and its written forms, the request limiter, the closure of dependent tables.

`dafny verify dfyconfig.toml` checks everything.

## How to read it

One module per component, each in the file of its name. Code that is a formula is a function with lemmas; code that
changes state is a class or a method with loops, whose `ensures` ties it to those functions.

| file | content |
|---|---|
| `Sumas.dfy` | discounted sums and products over months; summation by parts |
| `Mortalidad.dfy`, `RentaInmediata.dfy`, `Garantia.dfy`, `RentaDiferida.dfy` | the pension engine, over exact reals; `Garantia.dfy` is about lengthening the guaranteed period |
| `TablaDeVida.dfy`, `Beneficiarios.dfy` | the same results in the terms of the mortality tables and of the persons: which rate acts when, who is paid what |
| `Crm.dfy` | the tables and every transaction as a function of the state before it |
| `CrmInvariantes.dfy`, `CrmIdempotencia.dfy` | what every run of transactions keeps |
| `CrmReglas.dfy` | exactly when each transaction succeeds, for whose leads, and what it leaves in tables and log |
| `CrmAgenda.dfy` | scheduled meetings against the state of their lead, and exactly which transactions part them |
| `CrmRepositorio.dfy` | the repositories statement by statement on mutable tables, with rollback, proved equal to `Crm.dfy` |
| `Carriles.dfy` | the lanes of a day of the agenda |
| `Texto.dfy`, `Marcas.dfy`, `Notas.dfy`, `NotasCorridas.dfy`, `NotasBusqueda.dfy`, `NotasBorrado.dfy` | string operations, attachment marks, the note codec, runs of notes and deletions, looking marks up, what a deletion leaves to be found |
| `Comentario.dfy`, `NotaImpresa.dfy` | what is stored of a comment and what a browser shows of it; notes and marks character by character |
| `Almacen.dfy`, `Adjuntos.dfy` | objects in storage against marks in the comments of the leads, under failures |
| `PdfNombres.dfy`, `PdfEscapes.dfy`, `Jpeg.dfy` | the byte scanners; the ways to spell a name of a PDF |
| `Rut.dfy`, `RutFormato.dfy` | check digit, normal form and display |
| `Limitador.dfy`, `Cierre.dfy` | the request limiter; the fixpoint over foreign keys |
| `Opcion.dfy` | a value that may be missing |

Conventions of the model:

- The monthly rate factor `g` is any real above 1 (the code takes the twelfth root of the yearly factor). The
  fractional power of `_q_mejorada` is a parameter that must satisfy `EsPotencia`: values in [0, 1], the base itself
  at exponent 1, decreasing in the exponent. `PotenciaPosible` shows such functions exist.
- Mortality tables are sequences with rates and improvement factors in [0, 1].
- A transaction of the CRM is a step of `Crm.Paso`; the constraints declared on the tables are checks that make the
  step fail and leave the state as it was. Identifiers that the code draws at random, and the clock, are arguments.
- Every call to the object storage answers well, fails without effect, or fails after taking effect; the same goes
  for the write of a note. The answers are arguments, so the theorems hold for every combination of failures.

## What the code does where its own words say otherwise

- `InMemoryRateLimiter` calls itself a fixed-window limiter (`app/api/abuse.py:15`). It is a sliding window, and the
  stronger property of one holds (`Limitador.VentanaSiempre`).
- `exceso` is increasing, as its comment says, but nothing solves the capital equation when the balance does not
  cover the deferred funeral quota: the loop then returns saldo / 2^201 (`RentaDiferida.Biseccion`).
- A deferral of more than 112 years indexes past the survival array (`app/simulador_pension/renta_diferida.py:50`):
  the outcome `FueraDeTabla`.
- The closed form of the funeral quota equals the term-by-term sum exactly when the holder is inside the table;
  otherwise it is `15·g` against 0 (`RentaInmediata.CuotaMortuoria`).
- A longer guarantee is expected not to raise the pension. It can, in two ways. Survivors' shares may exceed 100 % in
  a newly guaranteed month (`Garantia.GarantiaPuedeSubir`: a spouse and three minors of other partners). And a
  guarantee that reaches the holder's horizon cuts the children off
  (`app/simulador_pension/renta_inmediata.py:90-92`), which can take away more than the new months give, with shares
  that never pass 65 % (`Garantia.CruceSube`: one disabled child). `GarantiaIdentidad` gives the exact change of the
  factor for every family, `GarantiaExacta` the exact condition for the pension, `UnMesMas` the same month by month,
  and `GarantiaNuncaSube` the cases in which the expectation holds.
- Marks in the text of notes are neutralized (`app/services/solicitud_service.py:1187`); the request of the public form
  and the authors' names are not. The service looks attachments up in the whole text, so a request that is a mark is
  taken for an attachment the parser does not show (`NotasBusqueda.PedidoConMarca`), without an object behind it
  (`Adjuntos.MarcaSinObjeto`). Search and parser agree if and only if neither the text shown as the request nor an
  author's name holds a mark (`NotasBusqueda.BusquedaEsVista`), and storage agrees with the search if and only if it
  does on those marks (`Adjuntos.BusquedaRespaldada`). A lead that has just registered agrees if and only if nothing is
  found in its request (`Adjuntos.RegistroFresco`).
- A delete that is reported as done is expected to leave the attachment unfound. The search takes marks in any letter
  case and by their identifier; the delete replaces the canonical text of one mark, type included. What the search
  finds afterwards is exactly its matches before, less those written as that text (`NotasBorrado.BorradoDejaOtras`),
  so the identifier is gone if and only if none of the others carries it (`Adjuntos.Servicio.BorrarAdjunto`). Two
  requests in which one does: a mark in upper-case digits (`NotasBorrado.MarcaEnMayusculas`), and two marks of one
  identifier with different types (`NotasBorrado.DosTipos`). Without marks in the request and the authors' names the
  identifier is gone as soon as the text is written.
- A request stored empty gives its place to the first note, which the parser then shows as the request
  (`NotasCorridas.TodasLasNotas`, an equivalence), without its attachments
  (`NotasBusqueda.PrimeraNotaSinPedido`).
- `normalize_rut` promises the form 12345678-K, and its comment speaks of the last one or two characters. Without a
  hyphen it takes exactly the last one; with a hyphen it accepts a check digit of any length, which then never
  validates (`RutFormato.DvLargo`). `RutFormato.DvDeUnCaracter` says of which accepted texts the promised form comes.
- Scheduling a meeting puts its lead in "reunion_agendada" and ending it takes the lead out, but the two can part: a
  change of state by hand (`CrmAgenda.CambiarSepara`) and an assignment (`CrmAgenda.AsignarSepara`) do not look at
  meetings. `CrmAgenda.PasoLigada` shows that a transaction parts them if and only if it is one of these, succeeds, and
  its lead has a scheduled meeting; `CrmAgenda.CorridaLigada` lifts that to every run from empty tables.

## Model

| member | source | states |
|---|---|---|
| Mortalidad.PotenciaPosible | app/simulador_pension/mortalidad.py:77 | the laws asked of the fractional power are satisfiable |
| Mortalidad.QMejoradaEncajada | app/simulador_pension/mortalidad.py:66-78 | with a fraction of a year the rate lies between the rates of the whole years around it, and the final cut at 1 never acts |
| Mortalidad.QMejoradaDecrece | app/simulador_pension/mortalidad.py:66-78 | more accumulated years never raise the rate, also across a whole-year boundary |
| Mortalidad.CalcularQMejorada | app/simulador_pension/mortalidad.py:66-78 | the loop over whole years computes the improved rate |
| Mortalidad.FactorMesDecrece | app/simulador_pension/mortalidad.py:106 | in every month of the year of age, a lower yearly rate gives a monthly factor that is no smaller |
| Mortalidad.Denominador | app/simulador_pension/mortalidad.py:106 | every denominator of the monthly factor is at least 1/12 |
| Mortalidad.MuertesUniformes | app/simulador_pension/mortalidad.py:86-87 | uniform deaths: the first k monthly factors at rate q multiply to 1 − k/12·q, so the twelve multiply to 1 − q |
| Mortalidad.SinProbabilidadPerdida | app/simulador_pension/mortalidad.py:97-98 | the running product is already 0 where the loop breaks, so cutting the curve loses no probability |
| Mortalidad.CurvaBienFormada | app/simulador_pension/mortalidad.py:81-107 | the curve starts at 1 inside the table, stays in [0, 1], never increases and ends at 0 |
| Mortalidad.SimulacionPosteriorSobrevive | app/simulador_pension/mortalidad.py:100 | at the same age, a later simulation month gives a curve that is nowhere lower |
| Mortalidad.CurvaCondicional | app/simulador_pension/mortalidad.py:94-106 | surviving k + m months is surviving k and then m as simulated k months later |
| Mortalidad.DosSimulacionesDeUnaPersona | app/simulador_pension/mortalidad.py:48-63 | two simulations of one person at two dates agree by conditioning, whatever the days of the month |
| TablaDeVida.EdadContada | app/simulador_pension/mortalidad.py:48-58 | the age is one month more than the months since the birth, a birth from the 15th on counting as one in the next month, whatever the day of the simulation |
| TablaDeVida.TasaDeLaEdad | app/simulador_pension/mortalidad.py:66-78 | the rate of an age is its own rate of 2020 times what each accumulated year leaves, the sixteenth factor repeating and the last year in part; 1 from 110 on |
| TablaDeVida.AniosDeMejora | app/simulador_pension/mortalidad.py:100 | improvement runs from 0.4568 years after January 2020, so first in July 2020 |
| TablaDeVida.MesDeVida | app/simulador_pension/mortalidad.py:94-106 | survivors of consecutive months are to each other as the rate of the age then completed, at that month's improvement, says |
| TablaDeVida.LeyDeVida | app/simulador_pension/mortalidad.py:81-107 | without improvement k years from a birthday are survived with the product of 1 − q over the ages lived |
| Mortalidad.Supervivencia | app/simulador_pension/mortalidad.py:81-107 | the loop with its memo fills the array with the survival curve |
| Sumas.Abel | app/simulador_pension/renta_inmediata.py:58 | summation by parts for discounted deaths, from any month to any other |
| RentaInmediata.CuotaMortuoria | app/simulador_pension/renta_inmediata.py:58-99 | the closed-form quota is the term-by-term discounted death benefit if and only if the holder is inside the table |
| RentaInmediata.CuotaMortuoriaEntre | app/simulador_pension/renta_inmediata.py:99 | inside the table 0 < Q <= 15 |
| RentaInmediata.FactorAAlMenosUno | app/simulador_pension/renta_inmediata.py:95-98 | A >= 1 |
| RentaInmediata.PensionEquilibra | app/simulador_pension/renta_inmediata.py:98-101 | A·P + Q = S, cnu·P = S, the valuation fails only for S = Q, and P > 0 if and only if S > Q |
| RentaInmediata.MasFactorMenosPension | app/simulador_pension/renta_inmediata.py:100 | a larger factor does not raise the pension if and only if the balance covers the quota or the factor is unchanged |
| RentaInmediata.AumentoNuncaSube | app/simulador_pension/renta_inmediata.py:96-97 | a longer or larger temporary increase raises the factor exactly when some paid month is increased by more, and does not raise the pension if and only if the balance covers the quota or no such month exists |
| RentaInmediata.ConyugeNuncaSube | app/simulador_pension/renta_inmediata.py:72-79 | the same for adding a spouse to a holder without children, the months being those after the guarantee in which the holder may be dead and the spouse alive |
| Garantia.GarantiaIdentidad | app/simulador_pension/renta_inmediata.py:90-98 | for every family, lengthening the guarantee moves A by the gains of the newly guaranteed months less what the children lose after them when the guarantee reaches the horizon |
| Garantia.GarantiaExacta | app/simulador_pension/renta_inmediata.py:90-100 | so with a balance above the quota the pension does not rise if and only if those gains are at least those losses, and the other way round below it |
| Garantia.UnMesMas | app/simulador_pension/renta_inmediata.py:90-98 | one more guaranteed month lowers A if and only if the holder may be dead in it and the shares exceed 100 %; for the month that reaches the horizon, if and only if its gain is below the loss |
| Garantia.GarantiaNuncaSube | app/simulador_pension/renta_inmediata.py:90-98 | a longer guarantee that leaves no eligible child behind its horizon does not raise the pension while the shares stay within 100 %, if and only if the balance covers the quota or no new month gains anything |
| Garantia.GarantiaPuedeSubir | app/simulador_pension/renta_inmediata.py:82-97 | for any persons of the tables: with a spouse and three minors likely to be alive, guaranteeing one more month in which the holder may be dead raises the pension |
| Garantia.CruceSube | app/simulador_pension/renta_inmediata.py:90-92 | for any persons of the tables: with one disabled child and no spouse, guaranteeing the last month before the horizon raises the pension although the shares never pass 65 % |
| Garantia.AmbosOcurren | app/simulador_pension/renta_inmediata.py:82-92 | persons of both kinds exist |
| RentaInmediata.CuotasHastaUno | app/simulador_pension/renta_inmediata.py:80-95 | the shares of up to two eligible children with a spouse, three without, add up to at most 1 |
| RentaInmediata.RepartoExacto | app/simulador_pension/renta_inmediata.py:81-88 | what the loop over the children hands out beyond their percentages adds up to exactly 50 % without a spouse, if any child is eligible, and to 0 otherwise |
| RentaInmediata.GarantiaCierta | app/simulador_pension/renta_inmediata.py:90-97 | without a spouse and with a guarantee over the rest of the table, A is the annuity certain of the guaranteed months, whatever the children are |
| RentaInmediata.MensualDelSolo | app/simulador_pension/renta_inmediata.py:95-100 | the pension of a lone holder as a function of the factor alone |
| RentaInmediata.MasVidaMenosPension | app/simulador_pension/renta_inmediata.py:95-100 | a lone holder likelier to survive gets no more, if and only if the balance covers 15·g or no month is any likelier |
| RentaInmediata.CurvaDeTabla | app/simulador_pension/renta_inmediata.py:48-54 | the curves of the tables are survival curves in the sense the theorems ask for |
| RentaInmediata.SimulacionPosteriorMenosPension | app/simulador_pension/renta_inmediata.py:45-100 | the same lone holder simulated in a later month: a factor that is no smaller, and a pension that is no higher if and only if the balance covers 15·g or the curve is the same |
| Beneficiarios.SobrevivenciaPorPersona | app/simulador_pension/renta_inmediata.py:72-93 | every survivor's part of a month, with its percentage: 60 % or 50 % for the spouse, 15 % or 11 % for a child, and without a spouse an equal part of another 50 % among the entitled |
| Beneficiarios.ParteDelConyuge | app/simulador_pension/renta_inmediata.py:72-77 | the spouse adds 50 % of its own curve while some common child is disabled or under 24, and 60 % otherwise |
| Beneficiarios.Descontado | app/simulador_pension/renta_inmediata.py:56 | month m is discounted by g multiplied m times |
| Beneficiarios.FactorDesdeTablas | app/simulador_pension/renta_inmediata.py:45-101 | the factor, the quota and the pension of any family, summed month by month from the survival curves of its persons |
| RentaInmediata.SumarConyuge | app/simulador_pension/renta_inmediata.py:72-79 | the spouse's share, month by month |
| RentaInmediata.SumarHijo | app/simulador_pension/renta_inmediata.py:82-93 | one child's share added to the vector, month by month |
| RentaInmediata.Sobrevivencia | app/simulador_pension/renta_inmediata.py:72-93 | the vector of survivors' shares |
| RentaInmediata.Calcular | app/simulador_pension/renta_inmediata.py:32-101 | from tables to result: the computed P, A, Q and cnu are those of the valuation |
| RentaDiferida.TopeLipschitz | app/simulador_pension/renta_diferida.py:56 | the capped commission never decreases and moves at most in proportion |
| RentaDiferida.ProrrateoLipschitz | app/simulador_pension/renta_diferida.py:55 | so does the prorating factor |
| RentaDiferida.ComisionLipschitz | app/simulador_pension/renta_diferida.py:53-56 | so does the commission on the bracket |
| RentaDiferida.ExcesoCreciente | app/simulador_pension/renta_diferida.py:58-59 | exceso is strictly increasing on P >= 0, with an explicit Lipschitz constant on [0, saldo] |
| RentaDiferida.Encuadre | app/simulador_pension/renta_diferida.py:61 | the value at the left end is the quota minus the balance, and the right end is always above the solution |
| RentaDiferida.Biseccion | app/simulador_pension/renta_diferida.py:61-68 | after 200 steps the residual is at most the constant times saldo / 2^201 and the result is that close to any exact solution; without a solution the result is saldo / 2^201 |
| RentaDiferida.CuotaDiferida | app/simulador_pension/renta_diferida.py:47-48 | the deferred quota in closed form from any month on; at 0 it is the immediate annuity's if and only if the holder is inside the table |
| RentaDiferida.EcuacionValida | app/simulador_pension/renta_diferida.py:47-51 | tables, a positive balance and at least one year give an equation the bisection solves |
| RentaDiferida.CoeficientesTemporales | app/simulador_pension/renta_diferida.py:49-50 | the temporary income costs twelve yearly annuities at 3.67 % in closed form, and each further year adds 0.2445 of its discounted payment if the holder lives to that anniversary |
| RentaDiferida.CosteExtremos | app/simulador_pension/renta_diferida.py:50-56 | a holder surely dead at the first anniversary costs one payment, one surely alive at all of them the whole annuity |
| RentaDiferida.ComisionDelSaldo | app/simulador_pension/renta_diferida.py:53-56 | the commission, capped at 60 UF, prorated to the premium or to 3000 UF, and whole for balances up to 3000 UF |
| RentaDiferida.Precision | app/simulador_pension/renta_diferida.py:61-68 | the pension found is within a 10^60th of the balance of any solution |
| RentaDiferida.SumasDiferidas | app/simulador_pension/renta_diferida.py:43-48 | the deferred sums over the survival array |
| RentaDiferida.SumasTemporales | app/simulador_pension/renta_diferida.py:49-50 | the sums of the temporary income |
| RentaDiferida.Cuadre | app/simulador_pension/renta_diferida.py:58-77 | premium plus temporary income plus commission miss the balance by exactly exceso |
| RentaDiferida.Calcular | app/simulador_pension/renta_diferida.py:28-77 | the reported premium, reserve and commission add up to the balance within the residual; a deferral over 112 years fails |
| Carriles.OrdenarOrdena | app/web/agenda_presentation.py:70 | sorting by start and duration orders the meetings and keeps them all |
| Carriles.PrimerLibre | app/web/agenda_presentation.py:83-86 | the first lane free at the start of a meeting, or a new one |
| Carriles.Dia.AsignarCarriles | app/web/agenda_presentation.py:68-93 | sorts the list in place and writes lanes: groups are connected and do not overlap each other, each meeting takes the lowest lane free at its start, and each group has as many lanes as meetings live at some one instant; the order is by start and duration, equal ones keeping theirs |
| Carriles.OrdenarEstable | app/web/agenda_presentation.py:70 | the sort is stable: meetings of one start and duration keep their order |
| Carriles.EnSerie | app/web/agenda_presentation.py:82-87 | in one lane each meeting is over when the next one starts |
| Carriles.MasBajo | app/web/agenda_presentation.py:82-88 | in every lower lane a meeting of the group is going on when a meeting starts |
| Carriles.MismoGrupo | app/web/agenda_presentation.py:79-81 | a meeting joins the group of the one before it if and only if some earlier meeting is not over at its start |
| Carriles.PicoExacto | app/web/agenda_presentation.py:75-77 | the lanes of a group are exactly as many as its meetings at the busiest minute |
| Carriles.CarrilesSinChoques | app/web/agenda_presentation.py:68-93 | two overlapping meetings never share a lane |
| Carriles.MinimoDeCarriles | app/web/agenda_presentation.py:75-77 | no clash-free hand-out of lanes to a group uses fewer than `lanes` |
| CrmInvariantes.PasoKeeps | app/repositories/agenda_repository.py:335-657 | every transaction, committed or failed, keeps: references resolve, one active assignment per lead, no overlapping or repeated scheduled meetings, a lead in "asignado" has an active assignment, and the audit log rebuilds states and meetings |
| CrmInvariantes.CorrerKeeps | app/repositories/solicitud_repository.py:1168-1426 | hence every reachable state: replaying a lead's rows from "nuevo" is an unbroken chain ending at its state, and replaying meeting rows rebuilds each meeting |
| CrmInvariantes.FalloNoCambia | app/repositories/agenda_repository.py:335-367 | a transaction that does not succeed changes no table |
| CrmInvariantes.BitacoraCrece | app/repositories/agenda_repository.py:284-323 | the audit log only grows at its end |
| CrmInvariantes.CitaTerminadaNoCambia | app/repositories/agenda_repository.py:603-657 | a meeting that is over never changes again, whatever follows |
| CrmReglas.SoloSuCartera | app/repositories/solicitud_repository.py:1223-1234 | a transaction limited to an advisor's portfolio does what it would without the limit if an active row ties its lead to that advisor, and otherwise succeeds in nothing and changes nothing |
| CrmReglas.SinLimite | app/repositories/agenda_repository.py:258-260 | without a limit only a lead or a meeting that does not exist is not found |
| CrmReglas.ExitoAgendar | app/repositories/agenda_repository.py:369-437 | scheduling succeeds if and only if the lead is open and permitted, it has no other scheduled meeting, the responsible is free at every minute, and so on; and the tables after it |
| CrmReglas.ExitoReagendar | app/repositories/agenda_repository.py:439-513 | the same for rescheduling, of a meeting that is still scheduled |
| CrmReglas.ExitoCerrar | app/repositories/agenda_repository.py:515-657 | when cancelling, completing and no-show succeed, and the states they leave in the meeting and in its lead |
| CrmReglas.ExitoCambiarEstado | app/repositories/solicitud_repository.py:1168-1296 | when a change of state succeeds, and that it changes only that and the log |
| CrmReglas.ExitoAsignar | app/repositories/solicitud_repository.py:1353-1426 | assigning succeeds if and only if the advisor is enabled and no active row is the lead's |
| CrmReglas.ExitoBorrar | app/repositories/solicitud_repository.py:588-626 | a test lead is deleted if and only if nothing refers to it; its keys stay without a lead |
| CrmReglas.FilasEscritas | app/repositories/agenda_repository.py:284-323 | the audit rows each successful transaction appends: actor, lead, and the states and dates before and after |
| CrmReglas.RespuestaDeClave | app/repositories/solicitud_repository.py:349-416 | each of the five answers to a registration under a key, by whether its row lives, its fingerprint and its lead; an expired row counts as none |
| CrmReglas.TablasTrasClave | app/repositories/solicitud_repository.py:349-509 | what a registration leaves: expired keys purged, live ones kept, the new one bound |
| CrmReglas.TrasCualquierCorrida | scripts/init_test_database.py:120-148 | after any run nobody is in two scheduled meetings at one instant, and a lead has at most one scheduled meeting and one active assignment |
| CrmAgenda.PasoLigada | app/repositories/agenda_repository.py:369-657 | from consistent tables in which every lead with a scheduled meeting is in "reunion_agendada", one transaction leaves them so if and only if it is not a successful assignment, or change to another state by hand, of a lead with a scheduled meeting |
| CrmAgenda.CorridaLigada | app/repositories/solicitud_repository.py:1168-1426 | along a run from empty tables every lead with a scheduled meeting is in "reunion_agendada" throughout, if and only if no step of the run is one of those two |
| CrmAgenda.AsignarSepara | app/repositories/solicitud_repository.py:1353-1426 | a reachable state with an assigned lead whose meeting is still scheduled, with no change of state by hand |
| CrmAgenda.CambiarSepara | app/repositories/solicitud_repository.py:1262-1296 | a reachable state with a closed lead whose meeting is still scheduled |
| CrmIdempotencia.ClaveEstable | app/repositories/solicitud_repository.py:349-416 | a bound key keeps its row through any run during its life that does not delete its lead |
| CrmIdempotencia.RespuestaTrasCreacion | app/repositories/solicitud_repository.py:349-416 | after a creation and any such run, one more call with the key answers that same lead |
| CrmIdempotencia.UnaSolaNotificacion | app/services/solicitud_service.py:118-149 | over any such run exactly one lead is created under the key and one notification sent |
| CrmIdempotencia.AvisosDeClave | app/services/solicitud_service.py:118-149 | the notifications of a key are its share of everything a run publishes |
| CrmIdempotencia.ClaveHuerfana | scripts/init_test_database.py:285-292 | in every reachable state a key without lead had its lead deleted at an identifiable step |
| CrmInvariantes.RestriccionesExactas | scripts/init_test_database.py:120-148 | the checks on a meeting accept a row if and only if the table with it in meets the declared constraints |
| CrmRepositorio.Repositorio.EscribirCita | scripts/init_test_database.py:120-148 | the constraints on meetings, in their order, accept or refuse a row |
| CrmRepositorio.Repositorio.ActualizarEstado | app/repositories/solicitud_repository.py:1168-1259 | the shared status update: what it refuses, and no audit row when nothing changes |
| CrmRepositorio.Repositorio.CrearCita | app/repositories/agenda_repository.py:369-437 | scheduling, statement by statement, is the specified transaction |
| CrmRepositorio.Repositorio.ActualizarCita | app/repositories/agenda_repository.py:439-513 | so is rescheduling |
| CrmRepositorio.Repositorio.CerrarCita | app/repositories/agenda_repository.py:515-657 | so are cancelling, completing and no-show |
| CrmRepositorio.Repositorio.ActualizarEstadoLead | app/repositories/solicitud_repository.py:1262-1296 | so is changing the state of a lead |
| CrmRepositorio.Repositorio.AsignarLead | app/repositories/solicitud_repository.py:1299-1426 | so is assigning |
| CrmRepositorio.Repositorio.CrearSolicitud | app/repositories/solicitud_repository.py:312-346 | so is registering |
| CrmRepositorio.Repositorio.CrearSolicitudIdempotente | app/repositories/solicitud_repository.py:349-509 | so is registering under a key |
| CrmRepositorio.Repositorio.BorrarLeadDePrueba | app/repositories/solicitud_repository.py:588-626 | so is deleting a test lead |
| CrmRepositorio.Repositorio.Ejecutar | app/repositories/agenda_repository.py:335-367 | any transaction on a consistent database leaves it consistent, and unchanged if it fails; limited to an advisor it succeeds only on leads actively assigned to them |
| CrmRepositorio.Servicio.RegistrarIdempotente | app/services/solicitud_service.py:118-149 | publishes exactly when the call created the lead, as it does for a new lead under a key that has no row or an expired one |
| CrmRepositorio.Servicio.Atender | app/services/solicitud_service.py:94-149 | over any run of requests what is published is exactly the leads the creations report, in order |
| Marcas.CasarConstruido | app/attachments/marks.py:49-60 | every built mark is matched back to its type and identifier, whole |
| Marcas.NeutralizarLimpia | app/attachments/marks.py:107-117 | neutralized text holds neither mark prefix, in any letter case |
| Marcas.SustituirLimpia | app/attachments/marks.py:107-117 | replacing one prefix neither leaves it nor brings the other one about |
| Marcas.TextoGuardadoLimpio | app/services/solicitud_service.py:1180-1188 | whatever the user writes, the stored text is one trimmed line without mark prefixes |
| Comentario.NormalizarEntreBlancos | app/services/solicitud_service.py:1180-1181 | any blank leaves exactly one space between what stands before and after it, and none at the ends |
| Comentario.NormalizarPalabra | app/services/solicitud_service.py:1180-1181 | a text without blanks is kept as it is |
| Comentario.NormalizarConserva | app/services/solicitud_service.py:1180-1181 | every character that is not a blank is kept, in order |
| Comentario.EscaparEsReemplazar | app/services/solicitud_service.py:1186 | escaping is the replacement of every < and then of every > |
| Comentario.TextoSinSignos | app/services/solicitud_service.py:1183-1188 | the stored text holds neither < nor >, and is the comment with its white space collapsed when there is nothing to escape or neutralize |
| Comentario.SeMuestraIgual | app/attachments/marks.py:107-117 | whatever was typed, a browser shows the stored text as it would the comment, up to the letter case of imitated marks |
| Comentario.StripExacto | app/web/presentation.py:46-59 | trimming takes off the blanks at both ends and nothing else |
| Comentario.LineasExactas | app/web/presentation.py:66-70 | a text is split into lines at any of the seven line ends, a carriage return with its line feed being one |
| NotaImpresa.NotaEscrita | app/services/solicitud_service.py:1003-1009 | a note character by character: date, author, text and one line for each mark |
| NotaImpresa.UuidEs | app/attachments/marks.py:20 | an identifier is 8-4-4-4-12 hexadecimal digits in either case |
| NotaImpresa.LineaExacta | app/attachments/marks.py:83-98 | a line is a mark if and only if, trimmed, it is the text of one and nothing else |
| NotaImpresa.CabeceraExacta | app/web/presentation.py:18 | a line is a header if and only if it is a date in brackets, white space and an author, who is read trimmed |
| NotaImpresa.RespaldoExacto | app/web/presentation.py:37-62 | the parser falls back, to the whole text, if and only if some block after the first does not start with a header |
| NotaImpresa.NoSeMuestra | app/attachments/marks.py:100-105 | nothing is shown of a mark, active or deleted, and all of the text before it |
| Notas.NotaDeValida | app/services/solicitud_service.py:1003-1009 | the note written for any non-blank comment is one the parser can read back |
| Notas.MarcasFinales | app/web/presentation.py:65-105 | the backward loop over the trailing mark lines |
| Notas.ParseFollowUpBlock | app/web/presentation.py:65-105 | the block parser computes its specification |
| Notas.ParseLeadComments | app/web/presentation.py:37-62 | so does the parser of the whole text, fallback included |
| Notas.BloqueIdaYVuelta | app/web/presentation.py:65-105 | parsing a printed note gives back date, author, text and marks, in order |
| Notas.IdaYVuelta | app/web/presentation.py:37-62 | parsing a request with any notes gives exactly them, never the fallback |
| Notas.AnexarExtiende | app/repositories/solicitud_repository.py:1454-1463 | appending in the database extends the text by one note |
| NotasCorridas.TodasLasNotas | app/repositories/solicitud_repository.py:1454-1463 | after any number of appended notes all of them are read back if and only if the request was not blank |
| NotasCorridas.BorrarEnDocumento | app/repositories/solicitud_repository.py:1471-1496 | replacing a mark rewrites exactly its active occurrences: at the foot of the notes, in the request and in the authors' names |
| NotasCorridas.MarcaMudada | app/web/presentation.py:65-105 | on the reader's side that mark moves from the attachments to the deleted ones and no other mark does |
| NotasCorridas.Corrida | app/repositories/solicitud_repository.py:1429-1496 | from any stored request, blank or not, after any run of notes by any authors and of deletions, the text is the printed form of request and notes as they stand, and the parser reads exactly them, with the first note in the place of a blank request |
| NotasBusqueda.BusquedaEsVista | app/attachments/marks.py:63-80 | searching the raw text finds exactly the marks the parser shows, in order, if and only if neither the text shown as the request nor an author's name holds any |
| NotasBusqueda.BusquedaTrasCorrida | app/services/solicitud_service.py:931-932 | the same after any run, from any stored request |
| NotasBusqueda.CorridaSinMarcas | app/services/solicitud_service.py:931-932 | with a request that is not blank, and authors, in which the search finds nothing, search and parser agree after every run and no deletion touches the request |
| NotasBusqueda.PedidoConMarca | app/models/solicitud.py:123-132 | a request that is a mark is found by the search and not shown by the parser |
| NotasBusqueda.PrimeraNotaSinPedido | app/repositories/solicitud_repository.py:1454-1463 | after a blank request the attachment of the first note is found by the search and not shown by the parser |
| NotasBorrado.BorradoDejaOtras | app/repositories/solicitud_repository.py:1471-1496 | after the deletion of a mark, in any text whatever, the search finds exactly its earlier matches that were not written as the canonical text of that mark, in order |
| NotasBorrado.MarcaEnMayusculas | app/attachments/marks.py:20-23 | a request with a mark in upper-case digits is found, and replacing the mark it stands for leaves it where it is |
| NotasBorrado.DosTipos | app/services/solicitud_service.py:931-949 | a request with two marks of one identifier and different types, which the form stores as it is: deleting the first leaves the second found |
| Adjuntos.MarcasBuscadas | app/services/solicitud_service.py:887-888 | the marks found in a lead's comments are those of its notes if and only if the search finds none in the request nor in an author's name |
| Adjuntos.BusquedaRespaldada | app/services/solicitud_service.py:887-896 | every mark found has its object, unless a delete of it has started, if and only if that holds of the marks no note put there |
| Adjuntos.MarcaSinObjeto | app/models/solicitud.py:123-132 | the first state in which it does not: a request that is a mark |
| Adjuntos.RegistroFresco | app/models/solicitud.py:123-132 | with no object of the lead stored and no delete of one started, the marks found in its request are backed if and only if there are none |
| Adjuntos.BorradoSinAjenas | app/services/solicitud_service.py:931-949 | when every mark in the comments comes from a note, a deletion leaves no match with its identifier |
| Adjuntos.MarcasYObjetos | app/services/solicitud_service.py:866-958 | in every state the calls leave: a deleted mark of a note has no object, an active one has one of its own type unless its delete has started, and no two marks of a lead share an identifier |
| Adjuntos.Servicio.Registrar | app/repositories/solicitud_repository.py:454-476 | a new lead's comments are its request, not neutralized, and storage and notes stay consistent |
| Adjuntos.Servicio.BorrarSubidos | app/services/solicitud_service.py:1011-1018 | the best-effort clean-up removes what its deletes take and nothing else |
| Adjuntos.Servicio.Subir | app/services/solicitud_service.py:798-814 | the loop of puts stops at the first failure and touches only its own keys |
| Adjuntos.Servicio.Compensar | app/services/solicitud_service.py:811-831 | compensation restores the storage if and only if every delete it needs took effect |
| Adjuntos.Servicio.SubirYAnotar | app/services/solicitud_service.py:798-831 | the note is appended to the comments only when every object is stored; otherwise what remains is exactly what a failed delete left, and storage and notes stay consistent |
| Adjuntos.Servicio.SubirNota | app/services/solicitud_service.py:762-844 | the same for the note printed from the comment, its author and its marks, behind the checks on text, number of files and scope, which touch nothing when they refuse; the text written, character by character, and what is stored for each mark |
| Adjuntos.Servicio.Descargar | app/services/solicitud_service.py:866-896 | served exactly when the mark is found, stored and of the same type; without marks in the request and the authors, every mark found whose delete has not started is served |
| Adjuntos.Servicio.BorrarAdjunto | app/services/solicitud_service.py:909-958 | for the first mark found in the raw comments the object goes first, and the text is untouched if it could not; a deleted mark of a note has no object, an active one has its object unless its delete has started; after a delete reported as done the identifier is unfound if and only if the text was written and no match written otherwise carries it |
| Adjuntos.Servicio.BorrarLead | app/services/solicitud_service.py:1020-1133 | deleting a test lead starts a delete for every mark found in the raw comments and keeps consistency, whether or not the lead goes |
| PdfNombres.PdfNames | app/attachments/validation.py:248-282 | the scanner ends and computes the list of names |
| PdfNombres.NombresConcatenados | app/attachments/validation.py:248-282 | names(a + b) = names(a) + names(b) whenever b starts with a solidus |
| PdfNombres.NombreDecodificado | app/attachments/validation.py:258-281 | every spelling of a name with #xx escapes, ended by a delimiter, white space or the end, is read as that name |
| PdfNombres.SinNumeral | app/attachments/validation.py:268-277 | any mix of literal bytes and escapes is such a spelling as long as a literal # is not followed by two hexadecimal digits |
| PdfNombres.NombresExactos | app/attachments/validation.py:248-282 | a name is listed if and only if a solidus and a spelling of it stand somewhere in the data |
| PdfEscapes.EscapeLeido | app/attachments/validation.py:268-277 | # and two hexadecimal digits, in either case of both, are the byte sixteen times the first plus the second |
| PdfEscapes.TerminaEs | app/attachments/validation.py:80-82 | the ten delimiters and six blanks that end a name |
| PdfEscapes.SeLee | app/attachments/validation.py:248-282 | a name of letters and digits is read however each of its bytes is written |
| PdfEscapes.ProhibidoSeRechaza | app/attachments/validation.py:72-77 | a file with a forbidden name written in any of those ways is refused, with that name's code if it is the first |
| PdfEscapes.VeredictoExacto | app/attachments/validation.py:224-245 | the whole verdict of a file from the names in it |
| PdfEscapes.FinExacto | app/attachments/validation.py:234-235 | the end mark counts exactly when it lies in the last 1024 bytes |
| PdfNombres.PdfHasEmbeddedFiles | app/attachments/validation.py:224-245 | when a file is accepted, and which code the first forbidden name gives |
| PdfNombres.SinProhibidos | app/attachments/validation.py:224-282 | the scan finds no forbidden name if and only if none is spelled anywhere |
| Jpeg.JpegDimensions | app/attachments/validation.py:180-221 | the walk ends, reads in bounds and computes the dimensions it specifies |
| Jpeg.PasoSegmento | app/attachments/validation.py:186-219 | a well-formed segment other than a frame header is stepped over, fill bytes included |
| Jpeg.DimensionesDelCuadro | app/attachments/validation.py:180-221 | after SOI, any such segments and one frame header, exactly its width and height |
| Jpeg.CuadroLeido | app/attachments/validation.py:207-216 | dimensions are only ever read from a start-of-frame marker after a fill byte, from bytes that are all there |
| Jpeg.SinCuadro | app/attachments/validation.py:198-199 | an end of image or a start of scan before any frame header leaves none |
| Rut.CalculateDv | app/validators/rut.py:97-124 | the index-based loop returns the check digit, the one that completes the weighted sum to a multiple of 11 |
| Rut.DvRut | scripts/dev_reset_leads.py:252-259 | the factor-carrying loop returns the same, for every number |
| Rut.DvUnico | app/validators/rut.py:116-124 | exactly one check digit fits a number |
| Rut.SustitucionDetectada | app/validators/rut.py:97-124 | every wrong digit, in a number of any length, changes the check digit |
| Rut.IntercambioDetectado | app/validators/rut.py:97-124 | exchanging two digits goes unseen if and only if they are equal or a multiple of six places apart |
| RutFormato.NormalizarIdempotente | app/validators/rut.py:14-65 | the canonical form normalizes to itself |
| RutFormato.FormasAceptadas | app/validators/rut.py:14-94 | dots, blanks around, a lower-case K and a missing hyphen make no difference |
| RutFormato.AceptadoExacto | app/validators/rut.py:14-65 | exactly which texts are accepted, with and without a hyphen, and as what canonical form |
| RutFormato.AgrupadoDeATres | app/validators/rut.py:141-149 | where the dots of the display stand |
| RutFormato.FormatoIdaYVuelta | app/validators/rut.py:127-154 | normalizing what is displayed gives back the normal form, for any text |
| RutFormato.UnSoloDigitoValido | app/validators/rut.py:68-94 | exactly one check digit makes a number valid |
| RutFormato.ErrorDeTecleo | app/validators/rut.py:68-94 | a valid RUT with one wrong digit is not valid |
| RutFormato.ErrorDeIntercambio | app/validators/rut.py:68-94 | a valid RUT with two digits exchanged is valid if and only if they are equal or six places apart |
| RutFormato.DvLargo | app/validators/rut.py:41-65 | a check digit of several digits is normalized and never valid |
| RutFormato.DvDeUnCaracter | app/validators/rut.py:14-65 | of an accepted text the check digit has one character if and only if it has no hyphen, or one character after it |
| Limitador.InMemoryRateLimiter.Allow | app/api/abuse.py:21-30 | the pruned queue decides exactly as counting over the whole history would, and a refusal is not recorded |
| Limitador.VentanaAcotada | app/api/abuse.py:21-30 | a history accepted that way has at most the limit in any window (t − W, t] |
| Limitador.VentanaSiempre | app/api/abuse.py:13-30 | so in every reachable state, for every client and every instant |
| Limitador.NuncaMas | app/api/abuse.py:21-30 | counted as a set: never more than the limit served to a client within any window |
| Cierre.TablasRaiz | scripts/dev_reset_leads.py:457-469 | the two roots, and that every table with a key to either depends |
| Cierre.CierreDependientes | scripts/dev_reset_leads.py:457-469 | the fixpoint loop ends with exactly the tables some chain of foreign keys ties to leads or personas |
| Cierre.CerradoContiene | scripts/dev_reset_leads.py:457-469 | any set with the roots that is closed under the keys holds them all |

## Left out

- Floating point: the engine is modelled over exact reals. Rounding of results to two decimals, the `1e-12`
  tolerance, the rounding of memo keys to nine digits and the contents of the mortality file beyond the ranges of
  its entries are not modelled.
- The fractional power and the twelfth root are not computed: the first is any function with the laws of
  `EsPotencia`, the second any factor above 1.
- Persons not yet born at the simulation date (a negative age in months), and the warnings for dates, ages and
  numbers of children outside the validated window.
- The table of personas and the uniqueness of their RUT, the payload of a request, links, channels and texts of a
  meeting, and timestamps of rows.
- Concurrency: transactions run one after another, as the row locks and the unique keys of the database make them.
- Random identifiers, fingerprints and clocks are arguments; a drawn identifier that is already taken is one of the
  failures of the model. Identifiers of attachments are required to be fresh.
- Adjuntos.Servicio.BorrarAdjunto: a storage read that fails before the delete is not modelled; it would change
  nothing.
- Notas.IdaYVuelta: marks carry identifiers in the canonical text form in which the server prints them.
- Audit rows of uploads, views and deletions of attachments; quotas and scanning states.
- The accepted durations and office hours of a meeting, the past-date check, dashboards, filters, exports and
  every page: shallow or layout.
- PNG dimensions, pixel limits and type detection; SHA-256.
- Unicode beyond ASCII in digits, white space, line ends and letter case.
- The masking of a RUT.
