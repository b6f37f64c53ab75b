/** The store's records as the scheduling logic sees them, and the lookups over them. */
module Records {
  import opened Wrappers
  import opened TimeUtils

  /** Record ids; the empty text stands for a missing (falsy) id. */
  type Id = string

  /** `pendente`, `confirmado`, `concluido`, `cancelado`. */
  datatype Status = Pending | Confirmed | Completed | Canceled

  /**
    * A numeric column as it arrives from the store: `Absent` for null or
    * undefined (the only values `??` skips), a number, or a value that
    * `Number(...)` turns into NaN.
    */
  datatype Field = Absent | Num(n: int) | NotNumeric

  /**
    * A service. `name` is the service name already lower-cased and stripped
    * of combining diacritics; the four package fields are the historical
    * aliases `pacote_total`, `pacote_quantidade`, `quantidade_pacote`, `qtd_pacote`.
    */
  datatype Service = Service(
    id: Id,
    name: string,
    duration: Field,
    packageTotal: Field,
    packageQuantity: Field,
    quantityPackage: Field,
    qtyPackage: Field)

  /**
    * An appointment. `day` is the local day of its start; `startClock` and
    * `endClock` are the local "HH:MM" clocks of its start and end timestamps;
    * `service` is the service record the store joined in, if any.
    */
  datatype Appointment = Appointment(
    id: Id,
    clientId: Id,
    serviceId: Id,
    day: DayKey,
    startClock: string,
    endClock: string,
    status: Status,
    service: Option<Service>)

  /** `servicos.find(item => item.id === id)`: the first service with that id. */
  function FirstService(services: seq<Service>, id: Id): (r: Option<Service>)
    ensures r.Some? ==> exists k :: 0 <= k < |services| && services[k] == r.value && r.value.id == id
                          && forall j :: 0 <= j < k ==> services[j].id != id
    ensures r.None? ==> forall k :: 0 <= k < |services| ==> services[k].id != id
  {
    if services == [] then None
    else if services[0].id == id then Some(services[0])
    else
      var r := FirstService(services[1..], id);
      assert r.Some? ==> exists k :: 0 <= k < |services| - 1 && services[1..][k] == r.value && r.value.id == id
                          && forall j :: 0 <= j < k ==> services[1..][j].id != id;
      r
  }

  /**
    * `servicosById.get(id)`, where `servicosById` is a Map filled by
    * `servicos.forEach(item => map.set(item.id, item))`: the last service with that id.
    */
  function LastService(services: seq<Service>, id: Id): (r: Option<Service>)
    ensures r.Some? ==> exists k :: 0 <= k < |services| && services[k] == r.value && r.value.id == id
                          && forall j :: k < j < |services| ==> services[j].id != id
    ensures r.None? ==> forall k :: 0 <= k < |services| ==> services[k].id != id
  {
    if services == [] then None
    else if services[|services| - 1].id == id then Some(services[|services| - 1])
    else LastService(services[..|services| - 1], id)
  }

  /** `agendamento.servico ?? servicosById.get(agendamento.servico_id)`. */
  function JoinedService(a: Appointment, services: seq<Service>): (r: Option<Service>)
    ensures a.service.Some? ==> r == a.service
    ensures a.service.None? && r.Some? ==> r.value.id == a.serviceId && r.value in services
    ensures r.None? <==> a.service.None? && forall k :: 0 <= k < |services| ==> services[k].id != a.serviceId
  {
    if a.service.Some? then a.service else LastService(services, a.serviceId)
  }

  /**
    * getServicoDuracao: the joined service's duration, else the duration of the
    * first catalogue service with the appointment's service id, else 60.
    */
  function ServiceDuration(a: Appointment, services: seq<Service>): (r: Field)
    ensures r != Absent
    ensures a.service.Some? && a.service.value.duration != Absent ==> r == a.service.value.duration
    ensures (a.service.None? || a.service.value.duration == Absent) ==>
      r == match FirstService(services, a.serviceId)
        case Some(s) => if s.duration != Absent then s.duration else Num(60)
        case None => Num(60)
  {
    if a.service.Some? && a.service.value.duration != Absent then a.service.value.duration
    else match FirstService(services, a.serviceId)
      case Some(s) => if s.duration != Absent then s.duration else Num(60)
      case None => Num(60)
  }

  /** `Number(getServicoDuracao(agendamento, servicos)) || 60`: NaN and 0 both become 60. */
  function EffectiveDuration(a: Appointment, services: seq<Service>): (d: int)
    ensures d != 0
    ensures ServiceDuration(a, services).Num? && ServiceDuration(a, services).n != 0 ==> d == ServiceDuration(a, services).n
    ensures !(ServiceDuration(a, services).Num? && ServiceDuration(a, services).n != 0) ==> d == 60
  {
    match ServiceDuration(a, services)
    case Num(n) => if n == 0 then 60 else n
    case _ => 60
  }

  /** The appointments whose local day is `day`, in their original order. */
  function OnDay(appts: seq<Appointment>, day: DayKey): (r: seq<Appointment>)
    ensures forall a :: a in r <==> a in appts && a.day == day
    ensures |r| <= |appts|
  {
    if appts == [] then []
    else (if appts[0].day == day then [appts[0]] else []) + OnDay(appts[1..], day)
  }
}
