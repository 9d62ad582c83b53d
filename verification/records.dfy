/** The rows the application reads from and writes to its datastore: services,
    appointments, blocked slots and profiles, with the closed status and role
    enumerations. Identifiers and timestamps are opaque strings; dates are
    calendar-day numbers, because the application only ever compares
    'yyyy-MM-dd' texts for equality or order, and that spelling is injective
    and order-preserving on days. */
module Records {
  import opened Wrappers

  type Id = string

  /** A calendar day, counted in days from any fixed origin. */
  type Day = int

  datatype AppointmentStatus = Pending | Confirmed | Completed | Cancelled

  datatype AppRole = Admin | Client

  /** A catalogue entry. Nothing in the type makes the price or the duration
      positive. Prices are whole cents. */
  datatype Service = Service(
    id: Id,
    name: string,
    description: Option<string>,
    price: int,
    durationMinutes: int,
    isActive: bool,
    imageUrl: Option<string>)

  /** A booking. Start and end are stored as separate texts; nothing ties the
      end to the service's duration. */
  datatype Appointment = Appointment(
    id: Id,
    userId: Id,
    serviceId: Id,
    date: Day,
    startTime: string,
    endTime: string,
    status: AppointmentStatus,
    notes: Option<string>)

  /** An administrative exclusion on one day: the whole day, or the times
      between two optional bounds. */
  datatype BlockedSlot = BlockedSlot(
    id: Id,
    date: Day,
    startTime: Option<string>,
    endTime: Option<string>,
    isFullDay: bool,
    reason: Option<string>)

  datatype Profile = Profile(
    id: Id,
    userId: Id,
    fullName: string,
    phone: Option<string>,
    email: string,
    vehicleModel: Option<string>,
    vehicleColor: Option<string>,
    vehiclePlate: Option<string>)

  /** The text stored in the status column. */
  function StatusText(s: AppointmentStatus): string {
    match s
    case Pending => "pending"
    case Confirmed => "confirmed"
    case Completed => "completed"
    case Cancelled => "cancelled"
  }

  /** Reads a status column; only the four status texts are accepted. */
  function ParseStatus(t: string): (r: Option<AppointmentStatus>)
    ensures r.Some? <==> t in {"pending", "confirmed", "completed", "cancelled"}
    ensures r.Some? ==> StatusText(r.value) == t
  {
    if t == "pending" then Some(Pending)
    else if t == "confirmed" then Some(Confirmed)
    else if t == "completed" then Some(Completed)
    else if t == "cancelled" then Some(Cancelled)
    else None
  }

  /** Every status survives being written and read back, and no two statuses
      share a text. */
  lemma StatusRoundTrip(s: AppointmentStatus)
    ensures ParseStatus(StatusText(s)) == Some(s)
  {
  }

  function RoleText(r: AppRole): string {
    match r
    case Admin => "admin"
    case Client => "client"
  }

  /** Reads a role column; exactly "admin" and "client" are roles. */
  function ParseRole(t: string): (r: Option<AppRole>)
    ensures r.Some? <==> t == "admin" || t == "client"
    ensures r.Some? ==> RoleText(r.value) == t
  {
    if t == "admin" then Some(Admin) else if t == "client" then Some(Client) else None
  }

  /** The label and badge variant of each status in the appointment lists. */
  function StatusLabel(s: AppointmentStatus): (text: string)
    ensures s == Pending <==> text == "Pendente"
    ensures s == Confirmed <==> text == "Confirmado"
    ensures s == Completed <==> text == "Concluído"
    ensures s == Cancelled <==> text == "Cancelado"
  {
    match s
    case Pending => "Pendente"
    case Confirmed => "Confirmado"
    case Completed => "Concluído"
    case Cancelled => "Cancelado"
  }

  datatype BadgeVariant = Default | Secondary | Destructive | Outline

  function StatusBadge(s: AppointmentStatus): (v: BadgeVariant)
    ensures s == Cancelled <==> v == Destructive
  {
    match s
    case Pending => Secondary
    case Confirmed => Default
    case Completed => Outline
    case Cancelled => Destructive
  }
}
