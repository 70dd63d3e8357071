/** The appointment record that the GraphQL API of backend/main.py stores and
    serves and that the dashboard receives (frontend/lib/types.ts).  Every
    field is kept as the text or number the API carries: statuses and modes
    are plain strings there, and nothing validates them. */
module Records {

  datatype Appointment = Appointment(
    id: string,
    patientName: string,
    date: string,      // YYYY-MM-DD
    time: string,      // HH:MM, 24-hour
    duration: int,     // minutes
    doctorName: string,
    status: string,
    mode: string)

  /** The mutation input: the record without its id. */
  datatype AppointmentInput = AppointmentInput(
    patientName: string,
    date: string,
    time: string,
    duration: int,
    doctorName: string,
    status: string,
    mode: string)
}
