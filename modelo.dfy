/**
 * The enrollment record (`Inscripcion`) of the university backend.
 *
 * Every column the table declares `nullable = false` is a plain field here,
 * so "the record has a student, a subject, a date, an estado, a period and a
 * registering user" holds by construction; `calificacion` is the one optional
 * column and is an `Option`.
 */
module InscripcionModelo {

  datatype Option<T> = None | Some(value: T)

  /** `LocalDate`, as a day number: the model only stores and copies dates. */
  type Fecha = int

  /** The four estado values the record documents. */
  const ACTIVO: string := "activo"
  const APROBADO: string := "aprobado"
  const REPROBADO: string := "reprobado"
  const RETIRADO: string := "retirado"

  datatype Inscripcion = Inscripcion(
    estudianteId: int,
    materiaId: int,
    fechaInscripcion: Fecha,
    estado: string,
    calificacion: Option<int>,
    periodoAcademico: string,
    usuarioRegistro: string,
    version: int)

  /** The column stores any string; these are the values it is documented to hold. */
  predicate EstadoDocumentado(e: string)
  {
    e == ACTIVO || e == APROBADO || e == REPROBADO || e == RETIRADO
  }

  /**
   * Saving a record that was read and then changed through its setters: the
   * `@Version` counter goes up by one when some column changed and stays as
   * it was when nothing did (the persistence layer only writes dirty records).
   */
  function Persistir(anterior: Inscripcion, cambiado: Inscripcion): (r: Inscripcion)
    requires cambiado.version == anterior.version
    ensures r.(version := anterior.version) == cambiado
    ensures r.version == anterior.version <==> cambiado == anterior
    ensures r.version == anterior.version || r.version == anterior.version + 1
  {
    if cambiado == anterior then anterior else cambiado.(version := anterior.version + 1)
  }
}
