# Enrollment admission (inscripción) of the university backend, in Dafny

This project models the enrollment core of a Spring university-records
backend: the enrollment record (`Inscripcion`), the repository queries over
the enrollment table, and the service that admits a student to a subject
(`crearInscripcion`) and later grades, re-labels, edits or deletes the
enrollment.

- `modelo.dfy`, module `InscripcionModelo`: the record. Every column declared
  not-null (student, subject, date, estado, academic period, registering
  user) is a plain field, so it is always present. The optional grade is an
  `Option<int>`. `estado` is a `string`, because the column stores any
  string; `EstadoDocumentado` names the four documented values (`activo`,
  `aprobado`, `reprobado`, `retirado`). `Persistir` gives the `@Version`
  behaviour of a save: the counter goes up by one when some column changed.
- `repositorio.dfy`, module `InscripcionRepositorio`: the table is a
  `map<int, Inscripcion>` from record id to record. Each query is a function
  that returns the records it selects, keyed by id, so a result list's size
  is the cardinality of the result. The lemmas relate the queries to each
  other and say how the active counts move when a record is appended or
  when no new active record appears.
- `servicio.dfy`, module `InscripcionServicio`: the constants 5 and 30, the
  three checks as functions of the table, the record updates as functions,
  and the admission invariant `InvarianteAdmision`. That invariant says every
  subject has at most 30 active records, every student has at most 5, and no
  student and subject share two active records. The class
  `InscripcionService` holds the table and the next identity value. It takes
  the student directory, the subject directory and each subject's direct
  prerequisites as read-only inputs. A subject that is in the directory but
  has no entry in the prerequisite map has no prerequisite list, which the
  code treats like an empty one. Its methods update the table in place, as
  the service's setter-and-save code does.

`CrearInscripcion` runs the six checks in the code's order. They are: the
student exists, the subject exists, no active enrollment of the pair exists,
the subject has fewer than 30 active enrollments, the student has fewer than
5, and every direct prerequisite is approved. The first check that fails
gives its own error value and leaves the table unchanged. When all pass,
exactly one record is appended under a fresh id. That record has estado
`activo`, no grade, version 0, the given date, and the period and
registering user of the request. A successful admission keeps
`InvarianteAdmision`, and each of its three parts is kept on its own: the
duplicate check alone keeps the active pair unique, the capacity check
alone keeps every subject within 30, the load check alone keeps every
student within 5. Grading and deleting keep every part too. The two
free-form updates do not. `ActualizarEstadoInscripcion` writes any estado
with no check, and so does `ActualizarInscripcion` with the estado of the
request body. Setting an old record of a pair back to `activo` while another
record of that pair is active leaves two active records
(`ActualizarEstadoPuedeDuplicarActiva`, `ActualizarInscripcionPuedeDuplicarActiva`).
The model records this and adds no guard, since the code has none.

The `estado` column is documented to hold one of four values. Admission
stores `activo` and grading stores `aprobado` or `reprobado`, so both keep
every stored estado documented, and deletion does too. The two free-form
updates keep it exactly when the estado they are given is one of the four.

Behaviour the code does not have, and the model therefore does not add:
the admission checks only that the student exists (not that the student is
active); no transition out of `aprobado`, `reprobado` or `retirado` is
refused; updates are not conditioned on a caller-supplied version; the grade
is not range-checked; the student's load is checked once, not again before
the insert.

## Model

| member | source | states |
|---|---|---|
| `InscripcionModelo.Persistir` | src/main/java/com/universidad/model/Inscripcion.java:52-53 | a saved record carries every column as the setters left it; its version is unchanged exactly when no column changed, and otherwise one higher |
| `InscripcionRepositorio.FindByEstudianteId` | src/main/java/com/universidad/repository/InscripcionRepository.java:14 | the result holds, unchanged, every record of the student whatever its estado, and no other record |
| `InscripcionRepositorio.FindByMateriaId` | src/main/java/com/universidad/repository/InscripcionRepository.java:15 | the result holds, unchanged, every record of the subject whatever its estado, and no other record |
| `InscripcionRepositorio.ExistsByEstudianteIdAndMateriaIdAndEstado` | src/main/java/com/universidad/repository/InscripcionRepository.java:16 | true exactly when some record id is returned both by the student's query and by the subject's query and carries the given estado |
| `InscripcionRepositorio.FindActiveByEstudianteId` | src/main/java/com/universidad/repository/InscripcionRepository.java:18-19 | the result holds exactly the student's records whose estado is `activo`, unchanged |
| `InscripcionRepositorio.FindActiveByMateriaId` | src/main/java/com/universidad/repository/InscripcionRepository.java:21-22 | the result holds exactly the subject's records whose estado is `activo`, unchanged |
| `InscripcionRepositorio.ActivasDeEstudianteEnTodas` | src/main/java/com/universidad/repository/InscripcionRepository.java:14-19 | the student's active query is the student's unfiltered query restricted to estado `activo`: a sub-table of it, never larger |
| `InscripcionRepositorio.ActivasDeMateriaEnTodas` | src/main/java/com/universidad/repository/InscripcionRepository.java:15-22 | the subject's active query is the subject's unfiltered query restricted to estado `activo`: a sub-table of it, never larger |
| `InscripcionRepositorio.ActivasDeMateriaTrasAlta` | src/main/java/com/universidad/repository/InscripcionRepository.java:21-22 | appending a record under a fresh id raises a subject's active count by one if the record is an active record of that subject, and by zero otherwise |
| `InscripcionRepositorio.ActivasDeEstudianteTrasAlta` | src/main/java/com/universidad/repository/InscripcionRepository.java:18-19 | appending a record under a fresh id raises a student's active count by one if the record is an active record of that student, and by zero otherwise |
| `InscripcionRepositorio.ActivasDeMateriaSinNuevas` | src/main/java/com/universidad/repository/InscripcionRepository.java:21-22 | a change that introduces no active record (a deletion, a move out of `activo`) does not raise any subject's active count |
| `InscripcionRepositorio.ActivasDeEstudianteSinNuevas` | src/main/java/com/universidad/repository/InscripcionRepository.java:18-19 | a change that introduces no active record does not raise any student's active count |
| `InscripcionServicio.VerificarDisponibilidadMateria` | src/main/java/com/universidad/service/impl/InscripcionServiceImpl.java:169-172 | the capacity check passes exactly when fewer than 30 ids of the table hold an active record of the subject |
| `InscripcionServicio.VerificarCupoEstudiante` | src/main/java/com/universidad/service/impl/InscripcionServiceImpl.java:175-178 | the load check passes exactly when fewer than 5 ids of the table hold an active record of the student |
| `InscripcionServicio.DisponibilidadSiiCabeUnaMas` | src/main/java/com/universidad/service/impl/InscripcionServiceImpl.java:169-172 | the capacity check passes exactly when one more active record of the subject keeps its active count at or below 30 |
| `InscripcionServicio.CupoSiiCabeUnaMas` | src/main/java/com/universidad/service/impl/InscripcionServiceImpl.java:175-178 | the load check passes exactly when one more active record of the student keeps their active count at or below 5 |
| `InscripcionServicio.PrerequisitosDe` | src/main/java/com/universidad/service/impl/InscripcionServiceImpl.java:185 | a subject counts as having no prerequisites exactly when it has no list or an empty one; otherwise its own list is used |
| `InscripcionServicio.MateriasAprobadas` | src/main/java/com/universidad/service/impl/InscripcionServiceImpl.java:189-192 | a subject id is among the student's approved subjects exactly when some record of that student and subject has estado `aprobado` |
| `InscripcionServicio.VerificarPrerequisitos` | src/main/java/com/universidad/service/impl/InscripcionServiceImpl.java:181-199 | fails with `MateriaNoEncontrada` exactly when the subject is missing; is true when the subject has no prerequisites; otherwise is true exactly when every direct prerequisite has an `aprobado` record of the student |
| `InscripcionServicio.Calificada` | src/main/java/com/universidad/service/impl/InscripcionServiceImpl.java:160-162 | the grade is stored; estado becomes `aprobado` exactly when the grade is at least 60 and `reprobado` exactly when it is below; no other column changes; the version stays exactly when the record already had that grade and that estado |
| `InscripcionServicio.ConEstado` | src/main/java/com/universidad/service/impl/InscripcionServiceImpl.java:146-147 | the estado becomes the given string and no other column changes; the version moves exactly when the estado differs |
| `InscripcionServicio.ConCambios` | src/main/java/com/universidad/service/impl/InscripcionServiceImpl.java:124-127 | estado, grade and period come from the request; student, subject, date and registering user are kept; the version stays exactly when estado, grade and period already equal the request's |
| `InscripcionServicio.AltaSinDuplicadoEsUnica` | src/main/java/com/universidad/service/impl/InscripcionServiceImpl.java:83-88 | when no active record of the pair exists, the appended active record is the only active record of its student and subject |
| `InscripcionServicio.AltaSinDuplicadoPreservaUnicidad` | src/main/java/com/universidad/service/impl/InscripcionServiceImpl.java:83-88 | the duplicate check on its own keeps every student and subject at one active record at most when a record is appended under a fresh id |
| `InscripcionServicio.AltaConDisponibilidadPreservaCupoDeMaterias` | src/main/java/com/universidad/service/impl/InscripcionServiceImpl.java:91-93 | the capacity check on its own keeps every subject at 30 active records at most when a record is appended under a fresh id |
| `InscripcionServicio.AltaConCupoPreservaCupoDeEstudiantes` | src/main/java/com/universidad/service/impl/InscripcionServiceImpl.java:96-98 | the load check on its own keeps every student at 5 active records at most when a record is appended under a fresh id |
| `InscripcionServicio.AltaAdmitidaPreservaInvariante` | src/main/java/com/universidad/service/impl/InscripcionServiceImpl.java:83-98 | appending a record that passed the duplicate, capacity and load checks keeps each of the three parts of the admission invariant that held before, and so the whole invariant |
| `InscripcionServicio.SinNuevasActivasPreservaInvariante` | src/main/java/com/universidad/service/impl/InscripcionServiceImpl.java:157-166 | a change that introduces no active record, such as grading or deleting, keeps each part of the admission invariant that held before, and so the whole invariant |
| `InscripcionServicio.ActualizarEstadoPuedeDuplicarActiva` | src/main/java/com/universidad/service/impl/InscripcionServiceImpl.java:143-151 | setting a record to `activo` while another record of its pair is active leaves two active records of the pair |
| `InscripcionServicio.ActualizarInscripcionPuedeDuplicarActiva` | src/main/java/com/universidad/service/impl/InscripcionServiceImpl.java:121-131 | a general update whose body carries estado `activo`, applied to a record whose pair already has another active record, leaves two active records of the pair |
| `InscripcionServicio.CalificacionAprobatoriaHabilita` | src/main/java/com/universidad/service/impl/InscripcionServiceImpl.java:161 | after a grade of 60 or more, an `aprobado` record of that student and subject exists, which is what the prerequisite gate looks for |
| `InscripcionServicio.EscrituraYEstadosDocumentados` | src/main/java/com/universidad/model/Inscripcion.java:42 | writing one record into a table whose estados are all documented leaves them all documented exactly when the written estado is one of the four |
| `InscripcionServicio.InscripcionService.CrearInscripcion` | src/main/java/com/universidad/service/impl/InscripcionServiceImpl.java:74-115 | the first failing check, in the order student, subject, duplicate, capacity, load, prerequisites, gives its error and leaves the table unchanged; success happens exactly when all pass and appends exactly one `activo` record under a fresh id with the given date, the request's period and user, no grade and version 0; each part of the admission invariant that held before still holds, and every stored estado stays documented |
| `InscripcionServicio.InscripcionService.RegistrarCalificacion` | src/main/java/com/universidad/service/impl/InscripcionServiceImpl.java:157-166 | on a stored id, only that record changes, to its graded form, and it is returned; on a missing id, nothing is returned and nothing changes; each part of the admission invariant is kept, and every stored estado stays documented |
| `InscripcionServicio.InscripcionService.ActualizarEstadoInscripcion` | src/main/java/com/universidad/service/impl/InscripcionServiceImpl.java:143-151 | on a stored id, only that record's estado changes and the record is returned; on a missing id, nothing is returned and nothing changes; the stored estados stay documented exactly when the given estado is documented |
| `InscripcionServicio.InscripcionService.ActualizarInscripcion` | src/main/java/com/universidad/service/impl/InscripcionServiceImpl.java:121-131 | on a stored id, only that record's estado, grade and period change and the record is returned; on a missing id, nothing is returned and nothing changes; the stored estados stay documented exactly when the request's estado is documented |
| `InscripcionServicio.InscripcionService.EliminarInscripcion` | src/main/java/com/universidad/service/impl/InscripcionServiceImpl.java:135-137 | the record with that id is removed and nothing else changes (nothing at all for a missing id); each part of the admission invariant is kept, and every stored estado stays documented |

## Left out

- Concurrency: the pessimistic lock taken when the subject is read (src/main/java/com/universidad/repository/MateriaRepository.java:17-18), the transaction boundaries, and version conflicts at commit time. Each service call is one atomic step over the table.
- Prerequisite cycle detection: the subject entity and its cycle check are not part of this model; the prerequisite map is an input.
- Response caching annotations and dependency injection: they do not change the table.
- `convertToDTO` and the read-only listing operations (`obtenerTodasLasInscripciones`, `obtenerInscripcionPorId`, `obtenerInscripcionesPorEstudiante`, `obtenerInscripcionesPorMateria`): they project the table and the repository queries field by field. `CrearInscripcion` returns the new record's id, and the update methods return the stored record.
- The clock: `LocalDate.now()` is the parameter `hoy`; dates are day numbers.
- Identity generation: the database's identity column is a counter in the service (`siguienteId`); the model only relies on fresh ids.
- Null inputs: a null id throws inside the repositories, a null grade throws when it is compared with 60, and a null estado or period in an update body is rejected by the not-null columns. The model's inputs are never null.
- Integer width: ids and the version counter are unbounded integers; 64-bit overflow is not modelled.
- Exception texts: each `RuntimeException` of the admission is a distinct `ErrorInscripcion` value.
- Deleting a missing id is a no-op, as in current Spring Data JPA; older versions threw instead.
- The student and subject directories and the prerequisite lists are fixed for a service instance; their own create, update and delete operations belong to other services.
