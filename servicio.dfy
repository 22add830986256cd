/**
 * The enrollment service: the admission pipeline of `crearInscripcion`, the
 * three checks it relies on, the grade, estado and field updates, deletion,
 * and the admission invariant (at most 30 active enrollments per subject, at
 * most 5 per student, at most one active enrollment per student and subject)
 * that a successful admission preserves.
 */
module InscripcionServicio {
  import opened InscripcionModelo
  import opened InscripcionRepositorio

  /** Per-student load limit. */
  const MaxMateriasPorEstudiante: int := 5
  /** Per-subject capacity. */
  const MaxEstudiantesPorMateria: int := 30
  /** Lowest passing grade. */
  const NotaDeAprobacion: int := 60

  datatype Result<T, E> = Success(value: T) | Failure(error: E)

  /** One value per exception the admission pipeline raises, in pipeline order. */
  datatype ErrorInscripcion =
    | EstudianteNoEncontrado
    | MateriaNoEncontrada
    | YaInscrito
    | SinCupos
    | LimiteDeMaterias
    | PrerequisitosNoCumplidos

  /** The request body; each operation reads only some of its fields. */
  datatype InscripcionDTO = InscripcionDTO(
    id: Option<int>,
    estudianteId: int,
    materiaId: int,
    fechaInscripcion: Option<Fecha>,
    estado: string,
    calificacion: Option<int>,
    periodoAcademico: string,
    usuarioRegistro: string)

  // ---------------------------------------------------------------- checks

  /**
   * The subject still has room: its active query returns fewer than 30
   * records, that is, fewer than 30 ids of the table hold an active record
   * of the subject.
   */
  predicate VerificarDisponibilidadMateria(libro: Libro, materiaId: int): (ok: bool)
    ensures ok <==> |set id | id in libro && libro[id].materiaId == materiaId && libro[id].estado == ACTIVO|
                    < MaxEstudiantesPorMateria
  {
    assert FindActiveByMateriaId(libro, materiaId).Keys
        == set id | id in libro && libro[id].materiaId == materiaId && libro[id].estado == ACTIVO;
    |FindActiveByMateriaId(libro, materiaId)| < MaxEstudiantesPorMateria
  }

  /**
   * The student may take one more subject: their active query returns fewer
   * than 5 records, that is, fewer than 5 ids of the table hold an active
   * record of the student.
   */
  predicate VerificarCupoEstudiante(libro: Libro, estudianteId: int): (ok: bool)
    ensures ok <==> |set id | id in libro && libro[id].estudianteId == estudianteId && libro[id].estado == ACTIVO|
                    < MaxMateriasPorEstudiante
  {
    assert FindActiveByEstudianteId(libro, estudianteId).Keys
        == set id | id in libro && libro[id].estudianteId == estudianteId && libro[id].estado == ACTIVO;
    |FindActiveByEstudianteId(libro, estudianteId)| < MaxMateriasPorEstudiante
  }

  /**
   * The subject passes the capacity check exactly when one more active
   * record of it, under a fresh id, keeps its active count within 30.
   */
  lemma DisponibilidadSiiCabeUnaMas(libro: Libro, id: int, nueva: Inscripcion)
    requires id !in libro && nueva.estado == ACTIVO
    ensures VerificarDisponibilidadMateria(libro, nueva.materiaId)
      <==> |FindActiveByMateriaId(libro[id := nueva], nueva.materiaId)| <= MaxEstudiantesPorMateria
  {
    ActivasDeMateriaTrasAlta(libro, id, nueva, nueva.materiaId);
  }

  /**
   * The student passes the load check exactly when one more active record
   * of theirs, under a fresh id, keeps their active count within 5.
   */
  lemma CupoSiiCabeUnaMas(libro: Libro, id: int, nueva: Inscripcion)
    requires id !in libro && nueva.estado == ACTIVO
    ensures VerificarCupoEstudiante(libro, nueva.estudianteId)
      <==> |FindActiveByEstudianteId(libro[id := nueva], nueva.estudianteId)| <= MaxMateriasPorEstudiante
  {
    ActivasDeEstudianteTrasAlta(libro, id, nueva, nueva.estudianteId);
  }

  /**
   * Direct prerequisites of a subject; a subject without an entry has none,
   * so "no prerequisites" covers both a missing and an empty list.
   */
  function PrerequisitosDe(prerequisitos: map<int, set<int>>, materiaId: int): (r: set<int>)
    ensures r == {} <==> materiaId !in prerequisitos || prerequisitos[materiaId] == {}
    ensures r != {} ==> materiaId in prerequisitos && r == prerequisitos[materiaId]
  {
    if materiaId in prerequisitos then prerequisitos[materiaId] else {}
  }

  /** Subject ids of the student's records whose estado is `aprobado`. */
  function MateriasAprobadas(libro: Libro, estudianteId: int): (r: set<int>)
    ensures forall p :: p in r <==> ExistsByEstudianteIdAndMateriaIdAndEstado(libro, estudianteId, p, APROBADO)
  {
    var propias := FindByEstudianteId(libro, estudianteId);
    var aprobadas := set id | id in propias && propias[id].estado == APROBADO :: propias[id].materiaId;
    assert forall p :: p in aprobadas <== ExistsByEstudianteIdAndMateriaIdAndEstado(libro, estudianteId, p, APROBADO) by {
      forall p | ExistsByEstudianteIdAndMateriaIdAndEstado(libro, estudianteId, p, APROBADO) ensures p in aprobadas {
        var id :| id in libro && libro[id].estudianteId == estudianteId
          && libro[id].materiaId == p && libro[id].estado == APROBADO;
        assert id in propias;
      }
    }
    aprobadas
  }

  /**
   * Prerequisite gate: fails when the subject does not exist; otherwise holds
   * exactly when every direct prerequisite is the subject of some `aprobado`
   * record of the student (trivially so when there are none).
   */
  function VerificarPrerequisitos(libro: Libro, materias: set<int>, prerequisitos: map<int, set<int>>,
                                  estudianteId: int, materiaId: int): (r: Result<bool, ErrorInscripcion>)
    ensures r.Failure? <==> materiaId !in materias
    ensures r.Failure? ==> r.error == MateriaNoEncontrada
    ensures materiaId in materias && PrerequisitosDe(prerequisitos, materiaId) == {} ==> r == Success(true)
    ensures r.Success? ==> (r.value <==> forall p :: p in PrerequisitosDe(prerequisitos, materiaId) ==>
                                           ExistsByEstudianteIdAndMateriaIdAndEstado(libro, estudianteId, p, APROBADO))
  {
    if materiaId !in materias then Failure(MateriaNoEncontrada)
    else if PrerequisitosDe(prerequisitos, materiaId) == {} then Success(true)
    else
      var aprobadas := MateriasAprobadas(libro, estudianteId);
      var requeridas := PrerequisitosDe(prerequisitos, materiaId);
      assert requeridas <= aprobadas ==> forall p :: p in requeridas ==> p in aprobadas;
      assert (forall p :: p in requeridas ==> p in aprobadas) ==> requeridas <= aprobadas;
      Success(requeridas <= aprobadas)
  }

  // ------------------------------------------------------- record updates

  /** `registrarCalificacion` on one record: the grade and the pass/fail estado. */
  function Calificada(anterior: Inscripcion, calificacion: int): (r: Inscripcion)
    ensures r.calificacion == Some(calificacion)
    ensures r.estado == APROBADO <==> calificacion >= NotaDeAprobacion
    ensures r.estado == REPROBADO <==> calificacion < NotaDeAprobacion
    ensures r.estado != ACTIVO && EstadoDocumentado(r.estado)
    ensures r.(estado := anterior.estado, calificacion := anterior.calificacion, version := anterior.version) == anterior
    ensures r.version == anterior.version || r.version == anterior.version + 1
    ensures r.version == anterior.version <==>
      anterior.calificacion == Some(calificacion)
      && anterior.estado == (if calificacion >= NotaDeAprobacion then APROBADO else REPROBADO)
  {
    var estado := if calificacion >= NotaDeAprobacion then APROBADO else REPROBADO;
    Persistir(anterior, anterior.(calificacion := Some(calificacion), estado := estado))
  }

  /** `actualizarEstadoInscripcion` on one record: any string becomes the estado. */
  function ConEstado(anterior: Inscripcion, estado: string): (r: Inscripcion)
    ensures r.estado == estado
    ensures r.(estado := anterior.estado, version := anterior.version) == anterior
    ensures r.version == anterior.version <==> estado == anterior.estado
  {
    Persistir(anterior, anterior.(estado := estado))
  }

  /** `actualizarInscripcion` on one record: estado, grade and period come from the body. */
  function ConCambios(anterior: Inscripcion, dto: InscripcionDTO): (r: Inscripcion)
    ensures r.estado == dto.estado && r.calificacion == dto.calificacion && r.periodoAcademico == dto.periodoAcademico
    ensures r.estudianteId == anterior.estudianteId && r.materiaId == anterior.materiaId
    ensures r.fechaInscripcion == anterior.fechaInscripcion && r.usuarioRegistro == anterior.usuarioRegistro
    ensures r.version == anterior.version || r.version == anterior.version + 1
    ensures r.version == anterior.version <==>
      anterior.estado == dto.estado && anterior.calificacion == dto.calificacion
      && anterior.periodoAcademico == dto.periodoAcademico
  {
    Persistir(anterior, anterior.(estado := dto.estado, calificacion := dto.calificacion,
                                  periodoAcademico := dto.periodoAcademico))
  }

  // ------------------------------------------------------- the invariant

  /** Every subject has at most 30 active records. */
  ghost predicate CupoDeMateriasRespetado(libro: Libro)
  {
    forall m :: |FindActiveByMateriaId(libro, m)| <= MaxEstudiantesPorMateria
  }

  /** Every student has at most 5 active records. */
  ghost predicate CupoDeEstudiantesRespetado(libro: Libro)
  {
    forall s :: |FindActiveByEstudianteId(libro, s)| <= MaxMateriasPorEstudiante
  }

  /** No two distinct active records share a student and a subject. */
  ghost predicate UnicaActivaPorPar(libro: Libro)
  {
    forall i, j ::
      (&& i in libro && j in libro && libro[i].estado == ACTIVO && libro[j].estado == ACTIVO
       && libro[i].estudianteId == libro[j].estudianteId && libro[i].materiaId == libro[j].materiaId)
      ==> i == j
  }

  /** Capacity, load limit and uniqueness of the active pair, for every subject and student. */
  ghost predicate InvarianteAdmision(libro: Libro)
  {
    CupoDeMateriasRespetado(libro) && CupoDeEstudiantesRespetado(libro) && UnicaActivaPorPar(libro)
  }

  /** The record at `id` is the only active record of its student and subject. */
  ghost predicate UnicaActivaDeSuPar(libro: Libro, id: int)
    requires id in libro
  {
    forall j ::
      (&& j in libro && libro[j].estado == ACTIVO
       && libro[j].estudianteId == libro[id].estudianteId && libro[j].materiaId == libro[id].materiaId)
      ==> j == id
  }

  /**
   * When no active record of the pair exists, the appended active record is
   * the only active one of its student and subject afterwards.
   */
  lemma AltaSinDuplicadoEsUnica(libro: Libro, id: int, nueva: Inscripcion)
    requires id !in libro && nueva.estado == ACTIVO
    requires !ExistsByEstudianteIdAndMateriaIdAndEstado(libro, nueva.estudianteId, nueva.materiaId, ACTIVO)
    ensures UnicaActivaDeSuPar(libro[id := nueva], id)
  {
  }

  /**
   * The duplicate check alone keeps the pair unique: a record appended under
   * a fresh id when no active record of its pair exists.
   */
  lemma AltaSinDuplicadoPreservaUnicidad(libro: Libro, id: int, nueva: Inscripcion)
    requires UnicaActivaPorPar(libro) && id !in libro
    requires !ExistsByEstudianteIdAndMateriaIdAndEstado(libro, nueva.estudianteId, nueva.materiaId, ACTIVO)
    ensures UnicaActivaPorPar(libro[id := nueva])
  {
  }

  /** The capacity check alone keeps every subject within 30 active records. */
  lemma AltaConDisponibilidadPreservaCupoDeMaterias(libro: Libro, id: int, nueva: Inscripcion)
    requires CupoDeMateriasRespetado(libro) && id !in libro
    requires VerificarDisponibilidadMateria(libro, nueva.materiaId)
    ensures CupoDeMateriasRespetado(libro[id := nueva])
  {
    var despues := libro[id := nueva];
    forall m ensures |FindActiveByMateriaId(despues, m)| <= MaxEstudiantesPorMateria {
      ActivasDeMateriaTrasAlta(libro, id, nueva, m);
    }
  }

  /** The load check alone keeps every student within 5 active records. */
  lemma AltaConCupoPreservaCupoDeEstudiantes(libro: Libro, id: int, nueva: Inscripcion)
    requires CupoDeEstudiantesRespetado(libro) && id !in libro
    requires VerificarCupoEstudiante(libro, nueva.estudianteId)
    ensures CupoDeEstudiantesRespetado(libro[id := nueva])
  {
    var despues := libro[id := nueva];
    forall s ensures |FindActiveByEstudianteId(despues, s)| <= MaxMateriasPorEstudiante {
      ActivasDeEstudianteTrasAlta(libro, id, nueva, s);
    }
  }

  /**
   * A record appended under a fresh id after the duplicate, capacity and
   * load checks have passed keeps each part of the admission invariant that
   * held before, and so the whole of it.
   */
  lemma AltaAdmitidaPreservaInvariante(libro: Libro, id: int, nueva: Inscripcion)
    requires id !in libro
    requires !ExistsByEstudianteIdAndMateriaIdAndEstado(libro, nueva.estudianteId, nueva.materiaId, ACTIVO)
    requires VerificarDisponibilidadMateria(libro, nueva.materiaId)
    requires VerificarCupoEstudiante(libro, nueva.estudianteId)
    ensures CupoDeMateriasRespetado(libro) ==> CupoDeMateriasRespetado(libro[id := nueva])
    ensures CupoDeEstudiantesRespetado(libro) ==> CupoDeEstudiantesRespetado(libro[id := nueva])
    ensures UnicaActivaPorPar(libro) ==> UnicaActivaPorPar(libro[id := nueva])
    ensures InvarianteAdmision(libro) ==> InvarianteAdmision(libro[id := nueva])
  {
    if CupoDeMateriasRespetado(libro) {
      AltaConDisponibilidadPreservaCupoDeMaterias(libro, id, nueva);
    }
    if CupoDeEstudiantesRespetado(libro) {
      AltaConCupoPreservaCupoDeEstudiantes(libro, id, nueva);
    }
    if UnicaActivaPorPar(libro) {
      AltaSinDuplicadoPreservaUnicidad(libro, id, nueva);
    }
  }

  /**
   * A change that adds no active record (a deletion, a grade) keeps each part
   * of the admission invariant on its own, and so the whole of it.
   */
  lemma SinNuevasActivasPreservaInvariante(antes: Libro, despues: Libro)
    requires SinNuevasActivas(antes, despues)
    ensures CupoDeMateriasRespetado(antes) ==> CupoDeMateriasRespetado(despues)
    ensures CupoDeEstudiantesRespetado(antes) ==> CupoDeEstudiantesRespetado(despues)
    ensures UnicaActivaPorPar(antes) ==> UnicaActivaPorPar(despues)
    ensures InvarianteAdmision(antes) ==> InvarianteAdmision(despues)
  {
    forall m ensures |FindActiveByMateriaId(despues, m)| <= |FindActiveByMateriaId(antes, m)| {
      ActivasDeMateriaSinNuevas(antes, despues, m);
    }
    forall s ensures |FindActiveByEstudianteId(despues, s)| <= |FindActiveByEstudianteId(antes, s)| {
      ActivasDeEstudianteSinNuevas(antes, despues, s);
    }
  }

  /**
   * Setting the estado of a record back to `activo` checks nothing: when
   * another record of the same student and subject is active, two active
   * records of the pair result.
   */
  lemma ActualizarEstadoPuedeDuplicarActiva(libro: Libro, id: int, otra: int)
    requires id in libro && otra in libro && id != otra
    requires libro[otra].estado == ACTIVO
    requires libro[otra].estudianteId == libro[id].estudianteId && libro[otra].materiaId == libro[id].materiaId
    ensures !UnicaActivaPorPar(libro[id := ConEstado(libro[id], ACTIVO)])
  {
    var despues := libro[id := ConEstado(libro[id], ACTIVO)];
    assert despues[id].estado == ACTIVO && despues[otra] == libro[otra];
  }

  /**
   * The general update writes the request's estado with no check either: a
   * body with estado `activo` on an old record of a pair that already has an
   * active record leaves two active records of the pair.
   */
  lemma ActualizarInscripcionPuedeDuplicarActiva(libro: Libro, id: int, otra: int, dto: InscripcionDTO)
    requires id in libro && otra in libro && id != otra && dto.estado == ACTIVO
    requires libro[otra].estado == ACTIVO
    requires libro[otra].estudianteId == libro[id].estudianteId && libro[otra].materiaId == libro[id].materiaId
    ensures !UnicaActivaPorPar(libro[id := ConCambios(libro[id], dto)])
  {
    var despues := libro[id := ConCambios(libro[id], dto)];
    assert despues[id].estado == ACTIVO && despues[otra] == libro[otra];
  }

  /**
   * Prerequisite gate after grading: once a record of the student in subject
   * `p` is graded at or above 60, an `aprobado` record of that pair exists.
   */
  lemma CalificacionAprobatoriaHabilita(libro: Libro, id: int, calificacion: int)
    requires id in libro && calificacion >= NotaDeAprobacion
    ensures ExistsByEstudianteIdAndMateriaIdAndEstado(libro[id := Calificada(libro[id], calificacion)],
                                                      libro[id].estudianteId, libro[id].materiaId, APROBADO)
  {
    var despues := libro[id := Calificada(libro[id], calificacion)];
    assert despues[id].estado == APROBADO;
  }

  // ------------------------------------------------------ documented estados

  /** Every stored record carries one of the four documented estado values. */
  ghost predicate EstadosDocumentados(libro: Libro)
  {
    forall id :: id in libro ==> EstadoDocumentado(libro[id].estado)
  }

  /**
   * Writing one record into a table whose estados are all documented keeps
   * them so exactly when the written record's estado is documented.
   */
  lemma EscrituraYEstadosDocumentados(libro: Libro, id: int, r: Inscripcion)
    requires EstadosDocumentados(libro)
    ensures EstadosDocumentados(libro[id := r]) <==> EstadoDocumentado(r.estado)
  {
    if !EstadoDocumentado(r.estado) {
      assert libro[id := r][id] == r;
    }
  }

  // ------------------------------------------------------------ the service

  /**
   * The service over the enrollment table. The student directory, the
   * subject directory and the prerequisite lists are read-only inputs here.
   */
  class InscripcionService {
    const estudiantes: set<int>
    const materias: set<int>
    const prerequisitos: map<int, set<int>>
    var libro: Libro
    /** Next identity value the table will hand out. */
    var siguienteId: int

    ghost predicate Valid()
      reads this
    {
      forall id :: id in libro ==> id < siguienteId
    }

    constructor (estudiantes: set<int>, materias: set<int>, prerequisitos: map<int, set<int>>)
      ensures Valid() && libro == map[]
      ensures this.estudiantes == estudiantes && this.materias == materias && this.prerequisitos == prerequisitos
    {
      this.estudiantes := estudiantes;
      this.materias := materias;
      this.prerequisitos := prerequisitos;
      libro := map[];
      siguienteId := 1;
    }

    /**
     * `crearInscripcion`: the six checks in their fixed order, the first that
     * fails decides the error and nothing changes; when all pass, exactly one
     * active record is appended under a fresh id.
     */
    method CrearInscripcion(dto: InscripcionDTO, hoy: Fecha) returns (r: Result<int, ErrorInscripcion>)
      requires Valid()
      modifies this`libro, this`siguienteId
      ensures Valid()
      ensures r.Failure? ==> libro == old(libro) && siguienteId == old(siguienteId)
      ensures dto.estudianteId !in estudiantes ==> r == Failure(EstudianteNoEncontrado)
      ensures dto.estudianteId in estudiantes && dto.materiaId !in materias ==> r == Failure(MateriaNoEncontrada)
      ensures dto.estudianteId in estudiantes && dto.materiaId in materias
        && ExistsByEstudianteIdAndMateriaIdAndEstado(old(libro), dto.estudianteId, dto.materiaId, ACTIVO)
        ==> r == Failure(YaInscrito)
      ensures dto.estudianteId in estudiantes && dto.materiaId in materias
        && !ExistsByEstudianteIdAndMateriaIdAndEstado(old(libro), dto.estudianteId, dto.materiaId, ACTIVO)
        && !VerificarDisponibilidadMateria(old(libro), dto.materiaId)
        ==> r == Failure(SinCupos)
      ensures dto.estudianteId in estudiantes && dto.materiaId in materias
        && !ExistsByEstudianteIdAndMateriaIdAndEstado(old(libro), dto.estudianteId, dto.materiaId, ACTIVO)
        && VerificarDisponibilidadMateria(old(libro), dto.materiaId)
        && !VerificarCupoEstudiante(old(libro), dto.estudianteId)
        ==> r == Failure(LimiteDeMaterias)
      ensures dto.estudianteId in estudiantes && dto.materiaId in materias
        && !ExistsByEstudianteIdAndMateriaIdAndEstado(old(libro), dto.estudianteId, dto.materiaId, ACTIVO)
        && VerificarDisponibilidadMateria(old(libro), dto.materiaId)
        && VerificarCupoEstudiante(old(libro), dto.estudianteId)
        && VerificarPrerequisitos(old(libro), materias, prerequisitos, dto.estudianteId, dto.materiaId) == Success(false)
        ==> r == Failure(PrerequisitosNoCumplidos)
      ensures r.Success? <==>
        && dto.estudianteId in estudiantes && dto.materiaId in materias
        && !ExistsByEstudianteIdAndMateriaIdAndEstado(old(libro), dto.estudianteId, dto.materiaId, ACTIVO)
        && VerificarDisponibilidadMateria(old(libro), dto.materiaId)
        && VerificarCupoEstudiante(old(libro), dto.estudianteId)
        && VerificarPrerequisitos(old(libro), materias, prerequisitos, dto.estudianteId, dto.materiaId) == Success(true)
      ensures r.Success? ==> r.value !in old(libro) && libro == old(libro)[r.value :=
        Inscripcion(dto.estudianteId, dto.materiaId, hoy, ACTIVO, None, dto.periodoAcademico, dto.usuarioRegistro, 0)]
      ensures CupoDeMateriasRespetado(old(libro)) ==> CupoDeMateriasRespetado(libro)
      ensures CupoDeEstudiantesRespetado(old(libro)) ==> CupoDeEstudiantesRespetado(libro)
      ensures UnicaActivaPorPar(old(libro)) ==> UnicaActivaPorPar(libro)
      ensures InvarianteAdmision(old(libro)) ==> InvarianteAdmision(libro)
      ensures EstadosDocumentados(old(libro)) ==> EstadosDocumentados(libro)
    {
      if dto.estudianteId !in estudiantes {
        r := Failure(EstudianteNoEncontrado);
      } else if dto.materiaId !in materias {
        r := Failure(MateriaNoEncontrada);
      } else if ExistsByEstudianteIdAndMateriaIdAndEstado(libro, dto.estudianteId, dto.materiaId, ACTIVO) {
        r := Failure(YaInscrito);
      } else if !VerificarDisponibilidadMateria(libro, dto.materiaId) {
        r := Failure(SinCupos);
      } else if !VerificarCupoEstudiante(libro, dto.estudianteId) {
        r := Failure(LimiteDeMaterias);
      } else if !VerificarPrerequisitos(libro, materias, prerequisitos, dto.estudianteId, dto.materiaId).value {
        // the subject was found above, so the gate yields a verdict and not an error
        r := Failure(PrerequisitosNoCumplidos);
      } else {
        var inscripcion := Inscripcion(dto.estudianteId, dto.materiaId, hoy, ACTIVO, None,
                                       dto.periodoAcademico, dto.usuarioRegistro, 0);
        var id := siguienteId;
        assert CupoDeMateriasRespetado(libro) ==> CupoDeMateriasRespetado(libro[id := inscripcion]) by {
          AltaAdmitidaPreservaInvariante(libro, id, inscripcion);
        }
        assert CupoDeEstudiantesRespetado(libro) ==> CupoDeEstudiantesRespetado(libro[id := inscripcion]) by {
          AltaAdmitidaPreservaInvariante(libro, id, inscripcion);
        }
        assert UnicaActivaPorPar(libro) ==> UnicaActivaPorPar(libro[id := inscripcion]) by {
          AltaAdmitidaPreservaInvariante(libro, id, inscripcion);
        }
        libro := libro[id := inscripcion];
        siguienteId := siguienteId + 1;
        r := Success(id);
      }
    }

    /**
     * `registrarCalificacion`: on a stored record, the grade and the pass/fail
     * estado at the threshold 60; on a missing id, no record and no change.
     */
    method RegistrarCalificacion(id: int, calificacion: int) returns (r: Option<Inscripcion>)
      requires Valid()
      modifies this`libro
      ensures Valid()
      ensures id !in old(libro) ==> r == None && libro == old(libro)
      ensures id in old(libro) ==>
        && libro == old(libro)[id := Calificada(old(libro)[id], calificacion)]
        && r == Some(libro[id])
      ensures CupoDeMateriasRespetado(old(libro)) ==> CupoDeMateriasRespetado(libro)
      ensures CupoDeEstudiantesRespetado(old(libro)) ==> CupoDeEstudiantesRespetado(libro)
      ensures UnicaActivaPorPar(old(libro)) ==> UnicaActivaPorPar(libro)
      ensures InvarianteAdmision(old(libro)) ==> InvarianteAdmision(libro)
      ensures EstadosDocumentados(old(libro)) ==> EstadosDocumentados(libro)
    {
      if id !in libro {
        return None;
      }
      var actualizada := Calificada(libro[id], calificacion);
      SinNuevasActivasPreservaInvariante(libro, libro[id := actualizada]);
      if EstadosDocumentados(libro) {
        EscrituraYEstadosDocumentados(libro, id, actualizada);
      }
      libro := libro[id := actualizada];
      return Some(actualizada);
    }

    /**
     * `actualizarEstadoInscripcion`: only the estado changes, to any string,
     * with no check; on a missing id, no record and no change.
     */
    method ActualizarEstadoInscripcion(id: int, estado: string) returns (r: Option<Inscripcion>)
      requires Valid()
      modifies this`libro
      ensures Valid()
      ensures id !in old(libro) ==> r == None && libro == old(libro)
      ensures id in old(libro) ==>
        && libro == old(libro)[id := ConEstado(old(libro)[id], estado)]
        && r == Some(libro[id])
      ensures id in old(libro) && EstadosDocumentados(old(libro)) ==>
        (EstadosDocumentados(libro) <==> EstadoDocumentado(estado))
    {
      if id !in libro {
        return None;
      }
      var actualizada := ConEstado(libro[id], estado);
      if EstadosDocumentados(libro) {
        EscrituraYEstadosDocumentados(libro, id, actualizada);
      }
      libro := libro[id := actualizada];
      return Some(actualizada);
    }

    /**
     * `actualizarInscripcion`: estado, grade and period are overwritten from
     * the body; student, subject, date and registering user stay.
     */
    method ActualizarInscripcion(id: int, dto: InscripcionDTO) returns (r: Option<Inscripcion>)
      requires Valid()
      modifies this`libro
      ensures Valid()
      ensures id !in old(libro) ==> r == None && libro == old(libro)
      ensures id in old(libro) ==>
        && libro == old(libro)[id := ConCambios(old(libro)[id], dto)]
        && r == Some(libro[id])
      ensures id in old(libro) && EstadosDocumentados(old(libro)) ==>
        (EstadosDocumentados(libro) <==> EstadoDocumentado(dto.estado))
    {
      if id !in libro {
        return None;
      }
      var actualizada := ConCambios(libro[id], dto);
      if EstadosDocumentados(libro) {
        EscrituraYEstadosDocumentados(libro, id, actualizada);
      }
      libro := libro[id := actualizada];
      return Some(actualizada);
    }

    /** `eliminarInscripcion`: the record goes; a missing id changes nothing. */
    method EliminarInscripcion(id: int)
      requires Valid()
      modifies this`libro
      ensures Valid()
      ensures libro == old(libro) - {id}
      ensures CupoDeMateriasRespetado(old(libro)) ==> CupoDeMateriasRespetado(libro)
      ensures CupoDeEstudiantesRespetado(old(libro)) ==> CupoDeEstudiantesRespetado(libro)
      ensures UnicaActivaPorPar(old(libro)) ==> UnicaActivaPorPar(libro)
      ensures InvarianteAdmision(old(libro)) ==> InvarianteAdmision(libro)
      ensures EstadosDocumentados(old(libro)) ==> EstadosDocumentados(libro)
    {
      SinNuevasActivasPreservaInvariante(libro, libro - {id});
      libro := libro - {id};
    }
  }
}
