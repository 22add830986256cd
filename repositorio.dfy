/**
 * The enrollment repository's selection queries, as functions over the
 * ledger: the table of enrollment records keyed by their generated id.
 * A query's result list is modelled by the records it selects, keyed by id,
 * so the list's size is the cardinality of the result.
 */
module InscripcionRepositorio {
  import opened InscripcionModelo

  /** The enrollment table: record id to record. */
  type Libro = map<int, Inscripcion>

  /** Every record of one student, whatever its estado. */
  function FindByEstudianteId(libro: Libro, estudianteId: int): (r: Libro)
    ensures r.Keys <= libro.Keys
    ensures forall id :: id in r ==> r[id] == libro[id] && r[id].estudianteId == estudianteId
    ensures forall id :: id in libro && libro[id].estudianteId == estudianteId ==> id in r
  {
    map id | id in libro && libro[id].estudianteId == estudianteId :: libro[id]
  }

  /** Every record of one subject, whatever its estado. */
  function FindByMateriaId(libro: Libro, materiaId: int): (r: Libro)
    ensures r.Keys <= libro.Keys
    ensures forall id :: id in r ==> r[id] == libro[id] && r[id].materiaId == materiaId
    ensures forall id :: id in libro && libro[id].materiaId == materiaId ==> id in r
  {
    map id | id in libro && libro[id].materiaId == materiaId :: libro[id]
  }

  /**
   * Whether some record has this student, this subject and this estado:
   * exactly when one record id is returned both by the student's query and
   * by the subject's query and carries that estado.
   */
  predicate ExistsByEstudianteIdAndMateriaIdAndEstado(libro: Libro, estudianteId: int, materiaId: int, estado: string): (b: bool)
    ensures b <==> exists id :: id in FindByEstudianteId(libro, estudianteId) && id in FindByMateriaId(libro, materiaId)
                                && libro[id].estado == estado
  {
    exists id :: id in libro && libro[id].estudianteId == estudianteId
      && libro[id].materiaId == materiaId && libro[id].estado == estado
  }

  /** The records of one student whose estado is `activo`. */
  function FindActiveByEstudianteId(libro: Libro, estudianteId: int): (r: Libro)
    ensures r.Keys <= libro.Keys
    ensures forall id :: id in r ==> r[id] == libro[id] && r[id].estudianteId == estudianteId && r[id].estado == ACTIVO
    ensures forall id :: id in libro && libro[id].estudianteId == estudianteId && libro[id].estado == ACTIVO ==> id in r
  {
    map id | id in libro && libro[id].estudianteId == estudianteId && libro[id].estado == ACTIVO :: libro[id]
  }

  /** The records of one subject whose estado is `activo`. */
  function FindActiveByMateriaId(libro: Libro, materiaId: int): (r: Libro)
    ensures r.Keys <= libro.Keys
    ensures forall id :: id in r ==> r[id] == libro[id] && r[id].materiaId == materiaId && r[id].estado == ACTIVO
    ensures forall id :: id in libro && libro[id].materiaId == materiaId && libro[id].estado == ACTIVO ==> id in r
  {
    map id | id in libro && libro[id].materiaId == materiaId && libro[id].estado == ACTIVO :: libro[id]
  }

  lemma CardinalSubconjunto(a: set<int>, b: set<int>)
    requires a <= b
    ensures |a| <= |b|
  {
    assert b == a + (b - a);
  }

  /**
   * The active query of a student is the unfiltered query of that student
   * restricted to estado `activo`; so it is a sub-table of it, and no larger.
   */
  lemma ActivasDeEstudianteEnTodas(libro: Libro, estudianteId: int)
    ensures var activas, todas := FindActiveByEstudianteId(libro, estudianteId), FindByEstudianteId(libro, estudianteId);
      && (forall id :: id in activas <==> id in todas && todas[id].estado == ACTIVO)
      && (forall id :: id in activas ==> activas[id] == todas[id])
      && |activas| <= |todas|
  {
    var activas, todas := FindActiveByEstudianteId(libro, estudianteId), FindByEstudianteId(libro, estudianteId);
    CardinalSubconjunto(activas.Keys, todas.Keys);
  }

  /** The same relation between the two queries of a subject. */
  lemma ActivasDeMateriaEnTodas(libro: Libro, materiaId: int)
    ensures var activas, todas := FindActiveByMateriaId(libro, materiaId), FindByMateriaId(libro, materiaId);
      && (forall id :: id in activas <==> id in todas && todas[id].estado == ACTIVO)
      && (forall id :: id in activas ==> activas[id] == todas[id])
      && |activas| <= |todas|
  {
    var activas, todas := FindActiveByMateriaId(libro, materiaId), FindByMateriaId(libro, materiaId);
    CardinalSubconjunto(activas.Keys, todas.Keys);
  }

  /**
   * Appending a record under a fresh id raises a subject's active count by
   * one when the record is an active one of that subject, and leaves it as
   * it was otherwise.
   */
  lemma ActivasDeMateriaTrasAlta(libro: Libro, id: int, nueva: Inscripcion, materiaId: int)
    requires id !in libro
    ensures |FindActiveByMateriaId(libro[id := nueva], materiaId)|
         == |FindActiveByMateriaId(libro, materiaId)| + (if nueva.materiaId == materiaId && nueva.estado == ACTIVO then 1 else 0)
  {
    var antes, despues := FindActiveByMateriaId(libro, materiaId), FindActiveByMateriaId(libro[id := nueva], materiaId);
    if nueva.materiaId == materiaId && nueva.estado == ACTIVO {
      assert despues.Keys == antes.Keys + {id};
    } else {
      assert despues.Keys == antes.Keys;
    }
  }

  /** The same for a student's active count. */
  lemma ActivasDeEstudianteTrasAlta(libro: Libro, id: int, nueva: Inscripcion, estudianteId: int)
    requires id !in libro
    ensures |FindActiveByEstudianteId(libro[id := nueva], estudianteId)|
         == |FindActiveByEstudianteId(libro, estudianteId)| + (if nueva.estudianteId == estudianteId && nueva.estado == ACTIVO then 1 else 0)
  {
    var antes, despues := FindActiveByEstudianteId(libro, estudianteId), FindActiveByEstudianteId(libro[id := nueva], estudianteId);
    if nueva.estudianteId == estudianteId && nueva.estado == ACTIVO {
      assert despues.Keys == antes.Keys + {id};
    } else {
      assert despues.Keys == antes.Keys;
    }
  }

  /**
   * `despues` holds no active record that `antes` did not already hold as an
   * active record of the same student and subject: what deleting a record,
   * or moving one out of `activo`, leaves behind.
   */
  ghost predicate SinNuevasActivas(antes: Libro, despues: Libro)
  {
    forall id :: id in despues && despues[id].estado == ACTIVO ==>
      && id in antes && antes[id].estado == ACTIVO
      && antes[id].estudianteId == despues[id].estudianteId
      && antes[id].materiaId == despues[id].materiaId
  }

  /** Such a change never raises any subject's active count. */
  lemma ActivasDeMateriaSinNuevas(antes: Libro, despues: Libro, materiaId: int)
    requires SinNuevasActivas(antes, despues)
    ensures |FindActiveByMateriaId(despues, materiaId)| <= |FindActiveByMateriaId(antes, materiaId)|
  {
    var materiaAntes, materiaDespues := FindActiveByMateriaId(antes, materiaId), FindActiveByMateriaId(despues, materiaId);
    forall id | id in materiaDespues ensures id in materiaAntes {
      assert despues[id].estado == ACTIVO;
    }
    CardinalSubconjunto(materiaDespues.Keys, materiaAntes.Keys);
  }

  /** Nor any student's active count. */
  lemma ActivasDeEstudianteSinNuevas(antes: Libro, despues: Libro, estudianteId: int)
    requires SinNuevasActivas(antes, despues)
    ensures |FindActiveByEstudianteId(despues, estudianteId)| <= |FindActiveByEstudianteId(antes, estudianteId)|
  {
    var estudianteAntes, estudianteDespues := FindActiveByEstudianteId(antes, estudianteId), FindActiveByEstudianteId(despues, estudianteId);
    forall id | id in estudianteDespues ensures id in estudianteAntes {
      assert despues[id].estado == ACTIVO;
    }
    CardinalSubconjunto(estudianteDespues.Keys, estudianteAntes.Keys);
  }
}
