/** The task store, class GestorTareas of gestor.py.

    Every operation of the store opens its own connection, runs one or two
    SQL statements on table `tareas` and turns any sqlite3.Error into its
    "nothing happened" result. Here the table is the field `tareas`, the
    AUTOINCREMENT counter SQLite keeps for it in `sqlite_sequence` is the
    field `secuencia`, the current time (datetime.now() formatted with
    strftime) is the parameter `ahora`, and whether the storage engine raises
    an error is the parameter `fail`. When it raises, nothing is committed:
    the table is left as it was. */
module Gestor {
  import opened Fecha
  import opened Tabla

  /** The largest rowid SQLite can store (a signed 64-bit integer). With
      AUTOINCREMENT, once an id this large has been handed out, every further
      insert fails with SQLITE_FULL. */
  const MAX_ROWID: int := 0x7FFF_FFFF_FFFF_FFFF

  /** A task id the store can pass as a `?` parameter. Python's sqlite3 binds
      an int as a signed 64-bit INTEGER and raises OverflowError for any other
      value; that is not an sqlite3.Error, so the store does not catch it and
      the caller must not pass such an id. */
  predicate IdParameter(id: int)
  {
    -0x8000_0000_0000_0000 <= id <= MAX_ROWID
  }

  /** The ids 1..n, which AUTOINCREMENT has handed out once its counter
      stands at n. */
  ghost function IdsUpTo(n: int): (r: set<int>)
    decreases n
    ensures forall x :: x in r <==> 1 <= x <= n
  {
    if n <= 0 then {} else IdsUpTo(n - 1) + {n}
  }

  class GestorTareas {
    /** The rows of `tareas`, in rowid order. */
    var tareas: seq<Tarea>
    /** The largest id ever handed out for `tareas` (0 before the first
        insert): the table's row in `sqlite_sequence`. */
    var secuencia: int
    /** Every id ever handed out, including those of deleted rows. */
    ghost var asignados: set<int>

    ghost predicate Valid()
      reads this
    {
      && 0 <= secuencia <= MAX_ROWID
      && IdsAscending(tareas)
      && (forall i :: 0 <= i < |tareas| ==> tareas[i].id in asignados)
      && (forall x :: x in asignados ==> 1 <= x <= secuencia)
    }

    /** inicializar_db on a new database file: `CREATE TABLE IF NOT EXISTS`
        creates an empty `tareas`. */
    constructor ()
      ensures Valid()
      ensures tareas == [] && secuencia == 0 && asignados == {}
    {
      tareas := [];
      secuencia := 0;
      asignados := {};
    }

    /** inicializar_db on a file the store wrote before: the table exists, so
        `CREATE TABLE IF NOT EXISTS` leaves its rows and its counter alone.
        Every id up to the counter has been handed out, whether or not its row
        is still there. */
    constructor Reopen(filas: seq<Tarea>, contador: int)
      requires 0 <= contador <= MAX_ROWID && IdsAscending(filas)
      requires forall i :: 0 <= i < |filas| ==> 1 <= filas[i].id <= contador
      ensures Valid()
      ensures tareas == filas && secuencia == contador
      ensures forall x :: x in asignados <==> 1 <= x <= contador
    {
      tareas := filas;
      secuencia := contador;
      asignados := IdsUpTo(contador);
    }

    /** agregar_tarea: inserts a row with the next id, the title and
        description given, `completada` 0 and both dates `ahora`. The id is
        larger than every id handed out before, so ids of deleted rows are
        never reused. */
    method AgregarTarea(titulo: string, descripcion: string, ahora: string, fail: bool)
      returns (ok: bool)
      requires Valid()
      modifies this
      ensures Valid()
      ensures ok <==> !fail && old(secuencia) < MAX_ROWID
      ensures ok ==> secuencia == old(secuencia) + 1
      ensures ok ==> secuencia !in old(asignados) && forall x :: x in old(asignados) ==> x < secuencia
      ensures ok ==> tareas == old(tareas) + [NewRow(secuencia, titulo, descripcion, ahora)]
      ensures ok ==> asignados == old(asignados) + {secuencia}
      ensures !ok ==> tareas == old(tareas) && secuencia == old(secuencia) && asignados == old(asignados)
    {
      if fail || secuencia == MAX_ROWID {
        return false;
      }
      var id := secuencia + 1;
      tareas := tareas + [NewRow(id, titulo, descripcion, ahora)];
      secuencia := id;
      asignados := asignados + {id};
      ok := true;
    }

    /** obtener_todas_tareas: every row, newest first; an empty list when the
        read fails. */
    function ObtenerTodasTareas(fail: bool): (r: seq<Tarea>)
      reads this
      ensures fail ==> r == []
      ensures !fail ==> multiset(r) == multiset(tareas) && NewestFirst(r)
    {
      if fail then [] else SortByDate(tareas)
    }

    /** obtener_tarea_por_id: the row with the id, or None when there is no
        such row or the read fails. */
    function ObtenerTareaPorId(id: int, fail: bool): (r: Option<Tarea>)
      reads this
      requires IdParameter(id)
      ensures fail ==> r == None
      ensures !fail ==> (r.Some? <==> HasId(tareas, id))
      ensures r.Some? ==> r.value in tareas && r.value.id == id
    {
      if fail then None else SelectById(tareas, id)
    }

    /** actualizar_tarea: overwrites title, description, flag and update time
        of the row with the id. True exactly when the UPDATE matched a row and
        was committed. */
    method ActualizarTarea(id: int, titulo: string, descripcion: string, completada: bool,
                           ahora: string, fail: bool)
      returns (ok: bool)
      requires Valid()
      requires IdParameter(id)
      modifies this
      ensures Valid()
      ensures ok <==> !fail && HasId(old(tareas), id)
      ensures ok ==> tareas == UpdateContent(old(tareas), id, titulo, descripcion, completada, ahora)
      ensures !ok ==> tareas == old(tareas)
      ensures secuencia == old(secuencia) && asignados == old(asignados)
    {
      if fail {
        return false;
      }
      var rowcount := CountId(tareas, id);
      UpdateContentKeepsKeys(tareas, id, titulo, descripcion, completada, ahora);
      if rowcount > 0 {
        tareas := UpdateContent(tareas, id, titulo, descripcion, completada, ahora);
        ok := true;
      } else {
        ok := false;
      }
    }

    /** eliminar_tarea: deletes the row with the id. True exactly when the
        DELETE matched a row and was committed. */
    method EliminarTarea(id: int, fail: bool) returns (ok: bool)
      requires Valid()
      requires IdParameter(id)
      modifies this
      ensures Valid()
      ensures ok <==> !fail && HasId(old(tareas), id)
      ensures ok ==> tareas == DeleteId(old(tareas), id) && |tareas| == |old(tareas)| - 1
      ensures !ok ==> tareas == old(tareas)
      ensures secuencia == old(secuencia) && asignados == old(asignados)
    {
      if fail {
        return false;
      }
      var rowcount := CountId(tareas, id);
      if rowcount > 0 {
        CountIdAtMostOne(tareas, id);
        tareas := DeleteId(tareas, id);
        ok := true;
      } else {
        ok := false;
      }
    }

    /** marcar_completada: sets the flag and update time of the row with the
        id and leaves its title and description alone. True exactly when the
        UPDATE matched a row and was committed. */
    method MarcarCompletada(id: int, completada: bool, ahora: string, fail: bool)
      returns (ok: bool)
      requires Valid()
      requires IdParameter(id)
      modifies this
      ensures Valid()
      ensures ok <==> !fail && HasId(old(tareas), id)
      ensures ok ==> tareas == UpdateCompletion(old(tareas), id, completada, ahora)
      ensures !ok ==> tareas == old(tareas)
      ensures secuencia == old(secuencia) && asignados == old(asignados)
    {
      if fail {
        return false;
      }
      var rowcount := CountId(tareas, id);
      UpdateCompletionKeepsKeys(tareas, id, completada, ahora);
      if rowcount > 0 {
        tareas := UpdateCompletion(tareas, id, completada, ahora);
        ok := true;
      } else {
        ok := false;
      }
    }

    /** obtener_estadisticas: how many rows there are, how many are completed
        and how many are pending; all zeros when the read fails. */
    function ObtenerEstadisticas(fail: bool): (r: Estadisticas)
      reads this
      ensures fail ==> r == Estadisticas(0, 0, 0)
      ensures !fail ==> r.total == |tareas| && r.completadas == CountCompleted(tareas, true)
                        && r.pendientes == CountCompleted(tareas, false)
      ensures r.total == r.completadas + r.pendientes && 0 <= r.pendientes
    {
      if fail then Estadisticas(0, 0, 0)
      else
        var total := |tareas|;
        var completadas := CountCompleted(tareas, true);
        CountCompletedSplit(tareas);
        Estadisticas(total, completadas, total - completadas)
    }
  }

  /** A user adds "Comprar leche" to an empty store and completes it; what
      each call returns follows from the contracts alone. */
  method SessionAddAndComplete()
  {
    var g := new GestorTareas();
    var alta, hecha := "2024-05-01 09:00:00", "2024-05-01 09:05:00";

    var ok := g.AgregarTarea("Comprar leche", "", alta, false);
    var t := Tarea(1, "Comprar leche", "", false, alta, alta);
    assert ok && g.tareas == [t];
    var listado := g.ObtenerTodasTareas(false);
    assert |listado| == |multiset(listado)| == 1;
    assert listado[0] in multiset(listado);
    assert listado == [t];

    ok := g.MarcarCompletada(1, true, hecha, false);
    assert g.tareas[0].id == 1;
    assert ok && g.tareas == [t.Marked(true, hecha)];
    assert g.ObtenerEstadisticas(false) == Estadisticas(1, 1, 0);
  }

  /** The same task renamed and then deleted: the deleted id is gone for
      good, and the next task gets a new id. */
  method SessionEditAndDelete()
  {
    var alta, hecha, editada := "2024-05-01 09:00:00", "2024-05-01 09:05:00", "2024-05-01 09:10:00";
    var g := new GestorTareas.Reopen([Tarea(1, "Comprar leche", "", true, alta, hecha)], 1);

    var ok := g.ActualizarTarea(1, "Comprar leche de avena", "", true, editada, false);
    assert ok && g.ObtenerTareaPorId(1, false) == Some(Tarea(1, "Comprar leche de avena", "", true, alta, editada));

    ok := g.EliminarTarea(1, false);
    assert ok && g.tareas == [];
    assert g.ObtenerTodasTareas(false) == [] && g.ObtenerEstadisticas(false) == Estadisticas(0, 0, 0);

    ok := g.EliminarTarea(1, false);
    assert !ok && g.ObtenerTareaPorId(1, false) == None;

    ok := g.AgregarTarea("Comprar pan", "", editada, false);
    assert ok && g.tareas == [NewRow(2, "Comprar pan", "", editada)];
  }
}
