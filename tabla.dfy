/** The table `tareas` and the SQL statements the task store runs on it.

    The table is a sequence of rows in rowid order, which for a table whose
    key is `INTEGER PRIMARY KEY` is the order of `id`. Each statement of the
    store is a function from the rows before it to what it returns or to the
    rows after it; the lemmas state what the store's callers can observe of
    each statement through the lookup by id, the listing and the counts. */
module Tabla {
  import opened Fecha

  datatype Option<T> = None | Some(value: T)

  /** One row of `tareas`. `completada` is the 0/1 INTEGER column read as a
      flag; the dates are the text the store writes. */
  datatype Tarea = Tarea(id: int, titulo: string, descripcion: string, completada: bool,
                         fechaCreacion: string, fechaActualizacion: string)
  {
    /** The row after actualizar_tarea's SET clause. */
    function Edited(nuevoTitulo: string, nuevaDescripcion: string, estado: bool, ahora: string): Tarea
    {
      this.(titulo := nuevoTitulo, descripcion := nuevaDescripcion, completada := estado,
            fechaActualizacion := ahora)
    }

    /** The row after marcar_completada's SET clause. */
    function Marked(estado: bool, ahora: string): Tarea
    {
      this.(completada := estado, fechaActualizacion := ahora)
    }
  }

  /** What obtener_estadisticas returns. */
  datatype Estadisticas = Estadisticas(total: int, completadas: int, pendientes: int)

  // ---------------------------------------------------------------------------
  // Keys
  // ---------------------------------------------------------------------------

  /** Rowid order with unique rowids: ids strictly increase along the table. */
  predicate IdsAscending(rows: seq<Tarea>)
  {
    forall i, j :: 0 <= i < j < |rows| ==> rows[i].id < rows[j].id
  }

  predicate HasId(rows: seq<Tarea>, id: int)
  {
    exists i :: 0 <= i < |rows| && rows[i].id == id
  }

  lemma HasIdCons(rows: seq<Tarea>, id: int)
    requires |rows| > 0
    ensures HasId(rows, id) <==> rows[0].id == id || HasId(rows[1..], id)
  {
    if HasId(rows[1..], id) {
      var i :| 0 <= i < |rows| - 1 && rows[1..][i].id == id;
      assert rows[i + 1].id == id;
    }
    if HasId(rows, id) && rows[0].id != id {
      var i :| 0 <= i < |rows| && rows[i].id == id;
      assert rows[1..][i - 1].id == id;
    }
  }

  /** The number of rows `WHERE id = ?` matches: the `rowcount` of an UPDATE
      or DELETE by id. */
  function CountId(rows: seq<Tarea>, id: int): (n: nat)
    ensures n <= |rows|
    ensures n > 0 <==> HasId(rows, id)
  {
    if rows == [] then 0
    else
      HasIdCons(rows, id);
      (if rows[0].id == id then 1 else 0) + CountId(rows[1..], id)
  }

  /** Since the id is the key, a statement by id touches at most one row. */
  lemma {:induction false} CountIdAtMostOne(rows: seq<Tarea>, id: int)
    requires IdsAscending(rows)
    ensures CountId(rows, id) <= 1
  {
    if rows != [] {
      assert IdsAscending(rows[1..]);
      CountIdAtMostOne(rows[1..], id);
      if rows[0].id == id {
        forall i | 0 <= i < |rows| - 1
          ensures rows[1..][i].id != id
        {
          assert rows[1..][i] == rows[i + 1];
        }
      }
    }
  }

  // ---------------------------------------------------------------------------
  // SELECT ... WHERE id = ?  (obtener_tarea_por_id)
  // ---------------------------------------------------------------------------

  /** The row `fetchone()` returns after selecting by id: the first match in
      table order, or None when no row has that id. */
  function SelectById(rows: seq<Tarea>, id: int): (r: Option<Tarea>)
    ensures r.None? <==> !HasId(rows, id)
    ensures r.Some? ==> r.value in rows && r.value.id == id
  {
    if rows == [] then None
    else if rows[0].id == id then Some(rows[0])
    else
      HasIdCons(rows, id);
      SelectById(rows[1..], id)
  }

  /** With unique ids the row found is the one row that has the id. */
  lemma SelectByIdUnique(rows: seq<Tarea>, i: int)
    requires IdsAscending(rows) && 0 <= i < |rows|
    ensures SelectById(rows, rows[i].id) == Some(rows[i])
  {
    var r := SelectById(rows, rows[i].id);
    assert HasId(rows, rows[i].id);
    var j :| 0 <= j < |rows| && rows[j] == r.value;
    assert j == i;
  }

  // ---------------------------------------------------------------------------
  // INSERT  (agregar_tarea)
  // ---------------------------------------------------------------------------

  /** The row agregar_tarea inserts: the given id, title and description,
      `completada` at its column default 0, and both dates the current time. */
  function NewRow(id: int, titulo: string, descripcion: string, ahora: string): (r: Tarea)
    ensures r.id == id && r.titulo == titulo && r.descripcion == descripcion
    ensures !r.completada
    ensures r.fechaCreacion == r.fechaActualizacion == ahora
  {
    Tarea(id, titulo, descripcion, false, ahora, ahora)
  }

  /** After inserting a row whose id is fresh, the lookup by that id finds the
      new row and every other id reads as before. */
  lemma {:induction false} InsertLookup(rows: seq<Tarea>, t: Tarea, k: int)
    requires !HasId(rows, t.id)
    ensures SelectById(rows + [t], k) == if k == t.id then Some(t) else SelectById(rows, k)
  {
    if rows == [] {
      assert rows + [t] == [t];
    } else {
      assert (rows + [t])[0] == rows[0] && (rows + [t])[1..] == rows[1..] + [t];
      HasIdCons(rows, t.id);
      InsertLookup(rows[1..], t, k);
    }
  }

  // ---------------------------------------------------------------------------
  // UPDATE ... WHERE id = ?  (actualizar_tarea, marcar_completada)
  // ---------------------------------------------------------------------------

  /** `UPDATE tareas SET titulo = ?, descripcion = ?, completada = ?,
      fecha_actualizacion = ? WHERE id = ?` */
  function UpdateContent(rows: seq<Tarea>, id: int, titulo: string, descripcion: string,
                         completada: bool, ahora: string): (r: seq<Tarea>)
    ensures |r| == |rows|
    ensures forall i :: 0 <= i < |rows| && rows[i].id != id ==> r[i] == rows[i]
    ensures forall i :: 0 <= i < |rows| && rows[i].id == id ==>
      && r[i].id == id && r[i].fechaCreacion == rows[i].fechaCreacion
      && r[i].titulo == titulo && r[i].descripcion == descripcion
      && r[i].completada == completada && r[i].fechaActualizacion == ahora
  {
    seq(|rows|, i requires 0 <= i < |rows| =>
      if rows[i].id == id then rows[i].Edited(titulo, descripcion, completada, ahora) else rows[i])
  }

  /** `UPDATE tareas SET completada = ?, fecha_actualizacion = ? WHERE id = ?` */
  function UpdateCompletion(rows: seq<Tarea>, id: int, completada: bool, ahora: string): (r: seq<Tarea>)
    ensures |r| == |rows|
    ensures forall i :: 0 <= i < |rows| && rows[i].id != id ==> r[i] == rows[i]
    ensures forall i :: 0 <= i < |rows| && rows[i].id == id ==>
      && r[i].id == id && r[i].fechaCreacion == rows[i].fechaCreacion
      && r[i].titulo == rows[i].titulo && r[i].descripcion == rows[i].descripcion
      && r[i].completada == completada && r[i].fechaActualizacion == ahora
  {
    seq(|rows|, i requires 0 <= i < |rows| =>
      if rows[i].id == id then rows[i].Marked(completada, ahora) else rows[i])
  }

  /** actualizar_tarea as the lookup by id sees it: the row with the id, if
      there is one, now has the new title, description, flag and update time,
      and keeps its id and creation time; every other id reads as before. */
  lemma {:induction false} UpdateContentLookup(rows: seq<Tarea>, id: int, titulo: string,
                                               descripcion: string, completada: bool,
                                               ahora: string, k: int)
    ensures SelectById(UpdateContent(rows, id, titulo, descripcion, completada, ahora), k) ==
            match SelectById(rows, k)
            case Some(t) =>
              if k == id
              then Some(Tarea(t.id, titulo, descripcion, completada, t.fechaCreacion, ahora))
              else Some(t)
            case None => None
  {
    var r := UpdateContent(rows, id, titulo, descripcion, completada, ahora);
    if rows != [] {
      assert r[1..] == UpdateContent(rows[1..], id, titulo, descripcion, completada, ahora);
      UpdateContentLookup(rows[1..], id, titulo, descripcion, completada, ahora, k);
    }
  }

  /** marcar_completada as the lookup by id sees it: the row with the id, if
      there is one, now has the flag and update time given and keeps its id,
      title, description and creation time; every other id reads as before. */
  lemma {:induction false} UpdateCompletionLookup(rows: seq<Tarea>, id: int, completada: bool,
                                                  ahora: string, k: int)
    ensures SelectById(UpdateCompletion(rows, id, completada, ahora), k) ==
            match SelectById(rows, k)
            case Some(t) =>
              if k == id
              then Some(Tarea(t.id, t.titulo, t.descripcion, completada, t.fechaCreacion, ahora))
              else Some(t)
            case None => None
  {
    var r := UpdateCompletion(rows, id, completada, ahora);
    if rows != [] {
      assert r[1..] == UpdateCompletion(rows[1..], id, completada, ahora);
      UpdateCompletionLookup(rows[1..], id, completada, ahora, k);
    }
  }

  /** actualizar_tarea keeps every row's id and creation time in place, so it
      keeps the table's key order. */
  lemma UpdateContentKeepsKeys(rows: seq<Tarea>, id: int, titulo: string, descripcion: string,
                               completada: bool, ahora: string)
    requires IdsAscending(rows)
    ensures var r := UpdateContent(rows, id, titulo, descripcion, completada, ahora);
      && |r| == |rows|
      && (forall i :: 0 <= i < |r| ==> r[i].id == rows[i].id && r[i].fechaCreacion == rows[i].fechaCreacion)
      && IdsAscending(r)
  {
  }

  /** marcar_completada keeps every row's id and creation time in place, so
      it keeps the table's key order. */
  lemma UpdateCompletionKeepsKeys(rows: seq<Tarea>, id: int, completada: bool, ahora: string)
    requires IdsAscending(rows)
    ensures var r := UpdateCompletion(rows, id, completada, ahora);
      && |r| == |rows|
      && (forall i :: 0 <= i < |r| ==> r[i].id == rows[i].id && r[i].fechaCreacion == rows[i].fechaCreacion)
      && IdsAscending(r)
  {
  }

  /** An update by an id no row has changes nothing. */
  lemma UpdatesMissNothing(rows: seq<Tarea>, id: int, titulo: string, descripcion: string,
                           completada: bool, ahora: string)
    requires !HasId(rows, id)
    ensures UpdateContent(rows, id, titulo, descripcion, completada, ahora) == rows
    ensures UpdateCompletion(rows, id, completada, ahora) == rows
  {
  }

  /** Marking a task twice: the last marking wins, whatever the first one
      wrote. With the same flag both times, the second call only refreshes
      the update time, so marking is idempotent. */
  lemma UpdateCompletionTwice(rows: seq<Tarea>, id: int, c1: bool, t1: string, c2: bool, t2: string)
    ensures UpdateCompletion(UpdateCompletion(rows, id, c1, t1), id, c2, t2) ==
            UpdateCompletion(rows, id, c2, t2)
  {
  }

  // ---------------------------------------------------------------------------
  // DELETE FROM tareas WHERE id = ?  (eliminar_tarea)
  // ---------------------------------------------------------------------------

  /** The rows left by `DELETE FROM tareas WHERE id = ?`: every row without
      that id, in the same order, and as many fewer rows as were matched. */
  function DeleteId(rows: seq<Tarea>, id: int): (r: seq<Tarea>)
    ensures !HasId(r, id)
    ensures forall t :: t in r <==> t in rows && t.id != id
    ensures |r| == |rows| - CountId(rows, id)
    ensures IdsAscending(rows) ==> IdsAscending(r)
  {
    if rows == [] then []
    else if rows[0].id == id then DeleteId(rows[1..], id)
    else
      var rest := DeleteId(rows[1..], id);
      assert IdsAscending(rows) ==> forall t :: t in rest ==> rows[0].id < t.id;
      [rows[0]] + rest
  }

  /** eliminar_tarea as the lookup by id sees it: the id is gone and every
      other id reads as before. */
  lemma {:induction false} DeleteLookup(rows: seq<Tarea>, id: int, k: int)
    ensures SelectById(DeleteId(rows, id), k) == if k == id then None else SelectById(rows, k)
  {
    if rows != [] {
      DeleteLookup(rows[1..], id, k);
    }
  }

  // ---------------------------------------------------------------------------
  // SELECT ... ORDER BY fecha_creacion DESC  (obtener_todas_tareas)
  // ---------------------------------------------------------------------------

  /** Newest first: creation dates do not increase along the list. */
  predicate NewestFirst(s: seq<Tarea>)
  {
    forall i, j :: 0 <= i < j < |s| ==> LexLe(s[j].fechaCreacion, s[i].fechaCreacion)
  }

  /** A row created no earlier than the head of a newest-first list can go
      in front of it. */
  lemma PrependNewest(t: Tarea, s: seq<Tarea>)
    requires NewestFirst(s) && |s| > 0 && LexLe(s[0].fechaCreacion, t.fechaCreacion)
    ensures NewestFirst([t] + s)
  {
    forall j | 0 <= j < |s|
      ensures LexLe(s[j].fechaCreacion, t.fechaCreacion)
    {
      if j > 0 {
        LexLeTransitive(s[j].fechaCreacion, s[0].fechaCreacion, t.fechaCreacion);
      }
    }
  }

  /** A row created later than `t` stays in front of the list `t` was put in. */
  lemma PrependHead(t: Tarea, s: seq<Tarea>, rest: seq<Tarea>)
    requires NewestFirst(s) && |s| > 0 && !LexLe(s[0].fechaCreacion, t.fechaCreacion)
    requires NewestFirst(rest) && multiset(rest) == multiset(s[1..]) + multiset{t}
    ensures NewestFirst([s[0]] + rest)
  {
    LexLeTotal(s[0].fechaCreacion, t.fechaCreacion);
    forall x | x in rest
      ensures LexLe(x.fechaCreacion, s[0].fechaCreacion)
    {
      assert x in multiset(rest);
      if x != t {
        assert x in multiset(s[1..]);
        var j :| 0 <= j < |s| - 1 && s[1..][j] == x;
        assert s[j + 1] == x;
      }
    }
    forall i, j | 0 <= i < j < |rest| + 1
      ensures LexLe(([s[0]] + rest)[j].fechaCreacion, ([s[0]] + rest)[i].fechaCreacion)
    {
      if i == 0 {
        assert ([s[0]] + rest)[j] == rest[j - 1];
      }
    }
  }

  /** Puts `t` in a newest-first list, before the first row created no later
      than it. */
  function InsertByDate(t: Tarea, s: seq<Tarea>): (r: seq<Tarea>)
    requires NewestFirst(s)
    ensures NewestFirst(r)
    ensures multiset(r) == multiset(s) + multiset{t}
  {
    if s == [] then [t]
    else if LexLe(s[0].fechaCreacion, t.fechaCreacion) then
      PrependNewest(t, s);
      [t] + s
    else
      var rest := InsertByDate(t, s[1..]);
      PrependHead(t, s, rest);
      assert s == [s[0]] + s[1..];
      [s[0]] + rest
  }

  /** The rows in the order of `ORDER BY fecha_creacion DESC`. Rows created
      in the same second come out in table order; SQLite does not promise
      any order for them. */
  function SortByDate(rows: seq<Tarea>): (r: seq<Tarea>)
    ensures NewestFirst(r)
    ensures multiset(r) == multiset(rows)
  {
    if rows == [] then []
    else
      assert rows == [rows[0]] + rows[1..];
      InsertByDate(rows[0], SortByDate(rows[1..]))
  }

  // ---------------------------------------------------------------------------
  // SELECT COUNT(*) ...  (obtener_estadisticas)
  // ---------------------------------------------------------------------------

  /** The number of rows whose flag is `completada`: with `true` the
      `COUNT(*) ... WHERE completada = 1` of the statistics. */
  function CountCompleted(rows: seq<Tarea>, completada: bool): (n: nat)
    ensures n <= |rows|
  {
    if rows == [] then 0
    else (if rows[0].completada == completada then 1 else 0) + CountCompleted(rows[1..], completada)
  }

  lemma {:induction false} CountCompletedAppend(a: seq<Tarea>, b: seq<Tarea>, completada: bool)
    ensures CountCompleted(a + b, completada) == CountCompleted(a, completada) + CountCompleted(b, completada)
  {
    if a == [] {
      assert a + b == b;
    } else {
      assert (a + b)[0] == a[0] && (a + b)[1..] == a[1..] + b;
      CountCompletedAppend(a[1..], b, completada);
    }
  }

  /** Completed and pending rows together are all the rows, so the store's
      `pendientes = total - completadas` is the number of pending rows. */
  lemma {:induction false} CountCompletedSplit(rows: seq<Tarea>)
    ensures CountCompleted(rows, true) + CountCompleted(rows, false) == |rows|
  {
    if rows != [] {
      CountCompletedSplit(rows[1..]);
    }
  }

  /** Taking out the row at `k` leaves the other rows' count. */
  lemma CountCompletedRemove(b: seq<Tarea>, k: int, completada: bool)
    requires 0 <= k < |b|
    ensures multiset(b[..k] + b[k + 1..]) == multiset(b) - multiset{b[k]}
    ensures CountCompleted(b, completada) ==
            CountCompleted(b[..k] + b[k + 1..], completada) + (if b[k].completada == completada then 1 else 0)
  {
    assert b == b[..k] + [b[k]] + b[k + 1..];
    CountCompletedAppend(b[..k] + [b[k]], b[k + 1..], completada);
    CountCompletedAppend(b[..k], [b[k]], completada);
    CountCompletedAppend(b[..k], b[k + 1..], completada);
  }

  /** The counts do not depend on the order of the rows. */
  lemma {:induction false} CountCompletedPermutation(a: seq<Tarea>, b: seq<Tarea>, completada: bool)
    requires multiset(a) == multiset(b)
    ensures CountCompleted(a, completada) == CountCompleted(b, completada)
  {
    if a != [] {
      assert a[0] in multiset(b);
      var k :| 0 <= k < |b| && b[k] == a[0];
      CountCompletedRemove(b, k, completada);
      assert a == [a[0]] + a[1..];
      assert multiset(a[1..]) == multiset(a) - multiset{a[0]};
      CountCompletedPermutation(a[1..], b[..k] + b[k + 1..], completada);
    }
  }

  /** The listing holds exactly as many tasks, completed and pending, as the
      statistics count. */
  lemma ListingMatchesCounts(rows: seq<Tarea>, completada: bool)
    ensures |SortByDate(rows)| == |rows|
    ensures CountCompleted(SortByDate(rows), completada) == CountCompleted(rows, completada)
  {
    var r := SortByDate(rows);
    assert |r| == |multiset(r)| == |multiset(rows)| == |rows|;
    CountCompletedPermutation(r, rows, completada);
  }

  /** Inserting a row adds one to the count of its flag and leaves the
      other flag's count alone. */
  lemma CountsAfterInsert(rows: seq<Tarea>, t: Tarea, completada: bool)
    ensures CountCompleted(rows + [t], completada) ==
            CountCompleted(rows, completada) + (if t.completada == completada then 1 else 0)
  {
    CountCompletedAppend(rows, [t], completada);
  }

  /** Deleting a row by id takes exactly the row the lookup finds off the
      count of its flag. */
  lemma {:induction false} DeleteCount(rows: seq<Tarea>, id: int, completada: bool)
    requires IdsAscending(rows)
    ensures CountCompleted(DeleteId(rows, id), completada) ==
            CountCompleted(rows, completada) -
            (match SelectById(rows, id)
             case Some(d) => if d.completada == completada then 1 else 0
             case None => 0)
  {
    if rows != [] {
      assert IdsAscending(rows[1..]);
      DeleteCount(rows[1..], id, completada);
      if rows[0].id == id {
        CountIdAtMostOne(rows, id);
        HasIdCons(rows, id);
        assert CountId(rows[1..], id) == 0;
      }
      else {
        assert DeleteId(rows, id) == [rows[0]] + DeleteId(rows[1..], id);
      }
    }
  }

  // ---------------------------------------------------------------------------
  // Dates
  // ---------------------------------------------------------------------------

  /** Every row was last updated no earlier than it was created. */
  predicate DatesCoherent(rows: seq<Tarea>)
  {
    forall i :: 0 <= i < |rows| ==> LexLe(rows[i].fechaCreacion, rows[i].fechaActualizacion)
  }

  /** No row was updated later than `ahora`: the clock has not gone back. */
  predicate NotAfter(rows: seq<Tarea>, ahora: string)
  {
    forall i :: 0 <= i < |rows| ==> LexLe(rows[i].fechaActualizacion, ahora)
  }

  /** A row whose dates are coherent and not after `ahora` was created no
      later than `ahora`. */
  lemma CreatedNotAfter(rows: seq<Tarea>, ahora: string)
    requires DatesCoherent(rows) && NotAfter(rows, ahora)
    ensures forall i :: 0 <= i < |rows| ==> LexLe(rows[i].fechaCreacion, ahora)
  {
    forall i | 0 <= i < |rows|
      ensures LexLe(rows[i].fechaCreacion, ahora)
    {
      LexLeTransitive(rows[i].fechaCreacion, rows[i].fechaActualizacion, ahora);
    }
  }

  /** As long as the clock does not go back, every statement keeps each row's
      update time no earlier than its creation time. */
  lemma StatementsKeepDatesCoherent(rows: seq<Tarea>, id: int, titulo: string,
                                    descripcion: string, completada: bool,
                                    ahora: string, nuevoId: int)
    requires DatesCoherent(rows) && NotAfter(rows, ahora)
    ensures DatesCoherent(rows + [NewRow(nuevoId, titulo, descripcion, ahora)])
    ensures DatesCoherent(UpdateContent(rows, id, titulo, descripcion, completada, ahora))
    ensures DatesCoherent(UpdateCompletion(rows, id, completada, ahora))
    ensures DatesCoherent(DeleteId(rows, id))
  {
    LexLeReflexive(ahora);
    CreatedNotAfter(rows, ahora);
    var r := DeleteId(rows, id);
    forall i | 0 <= i < |r|
      ensures LexLe(r[i].fechaCreacion, r[i].fechaActualizacion)
    {
      assert r[i] in rows;
    }
  }

  /** As long as the clock does not go back, the updates move a row's update
      time forward, never back. */
  lemma UpdatesMoveDatesForward(rows: seq<Tarea>, id: int, titulo: string,
                                descripcion: string, completada: bool, ahora: string)
    requires NotAfter(rows, ahora)
    ensures forall i :: 0 <= i < |rows| ==>
              LexLe(rows[i].fechaActualizacion,
                    UpdateContent(rows, id, titulo, descripcion, completada, ahora)[i].fechaActualizacion)
    ensures forall i :: 0 <= i < |rows| ==>
              LexLe(rows[i].fechaActualizacion,
                    UpdateCompletion(rows, id, completada, ahora)[i].fechaActualizacion)
  {
    forall i | 0 <= i < |rows|
      ensures LexLe(rows[i].fechaActualizacion, rows[i].fechaActualizacion)
    {
      LexLeReflexive(rows[i].fechaActualizacion);
    }
  }
}
