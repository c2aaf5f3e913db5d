# GestorTareas — a Dafny model of the to-do app's task store

The application keeps a personal to-do list in one SQLite table, `tareas`
(id, titulo, descripcion, completada, fecha_creacion, fecha_actualizacion).
All state lives in the class `GestorTareas` of `gestor.py`. It adds tasks,
lists them newest first, looks one up by id, edits one, marks one done or not
done, deletes one and counts them. Each operation runs one or two SQL
statements and turns any `sqlite3.Error` into a `False`, `[]`, `None` or
all-zero result.

The model has three modules:

- `Fecha` (fecha.dfy): the timestamps. The store writes them as text with
  `strftime("%Y-%m-%d %H:%M:%S")`, and `ORDER BY fecha_creacion DESC` compares
  that text character by character. `LexLe` is that order. It is proved to be
  a total order: reflexive, antisymmetric, transitive and total.
  `TimestampOrder` proves that on text of that format it is the chronological
  order of year, month, day, hour, minute and second.
- `Tabla` (tabla.dfy): the row type `Tarea` and the table as a `seq<Tarea>`
  in rowid order. For an `INTEGER PRIMARY KEY` table that is ascending id
  order. Each SQL statement the store runs is modelled as follows:
  - `SelectById`: the SELECT by id followed by `fetchone()`.
  - `NewRow`: the row the INSERT adds.
  - `UpdateContent` and `UpdateCompletion`: the two UPDATEs.
  - `DeleteId`: the DELETE.
  - `SortByDate`: the `ORDER BY`.
  - `CountId`: the `rowcount` of an UPDATE or DELETE by id.
  - `CountCompleted`: with `true`, the `COUNT(*) ... WHERE completada = 1`
    query. The plain `COUNT(*)` is `|tareas|`.

  The lemmas state what callers see of each statement through the lookup by
  id, the listing and the counts.
- `Gestor` (gestor.dfy): the class `GestorTareas`. It has three fields:
  - `tareas`: the table.
  - `secuencia`: the AUTOINCREMENT counter SQLite keeps in `sqlite_sequence`.
  - `asignados`: a ghost set of every id ever handed out.

  The four writing operations are methods with `modifies this`. Each one
  ties the new table to one of the statement functions and keeps the
  invariant `Valid()`: ids strictly ascending, and every id handed out lies
  between 1 and `secuencia`. The three queries are functions that read the
  object. Two client methods, `SessionAddAndComplete` and
  `SessionEditAndDelete`, go through a whole session: add "Comprar leche",
  list it, complete it, read the counts, rename it, delete it, delete it
  again, add another task. Every result in them follows from the contracts
  alone.

Two things the source does not write as code appear as parameters:
- The current time, `datetime.now()` formatted by `strftime`, is the
  parameter `ahora`.
- Whether the storage engine raises `sqlite3.Error` during an operation is
  the parameter `fail`. When it raises, nothing is committed, the table is
  unchanged, and the operation returns its "nothing happened" value.

The id counter that SQLite keeps is the field `secuencia`. With
AUTOINCREMENT, a new row gets id `secuencia + 1`. Once the id
9223372036854775807 (`MAX_ROWID`) has been handed out, SQLite refuses further
inserts with SQLITE_FULL. That error is an `sqlite3.Error`, so `AgregarTarea`
returns false.

The interface (`app.py`) strips the title and refuses an empty one before
it calls the store. The store does not check the title itself, so the
model does not either.

## Model

| member | source | states |
|---|---|---|
| `Gestor.GestorTareas.constructor` | gestor.py:28-46 | Creating the table in a new database gives an empty table with the AUTOINCREMENT counter at 0, and the store invariant holds. |
| `Gestor.GestorTareas.Reopen` | gestor.py:37-46 | `CREATE TABLE IF NOT EXISTS` on a database that already has the table keeps its rows and its counter. Every id from 1 up to the counter counts as handed out, including ids whose rows were deleted before the reopen, so later inserts never reuse them either. |
| `Gestor.GestorTareas.AgregarTarea` | gestor.py:54-82 | Returns true exactly when there was no storage error and the counter was below the largest rowid. On success the table is the old rows followed by exactly one new row with the given title and description. The new row has `completada` false and both dates equal to `ahora`. Its id is one more than the counter and larger than every id handed out before, so the id of a deleted row is never reused. On failure nothing changes. |
| `Gestor.GestorTareas.ObtenerTodasTareas` | gestor.py:84-106 | Without an error the result holds exactly the table's rows (as a multiset) and is ordered newest first by creation date. On an error it is the empty list. |
| `Gestor.GestorTareas.ObtenerTareaPorId` | gestor.py:108-133 | Without an error it finds a row exactly when one has the id, and the row found is in the table and has that id. On an error it is None. It is a function, so it changes nothing. |
| `Gestor.GestorTareas.ActualizarTarea` | gestor.py:135-171 | Returns true exactly when there was no error and a row had the id. In that case the table is the UPDATE's result; otherwise it is unchanged. The counter and the set of handed-out ids never change. |
| `Gestor.GestorTareas.EliminarTarea` | gestor.py:173-199 | Returns true exactly when there was no error and a row had the id. In that case the table is the DELETE's result and has exactly one row fewer; otherwise it is unchanged. |
| `Gestor.GestorTareas.MarcarCompletada` | gestor.py:201-236 | Returns true exactly when there was no error and a row had the id. In that case the table is the result of the UPDATE of `completada` and `fecha_actualizacion`; otherwise it is unchanged. |
| `Gestor.GestorTareas.ObtenerEstadisticas` | gestor.py:238-268 | Without an error: `total` is the number of rows, `completadas` the number of completed rows, and `pendientes` the number of pending rows. In every case `total == completadas + pendientes` and `pendientes >= 0`. On an error all three are 0. |
| `Tabla.CountId` | gestor.py:155-161 | The `rowcount` of a statement by id is at most the number of rows. It is positive exactly when some row has the id, which is the test at lines 161, 189 and 225. |
| `Tabla.CountIdAtMostOne` | gestor.py:39 | Because the id is the primary key, a statement by id matches at most one row. So `rowcount > 0` means that exactly one row was written. |
| `Tabla.SelectById` | gestor.py:122-129 | Returns None exactly when no row has the id. Otherwise it returns a row of the table that has the id. |
| `Tabla.SelectByIdUnique` | gestor.py:122-129 | With unique ids, the lookup by a row's id returns that very row. |
| `Tabla.NewRow` | gestor.py:71-74 | The row the INSERT adds has the given id, title and description, `completada` false (the column default at line 42), and both dates equal to `ahora`. |
| `Tabla.InsertLookup` | gestor.py:71-74 | After a row with a fresh id is inserted, the lookup by that id returns the new row, and the lookup by any other id returns what it returned before. |
| `Tabla.UpdateContent` | gestor.py:155-159 | The UPDATE keeps the number of rows. Every row with another id stays as it was, in the same place. Every row with the id gets the new title, description, flag and update time, and keeps its id and creation date. |
| `Tabla.UpdateCompletion` | gestor.py:219-223 | The UPDATE keeps the number of rows. Every row with another id stays as it was, in the same place. Every row with the id gets the new flag and update time, and keeps its id, title, description and creation date. |
| `Tabla.UpdateContentLookup` | gestor.py:155-159 | After `actualizar_tarea`, the row with the id, if there is one, has the new title, description, flag and update time, and keeps its id and creation date. Every other id reads as before, and a missing id stays missing. |
| `Tabla.UpdateCompletionLookup` | gestor.py:219-223 | After `marcar_completada`, the row with the id, if there is one, has the new flag and update time. Its id, title, description and creation date are unchanged. Every other id reads as before. |
| `Tabla.UpdateContentKeepsKeys` | gestor.py:155-159 | The UPDATE of `actualizar_tarea` keeps the number of rows and every row's id and creation date, so the ids stay unique and ascending. |
| `Tabla.UpdateCompletionKeepsKeys` | gestor.py:219-223 | The UPDATE of `marcar_completada` keeps the number of rows and every row's id and creation date, so the ids stay unique and ascending. |
| `Tabla.UpdatesMissNothing` | gestor.py:165-167 | An UPDATE by an id that no row has leaves the table unchanged. |
| `Tabla.UpdateCompletionTwice` | gestor.py:219-223 | Marking twice gives the same table as the second marking alone: the last flag and time win. With the same flag both times, marking is idempotent apart from the update time. |
| `Tabla.DeleteId` | gestor.py:187 | After the DELETE no row has the id. The remaining rows are exactly the old rows whose id differs. There are as many fewer rows as the statement matched, and ascending ids stay ascending. |
| `Tabla.DeleteLookup` | gestor.py:187-192 | After the DELETE, the lookup by the deleted id finds nothing, and every other id reads as before. |
| `Tabla.InsertByDate` | gestor.py:95-99 | Putting a row into a list ordered newest first keeps that order and adds exactly that row. |
| `Tabla.SortByDate` | gestor.py:95-101 | `ORDER BY fecha_creacion DESC` returns a permutation of the rows with creation dates non-increasing. |
| `Tabla.CountCompleted` | gestor.py:254-255 | The number of rows with a given flag is at most the number of rows. |
| `Tabla.CountCompletedSplit` | gestor.py:257-258 | Completed plus pending rows make up all rows. So `total - completadas` is the number of pending rows, and it is never negative. |
| `Tabla.CountCompletedPermutation` | gestor.py:250-255 | The counts depend only on which rows exist, not on their order. |
| `Tabla.ListingMatchesCounts` | gestor.py:95-101 | The listing has as many tasks, and as many completed and pending ones, as the statistics count. |
| `Tabla.CountsAfterInsert` | gestor.py:250-258 | Inserting a row raises the count for its flag by one and leaves the other count alone. |
| `Tabla.DeleteCount` | gestor.py:187 | Deleting by id from a table with unique ids lowers the count for the deleted row's flag by one, or changes nothing when no row had the id. |
| `Tabla.StatementsKeepDatesCoherent` | gestor.py:66-74 | If the clock has not gone back, every insert, update and delete keeps each row's update date no earlier than its creation date. A new row starts with the two dates equal. |
| `Tabla.UpdatesMoveDatesForward` | gestor.py:149-159 | If the clock has not gone back, an update moves a row's `fecha_actualizacion` forward or leaves it where it was. |
| `Fecha.LexLe` | gestor.py:98 | The text order `ORDER BY` uses on a TEXT column: a prefix of a text sorts no later than the text, and the first characters of two texts sort in the same order as the texts. |
| `Fecha.LexLeReflexive` | gestor.py:98 | Every text sorts no later than itself. |
| `Fecha.LexLeTotal` | gestor.py:98 | Any two TEXT values are comparable in the order `ORDER BY` uses. |
| `Fecha.LexLeTransitive` | gestor.py:98 | That order is transitive. |
| `Fecha.LexLeAntisymmetric` | gestor.py:98 | Two TEXT values that sort both ways are equal. |
| `Fecha.TimestampOrder` | gestor.py:66 | For text in `%Y-%m-%d %H:%M:%S` format, comparing the text gives chronological order: `a <= b` exactly when `a`'s fields are not later than `b`'s, compared from the year down to the second. |

## Left out

- SQLite connections, cursors, `commit` and the file name `tareas.db` are
  left out. The table is a field, and one statement plus its commit is one
  assignment to it.
- The kind of storage error is left out. Every `sqlite3.Error` is the one
  `fail` flag, and it is given per call rather than modelled as disk state.
- If `inicializar_db` itself fails, the store prints the error and carries
  on, and later calls then fail too. The model has no separate "no table"
  state; the `fail` flag of those later calls covers this.
- `datetime.now()` and `strftime` are left out: the time is the parameter
  `ahora`. Coherence of the dates is proved only for a clock that never goes
  back. A local clock can go back at a daylight-saving change, and the
  source does not guard against that.
- All `print` logging is left out. So is `cerrar_conexion`, which only
  prints. So is the demo `probar_gestor`.
- Python's default arguments are left out: `descripcion=""` of
  `agregar_tarea`, `descripcion=""` and `completada=False` of
  `actualizar_tarea`, and `completada=True` of `marcar_completada`. Every argument is passed explicitly.
- Python `None` titles and descriptions are left out. A `None` title breaks
  the `NOT NULL` constraint and raises `sqlite3.Error`, which is covered
  only by `fail`. A `None` description, stored as NULL, is not modelled:
  text fields are strings.
- `Gestor.GestorTareas.ObtenerTareaPorId`, `Gestor.GestorTareas.ActualizarTarea`,
  `Gestor.GestorTareas.EliminarTarea` and `Gestor.GestorTareas.MarcarCompletada`
  require an id in the signed 64-bit range (`IdParameter`). For any other id,
  Python's sqlite3 raises `OverflowError` when binding it. That is not an
  `sqlite3.Error`, so the store does not catch it and the call raises out of
  the store. The model has no uncaught exceptions, so those calls are outside
  its contracts. The interface only passes ids it read from the table.
- `Gestor.GestorTareas.ObtenerTodasTareas`: SQLite gives no order for tasks
  created in the same second. `SortByDate` puts them in id order, but the
  contract only promises a newest-first permutation, which is all the
  source promises.
- Rows are Python tuples and the statistics a dict. They are the datatypes
  `Tarea` and `Estadisticas`.
- The interface (`app.py`) and the launcher (`main.py`) are not part of this
  model. They only forward user actions to the store and show its results.
