/**
 * The `users` table as the endpoints read and write it, keyed by email
 * (the column is unique), and the `UserOut` response body.
 */
module Users {

  import opened Wrappers
  import opened Json
  import opened Jose

  /** The columns the endpoints touch. The routes call the hash column `hashed_pass`. */
  datatype UserRow = UserRow(id: string, email: string, hashedPass: string, isVerified: bool, isActive: bool, createdAt: Time)

  /** `UserOut`: `id`, `email`, `is_verified` and `created_at`, nothing else. */
  datatype UserOut = UserOut(id: string, email: string, isVerified: bool, createdAt: Option<Time>)

  /** Every row sits under its own email. */
  predicate Keyed(rows: map<string, UserRow>) {
    forall e :: e in rows ==> rows[e].email == e
  }

  /** `UserOut(**row)` for the columns `RETURNING id, email, is_verified, created_at`. */
  function Public(row: UserRow): (out: UserOut)
    ensures out.id == row.id && out.email == row.email && out.isVerified == row.isVerified
    ensures out.createdAt == Some(row.createdAt)
  {
    UserOut(row.id, row.email, row.isVerified, Some(row.createdAt))
  }

  class UserTable {
    var rows: map<string, UserRow>

    ghost predicate Valid()
      reads this
    {
      Keyed(rows)
    }

    constructor ()
      ensures Valid() && rows == map[]
    {
      rows := map[];
    }

    /** `INSERT INTO users ...` of a row whose email is not yet present. */
    method Insert(row: UserRow)
      requires Valid() && row.email !in rows
      modifies this
      ensures Valid()
      ensures rows == old(rows)[row.email := row]
    {
      rows := rows[row.email := row];
    }
  }

  /**
   * `conn.fetchrow("... WHERE email = $1", v)`: a string parameter finds its row
   * or none; `None` binds SQL NULL, which matches no row; any other value makes
   * asyncpg raise `DataError` (a `ValueError`) before the query runs.
   */
  datatype Lookup = Found(row: UserRow) | NoRow | DataError

  function FetchByEmail(rows: map<string, UserRow>, v: Value): (r: Lookup)
    ensures r.Found? <==> v.Str? && v.s in rows
    ensures r.Found? ==> r.row == rows[v.s]
    ensures r.DataError? <==> !v.Str? && !v.Null?
  {
    match v
    case Str(email) => if email in rows then Found(rows[email]) else NoRow
    case Null => NoRow
    case _ => DataError
  }

  /** In a keyed table the row found by an email carries that email. */
  lemma FoundRowHasEmail(rows: map<string, UserRow>, email: string)
    requires Keyed(rows)
    requires FetchByEmail(rows, Str(email)).Found?
    ensures FetchByEmail(rows, Str(email)).row.email == email
  {
  }
}
