/**
 * The rows of the `changes` table: one changelog entry each, with the
 * (email, date, pkg) triple the importer uses to recognise an entry it has
 * already stored, and a mutable score (`points`, 0 meaning "not scored yet").
 */
module Changes {

  /** The `date` column: empty for a block that had no header line, else a timestamp in seconds since 1970-01-01 00:00 UTC. */
  datatype When = Unset | At(seconds: int)

  /** The timestamp an unparseable header date falls back to: 1970-01-01 00:00:00 UTC. */
  const Epoch: int := 0

  datatype Change = Change(email: string, date: When, pkg: string, text: string, points: int)

  /** The triple the importer looks up before storing an entry. */
  datatype Key = Key(email: string, date: When, pkg: string)

  function KeyOf(c: Change): Key {
    Key(c.email, c.date, c.pkg)
  }
}
