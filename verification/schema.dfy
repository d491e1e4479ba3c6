/** The column types of the `bookmarks` table, read by both pages. */
module Schema {
  /** Ids are opaque strings assigned by the database, compared with `===`. */
  type Id = string

  /** The `created_at` column, as the client receives it. */
  type Timestamp = string
}
