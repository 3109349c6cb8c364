/** The records the store keeps: one per distinct stripped text. */
module Entries {
  import opened Text
  import opened Analyzer

  /** The creation time, an ISO-8601 UTC string read from the clock. */
  type Timestamp = String

  /** A stored string: `id` is the digest of its stripped text, `value` the text
      exactly as submitted, `properties` its analysis. */
  datatype Entry = Entry(id: Digest, value: String, properties: Properties, createdAt: Timestamp)
}
