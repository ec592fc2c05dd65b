/** The parsed index definition handed to the translator (`Definiton` and `Field` in
    src/internals.rs). Deserialization is outside the model; keys other than `name`,
    `fields` and a field's `type` are dropped before a value of these types exists. */
module Schema {

  /** One index field: its key name and its OData type tag (the JSON key `type`). */
  datatype Field = Field(name: string, deType: string)

  /** A named index definition with its fields in input order. */
  datatype Definition = Definition(name: string, fields: seq<Field>)
}
