/**
 * What the merger reports on the console. The reports are kept as values, in
 * the order they are printed; `Text` renders each one as printed.
 */
module Console {

  datatype LogEntry =
    | ParseFailed(path: string)
    | NoFile(pattern: string)
    | FieldMismatch(model: string, field: string)
  {
    function Text(): string {
      match this
      case ParseFailed(path) =>
        "Prismix failed to parse schema located at \"" + path + "\". Did you attempt to reference to a model "
        + "without creating an alias? Remember you must define a \"blank\" alias model with only the \"@id\" "
        + "field in your extended schemas otherwise we can't parse your schema."
      case NoFile(pattern) =>
        "Error: No filename : " + pattern + " found! Please check your prismix.config.json and see if the file exists."
      case FieldMismatch(model, field) =>
        "Field " + field + " of model " + model + " mismatch! Please check all prisma schemas for model " + model + "."
    }
  }
}
