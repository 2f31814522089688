/** Option and result types used by the model in place of nil pointers,
    `log.Fatalf` and `u.PanicIf`: every fatal condition of the importer is an
    `Err` value that the orchestrator would turn into process termination. */
module Results {

  datatype Option<+T> = None | Some(value: T)

  /** The fatal conditions of the import run that the model covers. */
  datatype Fault =
    | TagNotFound(title: string)         // findDocTagByTitleMust
    | SeparatorInValue(key: string)      // serField: value contains the record separator

  datatype Result<+T> = Ok(value: T) | Err(fault: Fault)
}
