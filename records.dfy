/** Records of the employee hierarchy importer: the raw input row, the
    resolved tree node and the error values the importer reports. */
module Records {

  datatype Option<T> = None | Some(value: T)

  /** The errors of hierarchy.go; Go's sentinel values become constructors. */
  datatype Error =
    | MissingManagerError    // the manager id is not (yet) registered
    | InvalidEmployeesError  // records were still waiting for a manager after the import
    | MultipleCEOError       // a second record without a manager
    | MissingCEOError        // the table was asked for before any CEO was added

  datatype Result<T> = Success(value: T) | Failure(error: Error)

  /** One input row: an empty `manager` marks the CEO. */
  datatype RawEmployee = RawEmployee(name: string, id: string, manager: string)

  /** A node of the tree. `managees` holds the indices of the employee's
      direct reports in the company's arena, in the order they were added. */
  datatype Employee = Employee(name: string, id: string, managees: seq<nat>)
}
