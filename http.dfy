/** Outcomes of a request handler: the value it returns, or the HTTP error it raises. */
module Http {

  datatype Option<+T> = None | Some(value: T)

  /** A constraint that the database enforces when the session commits: the
      unique ones, and the NOT NULL on a statistic's metric. */
  datatype Constraint = UniqueDepartmentName | UniqueMetricName | UniqueStatisticKey | StatisticMetricRequired

  /** The errors the handlers raise; IntegrityError is the uncaught commit failure. */
  datatype Error =
    | BadRequest(detail: string)
    | Forbidden(detail: string)
    | NotFound(detail: string)
    | IntegrityError(constraint: Constraint)

  datatype Result<+T> = Ok(value: T) | Err(error: Error)
}
