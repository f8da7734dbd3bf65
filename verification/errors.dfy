/** The error vocabulary of the timer wheel (pkg/timewheel/error.go) together
    with the result type its public operations return. */
module TimeWheelErrors {

  /** `InvalidParams` is the anonymous "invalid task params" error of AddTask;
      the other two are the package's sentinel errors. */
  datatype Error = InvalidParams | DuplicateTaskKey | TaskKeyNotFound

  /** Either the new value of the wheel or the error the call returned. */
  datatype Result<T> = Ok(value: T) | Err(error: Error)
}
