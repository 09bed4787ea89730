/** Answers that may be missing, and calls that may fail (src/lib/errors.h). */
module Results {
  datatype Option<+T> = None | Some(value: T)

  // The kinds of failure; the wording that goes with them is not modelled.
  datatype Error =
    | Generic | Usage | Preflight | NeedsElevation | Partial | IntegrityCheckFailed | DistroNotFound | DistroBusy

  datatype Result<+T> = Ok(value: T) | Err(error: Error)

  datatype Status = Done | Failed(error: Error)
}
