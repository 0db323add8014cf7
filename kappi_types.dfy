/** Identifiers, clock readings and HTTP outcomes shared by the gallery backend. */
module KappiTypes {

  /** A `System.Guid`, carried as its canonical text (the form embedded in storage keys). */
  datatype Guid = Guid(text: string)

  /** `Guid.Empty`: what `GetUserId()` yields for a request without a signed-in user. */
  const EmptyGuid: Guid := Guid("00000000-0000-0000-0000-000000000000")

  /** A UTC clock reading (`DateTime.UtcNow`), in whole seconds. */
  type Time = int

  const Minute: int := 60
  const Day: int := 24 * 60 * Minute

  /** An action's result: a success status with its body, or an error status with the
      machine-readable reason code of the `ErrorResponse`. */
  datatype Response<T> = Success(status: int, body: T) | Failure(status: int, reason: string)

  /** The body of a `SuccessResponse("success")`. */
  datatype Done = Done(message: string)
}
