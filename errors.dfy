/**
 * The `MedusaError`s that the three entity services raise.
 *
 * `InvalidData` is raised with code '400' and, in the source, a JSON rendering
 * of the field-to-message map as its message; the model keeps the map itself.
 * `Internal` is the `MedusaError(kind, error.message, '500')` with which the
 * post and blog services rewrap every failure they catch: its `kind` is the
 * operation tag ("Unable to retrieve posts", ...) and its `message` is the
 * message of the failure it caught.
 */
module Errors {

  datatype Error =
    | InvalidData(fields: map<string, string>)
    | Conflict(message: string)
    | NotFound(message: string)
    | Internal(kind: string, message: string)

  /** The HTTP code the error carries, "" when the source passes none. */
  function Code(e: Error): (code: string)
    ensures e.InvalidData? <==> code == "400"
    ensures e.Internal? <==> code == "500"
  {
    match e
    case InvalidData(_) => "400"
    case Internal(_, _) => "500"
    case _ => ""
  }

  /**
   * `catch (error) { throw new MedusaError(kind, error.message, '500') }`.
   * The services only rewrap failures that carry a plain message.
   */
  function Rewrap(kind: string, e: Error): (w: Error)
    requires !e.InvalidData?
  {
    Internal(kind, e.message)
  }
}
