/**
 * The objects owned by the native engine, seen from the wrapper: every one of them
 * is reached through an opaque handle, and the wrapper never looks inside.
 */
module Engine {
  /** An opaque handle to an object that lives inside the native engine. */
  datatype Handle = Handle(id: nat)

  /**
   * A holder-side credential object. Each Python object owns its own engine handle,
   * so comparing objects by identity (as a dictionary key does) is comparing handles.
   */
  datatype Credential = Credential(handle: Handle)
}
