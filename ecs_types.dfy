/** Shared vocabulary of the mini ECS runtime: the entity id space and the
    error results that replace the header's undefined behaviour. */
module EcsTypes {

  /** Capacity of every entity-indexed array (the header's default). */
  const MAX_ENTITIES: nat := 1024

  /** An entity is a bare index into the component arrays. The header uses
      `unsigned int`; ids here never reach 2^32 because creation stops at
      the capacity. */
  type Entity = nat

  /** The failures an operation reports instead of touching memory out of bounds. */
  datatype EcsError =
    | CapacityExhausted   // create(): every id issued and none free
    | EntityOutOfRange    // a component operation on an id >= capacity
    | ComponentAbsent     // reading a value whose presence flag is false

  datatype Option<T> = None | Some(value: T)

  datatype Result<T> = Ok(value: T) | Err(error: EcsError)

  datatype Outcome = Pass | Fail(error: EcsError)
}
