/** Failure vocabulary shared by every part of the ECS model.

    The engine reports a broken precondition with `ERROR_IF`/`EXPECT`, which
    terminate the process. The model turns each such termination, and each
    access the source leaves undefined (an out-of-range vector index, a null
    pool pointer), into a `Fail` value carrying the reason. */
module Faults {

  datatype Fault =
    | NegativeEntityId      // Pool::set on an entity id below 0
    | PoolEmpty             // Pool::remove when the pool holds nothing
    | SlotOutOfRange        // Pool::operator[] outside the backing vector
    | TypeCapacityExceeded  // a component type id past the mask width
    | EntityOutOfRange      // an entity id with no component mask slot
    | ComponentMissing      // get_component when the mask bit is clear
    | PoolMissing           // the pool for a type was never created
    | NotInPool             // pool lookup for an entity it does not hold
    | SystemMissing         // get_system for a type never added
    | GroupMissing          // entities_per_group.at on an unknown group

  datatype Result<+T> = Ok(value: T) | Fail(fault: Fault)

  datatype Option<+T> = None | Some(value: T)
}
