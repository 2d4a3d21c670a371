/** The constants and result types that the sparse set's interface declares
    (include/sps/sps.h). */
module SpsTypes {

  /** SPARSE_SET_MAX: both the length of the sparse and dense index tables and
      the sentinel that marks an unused entry of either. */
  const MAX: int := 0xFFFF

  /** uint16_t, the type of keys, dense slots and the live count. */
  type u16 = x: int | 0 <= x < 0x1_0000

  /** Why an operation was refused. The C code reports each of these through
      `sps_error` (an abort in debug builds, nothing in release builds) and then
      returns NULL or returns early; the model returns the reason instead. */
  datatype Error =
    | InvalidArgument  // the key is the sentinel MAX
    | Full             // `count` already equals MAX
    | AlreadyPresent   // `sps_add` of a key that is in the set
    | NotPresent       // `sps_remove` of a key that is not in the set

  /** A returned component pointer, modelled as the dense slot it points at. */
  datatype Result<R> = Ok(value: R) | Err(error: Error)

  /** The outcome of an operation that returns nothing in C (`sps_remove`). */
  datatype Outcome = Pass | Fail(error: Error)

  /** What `sps_get` reports: the slot of the component, a key that is not in
      the set (NULL in C), or the sentinel key (also NULL in a release build). */
  datatype Lookup = Found(slot: u16) | Absent | InvalidKey

  /** One step of `sps_iter_next`: the entity index written through the `index`
      out-parameter and the slot of the returned component, or NULL (`End`). */
  datatype Step = Item(key: u16, slot: u16) | End
}
