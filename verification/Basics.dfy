/** Definitions that several modules share. */
module Basics {
  // the unit of memory and of the wire
  newtype byte = x: int | 0 <= x < 0x100

  const INT32_BOUND: nat := 0x8000_0000
  const UINT32_BOUND: nat := 0x1_0000_0000

  // kSmallBuffer: the size of every stream's buffer, a coroutine's private stack included
  const BUFFER_SIZE: nat := 4000

  // co_state, of a coroutine and of a wait context; a context is never in kWait.
  datatype CoState = Init | Wait | Ready | Timeout
  type CtxState = s: CoState | s != Wait witness Init

  datatype Option<T> = None | Some(value: T)
}
