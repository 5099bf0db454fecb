/** Types and error codes shared by the drivers (src/drivers/common/rt_types.h, rt_drivers.h, io_port.h). */
module RtTypes {

  datatype Option<+T> = None | Some(value: T)

  /** The RT_ErrorCode and IO_ERROR_* values that the modelled code returns. */
  datatype ErrorCode = Success | InvalidParameter | HardwareFault | PortLocked | InvalidPort

  datatype DriverState =
    | Uninitialized | Initializing | Ready | Running
    | Stopping | Stopped | InError | Suspended

  /** RT_U32 arithmetic wraps modulo this. */
  const U32: nat := 0x1_0000_0000

  /** Narrowing to RT_S16: two's-complement wrap. */
  function Wrap16(v: int): (r: int)
    ensures -0x8000 <= r < 0x8000 && (r - v) % 0x1_0000 == 0
  {
    (v + 0x8000) % 0x1_0000 - 0x8000
  }
}
