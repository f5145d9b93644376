// The machine records of src/web.rs. Addresses are their 32-bit values.
module Machines {
  import opened Common

  type u16 = x: int | 0 <= x < 0x1_0000
  type u32 = x: int | 0 <= x < 0x1_0000_0000

  const MAX_U32: u32 := 0xFFFF_FFFF

  datatype PortForward = PortForward(name: string, localPort: u16, targetPort: u16)

  datatype Machine = Machine(
    mac: string,
    ip: u32,
    name: string,
    description: Option<string>,
    turnOffPort: Option<u16>,
    canBeTurnedOff: bool,
    shutdownAuthKey: Option<string>,
    shutdownAuthVerified: bool,
    inactivityPeriod: u32,
    portForwards: seq<PortForward>)
  {
    /** Remote shutdown is switched on and has a client port. */
    predicate ShutdownEnabled() {
      canBeTurnedOff && turnOffPort.Some?
    }
  }
}
