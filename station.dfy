/** Types, constants and the shared station record of main.h that the
    control code uses: the fan modes, the codes of the messages sent to the
    I2C task, and the one StationData field the fan controller writes. */
module Station {

  /** C integer widths. */
  type uint8 = x: int | 0 <= x < 0x100
  type uint32 = x: int | 0 <= x < 0x1_0000_0000

  /** Fan operation modes. */
  const FAN_MODE_OFF: uint8 := 0
  const FAN_MODE_ON: uint8 := 1
  const FAN_MODE_CYC: uint8 := 2
  const FAN_MODE_AUX: uint8 := 3
  const FAN_MODE_LAST: uint8 := FAN_MODE_AUX

  /** The type codes of the two I2C messages the fan controller sends (the
      other codes belong to tasks outside this model). */
  const I2C_PRINT_FAN: int := 2
  const I2C_SET_RELAYS: int := 5

  /** A message put on the I2C task's queue by the fan controller. A
      "print fan" request carries no meaningful payload byte. */
  datatype I2CMessage = SetRelays(relays: uint8) | PrintFan
  {
    /** The message's type code. */
    function MessageType(): int
    {
      match this
      case SetRelays(_) => I2C_SET_RELAYS
      case PrintFan => I2C_PRINT_FAN
    }
  }

  /** The station record shared between tasks; only the fan mode is part of
      this model. */
  class StationData {
    var fanMode: uint8

    constructor (fanMode: uint8)
      ensures this.fanMode == fanMode
    {
      this.fanMode := fanMode;
    }
  }
}
