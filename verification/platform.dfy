/**
 The single configuration value the containers consume from the platform
 layer: the maximum string length of the target microcontroller family.
 */
module Platform {

  datatype Target = Avr | Arm

  /** `platform::strlen_max` for each supported target. */
  function StrlenMax(t: Target): nat
  {
    match t
    case Avr => 128
    case Arm => 4096
  }
}
