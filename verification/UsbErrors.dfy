/** The error and result types shared by the USB stack. */
module UsbErrors {
  import opened Wrappers

  datatype UsbError = NotImplemented | Timeout | Hardware(text: string) | Protocol(text: string) | Stall | NotPresent

  type UsbResult<T> = Result<T, UsbError>
}
