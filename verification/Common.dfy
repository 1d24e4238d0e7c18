/** Small datatypes shared by the kernel components. */
module Common {

  datatype Option<+T> = None | Some(value: T)

  /** The error codes of Kernel/error.hpp that the modelled components return. */
  datatype Error =
    | Success
    | Full
    | NoEnoughMemory
    | InvalidSlotID
    | TransferRingNotSet
    | NotImplemented
    | NoCorrespondingSetupStage
    | TransferFailed
    | InvalidPhase
    | UnknownXHCISpeedID
    | UnknownPixelFormat
    | NoSuchTask
}
