/** The outcomes of the target's operations: success, or the error the source returns. */
module Errors {

  datatype Status =
    | Ok
    | InvalidLBA
    | TooManyOpenZones
    | ZoneFull
    | ZoneReadOnly
    | ZoneOffline
    | OutOfOrder
    | BadZoneState
    | CrossesZone
    | NoFreeZone
    | NoSuchZone
    | NoSuchSegment
    | NoVictim
    | Unfinished
    | BadConfig
    | RecordTooShort
    | BadMagic
    | BadChecksum
    | Panicked
    | Truncated
    | NoTask

  datatype Option<+T> = None | Some(value: T)

  datatype Result<+T> = Success(value: T) | Failure(error: Status)
}
