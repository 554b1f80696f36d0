// The parts of the provider's records that the rotation pass reads, and the
// success-or-failure envelope that every gateway call returns.
module Models {

  /** A value that the JSON layer may have left null. */
  datatype Option<+T> = None | Some(value: T)

  /** The gateway's envelope: success with its payload, or failure with a message.
      Every gateway operation catches its own exceptions and answers with this. */
  datatype Result<+T> = Success(data: T) | Failure(message: string)

  /** A compute instance; only the fields the rotation pass reads. */
  datatype Instance = Instance(instanceId: int, name: string)

  /** A snapshot of an instance. `createdAt` stands for the provider's creation
      time stamp as a tick count: only its ordering is ever used. */
  datatype Snapshot = Snapshot(snapshotId: string, name: string, description: string, createdAt: int)
}
