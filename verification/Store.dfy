/** Names the store's client code shares: error codes and kinds of replica. */
module Store {

  datatype ErrorCode =
    | NoError | InternalError | InvalidParams | NoAvailableHandle | ObjectAlreadyExists
    | TransferFail | RpcFail | InvalidReplica | SegmentNotFound | OtherError(code: int)

  datatype Kind = Memory | NofSsd | Disk | LocalDisk
}
