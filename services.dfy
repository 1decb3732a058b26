/**
 * The parts of the buffer and cleaning services' messages that the dispatcher
 * reads or writes, and the remote calls it can issue.
 */
module Services {
  import opened Wrappers
  import opened Dto

  /** The status of a failed remote call. The dispatcher logs it or hands it on. */
  datatype RpcError = RpcError(code: nat, message: string)

  type Reply<T> = Result<T, RpcError>

  /** A pending request as the buffer's PopTop hands it out. */
  datatype BufferRequest = BufferRequest(
    id: U64,
    clientId: U64,
    generatorId: U64,
    priority: U32,
    cleaningType: U32,
    timeInBuffer: Float64)

  /** PopTop's reply. Its `req` field may be unset; the generated getter then yields zeros. */
  datatype PopTopOut = PopTopOut(req: Option<BufferRequest>) {
    function GetReq(): BufferRequest {
      if req.Some? then req.value else BufferRequest(0, 0, 0, 0, 0, 0.0)
    }
  }

  /** The request part of ProceedCleaning's argument: the fields taken from the buffered request. */
  datatype CleaningOrder = CleaningOrder(id: U64, clientId: U64, priority: U32, cleaningType: U32)

  /** ProceedCleaning's argument: the order and the team it is offered to. */
  datatype ProceedCleaningIn = ProceedCleaningIn(req: CleaningOrder, teamId: U64)

  /** The cleaning service's confirmation of an accepted request. */
  datatype CleanedRequest = CleanedRequest(id: U64, teamId: U64, priority: U32, timeInCleaner: Float64)

  /** ProceedCleaning's reply. Its `req` field may be unset; the getter then yields zeros. */
  datatype ProceedCleaningOut = ProceedCleaningOut(req: Option<CleanedRequest>) {
    function GetReq(): CleanedRequest {
      if req.Some? then req.value else CleanedRequest(0, 0, 0, 0.0)
    }
  }

  /** One entry of GetTeamsStats' reply. */
  datatype TeamInfo = TeamInfo(id: U64, speed: U32, processedRequests: U64, totalBusyTime: Float64)

  /** A remote call issued by the dispatch loop, in the order issued. */
  datatype Call =
    | GetAvailableTeams
    | PopTop
    | ProceedCleaning(arg: ProceedCleaningIn)
}
