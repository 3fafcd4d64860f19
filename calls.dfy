/**
  The calls the character service makes to its collaborators, the save parser and the
  character repository, and the log in which those collaborators record them. Each
  collaborator appends its own call when it is asked, so the log shows which of them a
  request asked and in which order.
*/
module Calls {
  import opened Domain

  /** A call to a collaborator. */
  datatype Call = FindCall(id: string) | ParseCall(name: string) | StoreCall(stored: Character) | UpdateCall(updated: Character)

  /** The calls collaborators have recorded so far, oldest first. */
  class CallLog {
    ghost var calls: seq<Call>

    constructor ()
      ensures calls == []
    {
      calls := [];
    }
  }
}
