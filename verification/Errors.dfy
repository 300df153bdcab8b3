/** Result and option types, and the error values the modelled operations return. */
module Errors {
  datatype Option<+T> = None | Some(value: T)

  datatype Result<+T> = Ok(value: T) | Err(error: Error) {
    predicate IsFailure() { Err? }

    function PropagateFailure<U>(): Result<U>
      requires Err?
    {
      Err(error)
    }

    function Extract(): T
      requires Ok?
    {
      value
    }
  }

  datatype Error =
    // sharing and the key tree
    | ShareShapeMismatch | QuorumNotMet | InvalidQuorumThreshold | NodeNotFound | DuplicateNodeLabel
    | CannotAddLeaf | CannotEvict | WrongKeyType | KeyRevoked | IntegrityCheckFailed | Db
    // bridges between nodes of a tree, and the public tree
    | InvalidBridge | BridgeNotWhitelisted | BridgeNotFound | InvalidTreeSpec | TreeNotFound
    | StalePublicTree | InvalidPublicKey
    // private sign bridges
    | InvalidBridgePackage | BridgeDestroyed | BridgeGenerationMismatch | TooFewBridgeMembers
    | NotBridgeMember | SealedKeyNotHeld | SignatureVerificationFailed | BundleFieldTooLarge
    // the mailbox
    | InvalidInboxPage
}
