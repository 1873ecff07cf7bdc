/** The states of an MQTT client. */
module ClientStates {
  datatype ClientState =
    | Invalid
    | Initialized
    | Connecting
    | ConnectedIdle
    | YieldInProgress
    | PublishInProgress
    | SubscribeInProgress
    | UnsubscribeInProgress
    | ResubscribeInProgress
    | WaitForCbReturn
    | Disconnecting
    | DisconnectedError
    | DisconnectedManually
    | PendingReconnect
}
