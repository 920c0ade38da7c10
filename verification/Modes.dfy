/** Whether the daemon asks the server for work or the server drives the daemon. */
module Modes {
  datatype Mode = DaemonPoll | ServerPoll
}
