/**
 The in-session notifications the compose and edit units dispatch and the feed
 listens for: `chirp-created`, `chirp-updated` and `chirp-edit-canceled`.
 */
module Signals {

  datatype Signal = ChirpCreated | ChirpUpdated | ChirpEditCanceled
}
