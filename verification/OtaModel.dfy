/** The dual-bank update core as a transition function on values. */
module OtaModel {
  import opened MachineInts
  import opened Options

  const MAX_IMAGE_BYTES: uint32 := 1_048_576
  const MAX_CHUNK_BYTES: uint32 := 1024

  datatype Slot = A | B {
    function Other(): Slot {
      if this == A then B else A
    }
  }

  datatype Manifest = Manifest(version: uint32, sizeBytes: uint32, sha256: seq<uint8>, signature: seq<uint8>) {
    predicate WellFormed() {
      0 < sizeBytes <= MAX_IMAGE_BYTES
    }
  }

  datatype OtaState =
    | Idle
    | Downloading(slot: Slot, bytesReceived: uint32, totalBytes: uint32)
    | Verifying(slot: Slot)
    | Ready(slot: Slot)
    | Swapping

  datatype OtaError =
    | WrongState | BadManifest | ChunkOverflow | ChunkTooLarge
    | BadSignature | BadImageDigest | Incomplete | NothingToRollback

  datatype Outcome = Ok | Err(error: OtaError)

  /** Any pure signature check. */
  type Verifier = (Manifest, seq<uint8>) -> bool

  datatype Core = Core(active: Slot, state: OtaState, pending: Option<Manifest>, lastSwap: Option<Slot>)

  /** The eight public transitions. */
  datatype Op =
    | StartDownload(manifest: Manifest)
    | WriteChunk(chunkLen: uint32)
    | FinishDownload
    | Verify(verifier: Verifier, imageDigest: seq<uint8>)
    | Swap
    | ConfirmSwap
    | Rollback
    | Abort

  function Fresh(active: Slot): Core {
    Core(active, Idle, None, None)
  }

  function Apply(c: Core, op: Op): (Core, Outcome) {
    match op
    case StartDownload(m) =>
      if !c.state.Idle? then (c, Err(WrongState))
      else if !m.WellFormed() then (c, Err(BadManifest))
      else (c.(state := Downloading(c.active.Other(), 0, m.sizeBytes), pending := Some(m)), Ok)
    case WriteChunk(len) =>
      if len > MAX_CHUNK_BYTES then (c, Err(ChunkTooLarge))
      else if !c.state.Downloading? then (c, Err(WrongState))
      else if SatAdd32(c.state.bytesReceived, len) > c.state.totalBytes then (c, Err(ChunkOverflow))
      else (c.(state := c.state.(bytesReceived := SatAdd32(c.state.bytesReceived, len))), Ok)
    case FinishDownload =>
      if !c.state.Downloading? then (c, Err(WrongState))
      else if c.state.bytesReceived != c.state.totalBytes then (c, Err(Incomplete))
      else (c.(state := Verifying(c.state.slot)), Ok)
    case Verify(verifier, digest) =>
      if !c.state.Verifying? then (c, Err(WrongState))
      else if c.pending.None? then (c.(state := Idle), Err(WrongState))
      else if !verifier(c.pending.value, c.pending.value.signature) then
        (c.(state := Idle, pending := None), Err(BadSignature))
      else if digest != c.pending.value.sha256 then (c.(state := Idle, pending := None), Err(BadImageDigest))
      else (c.(state := Ready(c.state.slot)), Ok)
    case Swap =>
      if !c.state.Ready? then (c, Err(WrongState))
      else (Core(c.state.slot, Idle, None, Some(c.active)), Ok)
    case ConfirmSwap =>
      if !c.state.Idle? then (c, Err(WrongState)) else (c.(lastSwap := None), Ok)
    case Rollback =>
      if !c.state.Idle? then (c, Err(WrongState))
      else if c.lastSwap.None? then (c, Err(NothingToRollback))
      else (c.(active := c.lastSwap.value, lastSwap := None), Ok)
    case Abort => (c.(state := Idle, pending := None), Ok)
  }

  /** What holds at every call boundary. */
  predicate Inv(c: Core) {
    && (c.pending.Some? <==> !c.state.Idle?)
    && (c.pending.Some? ==> c.pending.value.WellFormed())
    && (match c.state
        case Idle => true
        case Downloading(slot, received, total) =>
          slot == c.active.Other() && received <= total == c.pending.value.sizeBytes
        case Verifying(slot) => slot == c.active.Other()
        case Ready(slot) => slot == c.active.Other()
        case Swapping => false)
    && (c.lastSwap.Some? ==> c.lastSwap.value == c.active.Other())
  }
}
