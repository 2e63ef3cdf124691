/** The update core as the object the firmware calls, and the download loop that drives it. */
module OtaEngine {
  import opened MachineInts
  import opened Options
  import opened OtaModel

  class OtaCore {
    var active: Slot
    var state: OtaState
    var pending: Option<Manifest>
    var lastSwap: Option<Slot>

    function Abs(): Core
      reads this
    {
      Core(active, state, pending, lastSwap)
    }

    constructor (initial: Slot)
      ensures Abs() == Fresh(initial)
    {
      active, state, pending, lastSwap := initial, Idle, None, None;
    }

    method StartDownload(manifest: Manifest) returns (r: Outcome)
      modifies this
      ensures (Abs(), r) == Apply(old(Abs()), OtaModel.StartDownload(manifest))
    {
      if !state.Idle? {
        return Err(WrongState);
      }
      if !manifest.WellFormed() {
        return Err(BadManifest);
      }
      state := Downloading(active.Other(), 0, manifest.sizeBytes);
      pending := Some(manifest);
      return Ok;
    }

    method WriteChunk(chunkLen: uint32) returns (r: Outcome)
      modifies this
      ensures (Abs(), r) == Apply(old(Abs()), OtaModel.WriteChunk(chunkLen))
    {
      if chunkLen > MAX_CHUNK_BYTES {
        return Err(ChunkTooLarge);
      }
      match state
      case Downloading(slot, bytesReceived, totalBytes) =>
        var total := SatAdd32(bytesReceived, chunkLen);
        if total > totalBytes {
          return Err(ChunkOverflow);
        }
        state := Downloading(slot, total, totalBytes);
        return Ok;
      case _ => return Err(WrongState);
    }

    method FinishDownload() returns (r: Outcome)
      modifies this
      ensures (Abs(), r) == Apply(old(Abs()), OtaModel.FinishDownload)
    {
      match state
      case Downloading(slot, bytesReceived, totalBytes) =>
        if bytesReceived != totalBytes {
          return Err(Incomplete);
        }
        state := Verifying(slot);
        return Ok;
      case _ => return Err(WrongState);
    }

    method Verify(verifier: Verifier, imageDigest: seq<uint8>) returns (r: Outcome)
      modifies this
      ensures (Abs(), r) == Apply(old(Abs()), OtaModel.Verify(verifier, imageDigest))
    {
      match state
      case Verifying(slot) =>
        match pending {
          case None =>
            state := Idle;
            return Err(WrongState);
          case Some(m) =>
            if !verifier(m, m.signature) {
              state := Idle;
              pending := None;
              return Err(BadSignature);
            }
            if imageDigest != m.sha256 {
              state := Idle;
              pending := None;
              return Err(BadImageDigest);
            }
            state := Ready(slot);
            return Ok;
        }
      case _ => return Err(WrongState);
    }

    method Swap() returns (r: Outcome)
      modifies this
      ensures (Abs(), r) == Apply(old(Abs()), OtaModel.Swap)
    {
      match state
      case Ready(slot) =>
        state := Swapping;
        lastSwap := Some(active);
        active := slot;
        state := Idle;
        pending := None;
        return Ok;
      case _ => return Err(WrongState);
    }

    method ConfirmSwap() returns (r: Outcome)
      modifies this
      ensures (Abs(), r) == Apply(old(Abs()), OtaModel.ConfirmSwap)
    {
      match state
      case Idle =>
        lastSwap := None;
        return Ok;
      case _ => return Err(WrongState);
    }

    method Rollback() returns (r: Outcome)
      modifies this
      ensures (Abs(), r) == Apply(old(Abs()), OtaModel.Rollback)
    {
      match state
      case Idle =>
        match lastSwap {
          case Some(prev) =>
            active := prev;
            lastSwap := None;
            return Ok;
          case None => return Err(NothingToRollback);
        }
      case _ => return Err(WrongState);
    }

    method Abort()
      modifies this
      ensures (Abs(), Ok) == Apply(old(Abs()), OtaModel.Abort)
    {
      state := Idle;
      pending := None;
    }

    /**
     The whole update as a driver performs it: from any idle core and for any well-formed manifest, nothing fails,
     exactly `ceil(size / 1024)` chunks are written, and the other bank becomes active.
     */
    method Update(m: Manifest, verifier: Verifier) returns (writes: nat)
      requires Inv(Abs()) && state.Idle? && m.WellFormed() && verifier(m, m.signature)
      modifies this
      ensures writes == (m.sizeBytes + 1023) / 1024
      ensures Abs() == Core(old(active).Other(), Idle, None, Some(old(active)))
    {
      var r := StartDownload(m);
      assert r == Ok;
      var left := m.sizeBytes;
      writes := 0;
      while left > 0
        invariant 0 <= left <= m.sizeBytes
        invariant Abs() == Core(old(active), Downloading(old(active).Other(), m.sizeBytes - left, m.sizeBytes),
                                Some(m), old(lastSwap))
        invariant left > 0 ==> m.sizeBytes - left == MAX_CHUNK_BYTES * writes
        invariant left == 0 ==> MAX_CHUNK_BYTES * (writes - 1) < m.sizeBytes <= MAX_CHUNK_BYTES * writes
      {
        var n := if left < MAX_CHUNK_BYTES then left else MAX_CHUNK_BYTES;
        r := WriteChunk(n);
        assert r == Ok;
        left := left - n;
        writes := writes + 1;
      }
      r := FinishDownload();
      assert r == Ok;
      r := Verify(verifier, m.sha256);
      assert r == Ok;
      r := Swap();
      assert r == Ok;
    }
  }
}
