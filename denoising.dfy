/** Denoising state of a sparse dataset: whether denoising is on, and the device buffer
    of uniform randoms (one per stored sparse entry) it draws from. */
module Denoising {
  import opened Common

  datatype State = State(enabled: bool, buffer: Maybe<nat>)

  /** SetDenoising as written: rejected on dense data; turning it off frees the buffer
      and clears the flag; turning it on (re)allocates a buffer of `entries` randoms but
      leaves the flag clear. */
  function SetDenoisingAsWritten(s: State, sparse: bool, flag: bool, entries: nat): (r: (bool, State))
    ensures !sparse ==> r == (false, s)
    ensures sparse ==> r.0
    ensures sparse && flag && !s.enabled ==> r.1 == State(false, Found(entries))
    ensures r.1.enabled ==> s.enabled
  {
    if !sparse then (false, s)
    else if !flag && s.enabled then (true, State(false, Missing))
    else if flag && !s.enabled then (true, State(false, Found(entries)))
    else (true, s)
  }

  /** As written, the flag can never become set: starting from a cleared flag, any
      sequence of calls keeps it clear. */
  lemma {:induction false} AsWrittenNeverEnables(s: State, sparse: bool, flags: seq<bool>, entries: nat)
    requires !s.enabled
    ensures !Replay(s, sparse, flags, entries).enabled
  {
    if flags != [] {
      AsWrittenNeverEnables(s, sparse, flags[..|flags| - 1], entries);
    }
  }

  /** The state after calling SetDenoising as written once per flag. */
  function Replay(s: State, sparse: bool, flags: seq<bool>, entries: nat): State
  {
    if flags == [] then s
    else SetDenoisingAsWritten(Replay(s, sparse, flags[..|flags| - 1], entries), sparse, flags[|flags| - 1], entries).1
  }

  /** SetDenoising with the flag set when denoising is turned on. */
  function SetDenoising(s: State, sparse: bool, flag: bool, entries: nat): (r: (bool, State))
    ensures r.0 == sparse
    ensures !sparse ==> r.1 == s
    ensures sparse ==> r.1.enabled == flag
    ensures sparse && !flag ==> r.1.buffer.Missing? || r.1 == s
    ensures sparse && flag && !s.enabled ==> r.1.buffer == Found(entries)
  {
    var w := SetDenoisingAsWritten(s, sparse, flag, entries);
    if sparse && flag && !s.enabled then (w.0, State(true, w.1.buffer)) else w
  }

  /** The two differ exactly when denoising is being turned on. */
  lemma SetDenoisingCorrects(s: State, sparse: bool, flag: bool, entries: nat)
    ensures SetDenoising(s, sparse, flag, entries) != SetDenoisingAsWritten(s, sparse, flag, entries)
            <==> sparse && flag && !s.enabled
  {
  }

  /** Enabling and then disabling returns a disabled dataset to its disabled state with
      no buffer; enabling twice is the same as enabling once. */
  lemma EnableDisable(s: State, entries: nat)
    requires !s.enabled
    ensures SetDenoising(SetDenoising(s, true, true, entries).1, true, false, entries).1 == State(false, Missing)
    ensures SetDenoising(SetDenoising(s, true, true, entries).1, true, true, entries) == SetDenoising(s, true, true, entries)
  {
  }

  /** GenerateDenoisingData: rejected on dense data; otherwise it fills the buffer, which
      must have been allocated by SetDenoising. */
  function GenerateDenoisingData(s: State, sparse: bool): (r: Outcome<bool>)
    ensures r.Ok? <==> !sparse || s.buffer.Found?
    ensures r.Ok? ==> r.value == sparse
    ensures r.Err? ==> r.fault == NullBuffer
  {
    if !sparse then Ok(false)
    else if s.buffer.Missing? then Err(NullBuffer)
    else Ok(true)
  }
}
