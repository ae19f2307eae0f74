/** The error check after the pipeline has drained (cmd/error.go): one
    non-blocking receive from the error channel. */
module ErrorQueue {
  import opened Base

  /** The error channel's state: errors queued and not yet received, and
      whether the channel has been closed. */
  datatype ErrorChannel = ErrorChannel(pending: seq<Error>, closed: bool)

  /** `CheckError`: a queued error is received and returned (it is removed from
      the channel, the others stay); a closed, empty channel yields nil; an
      open, empty channel yields the "not closed" error without blocking. */
  function CheckError(ch: ErrorChannel): (r: (Option<Error>, ErrorChannel))
    ensures ch.pending != [] ==> r.0 == Some(ch.pending[0]) && r.1 == ch.(pending := ch.pending[1..])
    ensures ch.pending == [] ==> r.1 == ch
    ensures r.0 == None <==> ch.pending == [] && ch.closed
    ensures r.0 == Some(NotClosed) <==> (ch.pending == [] && !ch.closed) || (ch.pending != [] && ch.pending[0] == NotClosed)
  {
    if ch.pending != [] then (Some(ch.pending[0]), ch.(pending := ch.pending[1..]))
    else if ch.closed then (None, ch)
    else (Some(NotClosed), ch)
  }

  /** Whatever CheckError reports was queued, or is the "not closed" error; and
      the queue loses at most the one error reported. */
  lemma CheckErrorReportsOnlyQueued(ch: ErrorChannel)
    ensures CheckError(ch).0.Some? ==>
      CheckError(ch).0.value in ch.pending || CheckError(ch).0.value == NotClosed
    ensures ch.pending == (if CheckError(ch).0.Some? && ch.pending != [] then [CheckError(ch).0.value] else [])
                         + CheckError(ch).1.pending
  {
  }
}
