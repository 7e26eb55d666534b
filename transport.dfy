/** The VISA session as the library sees it: the calls it makes into the
    formatted-I/O object, recorded as a trace, and the answers the device
    gives, supplied as a script. The VISA COM library itself is not part of
    this model. */
module Transport {
  import opened Outcomes

  newtype byte = x: int | 0 <= x < 256

  /** Element types of block and number reads (IEEEBinaryType / IEEEASCIIType). */
  datatype NumberType = I4 | R4 | R8

  /** One call into the formatted-I/O object. */
  datatype Op =
    | WriteText(command: string)                    // io.WriteString(command, true)
    | WriteBlock(command: string, data: seq<byte>)  // io.WriteIEEEBlock(command, data, true)
    | ReadText                                      // io.ReadString()
    | ReadBinaryBlock(kind: NumberType)             // io.ReadIEEEBlock(kind, true, true)
    | ReadNumber(kind: NumberType)                  // io.ReadNumber(kind, true)
  {
    predicate IsWrite() { WriteText? || WriteBlock? }
  }

  /** A call, with the session timeout (ms) in force while it ran. */
  datatype IoEvent = IoEvent(op: Op, timeoutMs: int)

  /** An answer of the device: its text, and how long after a read starts it arrives. */
  datatype Reply = Reply(text: string, latencyMs: nat)

  /** A read under `timeoutMs` gets the first queued answer when that answer arrives in time. */
  predicate Answers(replies: seq<Reply>, timeoutMs: int)
  {
    |replies| > 0 && replies[0].latencyMs <= timeoutMs
  }

  /** What a read under `timeoutMs` returns. */
  function Receive(replies: seq<Reply>, timeoutMs: int): (r: Result<string>)
    ensures r.Ok? <==> Answers(replies, timeoutMs)
    ensures r.Err? ==> r.error == BusTimeout
  {
    if Answers(replies, timeoutMs) then Ok(replies[0].text) else Err(BusTimeout)
  }

  /** The answers still queued after that read: the read consumes one answer
      from the front of the queue when it returns a value, and none when it
      times out. */
  function Remaining(replies: seq<Reply>, timeoutMs: int): (rest: seq<Reply>)
    ensures |replies| - |rest| == (if Receive(replies, timeoutMs).Ok? then 1 else 0)
    ensures rest == replies[|replies| - |rest|..]
  {
    if Answers(replies, timeoutMs) then replies[1..] else replies
  }
}
