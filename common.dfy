/** Shared vocabulary of the model: nullable values, the response envelope
    every endpoint returns, and the millisecond clock the records carry. */
module Common {

  /** A value that may be null (`FirstOrDefault` on an empty query, a missing row). */
  datatype Option<T> = None | Some(value: T)

  /** The JSON envelope of every endpoint. `Successful` carries respcode 1200 and the
      payload; `SystemError` is the generic handler's respcode 1201 with the message of
      the exception it caught; `Unhandled` is an exception raised while the framework
      serialises a deferred query, after the handler has returned, so no respcode is sent. */
  datatype Response<T> = Successful(payload: T) | SystemError(message: string) | Unhandled(message: string)
  {
    function RespCode(): (c: int)
      requires !Unhandled?
      ensures c == 1200 <==> Successful?
      ensures c == 1201 <==> SystemError?
    {
      if Successful? then 1200 else 1201
    }
  }

  const CouldNotFindAlert: string := "Could not find the alert"
  const NullReference: string := "Object reference not set to an instance of an object."
  const InvalidThreshold: string := "Invalid threshold value"
  const BadFormat: string := "Input string was not in a correct format."

  /** A `DateTime` as milliseconds since the calendar origin (ticks are never negative). */
  type Timestamp = nat

  const MsPerSecond: nat := 1000
  const MsPerDay: nat := 86_400_000

  /** `t.AddMilliseconds(-t.Millisecond)`: the start of t's second. */
  function WithoutMilliseconds(t: Timestamp): (r: Timestamp)
    ensures r <= t < r + MsPerSecond
    ensures r % MsPerSecond == 0
  {
    t - t % MsPerSecond
  }

  /** `t.Date`: midnight of t's day. */
  function DateOf(t: Timestamp): (r: Timestamp)
    ensures r <= t < r + MsPerDay
    ensures r % MsPerDay == 0
  {
    t - t % MsPerDay
  }

  /** `t.ToString()`: a rendering at whole-second resolution, represented by the index
      of t's second. Two timestamps render alike exactly when they lie in the same second. */
  function StampOf(t: Timestamp): nat
  {
    t / MsPerSecond
  }

  lemma StampOfIsSecond(t: Timestamp, u: Timestamp)
    ensures StampOf(t) == StampOf(u) <==> WithoutMilliseconds(t) == WithoutMilliseconds(u)
  {
    assert t == StampOf(t) * MsPerSecond + t % MsPerSecond;
    assert u == StampOf(u) * MsPerSecond + u % MsPerSecond;
    assert WithoutMilliseconds(t) == StampOf(t) * MsPerSecond;
    assert WithoutMilliseconds(u) == StampOf(u) * MsPerSecond;
  }
}
