/** coreSink.Record of audit/sink_http.go: the bounded retry loop of one delivery. */
module AuditSink {
  import opened Wrappers

  datatype Reply = NetworkError | Status(code: int)

  datatype SinkError = MarshalFailed | BuildFailed | LastNetworkError | LastStatus(code: int)

  const MAX_ATTEMPTS := 3
  const BACKOFF_MS := 500

  predicate Succeeds(r: Reply) {
    r.Status? && 200 <= r.code < 300
  }

  /** Network errors, 429 and 5xx are worth another attempt. */
  predicate Retryable(r: Reply) {
    r.NetworkError? || r.code == 429 || r.code >= 500
  }

  function AsError(r: Reply): SinkError {
    match r
    case NetworkError => LastNetworkError
    case Status(code) => LastStatus(code)
  }

  /** The reply that decides a delivery: the first one not worth a retry, or the last one allowed. */
  ghost predicate Decides(replies: seq<Reply>, k: nat) {
    && k < MAX_ATTEMPTS && k < |replies|
    && (forall i | 0 <= i < k :: Retryable(replies[i]))
    && (!Retryable(replies[k]) || k == MAX_ATTEMPTS - 1)
  }

  /** Milliseconds slept before the attempts up to the k-th (counted from zero). */
  function SleptBefore(k: nat): nat {
    if k == 0 then 0 else SleptBefore(k - 1) + k * BACKOFF_MS
  }

  /** What a delivery reports: the failure to build its request, or what the deciding reply says. */
  ghost predicate Reports(marshals: bool, builds: bool, replies: seq<Reply>, err: Option<SinkError>, attempts: nat, slept: nat) {
    if !marshals then err == Some(MarshalFailed) && attempts == 0 && slept == 0
    else if !builds then err == Some(BuildFailed) && attempts == 0 && slept == 0
    else
      && 1 <= attempts && Decides(replies, attempts - 1)
      && slept == SleptBefore(attempts - 1)
      && err == if Succeeds(replies[attempts - 1]) then None else Some(AsError(replies[attempts - 1]))
  }

  /**
   * Posts one event. `replies` are core's answers to successive attempts; marshalling and request
   * building either work or fail the same way each time.
   */
  method Record(marshals: bool, builds: bool, replies: seq<Reply>)
    returns (err: Option<SinkError>, attempts: nat, slept: nat)
    requires |replies| >= MAX_ATTEMPTS
    ensures Reports(marshals, builds, replies, err, attempts, slept)
  {
    attempts, slept, err := 0, 0, None;
    if !marshals {
      return Some(MarshalFailed), 0, 0;
    }
    for attempt := 0 to MAX_ATTEMPTS
      invariant attempts == attempt
      invariant attempt > 0 ==> builds && slept == SleptBefore(attempt - 1) && err == Some(AsError(replies[attempt - 1]))
      invariant attempt == 0 ==> slept == 0
      invariant forall i | 0 <= i < attempt :: Retryable(replies[i])
    {
      if attempt > 0 {
        slept := slept + attempt * BACKOFF_MS;
      }
      if !builds {
        return Some(BuildFailed), 0, slept;
      }
      attempts := attempt + 1;
      var reply := replies[attempt];
      if reply == NetworkError {
        err := Some(LastNetworkError);
        continue;
      }
      if 200 <= reply.code < 300 {
        return None, attempts, slept;
      }
      err := Some(LastStatus(reply.code));
      if reply.code != 429 && reply.code < 500 {
        return err, attempts, slept;
      }
    }
  }

  /** Exactly one reply decides, it comes within three attempts, and at most 1500 ms are slept. */
  lemma DeliveryIsBounded(replies: seq<Reply>)
    requires |replies| >= MAX_ATTEMPTS
    ensures exists k: nat :: Decides(replies, k)
    ensures forall j: nat, k: nat | Decides(replies, j) && Decides(replies, k) :: j == k
    ensures forall k: nat | Decides(replies, k) :: SleptBefore(k) <= 1500
  {
    assert SleptBefore(0) == 0 && SleptBefore(1) == 500 && SleptBefore(2) == 1500;
    if !Retryable(replies[0]) {
      assert Decides(replies, 0);
    } else if !Retryable(replies[1]) {
      assert Decides(replies, 1);
    } else {
      assert Decides(replies, 2);
    }
  }

  /**
   * The numbers: one attempt more after each network error, 429 or 5xx, up to three; 500 ms of back-off before
   * the second and 1000 ms before the third; success exactly when the last attempt is answered with 2xx.
   */
  lemma ReportsExactly(marshals: bool, builds: bool, replies: seq<Reply>, err: Option<SinkError>, attempts: nat, slept: nat)
    requires |replies| >= 3 && Reports(marshals, builds, replies, err, attempts, slept)
    ensures
      var again0 := replies[0].NetworkError? || replies[0].code == 429 || replies[0].code >= 500;
      var again1 := replies[1].NetworkError? || replies[1].code == 429 || replies[1].code >= 500;
      if !marshals || !builds then
        attempts == 0 && slept == 0 && err == Some(if !marshals then MarshalFailed else BuildFailed)
      else
        && attempts == (if !again0 then 1 else if !again1 then 2 else 3)
        && slept == (if !again0 then 0 else if !again1 then 500 else 1500)
        && err == (match replies[attempts - 1]
                   case NetworkError => Some(LastNetworkError)
                   case Status(code) => if 200 <= code < 300 then None else Some(LastStatus(code)))
  {
    assert SleptBefore(0) == 0 && SleptBefore(1) == 500 && SleptBefore(2) == 1500;
    if marshals && builds {
      var k := attempts - 1;
      assert Decides(replies, k);
      assert k > 0 ==> Retryable(replies[0]);
      assert k > 1 ==> Retryable(replies[1]);
    }
  }
}
