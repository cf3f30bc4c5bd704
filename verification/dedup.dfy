/**
 The recent-code duplicate window of the Telegram monitor (`send_code_via_websocket`).

 The monitor keeps a dictionary from code string to the time the code was last
 sent. One call prunes expired entries, drops a code that is still remembered,
 and otherwise tries to send it; the code is remembered only when the send
 went through. Time is an integer number of seconds supplied by the caller,
 and the state of the connection and the fate of the send are inputs.
 */
module Dedup {

  /** `DUPLICATE_CODE_TIMEOUT_SECONDS = 60 * 5`. */
  const DuplicateTimeoutSeconds: int := 60 * 5

  type Code = string

  /** `sent_codes`: code -> time it was sent. */
  type Registry = map<Code, int>

  /** The global `websocket_connection`: `None`, a closed connection, or an open one. */
  datatype Link = NoConnection | Closed | Open

  /** What `await websocket_connection.send(...)` did: returned, or raised. */
  datatype Delivery = Delivered | Raised

  /** Which of the four exits of one call was taken. */
  datatype Outcome =
    | Duplicate    // still remembered: early return, nothing sent
    | Sent         // sent and remembered at the current time
    | SendFailed   // the send raised; nothing remembered
    | Inactive     // no open connection; nothing sent

  datatype StepResult = StepResult(registry: Registry, outcome: Outcome)

  /** An entry is dropped when its age is strictly greater than the timeout. */
  predicate Expired(now: int, sentAt: int) {
    now - sentAt > DuplicateTimeoutSeconds
  }

  /** Every remembered code is at most `DuplicateTimeoutSeconds` old at time `now`. */
  ghost predicate Fresh(m: Registry, now: int) {
    forall c :: c in m ==> !Expired(now, m[c])
  }

  /** The first phase of a call: forget every code whose age exceeds the timeout. */
  function Prune(m: Registry, now: int): (r: Registry)
    ensures forall c :: c in r <==> c in m && !Expired(now, m[c])
    ensures forall c :: c in r ==> r[c] == m[c]
  {
    map c | c in m && !Expired(now, m[c]) :: m[c]
  }

  /** The connection test `websocket_connection and not websocket_connection.closed`. */
  predicate Active(link: Link) {
    link == Open
  }

  /** One call of `send_code_via_websocket(code)` at time `now`. */
  function Step(m: Registry, code: Code, now: int, link: Link, delivery: Delivery): (r: StepResult)
    ensures Fresh(r.registry, now)
    ensures r.outcome == Duplicate <==> code in m && !Expired(now, m[code])
    ensures r.outcome == Sent <==>
              (code !in m || Expired(now, m[code])) && Active(link) && delivery == Delivered
    ensures r.outcome == SendFailed <==>
              (code !in m || Expired(now, m[code])) && Active(link) && delivery == Raised
    ensures r.outcome == Inactive <==> (code !in m || Expired(now, m[code])) && !Active(link)
    ensures r.outcome == Sent ==> code in r.registry && r.registry[code] == now
    ensures r.outcome != Sent ==> r.registry == Prune(m, now)
    ensures forall c :: c != code ==> (c in r.registry <==> c in m && !Expired(now, m[c]))
    ensures forall c :: c in r.registry && c != code ==> r.registry[c] == m[c]
  {
    var pruned := Prune(m, now);
    if code in pruned then
      StepResult(pruned, Duplicate)
    else if !Active(link) then
      StepResult(pruned, Inactive)
    else if delivery == Raised then
      StepResult(pruned, SendFailed)
    else
      assert delivery == Delivered;
      assert code !in m || Expired(now, m[code]);
      StepResult(pruned[code := now], Sent)
  }

  /** A remembered code that has not expired survives any call, with its time unchanged. */
  lemma StepKeepsFresh(m: Registry, code: Code, now: int, link: Link, delivery: Delivery, c: Code)
    requires c in m && !Expired(now, m[c])
    ensures c in Step(m, code, now, link, delivery).registry
    ensures Step(m, code, now, link, delivery).registry[c] == m[c]
  {
    if c == code {
      assert Step(m, code, now, link, delivery).outcome == Duplicate;
    }
  }

  /** Pruning twice at the same time is pruning once. */
  lemma PruneIdempotent(m: Registry, now: int)
    ensures Prune(Prune(m, now), now) == Prune(m, now)
  {
  }

  /** A registry every entry of which is fresh is left alone by pruning. */
  lemma PruneFreshIsIdentity(m: Registry, now: int)
    requires Fresh(m, now)
    ensures Prune(m, now) == m
  {
  }

  /**
   Pruning is monotone in time: pruning at `now` and then at a later `later`
   forgets exactly what pruning at `later` alone forgets.
   */
  lemma PruneLater(m: Registry, now: int, later: int)
    requires now <= later
    ensures Prune(Prune(m, now), later) == Prune(m, later)
  {
  }

  /**
   The window, stated on two calls: a code sent at `t` is a duplicate at `t2`
   exactly when `t2 - t <= 300`; one second later it can be sent again.
   */
  lemma WindowAfterSend(m: Registry, code: Code, t: int, t2: int, link: Link, delivery: Delivery)
    requires Step(m, code, t, Open, Delivered).outcome == Sent
    ensures (Step(Step(m, code, t, Open, Delivered).registry, code, t2, link, delivery).outcome == Duplicate)
            <==> t2 - t <= DuplicateTimeoutSeconds
  {
  }

  /**
   Suppression is idempotent: once a call has sent or suppressed a code, the
   same call repeated at the same time is a duplicate and changes nothing.
   */
  lemma RepeatIsDuplicate(m: Registry, code: Code, now: int, link: Link, delivery: Delivery,
                          link2: Link, delivery2: Delivery)
    requires Step(m, code, now, link, delivery).outcome in {Sent, Duplicate}
    ensures Step(Step(m, code, now, link, delivery).registry, code, now, link2, delivery2)
              == StepResult(Step(m, code, now, link, delivery).registry, Duplicate)
  {
    var r := Step(m, code, now, link, delivery);
    PruneFreshIsIdentity(r.registry, now);
  }

  /**
   A failed or impossible send leaves the code unremembered, so the next call
   for it at any time sends it when the connection is open and the send succeeds.
   */
  lemma FailureAllowsRetry(m: Registry, code: Code, now: int, link: Link, delivery: Delivery, later: int)
    requires Step(m, code, now, link, delivery).outcome in {SendFailed, Inactive}
    ensures code !in Step(m, code, now, link, delivery).registry
    ensures Step(Step(m, code, now, link, delivery).registry, code, later, Open, Delivered).outcome == Sent
  {
  }
}
