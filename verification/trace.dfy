/**
 Sequences of calls of `send_code_via_websocket`, each taken as one atomic
 step on the shared `sent_codes` dictionary. The theorems here are the window
 promise over whole histories: starting from an empty dictionary and with a
 clock that does not go back, a code is suppressed exactly when it was sent
 successfully no more than `DuplicateTimeoutSeconds` earlier.
 */
module Trace {
  import opened Dedup

  /** One call: the code, the call's clock reading, the connection, the send's fate. */
  datatype Call = Call(code: Code, now: int, link: Link, delivery: Delivery)

  function Apply(m: Registry, call: Call): StepResult {
    Step(m, call.code, call.now, call.link, call.delivery)
  }

  /** The dictionary after running `calls` in order from `m`. */
  function After(m: Registry, calls: seq<Call>): Registry
    decreases |calls|
  {
    if |calls| == 0 then m
    else Apply(After(m, calls[..|calls| - 1]), calls[|calls| - 1]).registry
  }

  /** The exit taken by call number `j` of the history. */
  function OutcomeAt(m: Registry, calls: seq<Call>, j: nat): Outcome
    requires j < |calls|
  {
    Apply(After(m, calls[..j]), calls[j]).outcome
  }

  /** Clock readings never go backwards along the history. */
  ghost predicate Monotone(calls: seq<Call>) {
    forall i, j :: 0 <= i < j < |calls| ==> calls[i].now <= calls[j].now
  }

  /** Some earlier call `k < j` sent the code of call `j` at most `DuplicateTimeoutSeconds` before it. */
  ghost predicate RecentlySent(m: Registry, calls: seq<Call>, j: nat)
    requires j < |calls|
  {
    exists k :: 0 <= k < j && calls[k].code == calls[j].code && OutcomeAt(m, calls, k) == Sent
                && !Expired(calls[j].now, calls[k].now)
  }

  /** Running one more call extends the history by one step. */
  lemma AfterPrefix(m: Registry, calls: seq<Call>, n: nat)
    requires n < |calls|
    ensures After(m, calls[..n + 1]) == Apply(After(m, calls[..n]), calls[n]).registry
  {
    assert calls[..n + 1][..n] == calls[..n];
  }

  /**
   After any non-empty history every remembered code is fresh relative to the
   last call's clock.
   */
  lemma AfterIsFresh(m: Registry, calls: seq<Call>)
    requires |calls| > 0
    ensures Fresh(After(m, calls), calls[|calls| - 1].now)
  {
  }

  /** A successful send by call `i` leaves its code remembered with call `i`'s time. */
  lemma SentRecords(m: Registry, calls: seq<Call>, i: nat)
    requires i < |calls|
    requires OutcomeAt(m, calls, i) == Sent
    ensures calls[i].code in After(m, calls[..i + 1])
    ensures After(m, calls[..i + 1])[calls[i].code] == calls[i].now
  {
    AfterPrefix(m, calls, i);
  }

  /** A remembered code that call `n` does not find expired is still remembered after it. */
  lemma KeptThroughCall(m: Registry, calls: seq<Call>, n: nat, c: Code)
    requires n < |calls|
    requires c in After(m, calls[..n]) && !Expired(calls[n].now, After(m, calls[..n])[c])
    ensures c in After(m, calls[..n + 1])
    ensures After(m, calls[..n + 1])[c] == After(m, calls[..n])[c]
  {
    AfterPrefix(m, calls, n);
    var call := calls[n];
    StepKeepsFresh(After(m, calls[..n]), call.code, call.now, call.link, call.delivery, c);
  }

  /**
   A code sent by call `i` stays remembered, with call `i`'s time, through
   every later call whose clock is still within the window of that send.
   */
  lemma {:induction false} SentPersists(m: Registry, calls: seq<Call>, i: nat, n: nat)
    requires i < n <= |calls|
    requires OutcomeAt(m, calls, i) == Sent
    requires forall k :: i < k < n ==> !Expired(calls[k].now, calls[i].now)
    ensures calls[i].code in After(m, calls[..n])
    ensures After(m, calls[..n])[calls[i].code] == calls[i].now
  {
    if n == i + 1 {
      SentRecords(m, calls, i);
    } else {
      SentPersists(m, calls, i, n - 1);
      KeptThroughCall(m, calls, n - 1, calls[i].code);
    }
  }

  /**
   Every remembered code, when the history starts from an empty dictionary,
   was put there by a successful send whose time it carries.
   */
  lemma {:induction false} Provenance(calls: seq<Call>, n: nat, c: Code)
    requires n <= |calls|
    requires c in After(map[], calls[..n])
    ensures exists k :: 0 <= k < n && calls[k].code == c && OutcomeAt(map[], calls, k) == Sent
                        && calls[k].now == After(map[], calls[..n])[c]
  {
    if n > 0 {
      AfterPrefix(map[], calls, n - 1);
      var before := After(map[], calls[..n - 1]);
      var r := Apply(before, calls[n - 1]);
      if r.outcome == Sent && calls[n - 1].code == c {
        assert OutcomeAt(map[], calls, n - 1) == Sent;
      } else {
        assert c in before && r.registry[c] == before[c];
        Provenance(calls, n - 1, c);
      }
    }
  }

  /**
   With a clock that does not go back, a code sent by call `i` is a duplicate
   at every later call for the same code within the window.
   */
  lemma SuppressedInWindow(m: Registry, calls: seq<Call>, i: nat, j: nat)
    requires Monotone(calls)
    requires i < j < |calls|
    requires calls[i].code == calls[j].code
    requires OutcomeAt(m, calls, i) == Sent
    requires !Expired(calls[j].now, calls[i].now)
    ensures OutcomeAt(m, calls, j) == Duplicate
  {
    SentPersists(m, calls, i, j);
  }

  /**
   The window over a whole history: from an empty dictionary and with a clock
   that never goes back, call `j` is suppressed if and only if its code was
   sent successfully by an earlier call at most `DuplicateTimeoutSeconds` before.
   */
  lemma DuplicateIffRecentlySent(calls: seq<Call>, j: nat)
    requires Monotone(calls)
    requires j < |calls|
    ensures OutcomeAt(map[], calls, j) == Duplicate <==> RecentlySent(map[], calls, j)
  {
    if OutcomeAt(map[], calls, j) == Duplicate {
      var c := calls[j].code;
      Provenance(calls, j, c);
      var k :| 0 <= k < j && calls[k].code == c && OutcomeAt(map[], calls, k) == Sent
               && calls[k].now == After(map[], calls[..j])[c];
      assert !Expired(calls[j].now, calls[k].now);
    }
    if RecentlySent(map[], calls, j) {
      var k :| 0 <= k < j && calls[k].code == calls[j].code && OutcomeAt(map[], calls, k) == Sent
               && !Expired(calls[j].now, calls[k].now);
      SuppressedInWindow(map[], calls, k, j);
    }
  }

  /**
   At most one send per window: two successful sends of the same code in a
   history with a monotone clock are more than `DuplicateTimeoutSeconds` apart.
   */
  lemma SendsAreSpaced(m: Registry, calls: seq<Call>, i: nat, j: nat)
    requires Monotone(calls)
    requires i < j < |calls|
    requires calls[i].code == calls[j].code
    requires OutcomeAt(m, calls, i) == Sent && OutcomeAt(m, calls, j) == Sent
    ensures calls[j].now - calls[i].now > DuplicateTimeoutSeconds
  {
    if !Expired(calls[j].now, calls[i].now) {
      SuppressedInWindow(m, calls, i, j);
    }
  }

  // The history is a parameter pinned by `requires` rather than a literal, so
  // that the verifier does not unfold `After` eagerly on a literal argument.
  /**
   The spacing needs a clock that does not go back. Here `a` is sent at 1000,
   the call at 2000 forgets it, and when the clock then reads 1100, `a` is
   sent again only 100 s after its first send.
   */
  lemma ClockBackAllowsEarlyResend(calls: seq<Call>)
    requires calls == [Call("a", 1000, Open, Delivered), Call("b", 2000, Open, Delivered),
                       Call("a", 1100, Open, Delivered)]
    ensures OutcomeAt(map[], calls, 0) == Sent && OutcomeAt(map[], calls, 2) == Sent
    ensures calls[2].now - calls[0].now <= DuplicateTimeoutSeconds
  {
    assert calls[..0] == [];
    AfterPrefix(map[], calls, 0);
    AfterPrefix(map[], calls, 1);
    assert calls[..2] == calls[..1 + 1];
    var after2 := After(map[], calls[..2]);
    assert "a" !in after2 by {
      assert Apply(map[], calls[0]).registry == map["a" := 1000];
      assert After(map[], calls[..1]) == map["a" := 1000];
    }
  }
}
