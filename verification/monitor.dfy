/**
 `new_message_handler`: extract a code from an incoming message and hand it to
 `send_code_via_websocket`. The send, which the monitor schedules as a
 separate task, is taken here to run at once and atomically.
 */
module Monitor {
  import opened Wrappers
  import opened Dedup
  import opened CodePattern

  /** What one incoming message led to. */
  datatype Handled =
    | Ignored                                 // empty text, or no match
    | Forwarded(code: Code, result: StepResult) // the extracted code and the send call's result

  /** Handle one message with text `text` arriving at `now`. */
  function HandleMessage(m: Registry, text: string, now: int, link: Link, delivery: Delivery): (h: Handled)
    ensures |text| == 0 ==> h.Ignored?
    ensures h.Ignored? <==> forall p: nat :: NoMatchAt(text, p)
    ensures h.Forwarded? ==>
              (exists p: nat, from: nat, to: nat :: FirstMatch(text, p, from, to) && h.code == text[from..to])
    ensures h.Forwarded? ==>
              (h.result.outcome == Sent <==>
                 (h.code !in m || Expired(now, m[h.code])) && Active(link) && delivery == Delivered)
  {
    match ExtractCode(text)
    case None => Ignored
    case Some(code) => Forwarded(code, Step(m, code, now, link, delivery))
  }

  /** The `sent_codes` dictionary once the message has been handled. */
  function RegistryAfter(m: Registry, h: Handled): Registry {
    match h
    case Ignored => m
    case Forwarded(_, result) => result.registry
  }

  /**
   A message changes the dictionary only through its own extracted code: a
   message with no code leaves it untouched (not even pruned), and a code
   that was not remembered before is remembered afterwards only when it is
   the message's code, sent at `now`.
   */
  lemma OnlyTheMessageCodeIsAdded(m: Registry, text: string, now: int, link: Link, delivery: Delivery)
    ensures var h := HandleMessage(m, text, now, link, delivery);
            forall c :: c in RegistryAfter(m, h) && (c !in m || RegistryAfter(m, h)[c] != m[c]) ==>
              && ExtractCode(text) == Some(c)
              && h.result.outcome == Sent
              && RegistryAfter(m, h)[c] == now
  {
  }

  /** A message without a code leaves the dictionary exactly as it was. */
  lemma NoCodeNoChange(m: Registry, text: string, now: int, link: Link, delivery: Delivery)
    requires forall p: nat :: NoMatchAt(text, p)
    ensures RegistryAfter(m, HandleMessage(m, text, now, link, delivery)) == m
  {
  }
}
