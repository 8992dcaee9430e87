/**
  The queue consumer of src/account-lifecycle-mail-consumer.ts: each message of a batch is opened,
  judged by the clock, perhaps sent, and settled once; a message that is retried is delivered again, as
  often as wrangler.account-mailer.jsonc lets it.
*/
module MailConsumer {
  import opened Base64
  import opened Json
  import opened JsonText
  import opened MailEnvelope
  import opened Options

  const MAX_BATCH := 10
  const CLOCK_SKEW_MS := 60_000

  datatype SendOutcome = Accepted | Refused | TimedOut | Threw

  datatype Settlement = Ack | Retry(delaySeconds: nat)

  datatype Report =
    | BatchInvalid | MessageInvalid | MessageUnreadable | ClockInvalid | MessageExpired | DeliveryFailed

  /** One delivery of a message: what opening it yields, the clock if it is finite, and its send. */
  datatype Attempt = Attempt(mail: OpenMail, clock: Option<int>, outcome: SendOutcome)

  /** A comparison with a date that cannot be parsed is false. */
  predicate After(calendar: Calendar, date: Utf16, time: int) {
    calendar.parse(date).Some? && calendar.parse(date).value > time
  }

  predicate NotAfter(calendar: Calendar, date: Utf16, time: int) {
    calendar.parse(date).Some? && calendar.parse(date).value <= time
  }

  predicate ClockUsable(calendar: Calendar, a: Attempt)
    requires a.mail.Decoded?
  {
    a.clock.Some? && !After(calendar, a.mail.queuedAt, a.clock.value + CLOCK_SKEW_MS)
  }

  /** The attempts on which a mail is handed to the sender. */
  predicate Sends(calendar: Calendar, a: Attempt) {
    && a.mail.Decoded? && ClockUsable(calendar, a) && a.mail.delivery.disposition.Deliver?
    && !NotAfter(calendar, a.mail.delivery.expiresAt, a.clock.value)
  }

  function Verdict(calendar: Calendar, a: Attempt): Settlement {
    if a.mail.Invalid? then Ack
    else if !a.mail.Decoded? || !ClockUsable(calendar, a) then Retry(60)
    else if Sends(calendar, a) && !a.outcome.Accepted? then Retry(60)
    else Ack
  }

  /** The clock is finite, and the mail was queued at most a minute after it. */
  predicate InTime(calendar: Calendar, queuedAt: Utf16, clock: Option<int>) {
    clock.Some? && (calendar.parse(queuedAt).Some? ==> calendar.parse(queuedAt).value <= clock.value + 60_000)
  }

  predicate Expired(calendar: Calendar, d: Delivery, now: int) {
    calendar.parse(d.expiresAt).Some? && calendar.parse(d.expiresAt).value <= now
  }

  /**
    What it takes for a message to be done with: it is malformed, or it is read in time and is
    suppressed, expired, or sent.
  */
  predicate Settles(calendar: Calendar, a: Attempt) {
    match a.mail
    case Invalid => true
    case UnknownKey => false
    case Unreadable => false
    case Decoded(d, queuedAt) =>
      && InTime(calendar, queuedAt, a.clock)
      && (d.disposition == Suppress || Expired(calendar, d, a.clock.value) || a.outcome == Accepted)
  }

  lemma VerdictIs(calendar: Calendar, a: Attempt)
    ensures Verdict(calendar, a) == if Settles(calendar, a) then Ack else Retry(60)
  {
  }

  // ----- One message over its redeliveries -----

  /** How often the configured queues deliver a message again before they give it up. */
  const MAX_RETRIES := 3

  datatype Fate = Queued | Acknowledged | DeadLettered

  /** What has become of a message, how many sends were accepted, and how often it was delivered. */
  datatype Life = Life(fate: Fate, accepted: nat, attempts: nat)

  /** A message is delivered again until it is acknowledged, or until its retries are used up. */
  function Live(calendar: Calendar, retries: nat, attempts: seq<Attempt>): Life {
    if attempts == [] then Life(Queued, 0, 0)
    else
      var life := Live(calendar, retries, attempts[..|attempts| - 1]);
      var a := attempts[|attempts| - 1];
      if !life.fate.Queued? then life
      else
        Life(if Verdict(calendar, a).Ack? then Acknowledged
             else if life.attempts == retries then DeadLettered else Queued,
             life.accepted + if Sends(calendar, a) && a.outcome.Accepted? then 1 else 0, life.attempts + 1)
  }

  /**
    A message is acknowledged by the first attempt that acknowledges it, if that is within its
    retries; it is dead-lettered once all of them ask for another.
  */
  lemma {:induction false} LastAttempt(calendar: Calendar, retries: nat, attempts: seq<Attempt>)
    ensures var life := Live(calendar, retries, attempts);
            && life.attempts <= |attempts| && life.attempts <= retries + 1
            && (life.fate.Queued? ==> life.attempts == |attempts| <= retries)
            && (life.fate.Acknowledged? ==> life.attempts > 0 && Verdict(calendar, attempts[life.attempts - 1]).Ack?)
            && (life.fate.DeadLettered? ==> life.attempts == retries + 1)
            && (forall i :: 0 <= i < life.attempts && (!life.fate.Acknowledged? || i < life.attempts - 1) ==>
                  Verdict(calendar, attempts[i]).Retry?)
  {
    hide Verdict, Sends;
    if attempts == [] {
    } else {
      LastAttempt(calendar, retries, attempts[..|attempts| - 1]);
    }
  }

  /** At most one accepted send, and it is the message's last attempt. */
  lemma {:induction false} AcceptedOnce(calendar: Calendar, retries: nat, attempts: seq<Attempt>)
    ensures var life := Live(calendar, retries, attempts);
            && life.accepted <= 1
            && (life.accepted == 1 ==> life.fate.Acknowledged?)
  {
    if attempts == [] {
    } else {
      AcceptedOnce(calendar, retries, attempts[..|attempts| - 1]);
    }
  }

  /** Some delivery within the retries settles the message. */
  ghost predicate SettlesInTime(calendar: Calendar, retries: nat, attempts: seq<Attempt>) {
    exists i :: 0 <= i < |attempts| && i <= retries && Settles(calendar, attempts[i])
  }

  /**
    Whatever its deliveries find, some readable and some not, a message is acknowledged exactly when
    one of them within its retries settles it, and given up exactly when they are used up without that.
  */
  lemma FateIff(calendar: Calendar, retries: nat, attempts: seq<Attempt>)
    ensures var fate := Live(calendar, retries, attempts).fate;
            && (fate.Acknowledged? <==> SettlesInTime(calendar, retries, attempts))
            && (fate.DeadLettered? <==> |attempts| > retries && !SettlesInTime(calendar, retries, attempts))
  {
    hide Verdict, Settles;
    LastAttempt(calendar, retries, attempts);
    forall i | 0 <= i < |attempts|
      ensures Verdict(calendar, attempts[i]).Ack? <==> Settles(calendar, attempts[i])
    {
      VerdictIs(calendar, attempts[i]);
    }
  }

  /** The mail cannot be read on this delivery, as while its key has not reached the consumer. */
  predicate Unread(a: Attempt) {
    a.mail == UnknownKey || a.mail == Unreadable
  }

  /** A message that is never readable is retried, and given up with its retries, never acknowledged. */
  lemma NeverReadable(calendar: Calendar, retries: nat, attempts: seq<Attempt>)
    requires forall i :: 0 <= i < |attempts| ==> Unread(attempts[i])
    ensures Live(calendar, retries, attempts).fate == if |attempts| > retries then DeadLettered else Queued
    ensures Live(calendar, retries, attempts).accepted == 0
  {
    FateIff(calendar, retries, attempts);
    AcceptedOnce(calendar, retries, attempts);
  }

  /** An attempt that ends a deliver message: read in time, it is expired, or its send is accepted. */
  predicate Ends(calendar: Calendar, a: Attempt) {
    && a.mail.Decoded? && InTime(calendar, a.mail.queuedAt, a.clock)
    && (Expired(calendar, a.mail.delivery, a.clock.value) || a.outcome == Accepted)
  }

  /** Some delivery within the retries ends the message. */
  ghost predicate EndsInTime(calendar: Calendar, retries: nat, attempts: seq<Attempt>) {
    exists i :: 0 <= i < |attempts| && i <= retries && Ends(calendar, attempts[i])
  }

  /**
    A deliver message, readable on some attempts and not on others, is acknowledged exactly when,
    within its retries, it is read in time and a send is accepted or its expiry has passed; and it is
    dead-lettered, unsent and perhaps unexpired, exactly when its retries are used up without that.
  */
  lemma DeliverLeaves(calendar: Calendar, retries: nat, attempts: seq<Attempt>, d: Delivery, queuedAt: Utf16)
    requires d.disposition.Deliver?
    requires forall i :: 0 <= i < |attempts| ==> attempts[i].mail == Decoded(d, queuedAt) || Unread(attempts[i])
    ensures var fate := Live(calendar, retries, attempts).fate;
            && (fate.Acknowledged? <==> EndsInTime(calendar, retries, attempts))
            && (fate.DeadLettered? <==> |attempts| > retries && !EndsInTime(calendar, retries, attempts))
  {
    hide InTime, Expired;
    FateIff(calendar, retries, attempts);
    assert forall i :: 0 <= i < |attempts| ==> (Settles(calendar, attempts[i]) <==> Ends(calendar, attempts[i]));
  }

  /** With the configured retries, a mail whose send is refused four times is given up unsent. */
  lemma FourRefusals(calendar: Calendar, a: Attempt)
    requires Sends(calendar, a) && !a.outcome.Accepted?
    ensures Live(calendar, MAX_RETRIES, [a, a, a, a]) == Life(DeadLettered, 0, 4) && !Ends(calendar, a)
  {
    hide Sends;
    var attempts := [a, a, a, a];
    assert attempts[..3] == [a, a, a] && [a, a, a][..2] == [a, a] && [a, a][..1] == [a] && [a][..0] == [];
    assert Verdict(calendar, a).Retry? && !Ends(calendar, a) by { RefusedRetries(calendar, a); }
    hide Verdict, Ends;
    assert Live(calendar, MAX_RETRIES, [a]) == Life(Queued, 0, 1);
    assert Live(calendar, MAX_RETRIES, [a, a]) == Life(Queued, 0, 2);
    assert Live(calendar, MAX_RETRIES, [a, a, a]) == Life(Queued, 0, 3);
  }

  lemma RefusedRetries(calendar: Calendar, a: Attempt)
    requires Sends(calendar, a) && !a.outcome.Accepted?
    ensures Verdict(calendar, a).Retry? && !Ends(calendar, a)
  {
  }

  /**
    From the producer to the consumer: while the key that sealed it is kept, or has not arrived yet
    and no other goes by its name, a deliver mail is acknowledged exactly when an attempt within its
    retries reads it in time and finds it expired or has its send accepted, and dead-lettered exactly
    when they are used up without that; and a suppressed one is never handed to the sender.
  */
  lemma SealedMailIsDelivered(sealer: Codec, openers: seq<Codec>, calendar: Calendar, aead: Aead, v: Value, now: int,
                              noise: seq<Byte>, iv: seq<Byte>, envelope: Value, retries: nat, attempts: seq<Attempt>)
    requires calendar.Lawful() && aead.Lawful() && sealer.Valid() && |noise| == BLOCK_BYTES && |iv| == 12
    requires |openers| == |attempts|
    requires forall i :: 0 <= i < |openers| ==> Holds(openers[i], sealer) || sealer.activeKeyId !in openers[i].keys
    ensures && SealResult(sealer, calendar, aead, v, now, noise, iv) == Some(envelope) && now >= FIRST_FOUR_DIGIT
            && OpenedBy(openers, calendar, aead, envelope, attempts)
            ==> if ParseDelivery(calendar, v).value.disposition.Deliver? then
                  var fate := Live(calendar, retries, attempts).fate;
                  && (fate.Acknowledged? <==> EndsInTime(calendar, retries, attempts))
                  && (fate.DeadLettered? <==> |attempts| > retries && !EndsInTime(calendar, retries, attempts))
                else
                  forall i :: 0 <= i < |attempts| ==> !Sends(calendar, attempts[i])
  {
    hide SealResult, SealRequest, Open, ParseDelivery, Live, EndsInTime;
    if SealResult(sealer, calendar, aead, v, now, noise, iv) == Some(envelope) && now >= FIRST_FOUR_DIGIT
       && OpenedBy(openers, calendar, aead, envelope, attempts) {
      OpenSealed(sealer, sealer, calendar, aead, v, now, noise, iv);
      var d := ParseDelivery(calendar, v).value;
      forall i | 0 <= i < |attempts|
        ensures attempts[i].mail == if Holds(openers[i], sealer) then Decoded(d, calendar.iso(now)) else UnknownKey
      {
        if Holds(openers[i], sealer) {
          OpenSealed(sealer, openers[i], calendar, aead, v, now, noise, iv);
        } else {
          OpenWithoutKey(sealer, openers[i], calendar, aead, v, now, noise, iv);
        }
      }
      if d.disposition.Deliver? {
        DeliverLeaves(calendar, retries, attempts, d, calendar.iso(now));
      }
    }
  }

  /** The key that a mail was sealed with is among those that open it. */
  predicate Holds(opener: Codec, sealer: Codec)
    requires sealer.Valid()
  {
    sealer.activeKeyId in opener.keys && opener.keys[sealer.activeKeyId] == sealer.keys[sealer.activeKeyId]
  }

  ghost predicate OpenedBy(openers: seq<Codec>, calendar: Calendar, aead: Aead, envelope: Value, attempts: seq<Attempt>)
    requires |openers| == |attempts|
  {
    forall i :: 0 <= i < |attempts| ==> attempts[i].mail == Open(openers[i], calendar, aead, envelope)
  }

  // ----- The batch -----

  /** A queue message: its body, and what has been called on it. */
  class Message {
    const body: Value
    var calls: seq<Settlement>

    constructor (body: Value)
      ensures this.body == body && calls == []
    {
      this.body := body;
      calls := [];
    }

    method AckMessage()
      modifies this
      ensures calls == old(calls) + [Ack]
    {
      calls := calls + [Ack];
    }

    method RetryMessage(delaySeconds: nat)
      modifies this
      ensures calls == old(calls) + [Retry(delaySeconds)]
    {
      calls := calls + [Retry(delaySeconds)];
    }
  }

  /** What the surroundings answer while the message at an index is handled. */
  datatype World = World(codec: Codec, calendar: Calendar, aead: Aead,
                         clock: nat -> Option<int>, send: nat -> SendOutcome)

  function AttemptAt(w: World, messages: seq<Message>, i: nat): Attempt
    requires i < |messages|
  {
    Attempt(Open(w.codec, w.calendar, w.aead, messages[i].body), w.clock(i), w.send(i))
  }

  function ReportOf(calendar: Calendar, a: Attempt): seq<Report> {
    if a.mail.Invalid? then [MessageInvalid]
    else if !a.mail.Decoded? then [MessageUnreadable]
    else if !ClockUsable(calendar, a) then [ClockInvalid]
    else if Sends(calendar, a) then if a.outcome.Accepted? then [] else [DeliveryFailed]
    else if a.mail.delivery.disposition.Suppress? then []
    else [MessageExpired]
  }

  /** At most one report a message, and which. */
  lemma ReportsAre(calendar: Calendar, a: Attempt)
    ensures var r := ReportOf(calendar, a);
            && |r| <= 1
            && (r == [MessageInvalid] <==> a.mail == Invalid)
            && (r == [MessageUnreadable] <==> Unread(a))
            && (r == [ClockInvalid] <==> a.mail.Decoded? && !InTime(calendar, a.mail.queuedAt, a.clock))
            && (r == [MessageExpired] <==>
                  && a.mail.Decoded? && InTime(calendar, a.mail.queuedAt, a.clock)
                  && a.mail.delivery.disposition == Deliver && Expired(calendar, a.mail.delivery, a.clock.value))
            && (r == [DeliveryFailed] <==>
                  && a.mail.Decoded? && InTime(calendar, a.mail.queuedAt, a.clock)
                  && a.mail.delivery.disposition == Deliver && !Expired(calendar, a.mail.delivery, a.clock.value)
                  && a.outcome != Accepted)
  {
  }

  function ReportsUpTo(w: World, messages: seq<Message>, n: nat): seq<Report>
    requires n <= |messages|
  {
    if n == 0 then []
    else ReportsUpTo(w, messages, n - 1) + ReportOf(w.calendar, AttemptAt(w, messages, n - 1))
  }

  /** The indices of the messages whose mail is handed to the sender, in order. */
  function SentUpTo(w: World, messages: seq<Message>, n: nat): seq<nat>
    requires n <= |messages|
  {
    if n == 0 then []
    else SentUpTo(w, messages, n - 1) + if Sends(w.calendar, AttemptAt(w, messages, n - 1)) then [n - 1] else []
  }

  /** A mail that may be sent: it is to be delivered, was not queued in the future, and has not expired. */
  ghost predicate Due(w: World, message: Message, time: Option<int>) {
    exists d, queuedAt ::
      && Open(w.codec, w.calendar, w.aead, message.body) == Decoded(d, queuedAt)
      && d.disposition == Deliver && time.Some?
      && (w.calendar.parse(queuedAt).Some? ==> w.calendar.parse(queuedAt).value <= time.value + 60_000)
      && (w.calendar.parse(d.expiresAt).Some? ==> time.value < w.calendar.parse(d.expiresAt).value)
  }

  /**
    Of a batch, exactly the mails that are due are handed to the sender, each once and in order:
    none that is suppressed, expired, future-dated or undecodable.
  */
  lemma {:induction false} SentAreDue(w: World, messages: seq<Message>, n: nat)
    requires n <= |messages|
    ensures forall i :: i in SentUpTo(w, messages, n) <==> 0 <= i < n && Due(w, messages[i], w.clock(i))
    ensures forall a, b :: 0 <= a < b < |SentUpTo(w, messages, n)| ==>
              SentUpTo(w, messages, n)[a] < SentUpTo(w, messages, n)[b]
  {
    hide Open, Sends, Due, AttemptAt;
    if n == 0 {
    } else {
      var before := SentUpTo(w, messages, n - 1);
      SentAreDue(w, messages, n - 1);
      DueIff(w, messages, n - 1);
      assert forall a :: 0 <= a < |before| ==> before[a] in before;
    }
  }

  lemma DueIff(w: World, messages: seq<Message>, i: nat)
    requires i < |messages|
    ensures Due(w, messages[i], w.clock(i)) <==> Sends(w.calendar, AttemptAt(w, messages, i))
  {
    hide Open;
    var mail := Open(w.codec, w.calendar, w.aead, messages[i].body);
    if mail.Decoded? {
      assert mail == Decoded(mail.delivery, mail.queuedAt);
    }
  }

  method ConsumeOne(w: World, message: Message, i: nat) returns (reports: seq<Report>, sent: bool)
    modifies message
    ensures var a := Attempt(Open(w.codec, w.calendar, w.aead, message.body), w.clock(i), w.send(i));
            && message.calls == old(message.calls) + [if Settles(w.calendar, a) then Ack else Retry(60)]
            && reports == ReportOf(w.calendar, a)
            && sent == Sends(w.calendar, a)
  {
    hide Open;
    var result := Open(w.codec, w.calendar, w.aead, message.body);
    if result.Invalid? {
      message.AckMessage();
      return [MessageInvalid], false;
    }
    if !result.Decoded? {
      message.RetryMessage(60);
      return [MessageUnreadable], false;
    }
    var timestamp := w.clock(i);
    if timestamp.None? || After(w.calendar, result.queuedAt, timestamp.value + CLOCK_SKEW_MS) {
      message.RetryMessage(60);
      return [ClockInvalid], false;
    }
    if result.delivery.disposition.Suppress? {
      message.AckMessage();
      return [], false;
    }
    if NotAfter(w.calendar, result.delivery.expiresAt, timestamp.value) {
      message.AckMessage();
      return [MessageExpired], false;
    }
    var accepted := w.send(i) == Accepted;
    if accepted {
      message.AckMessage();
      return [], true;
    }
    message.RetryMessage(60);
    return [DeliveryFailed], true;
  }

  /**
    The settle loop: a batch of more than ten is refused whole; otherwise every message is settled
    exactly once, in its own way.
  */
  method ConsumeAccountLifecycleMail(w: World, messages: seq<Message>)
    returns (ok: bool, reports: seq<Report>, sent: seq<nat>)
    requires forall i, j :: 0 <= i < j < |messages| ==> messages[i] != messages[j]
    modifies set m | m in messages
    ensures ok == (|messages| <= 10)
    ensures !ok ==> reports == [BatchInvalid] && sent == []
    ensures !ok ==> forall m :: m in messages ==> m.calls == old(m.calls)
    ensures ok ==> forall i :: 0 <= i < |messages| ==>
              messages[i].calls == old(messages[i].calls)
                                 + [if Settles(w.calendar, AttemptAt(w, messages, i)) then Ack else Retry(60)]
    ensures ok ==> reports == ReportsUpTo(w, messages, |messages|) && sent == SentUpTo(w, messages, |messages|)
  {
    hide Open, Settles, ReportOf, Sends;
    if |messages| > MAX_BATCH {
      return false, [BatchInvalid], [];
    }
    reports, sent := [], [];
    for n := 0 to |messages|
      invariant forall i :: 0 <= i < n ==>
                  messages[i].calls == old(messages[i].calls)
                                     + [if Settles(w.calendar, AttemptAt(w, messages, i)) then Ack else Retry(60)]
      invariant forall i :: n <= i < |messages| ==> messages[i].calls == old(messages[i].calls)
      invariant reports == ReportsUpTo(w, messages, n) && sent == SentUpTo(w, messages, n)
    {
      var said, handed := ConsumeOne(w, messages[n], n);
      reports := reports + said;
      if handed {
        sent := sent + [n];
      }
    }
    ok := true;
  }
}
