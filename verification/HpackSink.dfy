/**
 * Where decoded header octets go.  A sink is everything it has been told so far and a policy that
 * says, of every such record, whether its last event was taken: any deterministic gate is one.
 */
module HpackSink {
  import opened Bytes
  import opened HpackTable

  datatype Event = BeginField | NameOctet(octet: byte) | BeginValue | ValueOctet(octet: byte) | EndField

  type Log = seq<Event>

  type Policy = Log -> bool

  predicate Takes(policy: Policy, log: Log, events: seq<Event>) {
    forall k :: 0 < k <= |events| ==> policy(log + events[..k])
  }

  function Offer(policy: Policy, log: Log, events: seq<Event>): Option<Log> {
    if Takes(policy, log, events) then Some(log + events) else None
  }

  lemma TakesAppend(policy: Policy, log: Log, a: seq<Event>, b: seq<Event>)
    ensures Takes(policy, log, a + b) <==> Takes(policy, log, a) && Takes(policy, log + a, b)
  {
    var ab := a + b;
    if Takes(policy, log, ab) {
      forall k | 0 < k <= |a| ensures policy(log + a[..k]) { assert ab[..k] == a[..k]; }
      forall k | 0 < k <= |b| ensures policy(log + a + b[..k]) {
        assert log + ab[..|a| + k] == log + a + b[..k];
      }
    }
    if Takes(policy, log, a) && Takes(policy, log + a, b) {
      forall k | 0 < k <= |ab| ensures policy(log + ab[..k]) {
        if k <= |a| { assert ab[..k] == a[..k]; }
        else { assert log + ab[..k] == log + a + b[..k - |a|]; }
      }
    }
  }

  /** Two offers in a row are one. */
  lemma OfferAppend(policy: Policy, log: Log, a: seq<Event>, b: seq<Event>)
    ensures Offer(policy, log, a + b) ==
            match Offer(policy, log, a) case None => None case Some(next) => Offer(policy, next, b)
  {
    TakesAppend(policy, log, a, b);
    assert log + (a + b) == log + a + b;
  }

  function TextEvents(text: seq<byte>, name: bool): (events: seq<Event>)
    ensures |events| == |text|
  {
    seq(|text|, i requires 0 <= i < |text| => if name then NameOctet(text[i]) else ValueOctet(text[i]))
  }

  lemma TextEventsAppend(a: seq<byte>, b: seq<byte>, name: bool)
    ensures TextEvents(a + b, name) == TextEvents(a, name) + TextEvents(b, name)
  {
  }

  function FieldEvents(f: Field): seq<Event> {
    [BeginField] + TextEvents(f.name, true) + [BeginValue] + TextEvents(f.value, false) + [EndField]
  }

  function AllEvents(fields: seq<Field>): seq<Event> {
    if fields == [] then [] else FieldEvents(fields[0]) + AllEvents(fields[1..])
  }
}
