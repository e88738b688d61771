/**
 * Prefix integers (section 5.1 of RFC 7541), read one octet at a time.
 *
 * `Progress` is what a reader has concluded so far; `Start` and `Next` are the reader's two
 * steps on values, and the class below performs them in place.  What the octets are supposed
 * to mean is stated independently, by `Base128` and `Encoded`.
 */
module HpackInteger {
  import opened Bytes

  /** An integer whose last octet has not arrived. */
  datatype Partial = Partial(maximum: nat, value: nat, shift: nat) {
    predicate Valid() {
      value <= maximum <= U64_MAX && shift < 64
    }
  }

  /** `limit` tells a value above its usage bound from malformed octets. */
  datatype Progress = More(partial: Partial) | Done(value: nat) | Refused(limit: bool)

  function Start(first: byte, prefix: nat, maximum: nat): Progress {
    if !(1 <= prefix <= 8) then Refused(false)
    else
      var mask := Pow2(prefix) - 1;
      var value := first % (mask + 1);
      if value > maximum then Refused(false)
      else if value < mask then Done(value)
      else More(Partial(maximum, value, 0))
  }

  function Next(p: Partial, octet: byte): Progress {
    var value := p.value + octet % 128 * Pow2(p.shift);
    if value > U64_MAX then Refused(false)
    else if value > p.maximum then Refused(true)
    else if octet < 128 then Done(value)
    else if p.shift + 7 < 64 then More(Partial(p.maximum, value, p.shift + 7))
    else Refused(false)
  }

  /** Every octet after a complete or refused integer is refused. */
  function Feed(progress: Progress, octets: seq<byte>): Progress
    decreases |octets|
  {
    if octets == [] then progress
    else match progress
      case More(p) => Feed(Next(p, octets[0]), octets[1..])
      case Done(_) => Feed(Refused(false), octets[1..])
      case Refused(limit) => progress
  }

  // ----- what continuation octets denote

  function Base128(octets: seq<byte>): nat {
    if octets == [] then 0 else octets[0] % 128 + 128 * Base128(octets[1..])
  }

  /** Every octet but the last carries the continuation bit. */
  predicate Terminated(octets: seq<byte>) {
    |octets| > 0 && octets[|octets| - 1] < 128 && forall i :: 0 <= i < |octets| - 1 ==> octets[i] >= 128
  }

  function Digits(value: nat): (octets: seq<byte>)
    ensures Terminated(octets) && Base128(octets) == value
  {
    if value < 128 then [value] else
      var octets := [value % 128 + 128] + Digits(value / 128);
      assert octets[1..] == Digits(value / 128);
      octets
  }

  /** The shortest encoding of `value` in a prefix of that many bits, all other bits clear. */
  function Encoded(value: nat, prefix: nat): (octets: seq<byte>)
    requires 1 <= prefix <= 8
    ensures |octets| >= 1
  {
    var mask := Pow2(prefix) - 1;
    PrefixMask(prefix);
    if value < mask then [value] else [mask] + Digits(value - mask)
  }

  lemma PrefixMask(prefix: nat)
    requires 1 <= prefix <= 8
    ensures 2 <= Pow2(prefix) <= 256
  {
    Pow2Monotone(1, prefix);
    Pow2Monotone(prefix, 8);
    assert Pow2(8) == 256;
  }

  // ----- correctness

  lemma {:induction false} FeedRefused(limit: bool, octets: seq<byte>)
    ensures Feed(Refused(limit), octets) == Refused(limit)
  {
  }

  lemma {:induction false} FeedAppend(progress: Progress, a: seq<byte>, b: seq<byte>)
    ensures Feed(progress, a + b) == Feed(Feed(progress, a), b)
    decreases |a|
  {
    if a == [] {
      assert a + b == b;
    } else {
      assert (a + b)[1..] == a[1..] + b;
      match progress
      case More(p) => FeedAppend(Next(p, a[0]), a[1..], b);
      case Done(_) => FeedAppend(Refused(false), a[1..], b);
      case Refused(limit) => FeedRefused(limit, b);
    }
  }

  lemma ShiftStep(shift: nat, digit: nat, rest: nat)
    ensures Pow2(shift) * (digit + 128 * rest) == digit * Pow2(shift) + Pow2(shift + 7) * rest
  {
    Pow2Sum(shift, 7);
    assert Pow2(7) == 128;
    var p := Pow2(shift);
    assert p * (digit + 128 * rest) == digit * p + p * 128 * rest;
  }

  /** From any partial integer: completion is exactly termination, room for the shifts and the bound. */
  lemma {:induction false} FeedMeaning(p: Partial, octets: seq<byte>, v: nat)
    requires p.Valid()
    ensures Feed(More(p), octets) == Done(v) <==>
              && Terminated(octets)
              && p.shift + 7 * (|octets| - 1) < 64
              && v == p.value + Pow2(p.shift) * Base128(octets)
              && v <= p.maximum
    decreases |octets|
  {
    hide Pow2;
    if octets != [] {
      var rest := octets[1..];
      var next := Next(p, octets[0]);
      ShiftStep(p.shift, octets[0] % 128, Base128(rest));
      if |octets| == 1 {
        assert Base128(rest) == 0;
        assert Feed(next, rest) == next;
      } else if octets[0] < 128 {
        assert !Terminated(octets);
        FeedRefused(false, rest[1..]);
      } else {
        assert Terminated(octets) <==> Terminated(rest) by {
          if Terminated(rest) {
            forall i | 0 <= i < |octets| - 1 ensures octets[i] >= 128 {
              if i > 0 { assert octets[i] == rest[i - 1]; }
            }
          }
          if Terminated(octets) {
            forall i | 0 <= i < |rest| - 1 ensures rest[i] >= 128 {
              assert rest[i] == octets[i + 1];
            }
          }
        }
        match next {
          case More(q) => FeedMeaning(q, rest, v);
          case Refused(limit) => FeedRefused(limit, rest);
        }
        if next.Refused? && p.shift + 7 < 64 {
          assert p.value + octets[0] % 128 * Pow2(p.shift) > p.maximum;
          assert Pow2(p.shift + 7) * Base128(rest) >= 0;
        }
      }
    }
  }

  /** Exactly which octets a reader accepts, and as what: both directions, every prefix width and bound. */
  lemma AcceptedIff(first: byte, prefix: nat, maximum: nat, octets: seq<byte>, v: nat)
    requires 1 <= prefix <= 8 && maximum <= U64_MAX
    ensures Feed(Start(first, prefix, maximum), octets) == Done(v) <==>
              var mask := Pow2(prefix) - 1;
              && v <= maximum
              && (if first % (mask + 1) < mask then octets == [] && v == first % (mask + 1)
                  else Terminated(octets) && |octets| <= 10 && v == mask + Base128(octets))
  {
    PrefixMask(prefix);
    match Start(first, prefix, maximum) {
      case More(p) =>
        FeedMeaning(p, octets, v);
        assert Pow2(0) == 1;
      case Done(w) =>
        if octets != [] { FeedRefused(false, octets[1..]); }
      case Refused(limit) => FeedRefused(limit, octets);
    }
  }

  lemma {:induction false} DigitsLength(value: nat, k: nat)
    requires k >= 1 && value < Pow2(7 * k)
    ensures |Digits(value)| <= k
    decreases k
  {
    if value >= 128 {
      assert Pow2(7) == 128;
      assert k > 1;
      Pow2Sum(7, 7 * (k - 1));
      DigitsLength(value / 128, k - 1);
    }
  }

  lemma TenDigits(value: nat)
    requires value <= U64_MAX
    ensures |Digits(value)| <= 10
  {
    Pow2Of64();
    Pow2Monotone(64, 7 * 10);
    DigitsLength(value, 10);
  }

  /** Decoding an encoding yields the value, whatever instruction bits share its first octet. */
  lemma RoundTrip(value: nat, prefix: nat, maximum: nat, first: byte)
    requires 1 <= prefix <= 8 && value <= maximum <= U64_MAX
    requires first % Pow2(prefix) == Encoded(value, prefix)[0]
    ensures Feed(Start(first, prefix, maximum), Encoded(value, prefix)[1..]) == Done(value)
  {
    var octets := Encoded(value, prefix);
    var mask := Pow2(prefix) - 1;
    PrefixMask(prefix);
    if value >= mask {
      assert octets[1..] == Digits(value - mask);
      TenDigits(value - mask);
    }
    AcceptedIff(first, prefix, maximum, octets[1..], value);
  }

  /** No proper prefix of octets that denote a value is complete or refused. */
  lemma NothingEarly(start: Progress, octets: seq<byte>, k: nat, value: nat)
    requires k < |octets| && Feed(start, octets) == Done(value)
    ensures Feed(start, octets[..k]).More?
  {
    assert octets == octets[..k] + octets[k..];
    FeedAppend(start, octets[..k], octets[k..]);
    match Feed(start, octets[..k]) {
      case More(_) =>
      case Done(_) => FeedRefused(false, octets[k..][1..]);
      case Refused(limit) => FeedRefused(limit, octets[k..]);
    }
  }

  // ----- reading from the front of a longer input

  /** The value a partial integer reaches on these octets, and how many of them it takes. */
  function Read(p: Partial, octets: seq<byte>): Option<(nat, nat)>
    decreases |octets|
  {
    if octets == [] then None
    else match Next(p, octets[0])
      case Refused(_) => None
      case Done(v) => Some((v, 1))
      case More(q) => match Read(q, octets[1..]) case None => None case Some((v, n)) => Some((v, n + 1))
  }

  /** Continuation octets as section 5.1 of RFC 7541 reads them, without any bound. */
  function ParseTail(octets: seq<byte>): Option<(nat, nat)> {
    if octets == [] then None
    else if octets[0] < 128 then Some((octets[0], 1))
    else match ParseTail(octets[1..])
      case None => None
      case Some((v, n)) => Some((octets[0] - 128 + 128 * v, n + 1))
  }

  /** An integer at the front of `octets`: its value and how many octets it occupies. */
  function Parse(octets: seq<byte>, prefix: nat): Option<(nat, nat)> {
    if octets == [] || !(1 <= prefix <= 8) then None
    else
      var mask := Pow2(prefix) - 1;
      var value := octets[0] % (mask + 1);
      if value < mask then Some((value, 1))
      else match ParseTail(octets[1..])
        case None => None
        case Some((v, n)) => if n <= 10 then Some((mask + v, n + 1)) else None
  }

  lemma {:induction false} ParseTailUsed(octets: seq<byte>)
    requires ParseTail(octets).Some?
    ensures 1 <= ParseTail(octets).value.1 <= |octets|
  {
    if octets[0] >= 128 {
      ParseTailUsed(octets[1..]);
    }
  }

  lemma ParseUsed(octets: seq<byte>, prefix: nat)
    requires Parse(octets, prefix).Some?
    ensures 1 <= Parse(octets, prefix).value.1 <= |octets|
  {
    PrefixMask(prefix);
    if octets[0] % Pow2(prefix) == Pow2(prefix) - 1 {
      ParseTailUsed(octets[1..]);
    }
  }

  /** The bounded reader reads what the unbounded grammar says, when it fits the shifts and the maximum. */
  lemma {:induction false} ReadTail(p: Partial, octets: seq<byte>, v: nat, n: nat, total: nat)
    requires p.Valid() && ParseTail(octets) == Some((v, n)) && total == p.value + Pow2(p.shift) * v
    ensures Read(p, octets) ==
            if p.shift + 7 * (n - 1) < 64 && total <= p.maximum then Some((total, n)) else None
    decreases |octets|
  {
    var digit, rest := octets[0] % 128, octets[1..];
    if octets[0] >= 128 {
      var (v', n') := ParseTail(rest).value;
      ParseTailUsed(rest);
      ShiftStep(p.shift, digit, v');
      var head := p.value + digit * Pow2(p.shift);
      assert total == head + Pow2(p.shift + 7) * v';
      Product(Pow2(p.shift + 7), v');
      if head <= p.maximum && p.shift + 7 < 64 {
        ReadTail(Partial(p.maximum, head, p.shift + 7), rest, v', n', total);
      }
    } else {
      ShiftStep(p.shift, digit, 0);
    }
  }

  lemma {:induction false} ReadNothing(p: Partial, octets: seq<byte>)
    requires ParseTail(octets).None?
    ensures Read(p, octets).None?
    decreases |octets|
  {
    if octets != [] {
      match Next(p, octets[0])
      case Refused(_) =>
      case Done(_) =>
      case More(q) => ReadNothing(q, octets[1..]);
    }
  }

  lemma Product(a: nat, b: nat)
    ensures a * b >= 0
  {
  }

  /** From the first octet on. */
  function ReadFrom(octets: seq<byte>, prefix: nat, maximum: nat): Option<(nat, nat)> {
    if octets == [] then None
    else match Start(octets[0], prefix, maximum)
      case Refused(_) => None
      case Done(v) => Some((v, 1))
      case More(p) => match Read(p, octets[1..]) case None => None case Some((v, n)) => Some((v, n + 1))
  }

  lemma ReadIsParse(octets: seq<byte>, prefix: nat, maximum: nat)
    requires 1 <= prefix <= 8 && maximum <= U64_MAX
    ensures ReadFrom(octets, prefix, maximum) ==
            match Parse(octets, prefix)
            case None => None
            case Some((v, n)) => if v <= maximum then Some((v, n)) else None
  {
    PrefixMask(prefix);
    if octets != [] {
      match Start(octets[0], prefix, maximum)
      case Refused(_) =>
      case Done(_) =>
      case More(p) =>
        if ParseTail(octets[1..]).Some? {
          var (v, n) := ParseTail(octets[1..]).value;
          assert Pow2(0) == 1;
          ReadTail(p, octets[1..], v, n, p.value + v);
        } else {
          ReadNothing(p, octets[1..]);
        }
    }
  }

  // ----- the reader itself

  class PrefixedInteger {
    var maximum: nat
    var value: nat
    var shift: nat
    var complete: bool
    var poisoned: bool
    var limitExceeded: bool

    ghost predicate Valid() reads this {
      && maximum <= U64_MAX
      && (!poisoned ==> value <= maximum && shift < 64 && !limitExceeded)
    }

    ghost function View(): Progress reads this {
      if poisoned then Refused(limitExceeded)
      else if complete then Done(value)
      else More(Partial(maximum, value, shift))
    }

    constructor (first: byte, prefix: nat, maximum: nat)
      requires maximum <= U64_MAX
      ensures Valid() && View() == Start(first, prefix, maximum)
    {
      this.maximum := maximum;
      shift, value, complete, poisoned, limitExceeded := 0, 0, false, true, false;
      new;
      if 1 <= prefix <= 8 {
        var mask := Pow2(prefix) - 1;
        value := first % (mask + 1);
        complete := value < mask;
        poisoned := value > maximum;
      }
    }

    /** A complete value only, never a prefix read as a length. */
    function Value(): (v: Option<nat>) reads this
      ensures v == if View().Done? then Some(View().value) else None
    {
      if complete && !poisoned then Some(value) else None
    }

    method Push(octet: byte) returns (accepted: bool, result: Option<nat>)
      requires Valid()
      modifies this
      ensures Valid()
      ensures View() == Feed(old(View()), [octet])
      ensures accepted == !View().Refused?
      ensures accepted ==> result == if View().Done? then Some(View().value) else None
    {
      ghost var before := View();
      assert Feed(before, [octet]) == match before
                                      case More(p) => Next(p, octet)
                                      case Done(_) => Refused(false)
                                      case Refused(limit) => before;
      accepted, result := false, None;
      if poisoned || complete {
        poisoned := true;
        return;
      }
      poisoned := true;
      var scale := Pow2(shift);
      var next := value + octet % 128 * scale;
      if next > U64_MAX {
        return;
      }
      if next > maximum {
        limitExceeded := true;
        return;
      }
      value := next;
      complete := octet < 128;
      if !complete {
        if shift + 7 >= 64 {
          return;
        }
        shift := shift + 7;
      }
      poisoned := false;
      accepted, result := true, Value();
    }
  }
}
