/** The sniffer's mutable reassembler: one `PendingMessage` object per CAN ID. */
module Reassembly {
  import opened Basics
  import opened IsoTp

  class PendingMessage {
    const expectedLength: nat
    var payload: Bytes
    var nextSeq: nat

    constructor (expected: nat, chunk: Bytes)
      ensures Value() == Pending(expected, chunk, 1)
    {
      expectedLength, payload, nextSeq := expected, chunk, 1;
    }

    ghost function Value(): Pending
      reads this
    {
      Pending(expectedLength, payload, nextSeq)
    }
  }

  function Get(m: map<int, Pending>, id: int): Option<Pending> {
    if id in m then Some(m[id]) else None
  }

  function Put(m: map<int, Pending>, id: int, p: Option<Pending>): map<int, Pending> {
    if p.Some? then m[id := p.value] else m - {id}
  }

  class Reassembler {
    var pending: map<int, PendingMessage>

    ghost predicate Valid()
      reads this, pending.Values
    {
      && (forall id <- pending :: InFlight(pending[id].Value()))
      && (forall a, b | a in pending && b in pending && a != b :: pending[a] != pending[b])
    }

    /** The table as a value. */
    ghost function State(): map<int, Pending>
      reads this, pending.Values
    {
      map id | id in pending :: pending[id].Value()
    }

    constructor ()
      ensures Valid() && State() == map[] && fresh(pending.Values)
    {
      pending := map[];
    }

    /** Python's `bytes[lo:hi]`, whose bounds are clipped rather than checked. */
    static function Slice(d: Bytes, lo: nat, hi: nat): Bytes {
      if lo >= Min(hi, |d|) then [] else d[lo..Min(hi, |d|)]
    }

    method Feed(canId: int, data: Bytes) returns (msg: Option<Bytes>)
      requires Valid()
      modifies this, pending.Values
      ensures Valid() && fresh(pending.Values - old(pending.Values))
      ensures State() == Put(old(State()), canId, Next(Get(old(State()), canId), data).0)
      ensures msg == Next(Get(old(State()), canId), data).1
    {
      msg := None;
      if |data| < 1 {
        return;
      }
      match High(data[0]) {
        case 0 =>
          var length := Low(data[0]);
          if length == 0 || 1 + length > |data| {
            return;
          }
          pending := pending - {canId};
          return Some(data[1..1 + length]);
        case 1 =>
          var total, chunk := ReadFirst(data);
          if total > 0 {
            msg := Start(canId, total, chunk);
          }
        case 2 => msg := Continue(canId, data);
        case _ =>
      }
    }

    /** Declared length and carried bytes of a First Frame; length 0 for a malformed one. */
    static method ReadFirst(data: Bytes) returns (total: nat, chunk: Bytes)
      requires |data| >= 1 && High(data[0]) == 1
      ensures total == 0 ==> Classify(data).Ignored?
      ensures total > 0 ==> Classify(data) == First(total, Clip(chunk, total))
    {
      total, chunk := 0, [];
      if |data| < 2 {
        return;
      }
      total := ShortLength(data);
      if total == 0 {
        if |data| < 6 {
          return;
        }
        total := FromBigEndian(data[2..6]);
        chunk := data[6..];
      } else {
        chunk := data[2..];
      }
    }

    /** A First Frame's message replaces whatever was in flight; a complete one leaves at once. */
    method Start(canId: int, total: nat, chunk: Bytes) returns (msg: Option<Bytes>)
      requires Valid() && total > 0
      modifies this
      ensures Valid() && fresh(pending.Values - old(pending.Values))
      ensures State() == Put(old(State()), canId, Receive(Get(old(State()), canId), First(total, Clip(chunk, total))).0)
      ensures msg == Receive(Get(old(State()), canId), First(total, Clip(chunk, total))).1
    {
      msg := None;
      var pend := new PendingMessage(total, chunk[..Min(total, |chunk|)]);
      pending := pending[canId := pend];
      EntryStored(canId, pend);
      if |pend.payload| >= pend.expectedLength {
        pending := pending - {canId};
        return Some(pend.payload[..pend.expectedLength]);
      }
    }

    /** A Consecutive Frame extends its message in place, or drops it on a sequence gap. */
    method Continue(canId: int, data: Bytes) returns (msg: Option<Bytes>)
      requires Valid() && |data| >= 1
      modifies this, pending.Values
      ensures Valid() && pending.Values <= old(pending.Values)
      ensures var pdu := Consecutive(Low(data[0]), Clip(data[1..], CF_BYTES));
        && State() == Put(old(State()), canId, Receive(Get(old(State()), canId), pdu).0)
        && msg == Receive(Get(old(State()), canId), pdu).1
    {
      msg := None;
      if canId !in pending {
        return;
      }
      var pend := pending[canId];
      if Low(data[0]) != pend.nextSeq % 16 {
        pending := pending - {canId};
        return;
      }
      pend.nextSeq := (pend.nextSeq + 1) % 16;
      var remaining := pend.expectedLength - |pend.payload|;
      var chunk := Slice(data, 1, 1 + Min(7, remaining));
      SliceIsClip(data, remaining);
      pend.payload := pend.payload + chunk;
      OthersUntouched(canId);
      if |pend.payload| >= pend.expectedLength {
        pending := pending - {canId};
        EntryRemoved(canId);
        return Some(pend.payload[..pend.expectedLength]);
      }
    }

    static lemma SliceIsClip(d: Bytes, room: nat)
      requires |d| >= 1
      ensures Slice(d, 1, 1 + Min(7, room)) == Clip(Clip(d[1..], CF_BYTES), room)
    {
    }

    /** Extending one entry in place leaves every other entry's value as it was. */
    twostate lemma OthersUntouched(canId: int)
      requires old(Valid()) && pending == old(pending) && canId in pending
      requires unchanged(pending.Values - {pending[canId]})
      ensures State() == old(State())[canId := pending[canId].Value()]
    {
      forall id | id in pending && id != canId
        ensures pending[id].Value() == old(pending[id].Value())
      {
        assert pending[id] != pending[canId];
      }
    }

    /** Dropping one entry removes it from the state and nothing else. */
    twostate lemma EntryRemoved(canId: int)
      requires old(Valid()) && pending == old(pending) - {canId}
      requires canId in old(pending) && unchanged(old(pending).Values - {old(pending)[canId]})
      ensures State() == old(State()) - {canId}
    {
      forall id | id in pending
        ensures pending[id].Value() == old(pending[id].Value())
      {
        assert pending[id] != old(pending)[canId];
      }
    }

    /** Storing a new entry over whatever was there. */
    twostate lemma EntryStored(canId: int, new pend: PendingMessage)
      requires pending == old(pending)[canId := pend] && unchanged(old(pending).Values)
      ensures State() == old(State())[canId := pend.Value()]
      ensures Valid() <== old(Valid()) && InFlight(pend.Value()) && pend !in old(pending).Values
    {
    }

    /** Diagnostic view: bytes collected so far on every ID still in flight. */
    method InFlightBytes() returns (collected: map<int, nat>)
      requires Valid()
      ensures collected.Keys == State().Keys
      ensures forall id <- collected :: collected[id] < State()[id].expected
      ensures forall id <- collected :: collected[id] == |State()[id].payload|
    {
      collected := map id | id in pending :: |pending[id].payload|;
    }
  }
}
