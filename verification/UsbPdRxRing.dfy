/** The receive ring of a USB-PD port controller and its alert bit (common/usb_pd_tcpc.c). */
module UsbPdRxRing {
  import opened Words

  const PD_RX_ERR_HARD_RESET := -2
  const PD_CTRL_GOOD_CRC := 1

  /** Bit numbers of the alert register. */
  const RX_STATUS := 2
  const RX_HARD_RST := 3

  /** One slot: what the packet parser returned, and the payload words it wrote. */
  datatype Message = Message(head: int, payload: seq<Word>)

  function HeaderCnt(header: int): int { header / 0x1000 % 8 }
  function HeaderType(header: int): int { header % 16 }
  function HeaderId(header: int): int { header / 0x200 % 8 }

  /** A header composed of its fields; type and number of data words are below 16 and 8, and the specification revision
      and the roles are one bit or two. */
  function ComposedHeader(kind: nat, revision: nat, dataRole: nat, powerRole: nat, id: nat, cnt: nat): nat {
    kind + 0x20 * dataRole + 0x40 * revision + 0x100 * powerRole + 0x200 * id + 0x1000 * cnt
  }

  /** The fields of a composed header are read back. */
  lemma HeaderFields(kind: nat, revision: nat, dataRole: nat, powerRole: nat, id: nat, cnt: nat)
    requires kind < 16 && revision < 4 && dataRole < 2 && powerRole < 2 && id < 8 && cnt < 8
    ensures var header := ComposedHeader(kind, revision, dataRole, powerRole, id, cnt);
            header < 0x8000 && HeaderType(header) == kind && HeaderId(header) == id && HeaderCnt(header) == cnt
  {
    var header := ComposedHeader(kind, revision, dataRole, powerRole, id, cnt);
    assert header == 0x1000 * cnt + (0x200 * id + 0x100 * powerRole + 0x40 * revision + 0x20 * dataRole + kind);
    assert header / 0x200 == 8 * cnt + id;
    assert header == 16 * (0x100 * cnt + 0x20 * id + 0x10 * powerRole + 4 * revision + 2 * dataRole) + kind;
  }

  /** The messages from tail up to head, around the end of the slots. */
  function Unread(slots: seq<Message>, tail: nat, head: nat): seq<Message>
    requires tail < |slots| && head < |slots|
  {
    if tail <= head then slots[tail..head] else slots[tail..] + slots[..head]
  }

  function Next(i: nat, n: nat): nat { if i == n then 0 else i + 1 }

  predicate NeedsGoodCrc(header: int) { HeaderType(header) != PD_CTRL_GOOD_CRC || HeaderCnt(header) != 0 }

  /** Message numbers acknowledged for a sequence of messages. */
  function Acks(messages: seq<Message>): seq<int> {
    if messages == [] then [] else
      var last := messages[|messages| - 1];
      Acks(messages[..|messages| - 1]) + if NeedsGoodCrc(last.head) then [HeaderId(last.head)] else []
  }

  lemma {:induction false} AcksStep(messages: seq<Message>, m: Message)
    ensures Acks(messages + [m]) == Acks(messages) + if NeedsGoodCrc(m.head) then [HeaderId(m.head)] else []
  {
    assert (messages + [m])[..|messages|] == messages;
  }

  /** Writing the slot at head does not touch the unread messages. */
  lemma {:induction false} ScratchSlot(slots: seq<Message>, tail: nat, head: nat, m: Message)
    requires tail < |slots| && head < |slots|
    ensures Unread(slots[head := m], tail, head) == Unread(slots, tail, head)
  {
  }

  /** Moving head on appends the slot it was at, when that does not reach tail. */
  lemma {:induction false} Appended(slots: seq<Message>, tail: nat, head: nat, stored: seq<Message>, taken: nat)
    requires tail < |slots| && head < |slots| && Next(head, |slots| - 1) != tail
    requires taken <= |stored| && Unread(slots, tail, head) == stored[taken..]
    ensures Unread(slots, tail, Next(head, |slots| - 1)) == (stored + [slots[head]])[taken..]
  {
    assert (stored + [slots[head]])[taken..] == stored[taken..] + [slots[head]];
  }

  /** Moving tail on removes the oldest message. */
  lemma {:induction false} Removed(slots: seq<Message>, tail: nat, head: nat, stored: seq<Message>, taken: nat)
    requires tail < |slots| && head < |slots| && tail != head
    requires taken <= |stored| && Unread(slots, tail, head) == stored[taken..]
    ensures taken < |stored| && slots[tail] == stored[taken]
    ensures Unread(slots, Next(tail, |slots| - 1), head) == stored[taken + 1..]
  {
    assert slots[tail] == Unread(slots, tail, head)[0];
    assert Unread(slots, Next(tail, |slots| - 1), head) == Unread(slots, tail, head)[1..];
    assert stored[taken + 1..] == stored[taken..][1..];
  }

  class Port {
    const rxBufferSize: nat
    const slots: array<Message>
    var rxBufHead: nat
    var rxBufTail: nat
    var alert: set<int>
    var goodCrcs: seq<int>
    /** Every message kept so far, and how many of them the policy engine has taken. */
    ghost var stored: seq<Message>
    ghost var taken: nat

    ghost predicate Shaped()
      reads this
    {
      rxBufferSize > 0 && slots.Length == rxBufferSize + 1 && rxBufHead < slots.Length && rxBufTail < slots.Length
    }

    ghost predicate Valid()
      reads this, slots
    {
      && Shaped()
      && (RX_STATUS in alert <==> rxBufHead != rxBufTail)
      && taken <= |stored| && Unread(slots[..], rxBufTail, rxBufHead) == stored[taken..]
      && goodCrcs == Acks(stored)
    }

    constructor (size: nat)
      requires size > 0
      ensures Valid() && stored == [] && taken == 0 && rxBufferSize == size && fresh(slots)
    {
      rxBufferSize := size;
      slots := new Message[size + 1](_ => Message(0, []));
      rxBufHead, rxBufTail := 0, 0;
      alert, goodCrcs := {}, [];
      stored, taken := [], 0;
    }

    /** The ring is full exactly when it holds as many messages as its size. */
    predicate IsFull()
      requires Valid()
      reads this, slots
      ensures IsFull() <==> |stored| - taken == rxBufferSize
    {
      var diff := rxBufTail - rxBufHead;
      diff == 1 || diff + rxBufferSize == 0
    }

    predicate IsEmpty()
      requires Valid()
      reads this, slots
      ensures IsEmpty() <==> |stored| == taken
    {
      rxBufTail == rxBufHead
    }

    /** The incoming half of one run of the controller: res and payload are what the packet parser made of the wire. */
    method Incoming(res: int, payload: seq<Word>)
      requires Valid()
      modifies this`rxBufHead, this`alert, this`goodCrcs, this`stored, slots
      ensures Valid()
      ensures stored == old(stored)
                        + if res > 0 && |old(stored)| - taken < rxBufferSize then [Message(res, payload)] else []
      ensures goodCrcs == old(goodCrcs)
                          + if res > 0 && |old(stored)| - taken < rxBufferSize && !(res % 16 == 1 && res / 0x1000 % 8 == 0)
                            then [res / 0x200 % 8] else []
      ensures forall b :: b != RX_STATUS ==>
                (b in alert <==> b in old(alert) || (b == RX_HARD_RST && res == PD_RX_ERR_HARD_RESET))
    {
      var full := IsFull();
      WriteScratch(Message(res, payload));
      if res > 0 && !full {
        Keep(Message(res, payload));
      } else if res == PD_RX_ERR_HARD_RESET {
        alert := alert + {RX_HARD_RST};
      }
    }

    /** The parser writes into the slot at head, whatever comes of it. */
    method WriteScratch(m: Message)
      requires Valid()
      modifies slots
      ensures Valid() && slots[rxBufHead] == m
    {
      ScratchSlot(slots[..], rxBufTail, rxBufHead, m);
      slots[rxBufHead] := m;
      assert slots[..] == old(slots[..])[rxBufHead := m];
    }

    method Keep(m: Message)
      requires Valid() && slots[rxBufHead] == m && !IsFull()
      modifies this`rxBufHead, this`alert, this`goodCrcs, this`stored
      ensures Valid() && stored == old(stored) + [m] && alert == old(alert) + {RX_STATUS}
      ensures goodCrcs == old(goodCrcs) + if NeedsGoodCrc(m.head) then [HeaderId(m.head)] else []
    {
      Appended(slots[..], rxBufTail, rxBufHead, stored, taken);
      AcksStep(stored, m);
      rxBufHead := if rxBufHead == rxBufferSize then 0 else rxBufHead + 1;
      stored := stored + [m];
      if HeaderType(m.head) != PD_CTRL_GOOD_CRC || HeaderCnt(m.head) != 0 {
        goodCrcs := goodCrcs + [HeaderId(m.head)];
      }
      alert := alert + {RX_STATUS};
    }

    /** Clear alert bits; clearing the receive bit takes the oldest message, and keeps the bit while more are there. */
    method AlertStatusClear(mask: set<int>)
      requires Valid()
      modifies this`rxBufTail, this`alert, this`taken
      ensures Valid()
      ensures taken == old(taken) + if RX_STATUS in mask && old(taken) < |stored| then 1 else 0
      ensures forall b :: b != RX_STATUS ==> (b in alert <==> b in old(alert) && b !in mask)
    {
      var toClear := mask;
      if RX_STATUS in mask {
        if !IsEmpty() {
          Removed(slots[..], rxBufTail, rxBufHead, stored, taken);
          rxBufTail := if rxBufTail == rxBufferSize then 0 else rxBufTail + 1;
          taken := taken + 1;
          if rxBufTail != rxBufHead {
            toClear := toClear - {RX_STATUS};
          }
        }
      }
      alert := alert - toClear;
    }

    method GetMessage() returns (m: Message)
      requires Valid()
      ensures taken < |stored| ==> m == stored[taken]
    {
      m := slots[rxBufTail];
      if rxBufTail != rxBufHead { Removed(slots[..], rxBufTail, rxBufHead, stored, taken); }
    }

    /** What the policy engine does on a receive alert. */
    method Take() returns (m: Message)
      requires Valid() && RX_STATUS in alert
      modifies this`rxBufTail, this`alert, this`taken
      ensures Valid() && old(taken) < |stored| && m == stored[old(taken)] && taken == old(taken) + 1
    {
      m := GetMessage();
      AlertStatusClear({RX_STATUS});
    }

    /** Taking while the alert is set: every stored message comes out once, in order. */
    method Drain() returns (got: seq<Message>)
      requires Valid()
      modifies this`rxBufTail, this`alert, this`taken
      ensures Valid() && got == stored[old(taken)..] && taken == |stored| && RX_STATUS !in alert
    {
      got := [];
      while RX_STATUS in alert
        invariant Valid() && old(taken) <= taken && got == stored[old(taken)..taken]
        decreases |stored| - taken
      {
        var m := Take();
        got := got + [m];
      }
    }
  }
}
