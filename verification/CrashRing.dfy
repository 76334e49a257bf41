/** A crash ring: the last messages of a log channel, kept for the crash report. */
module CrashRing {
  import opened Words

  const ENTRIES := 100
  const ENTRY_SIZE := 1024

  function Min(a: nat, b: nat): nat { if a < b then a else b }

  // A message as its slot of 1024 bytes holds it: what fits before the terminating zero, the whole if it does.
  function Truncated(message: string): (s: string)
    ensures s <= message && |s| == Min(|message|, 1023)
  {
    if |message| < ENTRY_SIZE then message else message[..ENTRY_SIZE - 1]
  }

  // A message as it is dumped, on a line of its own.
  function Line(s: string): (r: string)
    ensures s <= r && |r| <= |s| + 1 && r != [] && r[|r| - 1] == '\n' && (s != [] && s[|s| - 1] == '\n' ==> r == s)
  {
    if s == [] || s[|s| - 1] != '\n' then s + "\n" else s
  }

  // The lines of the last k messages, oldest first.
  function Lines(h: seq<string>, k: nat): (r: seq<string>)
    requires k <= |h|
    ensures |r| == k
  {
    seq(k, j requires 0 <= j < k => Line(Truncated(h[|h| - k + j])))
  }

  // How many messages the ring still knows, after n of them: the counter is 32 bits wide.
  function Known(n: nat): nat { Min(n % TWO32, ENTRIES) }

  // The k-th message from the end is in its slot.
  ghost predicate InSlot(slots: seq<string>, next: Word, h: seq<string>, k: nat)
    requires |slots| == ENTRIES && k < |h|
  {
    slots[(next - 1 - k) % ENTRIES] == Truncated(h[|h| - 1 - k])
  }

  ghost predicate AllInSlots(slots: seq<string>, next: Word, h: seq<string>)
  {
    |slots| == ENTRIES && forall k :: 0 <= k < Known(|h|) ==> InSlot(slots, next, h, k)
  }

  // One more message takes the slot of the one a hundred messages ago.
  lemma {:induction false} OneMore(slots: seq<string>, h: seq<string>, message: string)
    requires AllInSlots(slots, |h| % TWO32, h)
    ensures AllInSlots(slots[|h| % TWO32 % ENTRIES := Truncated(message)], (|h| + 1) % TWO32, h + [message])
  {
    hide Truncated;
    var next: int := |h| % TWO32;
    var h', slots' := h + [message], slots[next % ENTRIES := Truncated(message)];
    NextCount(|h|);
    forall k | 0 <= k < Known(|h'|)
      ensures InSlot(slots', |h'| % TWO32, h', k)
    {
      if k > 0 {
        assert InSlot(slots, next, h, k - 1);
        OtherSlot(next, k);
      }
    }
  }

  lemma {:induction false} NextCount(n: nat)
    ensures (n + 1) % TWO32 == if n % TWO32 == TWO32 - 1 then 0 else n % TWO32 + 1
  {
  }

  lemma {:induction false} OtherSlot(next: int, k: nat)
    requires 0 < k < ENTRIES
    ensures (next - k) % ENTRIES != next % ENTRIES
  {
  }

  class CrashRing {
    const slots: array<string>
    var nextIndex: Word
    ghost var history: seq<string>

    ghost predicate Valid()
      reads this, slots
    {
      && slots.Length == ENTRIES && nextIndex == |history| % TWO32
      && (forall k :: 0 <= k < |history| ==> history[k] != [])
      && AllInSlots(slots[..], nextIndex, history)
    }

    constructor ()
      ensures Valid() && history == [] && slots.Length == 100
    {
      slots := new string[ENTRIES](_ => "");
      nextIndex, history := 0, [];
    }

    /** AppendCrashRing; the message is the prefix and the text, which is never empty. */
    method Append(message: string)
      requires Valid() && message != []
      modifies this, slots
      ensures Valid() && history == old(history) + [message]
    {
      hide InSlot, Truncated;
      var index := nextIndex;
      nextIndex := Wrap(nextIndex + 1);
      ghost var was := slots[..];
      OneMore(was, history, message);
      NextCount(|history|);
      slots[index % ENTRIES] := Truncated(message);
      assert slots[..] == was[index % ENTRIES := Truncated(message)];
      history := history + [message];
    }

    /**
     WriteCrashRing: the last hundred messages, or all if there were fewer, oldest first. That is so if and
     only if the counter has not just wrapped around, which the first 2^32 - 1 messages never make it do.
     */
    method Dump() returns (lines: seq<string>)
      requires Valid()
      ensures (lines == Lines(history, Min(|history|, ENTRIES))) <==> |history| < TWO32 || |history| % TWO32 >= ENTRIES
      ensures lines == Lines(history, Known(|history|))
      ensures |history| < TWO32 ==> |lines| == Min(|history|, 100)
    {
      hide Truncated, Line, InSlot;
      var next := nextIndex;
      lines := [];
      if next == 0 {
        return;
      }
      var total := if next < ENTRIES then next else ENTRIES;
      var start := (next - total) % ENTRIES;
      for offset := 0 to total
        invariant |lines| == offset
        invariant forall j :: 0 <= j < offset ==> lines[j] == Line(Truncated(history[|history| - total + j]))
      {
        var slotIndex := (start + offset) % ENTRIES;
        EntryOf(slots[..], next, history, total, offset);
        var entry := slots[slotIndex];
        TruncatedIsNotEmpty(history[|history| - total + offset]);
        if entry == [] {
          continue;
        }
        lines := lines + [Line(entry)];
      }
      assert lines == Lines(history, total);
    }
  }

  lemma {:induction false} SlotOf(next: int, total: int, offset: int)
    ensures ((next - total) % ENTRIES + offset) % ENTRIES == (next - 1 - (total - 1 - offset)) % ENTRIES
  {
  }

  // What the dump finds in its slot at an offset from the start.
  lemma {:induction false} EntryOf(slots: seq<string>, next: Word, h: seq<string>, total: nat, offset: nat)
    requires AllInSlots(slots, next, h) && offset < total <= Known(|h|)
    ensures slots[((next - total) % ENTRIES + offset) % ENTRIES] == Truncated(h[|h| - total + offset])
  {
    hide Truncated;
    assert InSlot(slots, next, h, total - 1 - offset);
    SlotOf(next, total, offset);
  }

  lemma {:induction false} TruncatedIsNotEmpty(message: string)
    ensures message != [] ==> Truncated(message) != []
  {
  }
}