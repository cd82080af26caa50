/**
 * The native cache of the provider run loop (runtime/jit.c, vf_run_memory_provider): up to 64
 * fixed slots of the code buffer hold translations, keyed by program counter, word and level.
 */
module ProviderCache {
  import opened Basics
  import opened PowersOfTwo
  import opened Words
  import opened HostOps
  import opened Translator
  import opened Emission
  import A64

  const SLOTS := 64

  datatype Key = Key(pc: nat, word: bv32, el: nat)

  /** One slot's bookkeeping. */
  datatype Entry = Entry(key: Key, used: nat, valid: bool)

  /** The one-word block of a key: translation in provider mode reads nothing else. */
  function Translation(key: Key): (code: seq<Op>)
  {
    var piece := Translate(key.word, key.pc, 0, A64.Config(key.el, 0, false, false, false, false, false));
    if piece.ends then piece.ops else piece.ops + Finish(Onward(key.pc), 1, A64.Next)
  }

  /** In provider mode the code of a word depends on its key alone, not on the memory regime. */
  lemma TranslationKey(key: Key, n: nat, cfg: A64.Config)
    requires !cfg.native && cfg.el == key.el
    ensures Translate(key.word, key.pc, n, cfg) == Translate(key.word, key.pc, n, A64.Config(key.el, 0, false, false, false, false, false))
  {
    hide TranslateData, TranslateBranch, TranslateMemory, Finish, FaultCode, FromInt, A64.IsMemory, A64.IsSystem;
  }

  /** Where an entry's code starts and how long it is. */
  datatype Placement = Placement(base: nat, used: nat)

  class Cache {
    const code: array<Op>
    const entries: array<Entry>
    const slotSize: nat
    const slots: nat
    var victim: nat

    ghost predicate Valid()
      reads this, code, entries
    {
      && slotSize > 0 && entries.Length == slots <= SLOTS && slots * slotSize <= code.Length
      && (slots > 0 ==> victim < slots)
      && forall i :: 0 <= i < slots && entries[i].valid ==> HoldsTranslation(i)
    }

    /** Slot i holds exactly the translation of its key. */
    ghost predicate HoldsTranslation(i: nat)
      requires i < entries.Length
      reads this, code, entries
    {
      && entries[i].used <= slotSize
      && (i + 1) * slotSize <= code.Length
      && code[i * slotSize..i * slotSize + entries[i].used] == Translation(entries[i].key)
    }

    /** The placed code is the translation of the key. */
    ghost predicate Places(at: Placement, key: Key)
      reads code
    {
      at.base + at.used <= code.Length && code[at.base..at.base + at.used] == Translation(key)
    }

    constructor (code: array<Op>, slotSize: nat)
      requires slotSize > 0
      ensures Valid() && this.code == code && this.slotSize == slotSize && fresh(entries)
      ensures slots == if code.Length / slotSize > 64 then 64 else code.Length / slotSize
    {
      var count := if code.Length / slotSize > SLOTS then SLOTS else code.Length / slotSize;
      this.code, this.slotSize, this.slots, this.victim := code, slotSize, count, 0;
      this.entries := new Entry[count](i => Entry(Key(0, 0, 0), 0, false));
      new;
      if count > 0 {
        assert count * slotSize <= code.Length / slotSize * slotSize by {
          MulOrder(count, code.Length / slotSize, slotSize);
        }
        assert code.Length / slotSize * slotSize == slotSize * (code.Length / slotSize);
      }
    }

    /** Emits a translation at a base, writing nothing past the capacity; false when it does not fit. */
    method Emit(key: Key, base: nat, capacity: nat) returns (fits: bool, used: nat)
      requires base + capacity <= code.Length
      modifies code
      ensures used == |Translation(key)| && (fits <==> used <= capacity)
      ensures fits ==> code[base..base + used] == Translation(key)
      ensures forall j :: 0 <= j < code.Length && !(base <= j < base + capacity) ==> code[j] == old(code[j])
    {
      hide Translation;
      var t := Translation(key);
      used := |t|;
      fits := used <= capacity;
      var n := if fits then used else capacity;
      var i := 0;
      while i < n
        invariant 0 <= i <= n <= used && n <= capacity
        invariant forall j :: 0 <= j < i ==> code[base + j] == t[j]
        invariant forall j :: 0 <= j < code.Length && !(base <= j < base + capacity) ==> code[j] == old(code[j])
      {
        code[base + i] := t[i];
        i := i + 1;
      }
      if fits {
        forall j | 0 <= j < used ensures code[base..base + used][j] == t[j] {
          assert code[base + j] == t[j];
        }
      }
    }

    /** The first valid slot with this key. */
    method Find(key: Key) returns (hit: bool, i: nat)
      requires entries.Length == slots
      ensures hit ==> i < slots && entries[i].valid && entries[i].key == key
      ensures !hit ==> forall j :: 0 <= j < slots ==> !(entries[j].valid && entries[j].key == key)
    {
      hit, i := false, 0;
      while i < slots && !hit
        invariant i <= slots
        invariant hit ==> i < slots && entries[i].valid && entries[i].key == key
        invariant !hit ==> forall j :: 0 <= j < i ==> !(entries[j].valid && entries[j].key == key)
        decreases slots - i, if hit then 0 else 1
      {
        if entries[i].valid && entries[i].key == key {
          hit := true;
        } else {
          i := i + 1;
        }
      }
    }

    /** Slots are disjoint ranges of the buffer. */
    lemma SlotsApart(i: nat, j: nat)
      requires slotSize > 0 && i != j
      ensures (i + 1) * slotSize <= j * slotSize || (j + 1) * slotSize <= i * slotSize
    {
      if i < j {
        MulOrder(i + 1, j, slotSize);
      } else {
        MulOrder(j + 1, i, slotSize);
      }
    }

    lemma SlotInside(i: nat)
      requires Valid() && i < slots
      ensures i * slotSize + slotSize == (i + 1) * slotSize <= slots * slotSize
    {
      Distribute(i, 1, slotSize);
      MulOrder(i + 1, slots, slotSize);
    }

    /** A translation written inside one slot leaves the other slots' translations intact. */
    twostate lemma OtherSlotsKept(selected: nat)
      requires old(Valid()) && selected < slots && slotSize > 0 && entries.Length == slots && slots * slotSize <= code.Length
      requires forall j :: 0 <= j < code.Length && !(selected * slotSize <= j < selected * slotSize + slotSize) ==> code[j] == old(code[j])
      requires forall j :: 0 <= j < slots && j != selected ==> entries[j] == old(entries[j])
      ensures forall j :: 0 <= j < slots && j != selected && entries[j].valid ==> HoldsTranslation(j)
    {
      hide Translation;
      forall j | 0 <= j < slots && j != selected && entries[j].valid ensures HoldsTranslation(j) {
        SlotsApart(selected, j);
        Distribute(selected, 1, slotSize);
        Distribute(j, 1, slotSize);
        assert old(HoldsTranslation(j));
        var u := entries[j].used;
        var b := j * slotSize;
        assert code[b..b + u] == old(code[b..b + u]);
      }
    }

    method InvalidateAll()
      modifies entries
      ensures forall j :: 0 <= j < entries.Length ==> !entries[j].valid
    {
      var i := 0;
      while i < entries.Length
        invariant 0 <= i <= entries.Length
        invariant forall j :: 0 <= j < i ==> !entries[j].valid
      {
        entries[i] := entries[i].(valid := false);
        i := i + 1;
      }
    }

    /** A miss without slots, or after the fallback: the whole buffer is used and nothing is published. */
    method TranslateWhole(key: Key) returns (placed: Option<Placement>)
      requires Valid() && forall j :: 0 <= j < slots ==> !entries[j].valid
      modifies code
      ensures Valid()
      ensures placed.None? <==> |Translation(key)| > code.Length
      ensures placed.Some? ==> Places(placed.value, key)
    {
      hide Translation;
      var fits, used := Emit(key, 0, code.Length);
      placed := if fits then Some(Placement(0, used)) else None;
    }

    /** A miss with slots: the victim is invalidated, translated into, and published if the code fits. */
    method TranslateSlot(key: Key) returns (fits: bool, placement: Placement)
      requires Valid() && slots > 0
      modifies this, code, entries
      ensures Valid()
      ensures fits <==> |Translation(key)| <= slotSize
      ensures fits ==> Places(placement, key)
    {
      hide Translation;
      var selected := victim;
      SlotInside(selected);
      entries[selected] := entries[selected].(valid := false);
      var used;
      fits, used := Emit(key, selected * slotSize, slotSize);
      OtherSlotsKept(selected);
      placement := Placement(selected * slotSize, used);
      if fits {
        entries[selected] := Entry(key, used, true);
        victim := (selected + 1) % slots;
        OtherSlotsKept(selected);
        assert HoldsTranslation(selected);
      }
    }

    /**
     * The code to run for a key: a hit reuses a slot, a miss translates into the victim slot, and
     * code too long for a slot takes the whole buffer after every slot is invalidated.
     */
    method Obtain(key: Key) returns (placed: Option<Placement>)
      requires Valid()
      modifies this, code, entries
      ensures Valid()
      ensures placed.None? <==> |Translation(key)| > code.Length
      ensures placed.Some? ==> Places(placed.value, key)
    {
      hide Translation;
      var hit, i := Find(key);
      if hit {
        SlotInside(i);
        assert HoldsTranslation(i);
        return Some(Placement(i * slotSize, entries[i].used));
      }
      if slots > 0 {
        var fits, placement := TranslateSlot(key);
        if fits {
          return Some(placement);
        }
        InvalidateAll();
        victim := 0;
        SlotInside(0);
      }
      placed := TranslateWhole(key);
    }
  }
}
