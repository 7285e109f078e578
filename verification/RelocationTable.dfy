/** What a relocation table means, byte by byte: which words it names, and one small table
    worked out. */
module RelocationTable {
  import opened Relocations
  import opened Prelude

  function Half(m: seq<Byte>, at: nat): nat
    requires at + 2 <= |m|
  {
    (m[at] as int) + 0x100 * (m[at + 1] as int)
  }

  function Word(m: seq<Byte>, at: nat): nat
    requires at + 4 <= |m|
  {
    Half(m, at) + 0x1_0000 * Half(m, at + 2)
  }

  function Quad(m: seq<Byte>, at: nat): nat
    requires at + 8 <= |m|
  {
    Word(m, at) + 0x1_0000_0000 * Word(m, at + 4)
  }

  /** Reads are little-endian. */
  lemma HalfIsRead(m: seq<Byte>, at: nat)
    requires at + 2 <= |m|
    ensures Read(m, at, 2) == Half(m, at)
  {
    assert Read(m, at + 2, 0) == 0 && Read(m, at + 1, 1) == m[at + 1];
  }

  lemma WordIsRead(m: seq<Byte>, at: nat)
    requires at + 4 <= |m|
    ensures Read(m, at, 4) == Word(m, at)
  {
    HalfIsRead(m, at + 2);
    HalfIsRead(m, at);
    assert Read(m, at + 1, 3) == m[at + 1] + 256 * Read(m, at + 2, 2);
  }

  lemma QuadIsRead(m: seq<Byte>, at: nat)
    requires at + 8 <= |m|
    ensures Read(m, at, 8) == Quad(m, at)
  {
    WordIsRead(m, at + 4);
    assert Read(m, at + 3, 5) == m[at + 3] + 256 * Read(m, at + 4, 4);
    assert Read(m, at + 2, 6) == m[at + 2] + 256 * Read(m, at + 3, 5);
    assert Read(m, at + 1, 7) == m[at + 1] + 256 * Read(m, at + 2, 6);
  }

  /** A block of the table starts at b: its size word, four bytes in, is at least 8, and so
      were those of the blocks before it, which lead here by their sizes. */
  predicate BlockStart(m: seq<Byte>, cursor: nat, end: nat, b: nat)
    decreases end - cursor
  {
    && cursor < end && cursor + 8 <= |m| && Word(m, cursor + 4) >= 8
    && (b == cursor || BlockStart(m, cursor + Word(m, cursor + 4), end, b))
  }

  /** Entry i of block b exists and is of type 10, and the word it names is at p: the block's
      page plus the low 12 bits. */
  predicate EntryNames(m: seq<Byte>, b: nat, i: nat, p: nat)
  {
    && b + 8 <= |m| && 8 + 2 * i + 2 <= Word(m, b + 4) && b + Word(m, b + 4) <= |m|
    && Half(m, b + 8 + 2 * i) / 0x1000 == 10 && p == Word(m, b) + Half(m, b + 8 + 2 * i) % 0x1000
  }

  /** Some entry of some block names the word at p. */
  ghost predicate TableNames(m: seq<Byte>, start: nat, end: nat, p: nat)
  {
    exists b, i :: BlockStart(m, start, end, b) && EntryNames(m, b, i, p)
  }

  lemma {:induction false} BlockMeaning(m: seq<Byte>, b: nat, n: nat, p: nat)
    requires BlockFits(m, b) && n <= EntryCount(m, b)
    ensures p in BlockSlots(m, b, n) <==> exists i :: 0 <= i < n && EntryNames(m, b, i, p)
  {
    WordIsRead(m, b);
    WordIsRead(m, b + 4);
    if n > 0 {
      BlockMeaning(m, b, n - 1, p);
      HalfIsRead(m, b + 8 + 2 * (n - 1));
      assert p in BlockSlots(m, b, n) <==> p in BlockSlots(m, b, n - 1) || EntryNames(m, b, n - 1, p);
    }
  }

  lemma EntriesCounted(m: seq<Byte>, b: nat, i: nat)
    requires BlockFits(m, b)
    ensures i < EntryCount(m, b) <==> 8 + 2 * i + 2 <= BlockSize(m, b)
  {
  }

  /** The slots of a table are exactly the words its bytes name. */
  lemma {:induction false} SlotsMeaning(m: seq<Byte>, cursor: nat, end: nat, p: nat)
    requires TableFits(m, cursor, end)
    ensures p in Slots(m, cursor, end) <==> TableNames(m, cursor, end, p)
    decreases end - cursor
  {
    if cursor < end {
      WordIsRead(m, cursor + 4);
      if BlockSize(m, cursor) >= HEADER {
        var n, after := EntryCount(m, cursor), cursor + BlockSize(m, cursor);
        BlockMeaning(m, cursor, n, p);
        SlotsMeaning(m, after, end, p);
        assert p in Slots(m, cursor, end) <==> p in BlockSlots(m, cursor, n) || p in Slots(m, after, end);
        if TableNames(m, cursor, end, p) {
          var b, i :| BlockStart(m, cursor, end, b) && EntryNames(m, b, i, p);
          if b == cursor {
            EntriesCounted(m, b, i);
            assert 0 <= i < n && EntryNames(m, cursor, i, p);
          } else {
            assert BlockStart(m, after, end, b) && EntryNames(m, b, i, p);
          }
        }
        if p in BlockSlots(m, cursor, n) {
          var i :| 0 <= i < n && EntryNames(m, cursor, i, p);
          assert BlockStart(m, cursor, end, cursor) && EntryNames(m, cursor, i, p);
        }
        if TableNames(m, after, end, p) {
          var b, i :| BlockStart(m, after, end, b) && EntryNames(m, b, i, p);
          assert BlockStart(m, cursor, end, b) && EntryNames(m, b, i, p);
        }
      }
    }
  }

  /** A word that the table's bytes name moves by delta, once per naming. */
  lemma NamedMoves(m: seq<Byte>, start: nat, end: nat, delta: int, p: nat)
    requires WellFormed(m, start, end) && p + 8 <= |m| && TableNames(m, start, end, p)
    ensures Times(Slots(m, start, end), p) > 0
    ensures Quad(Relocated(m, start, end, delta), p)
         == (Quad(m, p) + Times(Slots(m, start, end), p) * delta) % TWO_64
  {
    var slots := Slots(m, start, end);
    SlotsMeaning(m, start, end, p);
    TimesMeaning(slots, p);
    AllClear(slots, p);
    ApplyInside(m, slots, delta, p);
    QuadIsRead(m, p);
    QuadIsRead(Relocated(m, start, end, delta), p);
  }

  lemma AllClear(slots: seq<nat>, p: nat)
    requires NoPartialOverlap(slots) && p in slots
    ensures forall i :: 0 <= i < |slots| ==> Clear(slots[i], p)
  {
    var j :| 0 <= j < |slots| && slots[j] == p;
    forall i | 0 <= i < |slots| ensures Clear(slots[i], p) {
      assert i < j ==> Clear(slots[i], slots[j]);
      assert j < i ==> Clear(slots[j], slots[i]);
    }
  }

  /** The byte belongs to no word that the table's bytes name. */
  ghost predicate Unnamed(m: seq<Byte>, start: nat, end: nat, k: nat)
  {
    forall q: nat :: TableNames(m, start, end, q) ==> k < q || q + 8 <= k
  }

  /** Every other byte stays. */
  lemma UnnamedStays(m: seq<Byte>, start: nat, end: nat, delta: int, k: nat)
    requires WellFormed(m, start, end) && k < |m| && Unnamed(m, start, end, k)
    ensures Relocated(m, start, end, delta)[k] == m[k]
  {
    var slots := Slots(m, start, end);
    forall i | 0 <= i < |slots| ensures Outside(slots[i], k) {
      SlotsMeaning(m, start, end, slots[i]);
      assert slots[i] in slots;
    }
    ApplyOutside(m, slots, delta, k);
  }

  lemma {:induction false} TimesMeaning(slots: seq<nat>, p: nat)
    ensures Times(slots, p) > 0 <==> p in slots
  {
    if slots != [] {
      var rest := slots[..|slots| - 1];
      TimesMeaning(rest, p);
      assert slots == rest + [slots[|slots| - 1]];
    }
  }

  /** One block for page 0 of 12 bytes: a DIR64 entry at offset 0 and a padding entry. */
  function SmallTable(): seq<Byte>
  {
    [0, 0, 0, 0, 12, 0, 0, 0, 0x00, 0xA0, 0x00, 0x00]
  }

  lemma SmallSlots(m: seq<Byte>)
    requires |m| == 20 && m[8..] == SmallTable()
    ensures TableFits(m, 8, 20) && Slots(m, 8, 20) == [0] && TableEnd(m, 8, 20) == 20
  {
    assert forall k :: 8 <= k < 20 ==> m[k] == m[8..][k - 8];
    WordIsRead(m, 8);
    WordIsRead(m, 12);
    HalfIsRead(m, 16);
    HalfIsRead(m, 18);
    assert BlockSize(m, 8) == 12 && EntryCount(m, 8) == 2;
    assert EntryAt(m, 8, 0) == 0xA000 && EntryAt(m, 8, 1) == 0;
    assert BlockSlots(m, 8, 0) == [];
    assert BlockSlots(m, 8, 1) == [0];
    assert BlockSlots(m, 8, 2) == [0];
    assert Slots(m, 20, 20) == [];
  }

  /** An image of one word and that table: the word moves by delta, the table stays. */
  lemma SmallImage(m: seq<Byte>, delta: int)
    requires |m| == 20 && m[8..] == SmallTable()
    ensures WellFormed(m, 8, 20)
    ensures var r := Relocated(m, 8, 20, delta);
      |r| == 20 && Quad(r, 0) == (Quad(m, 0) + delta) % TWO_64 && r[8..] == SmallTable()
  {
    SmallSlots(m);
    var r := Relocated(m, 8, 20, delta);
    assert Times([0], 0) == 1;
    ApplyInside(m, [0], delta, 0);
    QuadIsRead(m, 0);
    QuadIsRead(r, 0);
    forall k | 8 <= k < 20 ensures r[k] == m[k] {
      ApplyOutside(m, [0], delta, k);
    }
    assert r[8..] == m[8..];
  }
}
