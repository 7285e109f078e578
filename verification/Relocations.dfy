/** Base relocation of kernel/ldr/pe.c: the walk over the .reloc blocks and what it does to
    the bytes of an image. Addresses are offsets into the image. */
module Relocations {
  import opened Prelude

  type Byte = b: int | 0 <= b < 256

  const DIR64 := 10
  const HEADER := 8

  // -------------------------------------------------- little-endian words

  /** The n bytes at `at`, least significant first. */
  function Read(m: seq<Byte>, at: nat, n: nat): nat
    requires at + n <= |m|
    decreases |m| - at
  {
    if n == 0 then 0 else m[at] + 256 * Read(m, at + 1, n - 1)
  }

  function Write(m: seq<Byte>, at: nat, v: nat, n: nat): seq<Byte>
    requires at + n <= |m|
    decreases |m| - at
  {
    if n == 0 then m else Write(m[at := v % 256], at + 1, v / 256, n - 1)
  }

  function Power(n: nat): nat
  {
    if n == 0 then 1 else 256 * Power(n - 1)
  }

  lemma PowerEight()
    ensures Power(8) == TWO_64
  {
    assert Power(3) == 0x100_0000;
    assert Power(5) == 0x100_0000_0000;
    assert Power(7) == 0x100_0000_0000_0000;
  }

  lemma {:induction false} WriteReads(m: seq<Byte>, at: nat, v: nat, n: nat)
    requires at + n <= |m| && v < Power(n)
    ensures var r := Write(m, at, v, n); |r| == |m| && Read(r, at, n) == v
    ensures forall k :: 0 <= k < |m| && (k < at || at + n <= k) ==> Write(m, at, v, n)[k] == m[k]
    decreases n
  {
    if n > 0 {
      WriteReads(m[at := v % 256], at + 1, v / 256, n - 1);
    }
  }

  lemma {:induction false} ReadBound(m: seq<Byte>, at: nat, n: nat)
    requires at + n <= |m|
    ensures Read(m, at, n) < Power(n)
    decreases n
  {
    if n > 0 {
      ReadBound(m, at + 1, n - 1);
    }
  }

  /** A number determines its bytes. */
  lemma {:induction false} SameNumberSameBytes(m: seq<Byte>, r: seq<Byte>, at: nat, n: nat, k: nat)
    requires at + n <= |m| == |r| && Read(m, at, n) == Read(r, at, n) && at <= k < at + n
    ensures m[k] == r[k]
    decreases n
  {
    assert Read(m, at, n) % 256 == m[at] && Read(r, at, n) % 256 == r[at];
    if at < k {
      SameNumberSameBytes(m, r, at + 1, n - 1, k);
    }
  }

  predicate AgreeOn(m: seq<Byte>, r: seq<Byte>, from: nat, to: nat)
  {
    |m| == |r| && forall k :: from <= k < to && k < |m| ==> m[k] == r[k]
  }

  lemma {:induction false} ReadAgrees(m: seq<Byte>, r: seq<Byte>, at: nat, n: nat)
    requires at + n <= |m| && AgreeOn(m, r, at, at + n)
    ensures Read(r, at, n) == Read(m, at, n)
    decreases n
  {
    if n > 0 {
      ReadAgrees(m, r, at + 1, n - 1);
    }
  }

  // ------------------------------------------------------- the addition

  /** `*p += delta` on the word at `at`. */
  function AddAt(m: seq<Byte>, at: nat, delta: int): seq<Byte>
    requires at + 8 <= |m|
  {
    Write(m, at, (Read(m, at, 8) + delta) % TWO_64, 8)
  }

  predicate Outside(at: nat, k: int)
  {
    k < at || k >= at + 8
  }

  lemma AddEffect(m: seq<Byte>, at: nat, delta: int)
    requires at + 8 <= |m|
    ensures var r := AddAt(m, at, delta); |r| == |m| && Read(r, at, 8) == (Read(m, at, 8) + delta) % TWO_64
    ensures forall k :: 0 <= k < |m| && Outside(at, k) ==> AddAt(m, at, delta)[k] == m[k]
  {
    PowerEight();
    WriteReads(m, at, (Read(m, at, 8) + delta) % TWO_64, 8);
  }

  /** Two images agree when they agree on one word and on all bytes outside it. */
  lemma EqualByWord(m: seq<Byte>, r: seq<Byte>, at: nat)
    requires |m| == |r| && at + 8 <= |m| && Read(m, at, 8) == Read(r, at, 8)
    requires forall k :: 0 <= k < |m| && Outside(at, k) ==> m[k] == r[k]
    ensures m == r
  {
    forall k | 0 <= k < |m| ensures m[k] == r[k] {
      if !Outside(at, k) {
        SameNumberSameBytes(m, r, at, 8, k);
      }
    }
  }

  lemma AddModulo(a: int, d: int)
    ensures (a % TWO_64 + d) % TWO_64 == (a + d) % TWO_64
  {
  }

  lemma OneMore(w: int, n: int, d: int)
    ensures ((w + n * d) % TWO_64 + d) % TWO_64 == (w + (n + 1) * d) % TWO_64
  {
    AddModulo(w + n * d, d);
    assert (n + 1) * d == n * d + d;
  }

  lemma AddTwice(m: seq<Byte>, at: nat, d: int, e: int)
    requires at + 8 <= |m|
    ensures |AddAt(m, at, d)| == |m| && AddAt(AddAt(m, at, d), at, e) == AddAt(m, at, d + e)
  {
    AddEffect(m, at, d);
    AddEffect(AddAt(m, at, d), at, e);
    AddEffect(m, at, d + e);
    AddModulo(Read(m, at, 8) + d, e);
    EqualByWord(AddAt(AddAt(m, at, d), at, e), AddAt(m, at, d + e), at);
  }

  lemma AddNothing(m: seq<Byte>, at: nat, d: int)
    requires at + 8 <= |m| && d % TWO_64 == 0
    ensures AddAt(m, at, d) == m
  {
    AddEffect(m, at, d);
    PowerEight();
    ReadBound(m, at, 8);
    AddModulo(d, Read(m, at, 8));
    EqualByWord(AddAt(m, at, d), m, at);
  }

  /** Two slots are the same or do not overlap. */
  predicate Clear(p: nat, q: nat)
  {
    p == q || p + 8 <= q || q + 8 <= p
  }

  lemma AddElsewhere(m: seq<Byte>, p: nat, q: nat, d: int)
    requires p + 8 <= |m| && q + 8 <= |m| && (p + 8 <= q || q + 8 <= p)
    ensures |AddAt(m, p, d)| == |m| && Read(AddAt(m, p, d), q, 8) == Read(m, q, 8)
  {
    AddEffect(m, p, d);
    ReadAgrees(m, AddAt(m, p, d), q, 8);
  }

  lemma AddCommutes(m: seq<Byte>, p: nat, q: nat, d: int, e: int)
    requires p + 8 <= |m| && q + 8 <= |m| && Clear(p, q)
    ensures |AddAt(m, p, d)| == |m| == |AddAt(m, q, e)|
    ensures AddAt(AddAt(m, p, d), q, e) == AddAt(AddAt(m, q, e), p, d)
  {
    AddEffect(m, p, d);
    AddEffect(m, q, e);
    if p == q {
      AddTwice(m, p, d, e);
      AddTwice(m, p, e, d);
    } else {
      var l, r := AddAt(AddAt(m, p, d), q, e), AddAt(AddAt(m, q, e), p, d);
      AddEffect(AddAt(m, p, d), q, e);
      AddEffect(AddAt(m, q, e), p, d);
      AddElsewhere(m, p, q, d);
      AddElsewhere(m, q, p, e);
      AddElsewhere(AddAt(m, q, e), p, q, d);
      EqualByWord(l, r, q) by {
        forall k | 0 <= k < |m| && Outside(q, k) ensures l[k] == r[k] {
          if Outside(p, k) {
            assert r[k] == m[k];
          } else {
            AddElsewhere(AddAt(m, p, d), q, p, e);
            SameNumberSameBytes(l, r, p, 8, k);
          }
        }
      }
    }
  }

  // --------------------------------------------------------- many slots

  predicate InImage(slots: seq<nat>, size: nat)
  {
    forall i :: 0 <= i < |slots| ==> slots[i] + 8 <= size
  }

  predicate NoPartialOverlap(slots: seq<nat>)
  {
    forall i, j :: 0 <= i < j < |slots| ==> Clear(slots[i], slots[j])
  }

  /** The image after adding delta at each slot in turn. */
  function Apply(m: seq<Byte>, slots: seq<nat>, delta: int): (r: seq<Byte>)
    requires InImage(slots, |m|)
    ensures |r| == |m|
  {
    if slots == [] then m
    else
      var last := slots[|slots| - 1];
      var before := Apply(m, slots[..|slots| - 1], delta);
      AddEffect(before, last, delta);
      AddAt(before, last, delta)
  }

  /** How often a slot is listed. */
  function Times(slots: seq<nat>, p: nat): nat
  {
    if slots == [] then 0
    else Times(slots[..|slots| - 1], p) + if slots[|slots| - 1] == p then 1 else 0
  }

  lemma {:induction false} ApplyOutside(m: seq<Byte>, slots: seq<nat>, delta: int, k: nat)
    requires InImage(slots, |m|) && k < |m| && forall i :: 0 <= i < |slots| ==> Outside(slots[i], k)
    ensures Apply(m, slots, delta)[k] == m[k]
  {
    if slots != [] {
      var rest := slots[..|slots| - 1];
      ApplyOutside(m, rest, delta, k);
      AddEffect(Apply(m, rest, delta), slots[|slots| - 1], delta);
    }
  }

  /** delta arrives modulo 2^64, once per listing. */
  lemma {:induction false} ApplyInside(m: seq<Byte>, slots: seq<nat>, delta: int, p: nat)
    requires InImage(slots, |m|) && p + 8 <= |m| && forall i :: 0 <= i < |slots| ==> Clear(slots[i], p)
    ensures Read(Apply(m, slots, delta), p, 8) == (Read(m, p, 8) + Times(slots, p) * delta) % TWO_64
  {
    if slots == [] {
      PowerEight();
      ReadBound(m, p, 8);
    } else {
      var rest, last := slots[..|slots| - 1], slots[|slots| - 1];
      ApplyInside(m, rest, delta, p);
      if last == p {
        AddEffect(Apply(m, rest, delta), p, delta);
        OneMore(Read(m, p, 8), Times(rest, p), delta);
      } else {
        AddElsewhere(Apply(m, rest, delta), last, p, delta);
      }
    }
  }

  lemma {:induction false} AddPast(m: seq<Byte>, slots: seq<nat>, d: int, q: nat, e: int)
    requires InImage(slots, |m|) && q + 8 <= |m| && forall i :: 0 <= i < |slots| ==> Clear(slots[i], q)
    ensures |AddAt(m, q, e)| == |m| && AddAt(Apply(m, slots, d), q, e) == Apply(AddAt(m, q, e), slots, d)
  {
    AddEffect(m, q, e);
    if slots != [] {
      var rest, last := slots[..|slots| - 1], slots[|slots| - 1];
      AddPast(m, rest, d, q, e);
      AddCommutes(Apply(m, rest, d), last, q, d, e);
    }
  }

  /** Relocating by d and then by e is relocating by d + e. */
  lemma {:induction false} ApplyComposes(m: seq<Byte>, slots: seq<nat>, d: int, e: int)
    requires InImage(slots, |m|) && NoPartialOverlap(slots)
    ensures Apply(Apply(m, slots, d), slots, e) == Apply(m, slots, d + e)
  {
    if slots != [] {
      var rest, last := slots[..|slots| - 1], slots[|slots| - 1];
      ApplyComposes(m, rest, d, e);
      var once := Apply(m, rest, d);
      AddPast(once, rest, e, last, d);
      AddTwice(Apply(once, rest, e), last, d, e);
    }
  }

  lemma {:induction false} ApplyNothing(m: seq<Byte>, slots: seq<nat>, d: int)
    requires InImage(slots, |m|) && d % TWO_64 == 0
    ensures Apply(m, slots, d) == m
  {
    if slots != [] {
      ApplyNothing(m, slots[..|slots| - 1], d);
      AddNothing(m, slots[|slots| - 1], d);
    }
  }

  // ------------------------------------------------------------ the table

  function BlockSize(m: seq<Byte>, cursor: nat): nat
    requires cursor + HEADER <= |m|
  {
    Read(m, cursor + 4, 4)
  }

  function EntryCount(m: seq<Byte>, cursor: nat): nat
    requires cursor + HEADER <= |m| && BlockSize(m, cursor) >= HEADER
  {
    (BlockSize(m, cursor) - HEADER) / 2
  }

  predicate BlockFits(m: seq<Byte>, cursor: nat)
  {
    cursor + HEADER <= |m| && BlockSize(m, cursor) >= HEADER && cursor + BlockSize(m, cursor) <= |m|
  }

  function EntryAt(m: seq<Byte>, cursor: nat, i: nat): nat
    requires BlockFits(m, cursor) && i < EntryCount(m, cursor)
  {
    Read(m, cursor + HEADER + 2 * i, 2)
  }

  /** The slots of a block's first n entries: only DIR64 entries name one. */
  function BlockSlots(m: seq<Byte>, cursor: nat, n: nat): seq<nat>
    requires BlockFits(m, cursor) && n <= EntryCount(m, cursor)
  {
    if n == 0 then []
    else
      var entry := EntryAt(m, cursor, n - 1);
      BlockSlots(m, cursor, n - 1)
      + if entry / 0x1000 == DIR64 then [Read(m, cursor, 4) + entry % 0x1000] else []
  }

  /** The walk from cursor stays inside the image. */
  predicate TableFits(m: seq<Byte>, cursor: nat, end: nat)
    decreases end - cursor
  {
    cursor < end ==>
      cursor + HEADER <= |m|
      && (BlockSize(m, cursor) >= HEADER ==>
            BlockFits(m, cursor) && TableFits(m, cursor + BlockSize(m, cursor), end))
  }

  function Slots(m: seq<Byte>, cursor: nat, end: nat): seq<nat>
    requires TableFits(m, cursor, end)
    decreases end - cursor
  {
    if cursor >= end || BlockSize(m, cursor) < HEADER then []
    else BlockSlots(m, cursor, EntryCount(m, cursor)) + Slots(m, cursor + BlockSize(m, cursor), end)
  }

  /** One past the last table byte the walk reads. */
  function TableEnd(m: seq<Byte>, cursor: nat, end: nat): (r: nat)
    requires TableFits(m, cursor, end)
    ensures cursor <= r && (cursor < end ==> cursor + HEADER <= r <= |m|)
    decreases end - cursor
  {
    if cursor >= end then cursor
    else if BlockSize(m, cursor) < HEADER then cursor + HEADER
    else TableEnd(m, cursor + BlockSize(m, cursor), end)
  }

  predicate Beside(p: nat, start: nat, end: nat)
  {
    p + 8 <= start || end <= p
  }

  predicate SlotsBeside(m: seq<Byte>, slots: seq<nat>, start: nat, end: nat)
  {
    InImage(slots, |m|) && forall i :: 0 <= i < |slots| ==> Beside(slots[i], start, end)
  }

  /** The walk from cursor stays inside the image and its slots miss the table. */
  predicate WalkSafe(m: seq<Byte>, cursor: nat, end: nat)
  {
    TableFits(m, cursor, end) && SlotsBeside(m, Slots(m, cursor, end), cursor, TableEnd(m, cursor, end))
  }

  /** No slot overlaps the table or, in part, another slot. */
  predicate WellFormed(m: seq<Byte>, start: nat, end: nat)
  {
    WalkSafe(m, start, end) && NoPartialOverlap(Slots(m, start, end))
  }

  lemma HeaderAgrees(m: seq<Byte>, r: seq<Byte>, cursor: nat)
    requires cursor + HEADER <= |m| && AgreeOn(m, r, cursor, cursor + HEADER)
    ensures BlockSize(r, cursor) == BlockSize(m, cursor) && Read(r, cursor, 4) == Read(m, cursor, 4)
  {
    ReadAgrees(m, r, cursor, 4);
    ReadAgrees(m, r, cursor + 4, 4);
  }

  lemma {:induction false} BlockAgrees(m: seq<Byte>, r: seq<Byte>, cursor: nat, n: nat)
    requires BlockFits(m, cursor) && n <= EntryCount(m, cursor)
    requires AgreeOn(m, r, cursor, cursor + BlockSize(m, cursor))
    ensures BlockFits(r, cursor) && BlockSize(r, cursor) == BlockSize(m, cursor)
    ensures BlockSlots(r, cursor, n) == BlockSlots(m, cursor, n)
  {
    HeaderAgrees(m, r, cursor);
    if n > 0 {
      BlockAgrees(m, r, cursor, n - 1);
      ReadAgrees(m, r, cursor + HEADER + 2 * (n - 1), 2);
    }
  }

  /** The walk sees only the table: images that agree there have the same slots. */
  lemma {:induction false} TableAgrees(m: seq<Byte>, r: seq<Byte>, cursor: nat, end: nat)
    requires TableFits(m, cursor, end) && AgreeOn(m, r, cursor, TableEnd(m, cursor, end))
    ensures TableFits(r, cursor, end) && Slots(r, cursor, end) == Slots(m, cursor, end)
    ensures TableEnd(r, cursor, end) == TableEnd(m, cursor, end)
    decreases end - cursor
  {
    if cursor < end {
      HeaderAgrees(m, r, cursor);
      if BlockSize(m, cursor) >= HEADER {
        var after := cursor + BlockSize(m, cursor);
        BlockAgrees(m, r, cursor, EntryCount(m, cursor));
        TableAgrees(m, r, after, end);
      }
    }
  }

  // ------------------------------------------------------- main theorems

  /** What apply_relocations makes of an image. */
  function Relocated(m: seq<Byte>, start: nat, end: nat, delta: int): seq<Byte>
    requires WalkSafe(m, start, end)
  {
    Apply(m, Slots(m, start, end), delta)
  }

  /** Bytes beside all slots survive. */
  lemma BesideSurvives(m: seq<Byte>, slots: seq<nat>, start: nat, end: nat, delta: int)
    requires SlotsBeside(m, slots, start, end)
    ensures AgreeOn(m, Apply(m, slots, delta), start, end)
  {
    forall k | start <= k < end && k < |m| ensures m[k] == Apply(m, slots, delta)[k] {
      forall i | 0 <= i < |slots| ensures Outside(slots[i], k) {
        assert Beside(slots[i], start, end);
      }
      ApplyOutside(m, slots, delta, k);
    }
  }

  lemma RelocatedWellFormed(m: seq<Byte>, start: nat, end: nat, delta: int)
    requires WellFormed(m, start, end)
    ensures WellFormed(Relocated(m, start, end, delta), start, end)
    ensures Slots(Relocated(m, start, end, delta), start, end) == Slots(m, start, end)
  {
    BesideSurvives(m, Slots(m, start, end), start, TableEnd(m, start, end), delta);
    TableAgrees(m, Relocated(m, start, end, delta), start, end);
  }

  /** Relocation is a group action: moves compose, and moving back restores the image. */
  lemma GroupAction(m: seq<Byte>, start: nat, end: nat, d: int, e: int)
    requires WellFormed(m, start, end)
    ensures WellFormed(Relocated(m, start, end, d), start, end)
    ensures Relocated(Relocated(m, start, end, d), start, end, e) == Relocated(m, start, end, d + e)
    ensures (d + e) % TWO_64 == 0 ==> Relocated(Relocated(m, start, end, d), start, end, e) == m
  {
    RelocatedWellFormed(m, start, end, d);
    ApplyComposes(m, Slots(m, start, end), d, e);
    if (d + e) % TWO_64 == 0 {
      ApplyNothing(m, Slots(m, start, end), d + e);
    }
  }

  /** Exactly the listed words change, each by delta per listing, modulo 2^64. */
  lemma ExactEffect(m: seq<Byte>, start: nat, end: nat, delta: int)
    requires WellFormed(m, start, end)
    ensures var slots, r := Slots(m, start, end), Relocated(m, start, end, delta);
      && |r| == |m|
      && (forall i :: 0 <= i < |slots| ==>
            Read(r, slots[i], 8) == (Read(m, slots[i], 8) + Times(slots, slots[i]) * delta) % TWO_64)
      && (forall k :: 0 <= k < |m| && (forall i :: 0 <= i < |slots| ==> Outside(slots[i], k)) ==> r[k] == m[k])
  {
    var slots, r := Slots(m, start, end), Relocated(m, start, end, delta);
    forall i | 0 <= i < |slots|
      ensures Read(r, slots[i], 8) == (Read(m, slots[i], 8) + Times(slots, slots[i]) * delta) % TWO_64
    {
      ApplyInside(m, slots, delta, slots[i]);
    }
    forall k | 0 <= k < |m| && (forall i :: 0 <= i < |slots| ==> Outside(slots[i], k)) ensures r[k] == m[k] {
      ApplyOutside(m, slots, delta, k);
    }
  }

  // -------------------------------------------------------------- the code

  /** A little-endian store of n bytes. */
  method Store(image: array<Byte>, at: nat, v: nat, n: nat)
    requires at + n <= image.Length
    modifies image
    ensures image[..] == Write(old(image[..]), at, v, n)
  {
    ghost var m := image[..];
    var rest, k := v, 0;
    while k < n
      invariant 0 <= k <= n && Write(image[..], at + k, rest, n - k) == Write(m, at, v, n)
    {
      ghost var before := image[..];
      image[at + k] := rest % 256;
      assert image[..] == before[at + k := rest % 256];
      rest := rest / 256;
      k := k + 1;
    }
  }

  lemma {:induction false} ApplyAppend(m: seq<Byte>, a: seq<nat>, b: seq<nat>, delta: int)
    requires InImage(a, |m|) && InImage(b, |m|)
    ensures InImage(a + b, |m|) && Apply(m, a + b, delta) == Apply(Apply(m, a, delta), b, delta)
  {
    if b == [] {
      assert a + b == a;
    } else {
      var rest := b[..|b| - 1];
      ApplyAppend(m, a, rest, delta);
      assert (a + b)[..|a + b| - 1] == a + rest;
    }
  }

  lemma {:induction false} BlockPrefix(m: seq<Byte>, cursor: nat, n: nat)
    requires BlockFits(m, cursor) && n <= EntryCount(m, cursor)
    ensures BlockSlots(m, cursor, n) <= BlockSlots(m, cursor, EntryCount(m, cursor))
    decreases EntryCount(m, cursor) - n
  {
    if n < EntryCount(m, cursor) {
      BlockPrefix(m, cursor, n + 1);
    }
  }

  /** The block's slots lie in the image and outside the block. */
  predicate BlockSafe(m: seq<Byte>, cursor: nat)
  {
    BlockFits(m, cursor)
    && SlotsBeside(m, BlockSlots(m, cursor, EntryCount(m, cursor)), cursor, cursor + BlockSize(m, cursor))
  }

  /** Part way through a block its bytes are as they were. */
  lemma BlockSurvives(m: seq<Byte>, cursor: nat, n: nat, delta: int)
    requires BlockSafe(m, cursor) && n <= EntryCount(m, cursor)
    ensures InImage(BlockSlots(m, cursor, n), |m|)
    ensures AgreeOn(m, Apply(m, BlockSlots(m, cursor, n), delta), cursor, cursor + BlockSize(m, cursor))
  {
    var some, all := BlockSlots(m, cursor, n), BlockSlots(m, cursor, EntryCount(m, cursor));
    BlockPrefix(m, cursor, n);
    assert forall i :: 0 <= i < |some| ==> some[i] == all[i];
    BesideSurvives(m, some, cursor, cursor + BlockSize(m, cursor), delta);
  }

  lemma ApplyOneMore(m: seq<Byte>, slots: seq<nat>, at: nat, delta: int)
    requires InImage(slots + [at], |m|)
    ensures InImage(slots, |m|) && at + 8 <= |m|
    ensures Apply(m, slots + [at], delta) == AddAt(Apply(m, slots, delta), at, delta)
  {
    var all := slots + [at];
    assert all[|slots|] == at && all[..|slots|] == slots;
    assert forall i :: 0 <= i < |slots| ==> slots[i] == all[i];
  }

  /** `*p += delta` */
  method AddWord(image: array<Byte>, at: nat, delta: int)
    requires at + 8 <= image.Length
    modifies image
    ensures image[..] == AddAt(old(image[..]), at, delta)
  {
    var word := Load(image, at, 8);
    Store(image, at, (word + delta) % TWO_64, 8);
  }

  /** An entry names a word in the image, or nothing. */
  predicate EntryFits(m: seq<Byte>, pageAddress: nat, entry: nat)
  {
    entry / 0x1000 == DIR64 ==> pageAddress + entry % 0x1000 + 8 <= |m|
  }

  function EntryEffect(m: seq<Byte>, pageAddress: nat, entry: nat, delta: int): seq<Byte>
    requires EntryFits(m, pageAddress, entry)
  {
    if entry / 0x1000 == DIR64 then AddAt(m, pageAddress + entry % 0x1000, delta) else m
  }

  method RelocateEntry(image: array<Byte>, pageAddress: nat, entry: nat, delta: int)
    requires EntryFits(image[..], pageAddress, entry)
    modifies image
    ensures image[..] == EntryEffect(old(image[..]), pageAddress, entry, delta)
  {
    if entry / 0x1000 == DIR64 {
      AddWord(image, pageAddress + entry % 0x1000, delta);
    }
  }

  /** The image after the block's first n entries. */
  function AfterEntries(m: seq<Byte>, cursor: nat, n: nat, delta: int): (r: seq<Byte>)
    requires BlockSafe(m, cursor) && n <= EntryCount(m, cursor)
    ensures |r| == |m|
  {
    BlockSurvives(m, cursor, n, delta);
    Apply(m, BlockSlots(m, cursor, n), delta)
  }

  /** One more entry, in terms of the image as it then is. */
  lemma EntryStep(m: seq<Byte>, cursor: nat, i: nat, delta: int)
    requires BlockSafe(m, cursor) && i < EntryCount(m, cursor)
    ensures EntryFits(m, Read(m, cursor, 4), EntryAt(m, cursor, i))
    ensures AfterEntries(m, cursor, i + 1, delta)
         == EntryEffect(AfterEntries(m, cursor, i, delta), Read(m, cursor, 4), EntryAt(m, cursor, i), delta)
  {
    BlockSurvives(m, cursor, i + 1, delta);
    var now, entry := BlockSlots(m, cursor, i), EntryAt(m, cursor, i);
    if entry / 0x1000 == DIR64 {
      ApplyOneMore(m, now, Read(m, cursor, 4) + entry % 0x1000, delta);
    } else {
      assert now + [] == now;
    }
  }

  /** The block reads as at the start. */
  lemma EntryVisible(m: seq<Byte>, cursor: nat, i: nat, delta: int)
    requires BlockSafe(m, cursor) && i < EntryCount(m, cursor)
    ensures var r := AfterEntries(m, cursor, i, delta);
      |r| == |m| && Read(r, cursor, 4) == Read(m, cursor, 4)
      && Read(r, cursor + HEADER + 2 * i, 2) == EntryAt(m, cursor, i)
  {
    BlockSurvives(m, cursor, i, delta);
    var r := AfterEntries(m, cursor, i, delta);
    HeaderAgrees(m, r, cursor);
    ReadAgrees(m, r, cursor + HEADER + 2 * i, 2);
  }

  /** One more entry, read in the image as it then is. */
  function NextEntry(r: seq<Byte>, cursor: nat, i: nat, delta: int): Option<seq<Byte>>
    requires cursor + HEADER + 2 * i + 2 <= |r|
  {
    var pageAddress, entry := Read(r, cursor, 4), Read(r, cursor + HEADER + 2 * i, 2);
    if EntryFits(r, pageAddress, entry) then Some(EntryEffect(r, pageAddress, entry, delta)) else None
  }

  lemma EntryInPlace(m: seq<Byte>, cursor: nat, i: nat, delta: int)
    requires BlockSafe(m, cursor) && i < EntryCount(m, cursor)
    ensures NextEntry(AfterEntries(m, cursor, i, delta), cursor, i, delta)
         == Some(AfterEntries(m, cursor, i + 1, delta))
  {
    EntryStep(m, cursor, i, delta);
    EntryVisible(m, cursor, i, delta);
  }

  method RelocateEntryAt(image: array<Byte>, cursor: nat, i: nat, delta: int)
    requires cursor + HEADER + 2 * i + 2 <= image.Length && NextEntry(image[..], cursor, i, delta).Some?
    modifies image
    ensures Some(image[..]) == NextEntry(old(image[..]), cursor, i, delta)
  {
    var entry := Load(image, cursor + HEADER + 2 * i, 2);
    var pageAddress := Load(image, cursor, 4);
    RelocateEntry(image, pageAddress, entry, delta);
  }

  /** One block, read in the image as it is when the walk reaches it. */
  method RelocateBlock(image: array<Byte>, cursor: nat, delta: int)
    requires BlockSafe(image[..], cursor)
    modifies image
    ensures var m := old(image[..]); image[..] == AfterEntries(m, cursor, EntryCount(m, cursor), delta)
  {
    ghost var m := image[..];
    var blockSize := Load(image, cursor + 4, 4);
    var count := (blockSize - HEADER) / 2;
    var i := 0;
    while i < count
      invariant 0 <= i <= count == EntryCount(m, cursor)
      invariant image[..] == AfterEntries(m, cursor, i, delta)
    {
      EntryInPlace(m, cursor, i, delta);
      RelocateEntryAt(image, cursor, i, delta);
      i := i + 1;
    }
  }

  /** The next block of a safe walk, and what is left of the walk. */
  lemma BlockOfWalk(m: seq<Byte>, cursor: nat, end: nat)
    requires WalkSafe(m, cursor, end) && cursor < end && BlockSize(m, cursor) >= HEADER
    ensures BlockSafe(m, cursor)
    ensures TableFits(m, cursor + BlockSize(m, cursor), end)
    ensures var after := cursor + BlockSize(m, cursor);
      && SlotsBeside(m, BlockSlots(m, cursor, EntryCount(m, cursor)), after, TableEnd(m, after, end))
      && SlotsBeside(m, Slots(m, after, end), after, TableEnd(m, after, end))
  {
    var slots, after := BlockSlots(m, cursor, EntryCount(m, cursor)), cursor + BlockSize(m, cursor);
    var rest, all, last := Slots(m, after, end), Slots(m, cursor, end), TableEnd(m, cursor, end);
    assert all == slots + rest && last == TableEnd(m, after, end) && after <= last;
    forall i | 0 <= i < |slots| ensures slots[i] + 8 <= |m| && Beside(slots[i], cursor, last) {
      assert slots[i] == all[i];
    }
    forall i | 0 <= i < |rest| ensures rest[i] + 8 <= |m| && Beside(rest[i], cursor, last) {
      assert rest[i] == all[|slots| + i];
    }
  }

  /** Where a safe walk ends up. */
  function Outcome(m: seq<Byte>, cursor: nat, end: nat, delta: int): Option<seq<Byte>>
  {
    if WalkSafe(m, cursor, end) then Some(Relocated(m, cursor, end, delta)) else None
  }

  /** Relocating one block and then walking on, in the image as it then is, does what the
      whole walk does. */
  lemma BlockThenRest(m: seq<Byte>, cursor: nat, end: nat, delta: int)
    requires WalkSafe(m, cursor, end) && cursor < end && BlockSize(m, cursor) >= HEADER && BlockSafe(m, cursor)
    ensures Outcome(AfterEntries(m, cursor, EntryCount(m, cursor), delta), cursor + BlockSize(m, cursor), end, delta)
         == Outcome(m, cursor, end, delta)
  {
    var slots, after := BlockSlots(m, cursor, EntryCount(m, cursor)), cursor + BlockSize(m, cursor);
    var r := Apply(m, slots, delta);
    BlockOfWalk(m, cursor, end);
    BesideSurvives(m, slots, after, TableEnd(m, after, end), delta);
    TableAgrees(m, r, after, end);
    ApplyAppend(m, slots, Slots(m, after, end), delta);
  }

  /** A walk at its end has nothing left to do. */
  lemma WalkOver(m: seq<Byte>, cursor: nat, end: nat, delta: int)
    requires WalkSafe(m, cursor, end) && (cursor >= end || BlockSize(m, cursor) < HEADER)
    ensures Outcome(m, cursor, end, delta) == Some(m)
  {
  }

  /** apply_relocations */
  method ApplyRelocations(image: array<Byte>, start: nat, size: nat, delta: int)
    requires WalkSafe(image[..], start, start + size)
    modifies image
    ensures image[..] == Relocated(old(image[..]), start, start + size, delta)
  {
    ghost var m := image[..];
    var end := start + size;
    if delta == 0 {
      ApplyNothing(m, Slots(m, start, end), 0);
      return;
    }
    if size == 0 {
      return;
    }
    var cursor := start;
    while cursor < end
      invariant Outcome(image[..], cursor, end, delta) == Some(Relocated(m, start, end, delta))
      decreases end - cursor
    {
      var blockSize := Load(image, cursor + 4, 4);
      if blockSize < HEADER {
        break;
      }
      BlockOfWalk(image[..], cursor, end);
      BlockThenRest(image[..], cursor, end, delta);
      RelocateBlock(image, cursor, delta);
      cursor := cursor + blockSize;
    }
    WalkOver(image[..], cursor, end, delta);
  }

  /** A little-endian load of n bytes. */
  method Load(image: array<Byte>, at: nat, n: nat) returns (v: nat)
    requires at + n <= image.Length
    ensures v == Read(image[..], at, n)
  {
    v := 0;
    var k := n;
    while k > 0
      invariant 0 <= k <= n && v == Read(image[..], at + k, n - k)
    {
      k := k - 1;
      v := image[at + k] + 256 * v;
    }
  }
}
