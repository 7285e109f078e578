/** File names of kernel/io/fat.c: 8.3 forms, case-insensitive comparison and long names put
    together from directory fragments. Strings are character codes without the final zero. */
module FatNames {

  type Name = seq<nat>

  const SPACE := 32
  const DOT := 46
  const NAME_BUFFER := 260
  const FRAGMENT := 13
  const FILL := 0xFFFF
  const UNKNOWN := 63

  function Min(a: int, b: int): int
  {
    if a <= b then a else b
  }

  function Upper(c: nat): nat
  {
    if 97 <= c <= 122 then c - 32 else c
  }

  function Lower(c: nat): nat
  {
    if 65 <= c <= 90 then c + 32 else c
  }

  function UpperName(n: Name): (r: Name)
    ensures |r| == |n|
  {
    seq(|n|, i requires 0 <= i < |n| => Upper(n[i]))
  }

  // ----------------------------------------------------------- 8.3 names

  /** Where the first c is, or the length. */
  function First(n: Name, c: nat): (d: nat)
    ensures d <= |n| && (d < |n| ==> n[d] == c)
  {
    if n == [] || n[0] == c then 0 else 1 + First(n[1..], c)
  }

  function Base(n: Name): Name
  {
    n[..First(n, DOT)]
  }

  function Extension(n: Name): Name
  {
    if First(n, DOT) < |n| then n[First(n, DOT) + 1..] else []
  }

  /** n's first `width` characters in upper case, filled with spaces. */
  function Padded(n: Name, width: nat): (r: Name)
    ensures |r| == width
  {
    seq(width, i requires 0 <= i < width => if i < |n| then Upper(n[i]) else SPACE)
  }

  /** to_83 */
  function To83(n: Name): (r: Name)
    ensures |r| == 11
  {
    Padded(Base(n), 8) + Padded(Extension(n), 3)
  }

  /** from_83 */
  function From83(short: Name): Name
    requires |short| == 11
  {
    var base, ext := short[..8], short[8..];
    base[..First(base, SPACE)] + if ext[0] != SPACE then [DOT] + ext[..First(ext, SPACE)] else []
  }

  /** name_is_83: one to eight characters, then nothing, or a dot and at most three without
      another dot. */
  predicate Is83(n: Name)
  {
    1 <= |Base(n)| <= 8 && |Extension(n)| <= 3 && DOT !in Extension(n)
  }

  lemma {:induction false} BeforeFirst(n: Name, c: nat, i: nat)
    requires i < First(n, c)
    ensures n[i] != c
  {
    if i > 0 {
      BeforeFirst(n[1..], c, i - 1);
    }
  }

  lemma NoneBefore(n: Name, c: nat)
    ensures c !in n[..First(n, c)]
  {
    forall i | 0 <= i < First(n, c) ensures n[i] != c {
      BeforeFirst(n, c, i);
    }
  }

  lemma NotBefore(n: Name, c: nat, i: nat)
    requires i < |n|
    ensures n[i] == c ==> First(n, c) <= i
  {
    if i < First(n, c) {
      BeforeFirst(n, c, i);
    }
  }

  lemma FirstIs(n: Name, c: nat, d: nat)
    requires d <= |n| && c !in n[..d] && (d < |n| ==> n[d] == c)
    ensures First(n, c) == d
  {
    forall i | 0 <= i < d ensures n[i] != c {
      assert n[..d][i] == n[i];
    }
    if d < |n| {
      NotBefore(n, c, d);
    }
  }

  /** A padded name without spaces is read back whole. */
  lemma PaddedBack(n: Name, width: nat)
    requires |n| <= width && SPACE !in n
    ensures First(Padded(n, width), SPACE) == |n| && Padded(n, width)[..|n|] == UpperName(n)
  {
    var p := Padded(n, width);
    forall i | 0 <= i < |n| ensures p[i] != SPACE {
      assert n[i] in n;
    }
    FirstIs(p, SPACE, |n|);
  }

  lemma SplitAt(n: Name, d: nat)
    requires d < |n|
    ensures n == n[..d] + [n[d]] + n[d + 1..]
  {
  }

  /** The parts of an 8.3 name. */
  lemma Parts(n: Name)
    ensures First(n, DOT) == |n| ==> n == Base(n)
    ensures First(n, DOT) < |n| ==> n == Base(n) + [DOT] + Extension(n)
  {
    if First(n, DOT) < |n| {
      SplitAt(n, First(n, DOT));
    }
  }

  predicate EndsInDot(n: Name)
  {
    n != [] && n[|n| - 1] == DOT
  }

  lemma UpperAround(base: Name, ext: Name)
    ensures UpperName(base + [DOT] + ext) == UpperName(base) + [DOT] + UpperName(ext)
  {
  }

  lemma UpperParts(n: Name)
    ensures UpperName(n) == UpperName(Base(n)) + if First(n, DOT) < |n| then [DOT] + UpperName(Extension(n)) else []
  {
    Parts(n);
    var b, e := UpperName(Base(n)), UpperName(Extension(n));
    if First(n, DOT) < |n| {
      UpperAround(Base(n), Extension(n));
      assert b + [DOT] + e == b + ([DOT] + e);
    } else {
      assert b + [] == b;
    }
  }

  /** The short form's two halves, read back. */
  lemma HalvesBack(n: Name)
    requires Is83(n) && SPACE !in n
    ensures var s := To83(n);
      && s[..8][..First(s[..8], SPACE)] == UpperName(Base(n))
      && s[8..][..First(s[8..], SPACE)] == UpperName(Extension(n))
      && (s[8] != SPACE <==> Extension(n) != [])
  {
    var b, e := Base(n), Extension(n);
    Parts(n);
    assert To83(n)[..8] == Padded(b, 8) && To83(n)[8..] == Padded(e, 3);
    PaddedBack(b, 8);
    PaddedBack(e, 3);
    assert e != [] ==> e[0] in n;
  }

  lemma RoundTripGood(n: Name)
    requires Is83(n) && SPACE !in n && !EndsInDot(n)
    ensures From83(To83(n)) == UpperName(n)
  {
    HalvesBack(n);
    UpperParts(n);
    assert First(n, DOT) < |n| ==> Extension(n) != [] by {
      assert First(n, DOT) == |n| - 1 ==> EndsInDot(n);
    }
  }

  /** from_83 never yields a space, nor a final dot unless the extension has one. */
  lemma From83Shape(short: Name)
    requires |short| == 11
    ensures SPACE !in From83(short)
    ensures DOT !in short[8..] && DOT !in short[..8] ==> !EndsInDot(From83(short))
  {
    var base, ext := short[..8], short[8..];
    var b, e := First(base, SPACE), First(ext, SPACE);
    NoneBefore(base, SPACE);
    NoneBefore(ext, SPACE);
    if ext[0] != SPACE {
      assert e > 0;
      assert ext[..e][e - 1] == ext[e - 1] && ext[e - 1] in ext;
    } else if b > 0 {
      assert base[..b][b - 1] == base[b - 1] && base[b - 1] in base;
    }
  }

  lemma NoDots(n: Name, width: nat)
    requires DOT !in n
    ensures DOT !in Padded(n, width)
  {
    forall i | 0 <= i < width ensures Padded(n, width)[i] != DOT {
      if i < |n| {
        assert n[i] in n;
      }
    }
  }

  /** An 8.3 name comes back in upper case exactly when it has no space and no final dot. */
  lemma RoundTrip83(n: Name)
    requires Is83(n)
    ensures From83(To83(n)) == UpperName(n) <==> SPACE !in n && !EndsInDot(n)
  {
    if SPACE !in n && !EndsInDot(n) {
      RoundTripGood(n);
    } else {
      NoneBefore(n, DOT);
      NoDots(Base(n), 8);
      NoDots(Extension(n), 3);
      assert To83(n)[..8] == Padded(Base(n), 8) && To83(n)[8..] == Padded(Extension(n), 3);
      From83Shape(To83(n));
      if SPACE in n {
        var i :| 0 <= i < |n| && n[i] == SPACE;
        assert UpperName(n)[i] == SPACE;
      } else {
        assert UpperName(n)[|n| - 1] == DOT;
      }
    }
  }

  // ---------------------------------------------------------- comparison

  predicate EqualIgnoringCase(a: Name, b: Name)
  {
    |a| == |b| && forall i :: 0 <= i < |a| ==> Lower(a[i]) == Lower(b[i])
  }

  // ---------------------------------------------------------- long names

  /** The string in a buffer. */
  function CString(buffer: seq<nat>): Name
  {
    buffer[..First(buffer, 0)]
  }

  function Blank(): (r: seq<nat>)
    ensures |r| == NAME_BUFFER
  {
    seq(NAME_BUFFER, _ => 0)
  }

  /** A UTF-16 unit as the kernel keeps it. */
  function Kept(c: nat): nat
  {
    if c <= 0x7F then c else UNKNOWN
  }

  /** The loop of lfn_put_fragment from character i on. */
  function PutFrom(buffer: seq<nat>, pos: nat, chars: seq<nat>, i: nat): (r: seq<nat>)
    requires |buffer| == NAME_BUFFER && |chars| == FRAGMENT && i <= FRAGMENT
    ensures |r| == NAME_BUFFER
    decreases |chars| - i
  {
    if i >= FRAGMENT || pos + i >= NAME_BUFFER - 1 then buffer
    else if chars[i] == 0 then buffer[pos + i := 0]
    else PutFrom(if chars[i] == FILL then buffer else buffer[pos + i := Kept(chars[i])], pos, chars, i + 1)
  }

  /** lfn_put_fragment, by the entry's order byte. */
  function PutFragment(buffer: seq<nat>, order: nat, chars: seq<nat>): (r: seq<nat>)
    requires |buffer| == NAME_BUFFER && |chars| == FRAGMENT
    ensures |r| == NAME_BUFFER
  {
    var ordinal := order % 32;
    if ordinal == 0 || ordinal > 20 then buffer else PutFrom(buffer, (ordinal - 1) * FRAGMENT, chars, 0)
  }

  /** Fragment k, from 1, of a long name: the name, a zero, then fill. */
  function FragmentOf(n: Name, k: nat): (r: seq<nat>)
    requires k >= 1
    ensures |r| == FRAGMENT
  {
    seq(FRAGMENT, i requires 0 <= i < FRAGMENT =>
      var p := (k - 1) * FRAGMENT + i;
      if p < |n| then n[p] else if p == |n| then 0 else FILL)
  }

  function FragmentCount(n: Name): nat
  {
    (|n| + FRAGMENT - 1) / FRAGMENT
  }

  /** A name that long entries can hold as it is. */
  predicate AsciiName(n: Name)
  {
    1 <= |n| <= 255 && forall i :: 0 <= i < |n| ==> 1 <= n[i] <= 0x7F
  }

  /** The buffer holds the name from position p on and nothing before. */
  predicate HoldsFrom(buffer: seq<nat>, n: Name, p: int)
  {
    |buffer| == NAME_BUFFER && forall q :: 0 <= q < NAME_BUFFER ==> buffer[q] == if p <= q < |n| then n[q] else 0
  }

  /** One fragment's loop, part way: the window below pos + i is filled in. */
  predicate Filling(buffer: seq<nat>, n: Name, pos: nat, i: nat)
  {
    |buffer| == NAME_BUFFER && forall q :: 0 <= q < NAME_BUFFER ==>
      buffer[q] == if (pos <= q < pos + i || pos + FRAGMENT <= q) && q < |n| then n[q] else 0
  }

  lemma {:induction false} PutFills(buffer: seq<nat>, n: Name, k: nat, i: nat)
    requires AsciiName(n) && k >= 1 && i <= FRAGMENT && Filling(buffer, n, (k - 1) * FRAGMENT, i)
    ensures HoldsFrom(PutFrom(buffer, (k - 1) * FRAGMENT, FragmentOf(n, k), i), n, (k - 1) * FRAGMENT)
    decreases FRAGMENT - i
  {
    var pos, chars := (k - 1) * FRAGMENT, FragmentOf(n, k);
    if i < FRAGMENT && pos + i < NAME_BUFFER - 1 && chars[i] != 0 {
      PutFills(if chars[i] == FILL then buffer else buffer[pos + i := Kept(chars[i])], n, k, i + 1);
    }
  }

  /** The order byte of fragment k: the last one, stored first, carries the start flag. */
  function OrderOf(n: Name, k: nat): nat
  {
    if k == FragmentCount(n) then k + 64 else k
  }

  /** Fragments k down to 1 replayed into a buffer. */
  function Replay(buffer: seq<nat>, n: Name, k: nat): (r: seq<nat>)
    requires |buffer| == NAME_BUFFER
    ensures |r| == NAME_BUFFER
    decreases k
  {
    if k == 0 then buffer else Replay(PutFragment(buffer, OrderOf(n, k), FragmentOf(n, k)), n, k - 1)
  }

  /** The order byte tells the fragment's place; 255 characters need at most 20 fragments. */
  lemma OrderTells(n: Name, k: nat)
    requires AsciiName(n) && 1 <= k <= FragmentCount(n)
    ensures k <= 20 && OrderOf(n, k) % 32 == k
  {
  }

  lemma OneFragment(buffer: seq<nat>, n: Name, k: nat)
    requires AsciiName(n) && 1 <= k <= FragmentCount(n) && HoldsFrom(buffer, n, k * FRAGMENT)
    ensures HoldsFrom(PutFragment(buffer, OrderOf(n, k), FragmentOf(n, k)), n, (k - 1) * FRAGMENT)
  {
    OrderTells(n, k);
    assert Filling(buffer, n, (k - 1) * FRAGMENT, 0);
    PutFills(buffer, n, k, 0);
  }

  lemma {:induction false} ReplayHolds(buffer: seq<nat>, n: Name, k: nat)
    requires AsciiName(n) && k <= FragmentCount(n) && HoldsFrom(buffer, n, k * FRAGMENT)
    ensures HoldsFrom(Replay(buffer, n, k), n, 0)
    decreases k
  {
    if k > 0 {
      OneFragment(buffer, n, k);
      ReplayHolds(PutFragment(buffer, OrderOf(n, k), FragmentOf(n, k)), n, k - 1);
    }
  }

  /** Splitting an ASCII long name and replaying its fragments gives it back. */
  lemma LongNameRoundTrip(n: Name)
    requires AsciiName(n)
    ensures CString(Replay(Blank(), n, FragmentCount(n))) == n
  {
    ReplayHolds(Blank(), n, FragmentCount(n));
    var r := Replay(Blank(), n, FragmentCount(n));
    assert r[..|n|] == n;
    FirstIs(r, 0, |n|);
  }

  // ------------------------------------------------------------- the code

  /** to_83 */
  method To83Form(name: Name, out: array<nat>)
    requires out.Length == 11
    modifies out
    ensures out[..] == To83(name)
  {
    for k := 0 to 11
      invariant forall j :: 0 <= j < k ==> out[j] == SPACE
    {
      out[k] := SPACE;
    }
    var p := CopyBase(name, out);
    CopyExtension(name, p, out);
  }

  /** The base: copied up to eight characters, then skipped to the dot. */
  method CopyBase(name: Name, out: array<nat>) returns (p: nat)
    requires out.Length == 11 && forall j :: 0 <= j < 11 ==> out[j] == SPACE
    modifies out
    ensures p == First(name, DOT)
    ensures out[..8] == Padded(Base(name), 8) && forall j :: 8 <= j < 11 ==> out[j] == SPACE
  {
    p := 0;
    ghost var d := First(name, DOT);
    while p < |name| && name[p] != DOT && p < 8
      invariant p <= 8 && p <= d
      invariant forall j :: 0 <= j < 11 ==> out[j] == if j < p then Upper(name[j]) else SPACE
    {
      var c := name[p];
      if 97 <= c && c <= 122 {
        c := c - 32;
      }
      out[p] := c;
      p := p + 1;
    }
    ghost var i := p;
    if p < |name| {
      NotBefore(name, DOT, p);
    }
    while p < |name| && name[p] != DOT
      invariant i <= p <= d && (i < 8 ==> i == d)
    {
      p := p + 1;
    }
    if p < |name| {
      NotBefore(name, DOT, p);
    }
    assert forall j :: 0 <= j < i ==> Base(name)[j] == name[j];
  }

  /** The extension: up to three characters after the dot, if there is one. */
  method CopyExtension(name: Name, dot: nat, out: array<nat>)
    requires out.Length == 11 && dot == First(name, DOT) && forall j :: 8 <= j < 11 ==> out[j] == SPACE
    modifies out
    ensures out[..] == old(out[..8]) + Padded(Extension(name), 3)
  {
    ghost var ext := Extension(name);
    if dot == |name| || name[dot] != DOT {
      return;
    }
    var p, j := dot + 1, 8;
    while p < |name| && j < 11
      invariant 8 <= j <= 11 && p == dot + 1 + (j - 8) && j - 8 <= |ext|
      invariant out[..8] == old(out[..8])
      invariant forall q :: 8 <= q < 11 ==> out[q] == if q < j then Upper(ext[q - 8]) else SPACE
    {
      var c := name[p];
      if 97 <= c && c <= 122 {
        c := c - 32;
      }
      out[j] := c;
      p, j := p + 1, j + 1;
    }
  }

  method NameIs83(name: Name) returns (ok: bool)
    ensures ok <==> Is83(name)
  {
    var base, ext, inExt, i := 0, 0, false, 0;
    ghost var d := First(name, DOT);
    while i < |name|
      invariant 0 <= i <= |name|
      invariant if inExt then d < i && base == d && ext == i - d - 1 && DOT !in name[d + 1..i]
                else i <= d && base == i && ext == 0
      invariant base <= 8 && ext <= 3
    {
      if name[i] == DOT {
        if inExt {
          assert Extension(name)[i - d - 1] == DOT;
          return false;
        }
        NotBefore(name, DOT, i);
        inExt := true;
        i := i + 1;
        continue;
      }
      if inExt {
        ext := ext + 1;
        if ext > 3 {
          return false;
        }
        assert name[d + 1..i + 1] == name[d + 1..i] + [name[i]];
      } else {
        base := base + 1;
        if base > 8 {
          return false;
        }
      }
      i := i + 1;
    }
    ok := base != 0;
  }

  method NameEqualIgnoringCase(a: Name, b: Name) returns (same: bool)
    ensures same <==> EqualIgnoringCase(a, b)
  {
    var i := 0;
    while i < |a| && i < |b|
      invariant 0 <= i <= |a| && i <= |b|
      invariant forall j :: 0 <= j < i ==> Lower(a[j]) == Lower(b[j])
    {
      var ca, cb := a[i], b[i];
      if 65 <= ca && ca <= 90 {
        ca := ca + 32;
      }
      if 65 <= cb && cb <= 90 {
        cb := cb + 32;
      }
      if ca != cb {
        return false;
      }
      i := i + 1;
    }
    same := i == |a| && i == |b|;
  }

  method PutLongFragment(out: array<nat>, order: nat, chars: seq<nat>)
    requires out.Length == NAME_BUFFER && |chars| == FRAGMENT
    modifies out
    ensures out[..] == PutFragment(old(out[..]), order, chars)
  {
    var ordinal := order % 32;
    if ordinal == 0 || ordinal > 20 {
      return;
    }
    var pos, i := (ordinal - 1) * 13, 0;
    while i < 13 && pos + i < 259
      invariant 0 <= i <= 13
      invariant PutFrom(out[..], pos, chars, i) == PutFrom(old(out[..]), pos, chars, 0)
      decreases 13 - i
    {
      var c := chars[i];
      ghost var before := out[..];
      if c == 0 {
        out[pos + i] := 0;
        assert out[..] == before[pos + i := 0];
        return;
      }
      if c != 0xFFFF {
        out[pos + i] := if c <= 0x7F then c else UNKNOWN;
        assert out[..] == before[pos + i := Kept(c)];
      }
      i := i + 1;
    }
  }

  /** The copy loop of from_83: a part of the short name up to its first space. */
  method CopyPart(part: seq<nat>, out: array<nat>, at: nat) returns (n: nat)
    requires at + |part| <= out.Length
    modifies out
    ensures n == at + First(part, SPACE)
    ensures out[..n] == old(out[..at]) + part[..First(part, SPACE)]
  {
    n := at;
    ghost var i := 0;
    while n - at < |part| && part[n - at] != SPACE
      invariant i == n - at && i <= |part| && i <= First(part, SPACE)
      invariant out[..n] == old(out[..at]) + part[..i]
    {
      out[n] := part[n - at];
      n := n + 1;
      i := i + 1;
      assert part[..i] == part[..i - 1] + [part[i - 1]];
    }
    if i < |part| {
      NotBefore(part, SPACE, i);
    }
  }

  /** from_83 writes the name into the buffer and returns its length. */
  method From83Form(short: Name, out: array<nat>) returns (n: nat)
    requires |short| == 11 && out.Length >= 13
    modifies out
    ensures n == |From83(short)| && n < 13 && out[..n] == From83(short) && out[n] == 0
  {
    n := CopyPart(short[..8], out, 0);
    if short[8] != SPACE {
      out[n] := DOT;
      n := CopyPart(short[8..], out, n + 1);
    }
    ghost var made := out[..n];
    out[n] := 0;
    assert out[..n] == made;
  }
}
