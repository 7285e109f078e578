/** What names, directories and cluster chains come to, without the functions they are
    computed by: letters and their cases, names that are dropped, and chains as the
    allocation table has them. */
module FatLaws {
  import opened FatNames
  import opened FatDirectory
  import opened Prelude

  // ------------------------------------------------------------------ letters

  /** The same character, or an ASCII letter in its two cases. */
  predicate SameLetter(c: nat, d: nat)
  {
    c == d || (65 <= c <= 90 && d == c + 32) || (65 <= d <= 90 && c == d + 32)
  }

  predicate SameLetters(a: Name, b: Name)
  {
    |a| == |b| && forall i :: 0 <= i < |a| ==> SameLetter(a[i], b[i])
  }

  lemma LetterMeaning(c: nat, d: nat)
    ensures Lower(c) == Lower(d) <==> SameLetter(c, d)
    ensures Upper(c) == Upper(d) <==> SameLetter(c, d)
    ensures SameLetter(Upper(c), c) && !(97 <= Upper(c) <= 122) && SameLetter(Lower(c), c) && !(65 <= Lower(c) <= 90)
  {
  }

  /** Names are equal for the comparison exactly if they differ in the case of letters only. */
  lemma EqualMeaning(a: Name, b: Name)
    ensures EqualIgnoringCase(a, b) <==> SameLetters(a, b)
  {
    forall i | 0 <= i < |a| && i < |b| ensures Lower(a[i]) == Lower(b[i]) <==> SameLetter(a[i], b[i]) {
      LetterMeaning(a[i], b[i]);
    }
  }

  /** The first dot is at the same place. */
  lemma {:induction false} FirstAlike(a: Name, b: Name, c: nat)
    requires SameLetters(a, b) && (c < 65 || c > 122)
    ensures First(a, c) == First(b, c)
  {
    if a != [] {
      assert SameLetter(a[0], b[0]);
      if a[0] != c {
        assert forall i :: 0 <= i < |a| - 1 ==> SameLetter(a[1..][i], b[1..][i]);
        FirstAlike(a[1..], b[1..], c);
      }
    }
  }

  lemma PaddedAlike(a: Name, b: Name, width: nat)
    requires SameLetters(a, b)
    ensures Padded(a, width) == Padded(b, width)
  {
    forall i | 0 <= i < width ensures Padded(a, width)[i] == Padded(b, width)[i] {
      if i < |a| {
        LetterMeaning(a[i], b[i]);
      }
    }
  }

  /** Names that differ in case only have the same 8.3 form. */
  lemma ShortFormAlike(a: Name, b: Name)
    requires SameLetters(a, b)
    ensures To83(a) == To83(b) && (Is83(a) <==> Is83(b))
  {
    FirstAlike(a, b, DOT);
    PaddedAlike(Base(a), Base(b), 8);
    PaddedAlike(Extension(a), Extension(b), 3);
    assert forall i :: 0 <= i < |Extension(a)| ==> SameLetter(Extension(a)[i], Extension(b)[i]);
    assert DOT in Extension(a) <==> DOT in Extension(b) by {
      forall i | 0 <= i < |Extension(a)| ensures Extension(a)[i] == DOT <==> Extension(b)[i] == DOT {
        assert SameLetter(Extension(a)[i], Extension(b)[i]);
      }
    }
  }

  lemma MatchAlike(p: Pending, e: Dirent, a: Name, b: Name)
    requires SameLetters(a, b) && e.Short?
    ensures Matches(p, e, a) <==> Matches(p, e, b)
  {
    ShortFormAlike(a, b);
    if p.have {
      EqualMeaning(CString(p.buffer), a);
      EqualMeaning(CString(p.buffer), b);
      Alike(CString(p.buffer), a, b);
      Alike(CString(p.buffer), b, a);
    }
  }

  lemma Alike(n: Name, a: Name, b: Name)
    requires |a| == |b| && forall i :: 0 <= i < |a| ==> SameLetter(a[i], b[i]) || SameLetter(b[i], a[i])
    ensures SameLetters(n, a) ==> SameLetters(n, b)
  {
  }

  /** A search does not depend on the case of the wanted name's letters. */
  lemma {:induction false} FindIgnoresCase(p: Pending, entries: seq<Dirent>, a: Name, b: Name)
    requires Buffered(p) && AllSound(entries) && SameLetters(a, b)
    ensures Find(p, entries, a) == Find(p, entries, b)
    decreases |entries|
  {
    if entries != [] && !entries[0].End? {
      if entries[0].Short? {
        MatchAlike(p, entries[0], a, b);
      }
      FindIgnoresCase(Feed(p, entries[0]), entries[1..], a, b);
    }
  }

  // ------------------------------------------------------------ dropped names

  /** After an entry or a deleted record no long name is pending. */
  lemma NamesDropped(entries: seq<Dirent>)
    requires AllSound(entries) && entries != []
    requires entries[|entries| - 1].Short? || entries[|entries| - 1].Deleted?
    ensures !Fold(Nothing(), entries).have
  {
    var n := |entries| - 1;
    assert entries == entries[..n] + [entries[n]];
    FoldAppend(Nothing(), entries[..n], [entries[n]]);
    assert [entries[n]][1..] == [];
  }

  /** So an entry that directly follows one is reported, and matched, by its own short name. */
  lemma OwnName(entries: seq<Dirent>, e: Dirent, name: Name)
    requires AllSound(entries) && Sound(e) && e.Short?
    requires entries == [] || entries[|entries| - 1].Short? || entries[|entries| - 1].Deleted?
    ensures ReportedName(Fold(Nothing(), entries), e) == From83(e.name)
    ensures Matches(Fold(Nothing(), entries), e, name) <==> Is83(name) && e.name == To83(name)
  {
    if entries != [] {
      NamesDropped(entries);
    }
  }

  /** A long name directly before its entry is the reported one. */
  lemma LongNameReported(before: seq<Dirent>, n: Name, e: Dirent)
    requires AllSound(before) && Sound(e) && e.Short? && AsciiName(n)
    ensures AllSound(before + LongRun(n, FragmentCount(n)))
    ensures ReportedName(Fold(Nothing(), before + LongRun(n, FragmentCount(n))), e) == n
  {
    var k := FragmentCount(n);
    LongRunSound(n, k);
    FoldAppend(Nothing(), before, LongRun(n, k));
    FoldRun(Fold(Nothing(), before), n, k);
    LongNameRoundTrip(n);
  }

  /** A name of up to 255 UTF-16 units, none of them the fill. */
  predicate UnitName(n: Name)
  {
    1 <= |n| <= 255 && forall i :: 0 <= i < |n| ==> 1 <= n[i] < FILL
  }

  /** The name with a question mark for every unit that is not ASCII. */
  function Shown(n: Name): (r: Name)
    ensures |r| == |n|
  {
    seq(|n|, i requires 0 <= i < |n| => if n[i] < 128 then n[i] else '?' as int)
  }

  /** A fragment goes in as the fragment of the shown name does. */
  lemma {:induction false} PutShown(buffer: seq<nat>, pos: nat, n: Name, k: nat, i: nat)
    requires UnitName(n) && |buffer| == NAME_BUFFER && k >= 1 && i <= FRAGMENT
    ensures PutFrom(buffer, pos, FragmentOf(n, k), i) == PutFrom(buffer, pos, FragmentOf(Shown(n), k), i)
    decreases FRAGMENT - i
  {
    var chars := FragmentOf(n, k);
    if i < FRAGMENT && pos + i < NAME_BUFFER - 1 && chars[i] != 0 {
      PutShown(if chars[i] == FILL then buffer else buffer[pos + i := Kept(chars[i])], pos, n, k, i + 1);
    }
  }

  lemma {:induction false} ReplayShown(buffer: seq<nat>, n: Name, k: nat)
    requires UnitName(n) && |buffer| == NAME_BUFFER
    ensures Replay(buffer, n, k) == Replay(buffer, Shown(n), k)
    decreases k
  {
    if k > 0 {
      var order := OrderOf(n, k);
      if order % 32 != 0 {
        PutShown(buffer, (order % 32 - 1) * FRAGMENT, n, k, 0);
      }
      ReplayShown(PutFragment(buffer, order, FragmentOf(n, k)), n, k - 1);
    }
  }

  /** A name that is not ASCII comes back with question marks. */
  lemma ForeignLongName(n: Name)
    requires UnitName(n)
    ensures CString(Replay(Blank(), n, FragmentCount(n))) == Shown(n)
  {
    ReplayShown(Blank(), n, FragmentCount(n));
    LongNameRoundTrip(Shown(n));
  }

  /** A fragment that starts no name is passed over while none is pending. */
  lemma StrayFragment(p: Pending, order: nat, chars: seq<nat>)
    requires Buffered(p) && !p.have && |chars| == FRAGMENT && order / 64 % 2 == 0
    ensures Feed(p, Long(order, chars)) == p
  {
  }

  /** A plain file has neither the volume bit nor the directory bit. */
  lemma FileBits(e: Dirent)
    requires e.Short? && e.attributes < 256
    ensures IsFile(e) <==> (e.attributes as bv8) & 0x18 == 0
  {
    BitsOfAttributes(e.attributes);
  }

  lemma BitsOfAttributes(a: nat)
    requires a < 256
    ensures a / 8 % 4 == 0 <==> (a as bv8) & 0x18 == 0
  {
    var b := a as bv8;
    BitsMasked(b);
    BitsShifted(b);
    BitsLow(b >> 3);
  }

  lemma BitsMasked(b: bv8)
    ensures ((b >> 3) & 3 == 0) <==> b & 0x18 == 0
  {
  }

  lemma BitsShifted(b: bv8)
    ensures (b >> 3) as nat == b as nat / 8
  {
  }

  lemma BitsLow(c: bv8)
    ensures (c & 3) as nat == c as nat % 4
  {
  }

  /** How many of the first i records are plain files. */
  function FilesBefore(entries: seq<Dirent>, i: nat): nat
    requires i <= |entries|
  {
    if i == 0 then 0 else FilesBefore(entries, i - 1) + if IsFile(entries[i - 1]) then 1 else 0
  }

  lemma {:induction false} FilesAfter(entries: seq<Dirent>, i: nat)
    requires entries != [] && i < |entries|
    ensures FilesBefore(entries, i + 1) == FilesBefore(entries[1..], i) + if IsFile(entries[0]) then 1 else 0
  {
    if i > 0 {
      FilesAfter(entries, i - 1);
    }
  }

  /** The enumeration's k-th answer is the file with k files before it, under the long name
      pending there or its own. */
  lemma {:induction false} NthMeaning(p: Pending, entries: seq<Dirent>, i: nat)
    requires Buffered(p) && AllSound(entries) && i < |entries| && IsFile(entries[i])
    requires forall j :: 0 <= j < i ==> !entries[j].End?
    ensures Nth(p, entries, FilesBefore(entries, i))
         == Some(Listed(ReportedName(Fold(p, entries[..i]), entries[i]), entries[i]))
    decreases |entries|
  {
    if i > 0 {
      FilesAfter(entries, i - 1);
      NthMeaning(Feed(p, entries[0]), entries[1..], i - 1);
      assert entries[..i][1..] == entries[1..][..i - 1];
    }
  }

  // ------------------------------------------------------------------- chains

  /** The table leads from each cluster of the list to the next one by the low 28 bits of its
      entry, and from the last past the largest cluster number, or has no entry for it. */
  predicate TableChain(v: Volume, chain: seq<nat>)
  {
    && (forall i :: 0 <= i < |chain| ==> chain[i] < 0x0FFF_FFF8)
    && (forall i {:trigger chain[i]} :: 0 <= i < |chain| - 1 ==>
          chain[i] in v.fat && v.fat[chain[i]] % 0x1000_0000 == chain[i + 1])
    && (chain != [] ==>
          var last := chain[|chain| - 1]; last !in v.fat || v.fat[last] % 0x1000_0000 >= 0x0FFF_FFF8)
  }

  /** Such a list is the chain of its first cluster. */
  lemma {:induction false} ChainOfTable(v: Volume, chain: seq<nat>)
    requires TableChain(v, chain) && chain != []
    ensures IsChain(v, chain[0], chain)
  {
    if |chain| > 1 {
      var rest := chain[1..];
      assert forall i :: 0 <= i < |rest| ==> rest[i] == chain[i + 1];
      ChainOfTable(v, rest);
      assert NextCluster(v, chain[0]) == rest[0];
    } else {
      assert chain[1..] == [];
    }
  }

  predicate AllReadable(v: Volume, chain: seq<nat>)
  {
    forall j :: 0 <= j < |chain| ==> chain[j] in v.data
  }

  /** Byte r of cluster k comes after k whole clusters. */
  lemma {:induction false} BytesAt(v: Volume, chain: seq<nat>, k: nat, r: nat)
    requires ValidVolume(v) && AllReadable(v, chain) && k < |chain| && r < v.bytesPerCluster
    ensures k * v.bytesPerCluster + r < |Bytes(v, chain)|
    ensures Bytes(v, chain)[k * v.bytesPerCluster + r] == v.data[chain[k]][r]
  {
    if k > 0 {
      OneLess(k, v.bytesPerCluster);
      BytesAt(v, chain[1..], k - 1, r);
    }
  }

  lemma OneLess(k: nat, b: nat)
    requires k > 0
    ensures k * b == b + (k - 1) * b
  {
  }

  lemma FileBytes(v: Volume, e: Dirent, chain: seq<nat>)
    requires ValidVolume(v) && e.Short? && chain != [] && e.cluster == chain[0] && TableChain(v, chain)
    requires AllReadable(v, chain) && |chain| * v.bytesPerCluster >= e.size
    ensures e.size <= |Bytes(v, chain)| && LoadOutcome(v, e) == LoadedFile(e.size, Bytes(v, chain)[..e.size])
  {
    ChainOfTable(v, chain);
    LoadedBytes(v, e.cluster, chain, e.size);
    BytesLength(v, chain);
  }

  /** A file whose chain the table holds, every cluster readable and enough of them: exactly
      its bytes are loaded, each from its place in its cluster, and its size is reported. */
  lemma FileLoaded(v: Volume, e: Dirent, chain: seq<nat>, k: nat, r: nat)
    requires ValidVolume(v) && e.Short? && chain != [] && e.cluster == chain[0] && TableChain(v, chain)
    requires AllReadable(v, chain) && |chain| * v.bytesPerCluster >= e.size
    requires k < |chain| && r < v.bytesPerCluster && k * v.bytesPerCluster + r < e.size
    ensures LoadOutcome(v, e).LoadedFile? && LoadOutcome(v, e).reported == e.size == |LoadOutcome(v, e).bytes|
    ensures LoadOutcome(v, e).bytes[k * v.bytesPerCluster + r] == v.data[chain[k]][r]
  {
    FileBytes(v, e, chain);
    BytesAt(v, chain, k, r);
  }

  /** A directory whose chain the table holds: the chain settles every search, so the search
      of its records, cluster after cluster, is its result. */
  lemma DirectorySearched(v: Volume, chain: seq<nat>, name: Name)
    requires ValidVolume(v) && chain != [] && TableChain(v, chain)
    ensures Decides(v, chain[0], chain, name)
  {
    ChainOfTable(v, chain);
  }
}
