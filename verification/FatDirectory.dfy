/** Directory search, root enumeration and file loading of kernel/io/fat.c over cluster
    chains, against one flat list of directory entries. */
module FatDirectory {
  import opened FatNames
  import opened Prelude

  const EOC := 0x0FFF_FFF8

  /** A directory record by what its first byte and attributes make of it: the end mark, a
      deleted record, a long-name fragment, or an 8.3 entry. */
  datatype Dirent =
    | End
    | Deleted
    | Long(order: nat, chars: seq<nat>)
    | Short(name: Name, attributes: nat, cluster: nat, size: nat, date: nat, time: nat)

  predicate Sound(e: Dirent)
  {
    (e.Long? ==> |e.chars| == FRAGMENT) && (e.Short? ==> |e.name| == 11)
  }

  /** A mounted volume: the clusters that can be read, as directory records and as bytes, and
      the allocation table. */
  datatype Volume = Volume(directory: map<nat, seq<Dirent>>, data: map<nat, seq<nat>>, fat: map<nat, nat>,
                           bytesPerCluster: nat)

  predicate ValidVolume(v: Volume)
  {
    && (forall c, i :: c in v.directory && 0 <= i < |v.directory[c]| ==> Sound(v.directory[c][i]))
    && v.bytesPerCluster > 0 && forall c :: c in v.data ==> |v.data[c]| == v.bytesPerCluster
  }

  /** fat_next_cluster; a sector that cannot be read ends the chain. */
  function NextCluster(v: Volume, c: nat): nat
  {
    if c in v.fat then v.fat[c] % 0x1000_0000 else EOC
  }

  /** The first clusters of the walk from one cluster on. */
  predicate IsWalk(v: Volume, c: nat, walk: seq<nat>)
    decreases walk
  {
    walk == [] || (c < EOC && walk[0] == c && IsWalk(v, NextCluster(v, c), walk[1..]))
  }

  /** The cluster that comes next. */
  function WalkEnd(v: Volume, c: nat, walk: seq<nat>): nat
    decreases walk
  {
    if walk == [] then c else WalkEnd(v, NextCluster(v, walk[0]), walk[1..])
  }

  /** All the clusters from one on; a cyclic allocation table has no such list. */
  predicate IsChain(v: Volume, c: nat, chain: seq<nat>)
  {
    IsWalk(v, c, chain) && WalkEnd(v, c, chain) >= EOC
  }

  predicate AllSound(entries: seq<Dirent>)
  {
    forall i :: 0 <= i < |entries| ==> Sound(entries[i])
  }

  /** The records of a walk in order, up to the first cluster that cannot be read. */
  function Flat(v: Volume, walk: seq<nat>): (r: seq<Dirent>)
    requires ValidVolume(v)
    ensures AllSound(r)
  {
    if walk == [] || walk[0] !in v.directory then [] else v.directory[walk[0]] + Flat(v, walk[1..])
  }

  predicate Readable(v: Volume, walk: seq<nat>)
  {
    forall i :: 0 <= i < |walk| ==> walk[i] in v.directory
  }

  // ------------------------------------------------- long names in a scan

  /** The long name being put together: whether one is pending, and the buffer. */
  datatype Pending = Pending(have: bool, buffer: seq<nat>)

  predicate Buffered(p: Pending)
  {
    |p.buffer| == NAME_BUFFER
  }

  function Nothing(): (p: Pending)
    ensures Buffered(p)
  {
    Pending(false, Blank())
  }

  /** What a record that is not the end does to it. */
  function Feed(p: Pending, e: Dirent): (r: Pending)
    requires Buffered(p) && Sound(e)
    ensures Buffered(r)
  {
    match e
    case Long(order, chars) =>
      var start := order / 64 % 2 == 1;
      if start then Pending(true, PutFragment(Blank(), order, chars))
      else if p.have then Pending(true, PutFragment(p.buffer, order, chars))
      else p
    case _ => p.(have := false)
  }

  function Fold(p: Pending, entries: seq<Dirent>): (r: Pending)
    requires Buffered(p) && AllSound(entries)
    ensures Buffered(r)
    decreases |entries|
  {
    if entries == [] then p else Fold(Feed(p, entries[0]), entries[1..])
  }

  lemma {:induction false} FoldAppend(p: Pending, a: seq<Dirent>, b: seq<Dirent>)
    requires Buffered(p) && AllSound(a) && AllSound(b)
    ensures AllSound(a + b) && Fold(p, a + b) == Fold(Fold(p, a), b)
    decreases |a|
  {
    if a == [] {
      assert a + b == b;
    } else {
      FoldAppend(Feed(p, a[0]), a[1..], b);
      assert (a + b)[1..] == a[1..] + b;
    }
  }

  /** The fragments of a long name as they stand on disk, the last first. */
  function LongRun(n: Name, k: nat): (r: seq<Dirent>)
    ensures |r| == k
  {
    if k == 0 then [] else [Long(OrderOf(n, k), FragmentOf(n, k))] + LongRun(n, k - 1)
  }

  lemma {:induction false} LongRunSound(n: Name, k: nat)
    ensures AllSound(LongRun(n, k))
  {
    if k > 0 {
      LongRunSound(n, k - 1);
      assert LongRun(n, k)[1..] == LongRun(n, k - 1);
    }
  }

  /** Reading a run of fragments replays them. */
  lemma {:induction false} FoldRun(p: Pending, n: Name, k: nat)
    requires Buffered(p) && AsciiName(n) && 1 <= k <= FragmentCount(n) && (k < FragmentCount(n) ==> p.have)
    ensures AllSound(LongRun(n, k))
    ensures Fold(p, LongRun(n, k)) == Pending(true, Replay(if k == FragmentCount(n) then Blank() else p.buffer, n, k))
    decreases k
  {
    LongRunSound(n, k);
    OrderTells(n, k);
    OrderFlag(n, k);
    var run := LongRun(n, k);
    assert run[1..] == LongRun(n, k - 1);
    var next := Feed(p, run[0]);
    if k > 1 {
      FoldRun(next, n, k - 1);
    } else {
      assert run[1..] == [];
    }
  }

  lemma OrderFlag(n: Name, k: nat)
    requires AsciiName(n) && 1 <= k <= FragmentCount(n)
    ensures OrderOf(n, k) / 64 % 2 == 1 <==> k == FragmentCount(n)
  {
    OrderTells(n, k);
  }

  // ------------------------------------------------------------- matching

  /** The comparison of fat_find for an 8.3 entry. */
  predicate Matches(p: Pending, e: Dirent, name: Name)
  {
    e.Short? && ((p.have && EqualIgnoringCase(CString(p.buffer), name)) || (Is83(name) && e.name == To83(name)))
  }

  /** The search over a flat list. */
  function Find(p: Pending, entries: seq<Dirent>, name: Name): (r: Option<Dirent>)
    requires Buffered(p) && AllSound(entries)
    ensures r.Some? ==> r.value.Short?
    decreases |entries|
  {
    if entries == [] || entries[0].End? then None
    else if Matches(p, entries[0], name) then Some(entries[0])
    else Find(Feed(p, entries[0]), entries[1..], name)
  }

  /** Entry i matches, with the long name pending there. */
  predicate MatchesAt(entries: seq<Dirent>, i: nat, name: Name)
    requires AllSound(entries) && i < |entries|
  {
    Matches(Fold(Nothing(), entries[..i]), entries[i], name)
  }

  /** Entry i is the first match, before the end mark. */
  predicate FirstMatch(entries: seq<Dirent>, i: nat, name: Name)
    requires AllSound(entries)
  {
    && i < |entries| && MatchesAt(entries, i, name)
    && (forall j :: 0 <= j < i ==> !entries[j].End?)
    && (forall j :: 0 <= j < i ==> !MatchesAt(entries, j, name))
  }

  lemma {:induction false} FindSuffix(entries: seq<Dirent>, i: nat, name: Name)
    requires AllSound(entries) && i <= |entries|
    requires forall j :: 0 <= j < i ==> !entries[j].End? && !MatchesAt(entries, j, name)
    ensures Find(Nothing(), entries, name) == Find(Fold(Nothing(), entries[..i]), entries[i..], name)
  {
    if i == 0 {
      assert entries[..0] == [] && entries[0..] == entries;
    } else {
      FindSuffix(entries, i - 1, name);
      FoldAppend(Nothing(), entries[..i - 1], [entries[i - 1]]);
      assert entries[..i] == entries[..i - 1] + [entries[i - 1]];
      assert entries[i - 1..][1..] == entries[i..];
      assert !MatchesAt(entries, i - 1, name);
    }
  }

  /** The search returns the first entry whose long name, or whose short name if the wanted
      name can be one, matches; and nothing only if there is none before the end. */
  lemma FindIsFirstMatch(entries: seq<Dirent>, name: Name, i: nat)
    requires AllSound(entries)
    ensures FirstMatch(entries, i, name) ==> Find(Nothing(), entries, name) == Some(entries[i])
    ensures Find(Nothing(), entries, name).Some? ==> exists k :: FirstMatch(entries, k, name)
  {
    if FirstMatch(entries, i, name) {
      FindSuffix(entries, i, name);
    }
    if Find(Nothing(), entries, name).Some? {
      var k := FindWitness(entries, name, 0);
    }
  }

  lemma {:induction false} FindWitness(entries: seq<Dirent>, name: Name, i: nat) returns (k: nat)
    requires AllSound(entries) && i <= |entries| && Find(Nothing(), entries, name).Some?
    requires forall j :: 0 <= j < i ==> !entries[j].End? && !MatchesAt(entries, j, name)
    ensures FirstMatch(entries, k, name)
    decreases |entries| - i
  {
    FindSuffix(entries, i, name);
    if i < |entries| && !MatchesAt(entries, i, name) {
      k := FindWitness(entries, name, i + 1);
    } else {
      k := i;
    }
  }

  /** An entry preceded by the fragments of an ASCII long name answers to that name in any
      spelling of case. */
  lemma LongNameMatches(before: seq<Dirent>, n: Name, e: Dirent, after: seq<Dirent>, name: Name)
    requires AllSound(before) && Sound(e) && AllSound(after) && e.Short? && AsciiName(n)
    ensures var i, entries := |before| + FragmentCount(n), before + LongRun(n, FragmentCount(n)) + [e] + after;
      AllSound(entries) && i < |entries| && entries[i] == e
      && (EqualIgnoringCase(n, name) ==> MatchesAt(entries, i, name))
  {
    var k := FragmentCount(n);
    var run := LongRun(n, k);
    LongRunSound(n, k);
    FoldAppend(Nothing(), before, run);
    FoldRun(Fold(Nothing(), before), n, k);
    LongNameRoundTrip(n);
    var entries := before + run + [e] + after;
    assert entries[..|before| + k] == before + run;
    SoundParts(before, run, e, after);
  }

  lemma SoundParts(before: seq<Dirent>, run: seq<Dirent>, e: Dirent, after: seq<Dirent>)
    requires AllSound(before) && AllSound(run) && Sound(e) && AllSound(after)
    ensures AllSound(before + run + [e] + after)
  {
  }

  // ----------------------------------------------------------- enumeration

  /** The entry is a plain file: neither a volume label nor a directory. */
  predicate IsFile(e: Dirent)
  {
    e.Short? && e.attributes / 8 % 4 == 0
  }

  datatype Listed = Listed(name: Name, entry: Dirent)

  /** The name FatEnumerateRoot reports for an entry. */
  function ReportedName(p: Pending, e: Dirent): Name
    requires Buffered(p) && e.Short? && |e.name| == 11
  {
    if p.have then CString(p.buffer) else From83(e.name)
  }

  /** The files of a flat list, in order. */
  function Listing(p: Pending, entries: seq<Dirent>): seq<Listed>
    requires Buffered(p) && AllSound(entries)
    decreases |entries|
  {
    if entries == [] || entries[0].End? then []
    else
      var e := entries[0];
      (if IsFile(e) then [Listed(ReportedName(p, e), e)] else []) + Listing(Feed(p, e), entries[1..])
  }

  /** The search of the enumeration: the k-th file, if there is one. */
  function Nth(p: Pending, entries: seq<Dirent>, k: nat): Option<Listed>
    requires Buffered(p) && AllSound(entries)
    decreases |entries|
  {
    if entries == [] || entries[0].End? then None
    else
      var e := entries[0];
      if IsFile(e) && k == 0 then Some(Listed(ReportedName(p, e), e))
      else Nth(Feed(p, e), entries[1..], if IsFile(e) then k - 1 else k)
  }

  /** Asked for 0, 1, 2 and so on, the enumeration yields the files in order, each once. */
  lemma {:induction false} NthIsListing(p: Pending, entries: seq<Dirent>, k: nat)
    requires Buffered(p) && AllSound(entries)
    ensures Nth(p, entries, k) == if k < |Listing(p, entries)| then Some(Listing(p, entries)[k]) else None
    decreases |entries|
  {
    if entries != [] && !entries[0].End? {
      var e := entries[0];
      if !(IsFile(e) && k == 0) {
        NthIsListing(Feed(p, e), entries[1..], if IsFile(e) then k - 1 else k);
      }
    }
  }

  /** A short name as FAT writes one: the 8.3 form of a name without space or final dot, in
      upper case. */
  ghost predicate Canonical(short: Name)
  {
    exists n :: Is83(n) && SPACE !in n && !EndsInDot(n) && UpperName(n) == n && short == To83(n)
  }

  /** Whatever the enumeration reports, the search matches under that name. */
  lemma ReportedMatches(p: Pending, e: Dirent)
    requires Buffered(p) && e.Short? && |e.name| == 11 && (p.have || Canonical(e.name))
    ensures Matches(p, e, ReportedName(p, e))
  {
    if !p.have {
      var n :| Is83(n) && SPACE !in n && !EndsInDot(n) && UpperName(n) == n && e.name == To83(n);
      RoundTrip83(n);
    }
  }

  /** Searching for a reported name finds the first entry that answers to it: this one, or one
      before it. */
  lemma ReportedFound(entries: seq<Dirent>, i: nat)
    requires AllSound(entries) && i < |entries| && IsFile(entries[i])
    requires Fold(Nothing(), entries[..i]).have || Canonical(entries[i].name)
    requires forall j :: 0 <= j < i ==> !entries[j].End?
    ensures var name := ReportedName(Fold(Nothing(), entries[..i]), entries[i]);
      exists k :: 0 <= k <= i && FirstMatch(entries, k, name) && Find(Nothing(), entries, name) == Some(entries[k])
  {
    var name := ReportedName(Fold(Nothing(), entries[..i]), entries[i]);
    ReportedMatches(Fold(Nothing(), entries[..i]), entries[i]);
    assert MatchesAt(entries, i, name);
    var k := EarliestMatch(entries, i, name);
    FindIsFirstMatch(entries, name, k);
  }

  lemma {:induction false} EarliestMatch(entries: seq<Dirent>, i: nat, name: Name) returns (k: nat)
    requires AllSound(entries) && i < |entries| && MatchesAt(entries, i, name)
    requires forall j :: 0 <= j < i ==> !entries[j].End?
    ensures k <= i && FirstMatch(entries, k, name)
    decreases i
  {
    if j :| 0 <= j < i && MatchesAt(entries, j, name) {
      k := EarliestMatch(entries, j, name);
    } else {
      k := i;
    }
  }

  // ------------------------------------------------------------ file bytes

  /** What the copy loop of FatLoadFile copies: None if a cluster it needs cannot be read. */
  function Loaded(v: Volume, c: nat, remaining: nat): Option<seq<nat>>
    requires ValidVolume(v)
    decreases remaining
  {
    if c >= EOC || remaining == 0 then Some([])
    else if c !in v.data then None
    else
      var n := Min(remaining, v.bytesPerCluster);
      match Loaded(v, NextCluster(v, c), remaining - n)
      case None => None
      case Some(rest) => Some(v.data[c][..n] + rest)
  }

  /** How many clusters hold `size` bytes. */
  function Needed(v: Volume, size: nat): nat
    requires v.bytesPerCluster > 0
  {
    if size == 0 then 0 else 1 + Needed(v, size - Min(size, v.bytesPerCluster))
  }

  /** The walk from c has k clusters. */
  predicate Reaches(v: Volume, c: nat, k: nat)
    decreases k
  {
    k == 0 || (c < EOC && Reaches(v, NextCluster(v, c), k - 1))
  }

  /** The load is complete exactly when the walk has the clusters the size needs; it is never
      too long. */
  lemma {:induction false} LoadedComplete(v: Volume, c: nat, size: nat)
    requires ValidVolume(v) && Loaded(v, c, size).Some?
    ensures |Loaded(v, c, size).value| <= size
    ensures |Loaded(v, c, size).value| == size <==> Reaches(v, c, Needed(v, size))
    decreases size
  {
    if c < EOC && size > 0 {
      LoadedComplete(v, NextCluster(v, c), size - Min(size, v.bytesPerCluster));
    }
  }

  /** The bytes of a chain. */
  function Bytes(v: Volume, chain: seq<nat>): seq<nat>
    requires forall i :: 0 <= i < |chain| ==> chain[i] in v.data
  {
    if chain == [] then [] else v.data[chain[0]] + Bytes(v, chain[1..])
  }

  lemma {:induction false} BytesLength(v: Volume, chain: seq<nat>)
    requires ValidVolume(v) && forall i :: 0 <= i < |chain| ==> chain[i] in v.data
    ensures |Bytes(v, chain)| == |chain| * v.bytesPerCluster
  {
    if chain != [] {
      BytesLength(v, chain[1..]);
      assert |chain| * v.bytesPerCluster == (|chain| - 1) * v.bytesPerCluster + v.bytesPerCluster;
    }
  }

  lemma TakeJoined(head: seq<nat>, rest: seq<nat>, size: nat)
    ensures (head + rest)[..Min(size, |head + rest|)]
         == head[..Min(size, |head|)] + rest[..Min(size - Min(size, |head|), |rest|)]
  {
  }

  lemma {:induction false} LoadedPrefix(v: Volume, c: nat, chain: seq<nat>, size: nat)
    requires ValidVolume(v) && IsChain(v, c, chain) && forall i :: 0 <= i < |chain| ==> chain[i] in v.data
    ensures Loaded(v, c, size) == Some(Bytes(v, chain)[..Min(size, |Bytes(v, chain)|)])
    decreases chain
  {
    if chain != [] && size > 0 {
      LoadedPrefix(v, NextCluster(v, c), chain[1..], size - Min(size, v.bytesPerCluster));
      TakeJoined(v.data[chain[0]], Bytes(v, chain[1..]), size);
    }
  }

  /** A readable chain yields the file's bytes: all of them exactly when the chain is long
      enough for the recorded size. */
  lemma LoadedBytes(v: Volume, c: nat, chain: seq<nat>, size: nat)
    requires ValidVolume(v) && IsChain(v, c, chain) && forall i :: 0 <= i < |chain| ==> chain[i] in v.data
    ensures Loaded(v, c, size) == Some(Bytes(v, chain)[..Min(size, |Bytes(v, chain)|)])
    ensures |Loaded(v, c, size).value| == size <==> |chain| * v.bytesPerCluster >= size
  {
    LoadedPrefix(v, c, chain, size);
    BytesLength(v, chain);
  }

  datatype LoadStatus = LoadedFile(reported: nat, bytes: seq<nat>) | NoFile | NoMemory | DeviceNotReady

  /** FatLoadFile for the entry the search found, given memory: the reported size is the
      entry's, whatever was copied. */
  function LoadOutcome(v: Volume, e: Dirent): LoadStatus
    requires ValidVolume(v) && e.Short?
  {
    match Loaded(v, e.cluster, e.size)
    case None => DeviceNotReady
    case Some(bytes) => LoadedFile(e.size, bytes)
  }

  /** The reported size is the number of bytes loaded if and only if the walk has enough
      clusters. */
  lemma ReportExact(v: Volume, e: Dirent)
    requires ValidVolume(v) && e.Short? && LoadOutcome(v, e).LoadedFile?
    ensures var r := LoadOutcome(v, e);
      |r.bytes| <= r.reported && (r.reported == |r.bytes| <==> Reaches(v, e.cluster, Needed(v, e.size)))
  {
    LoadedComplete(v, e.cluster, e.size);
  }

  /** In terms of a chain that ends: if and only if its clusters hold the size. */
  lemma ReportByChain(v: Volume, e: Dirent, chain: seq<nat>)
    requires ValidVolume(v) && e.Short? && IsChain(v, e.cluster, chain)
    requires forall i :: 0 <= i < |chain| ==> chain[i] in v.data
    ensures var r := LoadOutcome(v, e);
      r.LoadedFile? && (r.reported == |r.bytes| <==> |chain| * v.bytesPerCluster >= e.size)
  {
    LoadedBytes(v, e.cluster, chain, e.size);
  }

  /** A file that is reported longer than it was loaded: one cluster of one byte, recorded
      size two. */
  lemma ShortFile()
    ensures var v := Volume(map[], map[2 := [7]], map[2 := EOC], 1);
      ValidVolume(v) && LoadOutcome(v, Short(Padded([65], 11), 0, 2, 2, 0, 0)) == LoadedFile(2, [7])
  {
    var v := Volume(map[], map[2 := [7]], map[2 := EOC], 1);
    assert NextCluster(v, 2) == EOC && [7][..1] + [] == [7];
    assert Loaded(v, EOC, 1) == Some([]);
  }

  // ------------------------------------------------------------- the code

  datatype Step = Continue | Stop | Hit(entry: Dirent)

  /** The records of one cluster, searched with the pending long name in the buffer. */
  method SearchCluster(entries: seq<Dirent>, name: Name, name83: Name, usable: bool, longName: array<nat>, have: bool)
    returns (step: Step, haveAfter: bool)
    requires AllSound(entries) && longName.Length == NAME_BUFFER
    requires name83 == To83(name) && (usable <==> Is83(name))
    modifies longName
    ensures forall rest :: AllSound(rest) ==>
      Find(Pending(have, old(longName[..])), entries + rest, name)
      == match step
         case Stop => None
         case Hit(e) => Some(e)
         case Continue => Find(Pending(haveAfter, longName[..]), rest, name)
    ensures step.Continue? ==> forall j :: 0 <= j < |entries| ==> !entries[j].End?
  {
    haveAfter := have;
    var i := 0;
    ghost var start := Pending(have, longName[..]);
    while i < |entries|
      invariant 0 <= i <= |entries| && forall j :: 0 <= j < i ==> !entries[j].End?
      invariant forall rest :: AllSound(rest) ==>
        Find(start, entries + rest, name) == Find(Pending(haveAfter, longName[..]), entries[i..] + rest, name)
    {
      var e := entries[i];
      ghost var now := Pending(haveAfter, longName[..]);
      assert forall rest :: AllSound(rest) ==>
        (entries[i..] + rest)[0] == e && (entries[i..] + rest)[1..] == entries[i + 1..] + rest;
      if e.End? {
        return Stop, haveAfter;
      }
      if e.Short? {
        var same := false;
        if haveAfter {
          same := NameEqualIgnoringCase(CString(longName[..]), name);
        }
        if same || (usable && e.name == name83) {
          return Hit(e), haveAfter;
        }
        haveAfter := false;
      } else if e.Deleted? {
        haveAfter := false;
      } else {
        haveAfter := FeedLong(e.order, e.chars, longName, haveAfter);
      }
      i := i + 1;
    }
    assert forall rest :: entries[i..] + rest == rest;
    step := Continue;
  }

  /** The treatment of a long-name record. */
  method FeedLong(order: nat, chars: seq<nat>, longName: array<nat>, have: bool) returns (haveAfter: bool)
    requires |chars| == FRAGMENT && longName.Length == NAME_BUFFER
    modifies longName
    ensures Pending(haveAfter, longName[..]) == Feed(Pending(have, old(longName[..])), Long(order, chars))
  {
    haveAfter := have;
    if order / 64 % 2 == 1 {
      ClearBuffer(longName);
      haveAfter := true;
    }
    if haveAfter {
      PutLongFragment(longName, order, chars);
    }
  }

  /** memset(long_name, 0, 260) */
  method ClearBuffer(buffer: array<nat>)
    requires buffer.Length == NAME_BUFFER
    modifies buffer
    ensures buffer[..] == Blank()
  {
    for k := 0 to NAME_BUFFER
      invariant forall j :: 0 <= j < k ==> buffer[j] == 0
    {
      buffer[k] := 0;
    }
  }

  /** A walk that settles a search: it ends, meets a cluster that cannot be read or the end
      mark, or finds what is wanted. */
  predicate Settles(v: Volume, c: nat, walk: seq<nat>, found: bool)
    requires ValidVolume(v)
  {
    IsWalk(v, c, walk) && (WalkEnd(v, c, walk) >= EOC || !Readable(v, walk) || HasEnd(Flat(v, walk)) || found)
  }

  predicate HasEnd(entries: seq<Dirent>)
  {
    exists i :: 0 <= i < |entries| && entries[i].End?
  }

  /** A walk past a cluster without the end mark settles the search with what is left. */
  lemma SettlesNext(v: Volume, c: nat, walk: seq<nat>, found: bool)
    requires ValidVolume(v) && Settles(v, c, walk, found) && c in v.directory && walk != []
    requires forall j :: 0 <= j < |v.directory[c]| ==> !v.directory[c][j].End?
    ensures Settles(v, NextCluster(v, c), walk[1..], found)
  {
    var head, rest := v.directory[c], Flat(v, walk[1..]);
    if HasEnd(Flat(v, walk)) {
      var i :| 0 <= i < |Flat(v, walk)| && Flat(v, walk)[i].End?;
      assert rest[i - |head|].End?;
    }
  }

  /** The first n clusters from one on, or all there are. */
  function FirstClusters(v: Volume, c: nat, n: nat): seq<nat>
    decreases n
  {
    if n == 0 || c >= EOC then [] else [c] + FirstClusters(v, NextCluster(v, c), n - 1)
  }

  lemma {:induction false} OnlyWalk(v: Volume, c: nat, n: nat, walk: seq<nat>)
    ensures var w := FirstClusters(v, c, n); IsWalk(v, c, w) && |w| <= n && (|w| < n ==> WalkEnd(v, c, w) >= EOC)
    ensures IsWalk(v, c, walk) && |walk| == n ==> walk == FirstClusters(v, c, n)
    decreases n
  {
    if n > 0 && c < EOC {
      OnlyWalk(v, NextCluster(v, c), n - 1, if walk == [] then [] else walk[1..]);
      assert FirstClusters(v, c, n)[1..] == FirstClusters(v, NextCluster(v, c), n - 1);
    }
  }

  /** There are n clusters to pass and a next one; they can be read and hold neither a match
      nor the end mark. */
  predicate Undecided(v: Volume, c: nat, name: Name, n: nat)
    requires ValidVolume(v)
  {
    var walk := FirstClusters(v, c, n);
    && |walk| == n && WalkEnd(v, c, walk) < EOC && Readable(v, walk) && !HasEnd(Flat(v, walk))
    && Find(Nothing(), Flat(v, walk), name) == None
  }

  /** The walk settles the search for a name. */
  predicate Decides(v: Volume, c: nat, walk: seq<nat>, name: Name)
    requires ValidVolume(v)
  {
    Settles(v, c, walk, Find(Nothing(), Flat(v, walk), name).Some?)
  }

  /** Unless some walk settles it, a search is undecided after any number of clusters: the
      loop of fat_find does not end. */
  lemma SearchForever(v: Volume, c: nat, name: Name)
    requires ValidVolume(v)
    ensures (forall walk :: !Decides(v, c, walk, name)) <==> (forall n: nat :: Undecided(v, c, name, n))
  {
    forall n: nat | !Decides(v, c, FirstClusters(v, c, n), name) ensures Undecided(v, c, name, n) {
      OnlyWalk(v, c, n, []);
    }
    forall walk | Undecided(v, c, name, |walk|) ensures !Decides(v, c, walk, name) {
      OnlyWalk(v, c, |walk|, walk);
    }
    if forall walk :: !Decides(v, c, walk, name) {
      forall n: nat ensures Undecided(v, c, name, n) {
        assert !Decides(v, c, FirstClusters(v, c, n), name);
      }
    }
  }

  /** fat_find: over any walk of the directory that settles the search, the search of its
      clusters is the search of one flat list. */
  method FatFind(v: Volume, directory: nat, name: Name, ghost walk: seq<nat>) returns (found: Option<Dirent>)
    requires ValidVolume(v) && Decides(v, directory, walk, name)
    ensures found == Find(Nothing(), Flat(v, walk), name)
  {
    var name83 := new nat[11];
    To83Form(name, name83);
    var usable := NameIs83(name);
    var longName := new nat[NAME_BUFFER];
    ClearBuffer(longName);
    var have, cluster: nat := false, directory;
    ghost var left, result := walk, Find(Nothing(), Flat(v, walk), name);
    while cluster < EOC
      invariant name83[..] == To83(name)
      invariant Find(Pending(have, longName[..]), Flat(v, left), name) == result
      invariant Settles(v, cluster, left, result.Some?)
      decreases |left|
    {
      if cluster !in v.directory {
        return None;
      }
      var step, haveAfter := SearchCluster(v.directory[cluster], name, name83[..], usable, longName, have);
      if step.Stop? {
        return None;
      }
      if step.Hit? {
        return Some(step.entry);
      }
      SettlesNext(v, cluster, left, result.Some?);
      have := haveAfter;
      left := left[1..];
      cluster := NextCluster(v, cluster);
    }
    found := None;
  }

  /** FatLoadFile's copy loop: the bytes read and how many; not ok if a cluster fails. It
      ends on any allocation table. */
  method LoadChain(v: Volume, first: nat, size: nat, buffer: array<nat>) returns (ok: bool, pos: nat)
    requires ValidVolume(v) && size <= buffer.Length
    modifies buffer
    ensures ok <==> Loaded(v, first, size).Some?
    ensures ok ==> pos <= size && buffer[..pos] == Loaded(v, first, size).value
  {
    pos := 0;
    var remaining: nat, cluster: nat := size, first;
    while cluster < EOC && remaining > 0
      invariant pos + remaining == size
      invariant Loaded(v, first, size).Some? <==> Loaded(v, cluster, remaining).Some?
      invariant Loaded(v, cluster, remaining).Some? ==>
        Loaded(v, first, size).value == buffer[..pos] + Loaded(v, cluster, remaining).value
      decreases remaining
    {
      if cluster !in v.data {
        return false, pos;
      }
      var n := Min(remaining, v.bytesPerCluster);
      ghost var before := buffer[..pos];
      CopyBytes(buffer, pos, v.data[cluster], n);
      assert buffer[..pos + n] == before + v.data[cluster][..n];
      pos := pos + n;
      remaining := remaining - n;
      cluster := NextCluster(v, cluster);
    }
    ok := true;
  }

  /** FatLoadFile. The memory flags say whether the pool had room for the
      search, the file and the cluster buffer. On success the first bytes of the buffer are
      the loaded ones, and the size handed out is the entry's. */
  method LoadFile(mounted: bool, v: Volume, root: nat, name: Name, memory: (bool, bool, bool), ghost walk: seq<nat>)
    returns (status: LoadStatus, buffer: array?<nat>)
    requires mounted ==> ValidVolume(v) && Decides(v, root, walk, name)
    ensures !mounted ==> status == DeviceNotReady
    ensures mounted ==>
      status == match if memory.0 then Find(Nothing(), Flat(v, walk), name) else None
                case None => NoFile
                case Some(e) => if !memory.1 || !memory.2 then NoMemory else LoadOutcome(v, e)
    ensures status.LoadedFile? ==> buffer != null && fresh(buffer) && |status.bytes| <= buffer.Length
    ensures status.LoadedFile? ==> status.reported <= buffer.Length && buffer[..|status.bytes|] == status.bytes
  {
    buffer := null;
    if !mounted {
      return DeviceNotReady, null;
    }
    if !memory.0 {
      return NoFile, null;
    }
    var found := FatFind(v, root, name, walk);
    if found == None {
      return NoFile, null;
    }
    var cluster, size := found.value.cluster, found.value.size;
    if !memory.1 || !memory.2 {
      return NoMemory, null;
    }
    var bytes := new nat[if size != 0 then size else 1];
    var ok, pos := LoadChain(v, cluster, size, bytes);
    if !ok {
      return DeviceNotReady, null;
    }
    return LoadedFile(size, bytes[..pos]), bytes;
  }

  /** memcpy */
  method CopyBytes(buffer: array<nat>, at: nat, from: seq<nat>, n: nat)
    requires at + n <= buffer.Length && n <= |from|
    modifies buffer
    ensures buffer[..] == old(buffer[..at]) + from[..n] + old(buffer[at + n..])
  {
    for k := 0 to n
      invariant buffer[..at + k] == old(buffer[..at]) + from[..k]
      invariant buffer[at + k..] == old(buffer[at + k..])
    {
      buffer[at + k] := from[k];
      assert from[..k + 1] == from[..k] + [from[k]];
    }
    assert buffer[..] == buffer[..at + n] + buffer[at + n..];
  }

  datatype Status = Success(listed: Listed) | NotFound | NotReady

  datatype Progress = More | Ended | Reached(listed: Listed)

  /** The records of one cluster, counted until the wanted file. */
  method ListCluster(entries: seq<Dirent>, wanted: nat, seen: nat, longName: array<nat>, have: bool)
    returns (step: Progress, seenAfter: nat, haveAfter: bool)
    requires AllSound(entries) && longName.Length == NAME_BUFFER && seen <= wanted
    modifies longName
    ensures seenAfter <= wanted
    ensures forall rest :: AllSound(rest) ==>
      Nth(Pending(have, old(longName[..])), entries + rest, wanted - seen)
      == match step
         case Ended => None
         case Reached(l) => Some(l)
         case More => Nth(Pending(haveAfter, longName[..]), rest, wanted - seenAfter)
    ensures step.More? ==> forall j :: 0 <= j < |entries| ==> !entries[j].End?
  {
    haveAfter, seenAfter := have, seen;
    var i := 0;
    ghost var start := Pending(have, longName[..]);
    while i < |entries|
      invariant 0 <= i <= |entries| && seenAfter <= wanted && forall j :: 0 <= j < i ==> !entries[j].End?
      invariant forall rest :: AllSound(rest) ==>
        Nth(start, entries + rest, wanted - seen)
        == Nth(Pending(haveAfter, longName[..]), entries[i..] + rest, wanted - seenAfter)
    {
      var e := entries[i];
      assert forall rest :: AllSound(rest) ==>
        (entries[i..] + rest)[0] == e && (entries[i..] + rest)[1..] == entries[i + 1..] + rest;
      if e.End? {
        step := Ended;
        return;
      }
      if e.Long? {
        haveAfter := FeedLong(e.order, e.chars, longName, haveAfter);
      } else {
        if e.Short? && e.attributes / 8 % 4 == 0 {
          if seenAfter == wanted {
            step := Reached(Listed(if haveAfter then CString(longName[..]) else From83(e.name), e));
            return;
          }
          seenAfter := seenAfter + 1;
        }
        haveAfter := false;
      }
      i := i + 1;
    }
    assert forall rest :: entries[i..] + rest == rest;
    step := More;
  }

  /** FatEnumerateRoot over any walk of the root directory that settles the search. */
  method EnumerateRoot(v: Volume, root: nat, wanted: nat, ghost walk: seq<nat>) returns (status: Status)
    requires ValidVolume(v)
    requires Settles(v, root, walk, Nth(Nothing(), Flat(v, walk), wanted).Some?)
    ensures Nth(Nothing(), Flat(v, walk), wanted) == if status.Success? then Some(status.listed) else None
    ensures status == NotReady ==> !Readable(v, walk)
  {
    var longName := new nat[NAME_BUFFER];
    ClearBuffer(longName);
    var have, cluster: nat, seen: nat := false, root, 0;
    ghost var left, result := walk, Nth(Nothing(), Flat(v, walk), wanted);
    while cluster < EOC
      invariant seen <= wanted
      invariant Readable(v, walk) ==> Readable(v, left)
      invariant Nth(Pending(have, longName[..]), Flat(v, left), wanted - seen) == result
      invariant Settles(v, cluster, left, result.Some?)
      decreases |left|
    {
      if cluster !in v.directory {
        return NotReady;
      }
      var step, seenAfter, haveAfter := ListCluster(v.directory[cluster], wanted, seen, longName, have);
      if step.Ended? {
        return NotFound;
      }
      if step.Reached? {
        return Success(step.listed);
      }
      SettlesNext(v, cluster, left, result.Some?);
      have, seen := haveAfter, seenAfter;
      left := left[1..];
      cluster := NextCluster(v, cluster);
    }
    status := NotFound;
  }
}
