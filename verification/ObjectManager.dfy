/** Object lifetime of kernel/ob: reference counts shared by handles, the namespace and
    callers. References are addresses; 0 is NULL. */
module ObjectManager {

  type Ref = nat
  /** The rights of an access mask, as bit numbers. */
  type Access = set<nat>

  const NULL: Ref := 0
  const MAX_HANDLES := 4096
  const DIRECTORY := 0
  const GENERIC_ALL := 28

  datatype Status =
    | Success | InvalidParameter | NoMemory | InsufficientResources | InvalidHandle | TypeMismatch
    | AccessDenied | NameCollision | NameInvalid | PathNotFound | NameNotFound

  /** An object header; `entries` is the body of a directory. */
  datatype Header = Header(pointerCount: int, handleCount: int, kind: nat, name: string, parent: Ref,
                           entries: seq<Ref>)

  datatype Slot = Slot(target: Ref, access: Access)

  /** The live objects and the handle table, with history: the references callers hold, the
      objects whose directory was deleted under them, and every creation and deletion. */
  datatype State = State(root: Ref, objects: map<Ref, Header>, handles: seq<Slot>, held: map<Ref, nat>,
                         orphans: set<Ref>, created: multiset<Ref>, deleted: multiset<Ref>)

  function Held(s: State, o: Ref): nat
  {
    if o in s.held then s.held[o] else 0
  }

  /** The first n slots that name o. */
  function SlotsNaming(handles: seq<Slot>, o: Ref, n: nat): nat
    requires n <= |handles|
  {
    if n == 0 then 0 else SlotsNaming(handles, o, n - 1) + if handles[n - 1].target == o then 1 else 0
  }

  function HandlesTo(s: State, o: Ref): nat
  {
    SlotsNaming(s.handles, o, |s.handles|)
  }

  lemma {:induction false} SlotUpdate(handles: seq<Slot>, o: Ref, i: nat, slot: Slot, n: nat)
    requires i < |handles| && n <= |handles|
    ensures SlotsNaming(handles[i := slot], o, n) == SlotsNaming(handles, o, n)
      + if i < n then (if slot.target == o then 1 else 0) - (if handles[i].target == o then 1 else 0) else 0
  {
    if n > 0 {
      SlotUpdate(handles, o, i, slot, n - 1);
    }
  }

  lemma {:induction false} SlotCounts(handles: seq<Slot>, i: nat, n: nat)
    requires i < n <= |handles|
    ensures SlotsNaming(handles, handles[i].target, n) > 0
  {
    if i < n - 1 {
      SlotCounts(handles, i, n - 1);
    }
  }

  // ------------------------------------------------------------ invariant

  /** PointerCount is the table entries, the namespace link, what callers hold, and the
      manager's own reference to the root. */
  predicate Balanced(s: State, o: Ref)
    requires o in s.objects
  {
    var h := s.objects[o];
    && h.handleCount == HandlesTo(s, o)
    && h.pointerCount == HandlesTo(s, o) + Held(s, o) + (if h.parent != NULL then 1 else 0)
                         + (if o == s.root then 1 else 0)
  }

  /** A directory lists live objects that point back at it, under distinct names. */
  predicate Lists(s: State, d: Ref)
    requires d in s.objects
  {
    var entries := s.objects[d].entries;
    && (entries != [] ==> s.objects[d].kind == DIRECTORY)
    && (forall k :: 0 <= k < |entries| ==> ListsEntry(s, d, entries[k]))
    && (forall j, k :: 0 <= j < k < |entries| ==> NamesDiffer(s, entries[j], entries[k]))
  }

  predicate ListsEntry(s: State, d: Ref, e: Ref)
  {
    e in s.objects && s.objects[e].parent == d && e !in s.orphans
  }

  predicate NamesDiffer(s: State, e: Ref, f: Ref)
  {
    e in s.objects && f in s.objects && e != f && s.objects[e].name != s.objects[f].name
  }

  /** An inserted object is listed, unless its directory is gone. */
  predicate Listed(s: State, o: Ref)
    requires o in s.objects
  {
    var d := s.objects[o].parent;
    d != NULL ==> o in s.orphans || (d in s.objects && o in s.objects[d].entries)
  }

  /** Created once more than deleted, exactly while live. */
  predicate Conserved(s: State, o: Ref)
  {
    s.created[o] == s.deleted[o] + if o in s.objects then 1 else 0
  }

  predicate Named(s: State, i: nat)
    requires i < |s.handles|
  {
    s.handles[i].target != NULL ==> s.handles[i].target in s.objects
  }

  ghost predicate Core(s: State)
  {
    && |s.handles| == MAX_HANDLES
    && NULL !in s.objects
    && s.root in s.objects && s.objects[s.root].kind == DIRECTORY
    && (forall o :: o in s.objects ==> Balanced(s, o) && Lists(s, o) && Listed(s, o))
    && (forall i :: 0 <= i < |s.handles| ==> Named(s, i))
    && (forall o :: o !in s.objects ==> Held(s, o) == 0)
    && (forall o :: o in s.orphans ==> o in s.objects && s.objects[o].parent != NULL)
    && (forall o :: Conserved(s, o))
  }

  /** Between operations every live object is referenced. */
  ghost predicate Inv(s: State)
  {
    Core(s) && forall o :: o in s.objects ==> s.objects[o].pointerCount > 0
  }

  // ----------------------------------------------------------- operations

  function WithHeader(s: State, o: Ref, h: Header): State
  {
    s.(objects := s.objects[o := h])
  }

  /** ObReferenceObject on behalf of a caller. */
  function Referenced(s: State, o: Ref): State
    requires o in s.objects
  {
    WithHeader(s, o, s.objects[o].(pointerCount := s.objects[o].pointerCount + 1))
      .(held := s.held[o := Held(s, o) + 1])
  }

  function Without(entries: seq<Ref>, o: Ref): seq<Ref>
  {
    if entries == [] then []
    else if entries[0] == o then entries[1..]
    else [entries[0]] + Without(entries[1..], o)
  }

  /** ObpDeleteObject */
  function Removed(s: State, o: Ref): State
    requires o in s.objects
  {
    var d := s.objects[o].parent;
    var detached := if d != NULL && d in s.objects
                    then s.objects[d := s.objects[d].(entries := Without(s.objects[d].entries, o))] else s.objects;
    s.(objects := detached - {o}, deleted := s.deleted + multiset{o},
       orphans := s.orphans + set e | e in s.objects[o].entries)
  }

  /** The decrement of ObDereferenceObject. */
  function Dropped(s: State, o: Ref): State
    requires o in s.objects
  {
    var remaining := s.objects[o].pointerCount - 1;
    var r := WithHeader(s, o, s.objects[o].(pointerCount := remaining));
    if remaining == 0 then Removed(r, o) else r
  }

  /** A caller gives up a reference it holds. */
  function Released(s: State, o: Ref): State
    requires o in s.objects && Held(s, o) > 0
  {
    Dropped(s.(held := s.held[o := Held(s, o) - 1]), o)
  }

  function Fresh(kind: nat): Header
  {
    Header(1, 0, kind, "", NULL, [])
  }

  /** ObCreateObject, given the address the pool returned. */
  function Created(s: State, o: Ref, kind: nat): State
  {
    WithHeader(s, o, Fresh(kind)).(held := s.held[o := 1], created := s.created + multiset{o})
  }

  /** A handle to o in slot i. */
  function Opened(s: State, o: Ref, access: Access, i: nat): State
    requires o in s.objects && i < |s.handles|
  {
    var h := s.objects[o];
    WithHeader(s, o, h.(pointerCount := h.pointerCount + 1, handleCount := h.handleCount + 1))
      .(handles := s.handles[i := Slot(o, access)])
  }

  /** A slot given up, before its reference is. */
  function Emptied(s: State, i: nat): State
    requires i < |s.handles| && s.handles[i].target in s.objects
  {
    var o := s.handles[i].target;
    WithHeader(s, o, s.objects[o].(handleCount := s.objects[o].handleCount - 1))
      .(handles := s.handles[i := Slot(NULL, {})])
  }

  function Closed(s: State, i: nat): State
    requires i < |s.handles| && s.handles[i].target in s.objects
  {
    Dropped(Emptied(s, i), s.handles[i].target)
  }

  function Inserted(s: State, d: Ref, name: string, o: Ref): State
    requires d in s.objects && o in s.objects
  {
    var h := s.objects[o];
    var named := WithHeader(s, o, h.(name := name, parent := d, pointerCount := h.pointerCount + 1));
    WithHeader(named, d, named.objects[d].(entries := named.objects[d].entries + [o]))
  }

  // ----------------------------------------------------- invariant is kept

  /** r is s after a change of one object's counts, of the table and of what callers hold. */
  predicate CountsChanged(s: State, r: State, o: Ref)
  {
    && o in s.objects && r.objects.Keys == s.objects.Keys
    && (forall x :: x in s.objects && x != o ==> r.objects[x] == s.objects[x])
    && r.objects[o] == s.objects[o].(pointerCount := r.objects[o].pointerCount, handleCount := r.objects[o].handleCount)
    && r == s.(objects := r.objects, handles := r.handles, held := r.held)
  }

  lemma SameLists(s: State, r: State, d: Ref)
    requires d in s.objects && d in r.objects && Lists(s, d)
    requires r.objects[d].entries == s.objects[d].entries && r.objects[d].kind == s.objects[d].kind
    requires forall e :: e in s.objects[d].entries && e in s.objects ==>
      e in r.objects && e !in r.orphans && r.objects[e].parent == s.objects[e].parent
      && r.objects[e].name == s.objects[e].name
    ensures Lists(r, d)
  {
    var entries := s.objects[d].entries;
    forall k | 0 <= k < |entries| ensures ListsEntry(r, d, entries[k]) {
      assert ListsEntry(s, d, entries[k]);
    }
    forall j, k | 0 <= j < k < |entries| ensures NamesDiffer(r, entries[j], entries[k]) {
      assert NamesDiffer(s, entries[j], entries[k]);
      assert ListsEntry(s, d, entries[j]) && ListsEntry(s, d, entries[k]);
    }
  }

  lemma EntryOf(s: State, d: Ref, e: Ref)
    requires d in s.objects && Lists(s, d) && e in s.objects[d].entries
    ensures ListsEntry(s, d, e)
  {
  }

  lemma CountsKeep(s: State, r: State, o: Ref)
    requires Core(s) && CountsChanged(s, r, o) && Balanced(r, o) && |r.handles| == MAX_HANDLES
    requires forall x :: x != o ==> Held(r, x) == Held(s, x)
    requires forall x :: x in s.objects && x != o ==> HandlesTo(r, x) == HandlesTo(s, x)
    requires forall i :: 0 <= i < |r.handles| ==> Named(r, i)
    ensures Core(r)
  {
    forall x | x in r.objects ensures Balanced(r, x) && Lists(r, x) && Listed(r, x) {
      assert Balanced(s, x) && Lists(s, x) && Listed(s, x);
      forall e | e in s.objects[x].entries ensures e !in r.orphans {
        EntryOf(s, x, e);
      }
      SameLists(s, r, x);
    }
    forall x ensures Conserved(r, x) {
      assert Conserved(s, x);
    }
  }

  lemma ReferenceKeeps(s: State, o: Ref)
    requires Inv(s) && o in s.objects
    ensures Inv(Referenced(s, o))
  {
    var r := Referenced(s, o);
    assert Balanced(s, o);
    forall i | 0 <= i < |r.handles| ensures Named(r, i) {
      assert Named(s, i);
    }
    CountsKeep(s, r, o);
  }

  lemma OpenKeeps(s: State, o: Ref, access: Access, i: nat)
    requires Inv(s) && o in s.objects && i < MAX_HANDLES && s.handles[i].target == NULL
    ensures Inv(Opened(s, o, access, i))
  {
    var r := Opened(s, o, access, i);
    assert Balanced(s, o);
    forall x | x in s.objects ensures HandlesTo(r, x) == HandlesTo(s, x) + if x == o then 1 else 0 {
      SlotUpdate(s.handles, x, i, Slot(o, access), |s.handles|);
    }
    forall j | 0 <= j < |r.handles| ensures Named(r, j) {
      assert Named(s, j);
    }
    CountsKeep(s, r, o);
  }

  /** Nothing references o any more. */
  ghost predicate Unreferenced(s: State, o: Ref)
  {
    Core(s) && o in s.objects && s.objects[o].pointerCount == 0
    && forall x :: x in s.objects && x != o ==> s.objects[x].pointerCount > 0
  }

  lemma RemoveLists(s: State, o: Ref, x: Ref)
    requires Unreferenced(s, o) && x in s.objects && x != o
    ensures Removed(s, o).objects == s.objects - {o}
    ensures Lists(Removed(s, o), x) && Listed(Removed(s, o), x)
  {
    var r := Removed(s, o);
    assert Balanced(s, o) && Lists(s, x) && Listed(s, x) && Lists(s, o);
    forall e | e in s.objects[x].entries ensures e in r.objects && e !in r.orphans {
      EntryOf(s, x, e);
      if e in s.objects[o].entries {
        EntryOf(s, o, e);
      }
    }
    SameLists(s, r, x);
  }

  /** Deleting an object that nothing references. */
  lemma RemoveKeeps(s: State, o: Ref)
    requires Unreferenced(s, o)
    ensures Inv(Removed(s, o)) && Removed(s, o).objects == s.objects - {o}
  {
    var r := Removed(s, o);
    assert Balanced(s, o) && Lists(s, o);
    forall x | x in r.objects ensures Balanced(r, x) && Lists(r, x) && Listed(r, x) {
      assert Balanced(s, x);
      RemoveLists(s, o, x);
    }
    forall i | 0 <= i < |r.handles| ensures Named(r, i) {
      assert Named(s, i);
      SlotCounts(s.handles, i, |s.handles|);
    }
    forall x | x in r.orphans ensures x in r.objects && r.objects[x].parent != NULL {
      if x in s.objects[o].entries {
        EntryOf(s, o, x);
      }
    }
    forall x ensures Conserved(r, x) {
      assert Conserved(s, x);
    }
  }

  lemma DropKeeps(s: State, r: State, o: Ref)
    requires Core(s) && o in s.objects && s.objects[o].pointerCount >= 0
    requires forall x :: x in s.objects && x != o ==> s.objects[x].pointerCount > 0
    requires r == if s.objects[o].pointerCount == 0 then Removed(s, o) else s
    ensures Inv(r)
  {
    if s.objects[o].pointerCount == 0 {
      RemoveKeeps(s, o);
    }
  }

  /** A released reference's counts, before its object may go. */
  function Unheld(s: State, o: Ref): State
    requires o in s.objects && Held(s, o) > 0
  {
    WithHeader(s, o, s.objects[o].(pointerCount := s.objects[o].pointerCount - 1))
      .(held := s.held[o := Held(s, o) - 1])
  }

  lemma UnheldKeeps(s: State, o: Ref)
    requires Inv(s) && o in s.objects && Held(s, o) > 0
    ensures Core(Unheld(s, o))
  {
    var m := Unheld(s, o);
    assert Balanced(s, o);
    forall i | 0 <= i < |m.handles| ensures Named(m, i) {
      assert Named(s, i);
    }
    CountsKeep(s, m, o);
  }

  lemma ReleaseKeeps(s: State, o: Ref)
    requires Inv(s) && o in s.objects && Held(s, o) > 0
    ensures Inv(Released(s, o))
  {
    UnheldKeeps(s, o);
    DropKeeps(Unheld(s, o), Released(s, o), o);
  }

  /** A closed handle's counts, before its object may go. */
  function Detached(s: State, i: nat): State
    requires i < |s.handles| && s.handles[i].target in s.objects
  {
    var o := s.handles[i].target;
    var h := s.objects[o];
    WithHeader(s, o, h.(handleCount := h.handleCount - 1, pointerCount := h.pointerCount - 1))
      .(handles := s.handles[i := Slot(NULL, {})])
  }

  lemma DetachKeeps(s: State, i: nat)
    requires Inv(s) && i < MAX_HANDLES && s.handles[i].target in s.objects
    ensures Core(Detached(s, i))
  {
    var o, m := s.handles[i].target, Detached(s, i);
    assert Balanced(s, o);
    forall x | x in s.objects ensures HandlesTo(m, x) == HandlesTo(s, x) - if x == o then 1 else 0 {
      SlotUpdate(s.handles, x, i, Slot(NULL, {}), |s.handles|);
    }
    forall j | 0 <= j < |m.handles| ensures Named(m, j) {
      assert Named(s, j);
    }
    CountsKeep(s, m, o);
  }

  lemma CloseKeeps(s: State, i: nat)
    requires Inv(s) && i < MAX_HANDLES && s.handles[i].target != NULL
    ensures s.handles[i].target in s.objects && Inv(Closed(s, i))
  {
    assert Named(s, i);
    var o := s.handles[i].target;
    DetachKeeps(s, i);
    CloseIsDetach(s, i);
    DropKeeps(Detached(s, i), Closed(s, i), o);
  }

  lemma CloseIsDetach(s: State, i: nat)
    requires i < |s.handles| && s.handles[i].target in s.objects
    ensures var o, m := s.handles[i].target, Detached(s, i);
      Closed(s, i) == if m.objects[o].pointerCount == 0 then Removed(m, o) else m
  {
    var o := s.handles[i].target;
    var c := Emptied(s, i);
    var last := c.objects[o].(pointerCount := c.objects[o].pointerCount - 1);
    assert WithHeader(c, o, last) == Detached(s, i);
  }

  lemma {:induction false} NoSlots(handles: seq<Slot>, o: Ref, n: nat)
    requires n <= |handles| && forall i :: 0 <= i < n ==> handles[i].target != o
    ensures SlotsNaming(handles, o, n) == 0
  {
    if n > 0 {
      NoSlots(handles, o, n - 1);
    }
  }

  lemma CreateLists(s: State, o: Ref, kind: nat, x: Ref)
    requires Inv(s) && o != NULL && o !in s.objects && x in s.objects
    ensures Lists(Created(s, o, kind), x) && Listed(Created(s, o, kind), x)
  {
    var r := Created(s, o, kind);
    assert Lists(s, x) && Listed(s, x);
    forall e | e in s.objects[x].entries ensures e !in r.orphans && e != o {
      EntryOf(s, x, e);
    }
    SameLists(s, r, x);
  }

  lemma CreateKeeps(s: State, o: Ref, kind: nat)
    requires Inv(s) && o != NULL && o !in s.objects
    ensures Inv(Created(s, o, kind))
  {
    var r := Created(s, o, kind);
    forall i | 0 <= i < |r.handles| ensures Named(r, i) && s.handles[i].target != o {
      assert Named(s, i);
    }
    NoSlots(s.handles, o, |s.handles|);
    forall x | x in r.objects ensures Balanced(r, x) && Listed(r, x) && Lists(r, x) {
      if x != o {
        assert Balanced(s, x);
        CreateLists(s, o, kind, x);
      }
    }
    forall x ensures Conserved(r, x) {
      assert Conserved(s, x);
    }
  }

  /** The name is not taken in d. */
  predicate FreeName(s: State, d: Ref, name: string)
    requires d in s.objects
  {
    forall k :: 0 <= k < |s.objects[d].entries| ==>
      s.objects[d].entries[k] in s.objects && s.objects[s.objects[d].entries[k]].name != name
  }

  lemma InsertLists(s: State, d: Ref, name: string, o: Ref)
    requires Inv(s) && d in s.objects && s.objects[d].kind == DIRECTORY && FreeName(s, d, name)
    requires o in s.objects && s.objects[o].parent == NULL
    ensures Lists(Inserted(s, d, name, o), d)
  {
    var r, entries := Inserted(s, d, name, o), s.objects[d].entries;
    assert Lists(s, d);
    forall k | 0 <= k < |entries| ensures ListsEntry(r, d, entries[k]) && NamesDiffer(r, entries[k], o) {
      EntryOf(s, d, entries[k]);
    }
    forall j, k | 0 <= j < k < |entries| ensures NamesDiffer(r, entries[j], entries[k]) {
      assert NamesDiffer(s, entries[j], entries[k]);
      EntryOf(s, d, entries[j]);
      EntryOf(s, d, entries[k]);
    }
  }

  lemma InsertOthers(s: State, d: Ref, name: string, o: Ref, x: Ref)
    requires Inv(s) && d in s.objects && o in s.objects && s.objects[o].parent == NULL && x in s.objects
    ensures x != d ==> Lists(Inserted(s, d, name, o), x)
    ensures Listed(Inserted(s, d, name, o), x)
  {
    var r := Inserted(s, d, name, o);
    assert Lists(s, x) && Listed(s, x);
    if x != d {
      forall e | e in s.objects[x].entries ensures e !in r.orphans && e != o {
        EntryOf(s, x, e);
      }
      SameLists(s, r, x);
    }
  }

  lemma InsertBalances(s: State, d: Ref, name: string, o: Ref, x: Ref)
    requires Inv(s) && d in s.objects && o in s.objects && s.objects[o].parent == NULL && x in s.objects && d != NULL
    ensures Balanced(Inserted(s, d, name, o), x)
  {
    assert Balanced(s, x);
  }

  lemma InsertKeeps(s: State, d: Ref, name: string, o: Ref)
    requires Inv(s) && d in s.objects && s.objects[d].kind == DIRECTORY && FreeName(s, d, name)
    requires o in s.objects && s.objects[o].parent == NULL
    ensures Inv(Inserted(s, d, name, o))
  {
    var r := Inserted(s, d, name, o);
    InsertLists(s, d, name, o);
    forall x | x in r.objects ensures Balanced(r, x) && Listed(r, x) && Lists(r, x) {
      InsertBalances(s, d, name, o, x);
      InsertOthers(s, d, name, o, x);
    }
    forall i | 0 <= i < |r.handles| ensures Named(r, i) {
      assert Named(s, i);
    }
    forall x ensures Conserved(r, x) {
      assert Conserved(s, x);
    }
  }

  // ---------------------------------------------------------- name lookup

  /** The first entry of that name, or NULL. */
  function FindIn(s: State, entries: seq<Ref>, name: string): Ref
  {
    if entries == [] then NULL
    else if entries[0] in s.objects && s.objects[entries[0]].name == name then entries[0]
    else FindIn(s, entries[1..], name)
  }

  datatype Lookup = Found(target: Ref) | Failed(status: Status)

  /** The length of the first path segment. */
  function SegmentLength(p: string): (n: nat)
    ensures n <= |p| && (n < |p| ==> p[n] == '\\') && forall k :: 0 <= k < n ==> p[k] != '\\'
  {
    if p == "" || p[0] == '\\' then 0 else 1 + SegmentLength(p[1..])
  }

  /** The loop of ObLookupObjectByName, from a directory and the rest of a path. */
  function LookupFrom(s: State, d: Ref, p: string): Lookup
    requires d in s.objects
    decreases |p|
  {
    var n := SegmentLength(p);
    if n == 0 then Failed(NameInvalid)
    else
      var h := FindIn(s, s.objects[d].entries, p[..n]);
      if h == NULL || h !in s.objects then Failed(if n < |p| then PathNotFound else NameNotFound)
      else if n == |p| then Found(h)
      else if s.objects[h].kind != DIRECTORY then Failed(PathNotFound)
      else LookupFrom(s, h, p[n + 1..])
  }

  function LookupPath(s: State, path: string): Lookup
    requires s.root in s.objects
  {
    if path == "" || path[0] != '\\' then Failed(NameInvalid)
    else if |path| == 1 then Found(s.root)
    else LookupFrom(s, s.root, path[1..])
  }

  predicate SegmentName(name: string)
  {
    name != "" && '\\' !in name
  }

  lemma {:induction false} FindMeaning(s: State, entries: seq<Ref>, name: string)
    requires forall k :: 0 <= k < |entries| ==> entries[k] in s.objects
    requires NULL !in s.objects
    ensures var h := FindIn(s, entries, name);
      if h == NULL then forall k :: 0 <= k < |entries| ==> s.objects[entries[k]].name != name
      else h in entries && s.objects[h].name == name
  {
    if entries != [] {
      FindMeaning(s, entries[1..], name);
    }
  }

  predicate SameNames(s: State, r: State, entries: seq<Ref>)
  {
    forall k :: 0 <= k < |entries| ==> SameName(s, r, entries[k])
  }

  predicate SameName(s: State, r: State, e: Ref)
  {
    e in s.objects && e in r.objects && r.objects[e].name == s.objects[e].name
  }

  /** What an insertion does to a directory's list. */
  lemma InsertEntries(s: State, d: Ref, name: string, o: Ref, x: Ref)
    requires Inv(s) && d in s.objects && o in s.objects && s.objects[o].parent == NULL && x in s.objects
    ensures SameNames(s, Inserted(s, d, name, o), s.objects[x].entries)
    ensures Inserted(s, d, name, o).objects[x].entries == s.objects[x].entries + if x == d then [o] else []
    ensures Inserted(s, d, name, o).objects[x].kind == s.objects[x].kind
  {
    var entries := s.objects[x].entries;
    assert Lists(s, x);
    forall k | 0 <= k < |entries| ensures SameName(s, Inserted(s, d, name, o), entries[k]) {
      EntryOf(s, x, entries[k]);
    }
    assert entries + [] == entries;
  }

  lemma {:induction false} FindAppend(s: State, r: State, entries: seq<Ref>, more: seq<Ref>, name: string)
    requires NULL !in s.objects && SameNames(s, r, entries)
    ensures FindIn(s, entries, name) != NULL ==> FindIn(r, entries + more, name) == FindIn(s, entries, name)
    ensures FindIn(s, entries, name) == NULL ==> FindIn(r, entries + more, name) == FindIn(r, more, name)
  {
    if entries == [] {
      assert entries + more == more;
    } else {
      FindAppend(s, r, entries[1..], more, name);
      assert (entries + more)[1..] == entries[1..] + more;
    }
  }

  lemma SegmentOf(name: string, rest: string)
    requires SegmentName(name)
    ensures SegmentLength(name) == |name|
    ensures SegmentLength(name + "\\" + rest) == |name|
  {
    var p := name + "\\" + rest;
    assert p[|name|] == '\\';
    forall k | 0 <= k < |name| ensures name[k] != '\\' && p[k] != '\\' {
      assert name[k] in name;
    }
  }

  /** Lookup descends: through a directory, then on from it. */
  lemma {:induction false} LookupThrough(s: State, x: Ref, p: string, d: Ref, q: string)
    requires x in s.objects && d in s.objects && s.objects[d].kind == DIRECTORY && LookupFrom(s, x, p) == Found(d)
    ensures LookupFrom(s, x, p + "\\" + q) == LookupFrom(s, d, q)
    decreases |p|
  {
    var n := SegmentLength(p);
    var t := p + "\\" + q;
    SegmentOf(p[..n], if n < |p| then p[n + 1..] + "\\" + q else q);
    if n == |p| {
      assert p[..n] == p && t[..n] == p && t[n + 1..] == q;
    } else {
      assert t == p[..n] + "\\" + (p[n + 1..] + "\\" + q);
      assert t[..n] == p[..n] && t[n + 1..] == p[n + 1..] + "\\" + q;
      LookupThrough(s, FindIn(s, s.objects[x].entries, p[..n]), p[n + 1..], d, q);
    }
  }

  /** Insertion hides nothing: what a path named, it still names. */
  lemma {:induction false} LookupKept(s: State, d: Ref, name: string, o: Ref, x: Ref, p: string)
    requires Inv(s) && d in s.objects && s.objects[d].kind == DIRECTORY
    requires o in s.objects && s.objects[o].parent == NULL && x in s.objects
    requires LookupFrom(s, x, p).Found?
    ensures LookupFrom(Inserted(s, d, name, o), x, p) == LookupFrom(s, x, p)
    decreases |p|
  {
    var n, entries := SegmentLength(p), s.objects[x].entries;
    InsertEntries(s, d, name, o, x);
    FindAppend(s, Inserted(s, d, name, o), entries, if x == d then [o] else [], p[..n]);
    if n < |p| {
      var h := FindIn(s, entries, p[..n]);
      InsertEntries(s, d, name, o, h);
      LookupKept(s, d, name, o, h, p[n + 1..]);
    }
  }

  /** An inserted object is found where it was put. */
  lemma InsertThenFind(s: State, d: Ref, name: string, o: Ref)
    requires Inv(s) && d in s.objects && FreeName(s, d, name) && SegmentName(name)
    requires o in s.objects && s.objects[o].parent == NULL
    ensures LookupFrom(Inserted(s, d, name, o), d, name) == Found(o)
  {
    var r, entries := Inserted(s, d, name, o), s.objects[d].entries;
    InsertEntries(s, d, name, o, d);
    forall k | 0 <= k < |entries| ensures entries[k] in s.objects {
      assert SameName(s, r, entries[k]);
    }
    FindMeaning(s, entries, name);
    FindAppend(s, r, entries, [o], name);
    assert FindIn(r, [o], name) == o;
    SegmentOf(name, "");
    assert name[..|name|] == name;
  }

  lemma PathKept(s: State, d: Ref, name: string, o: Ref, path: string)
    requires Inv(s) && d in s.objects && s.objects[d].kind == DIRECTORY
    requires o in s.objects && s.objects[o].parent == NULL && LookupPath(s, path).Found?
    ensures LookupPath(Inserted(s, d, name, o), path) == LookupPath(s, path)
  {
    if |path| > 1 {
      LookupKept(s, d, name, o, s.root, path[1..]);
    }
  }

  /** The path of a name in the directory a path names. */
  function Extended(path: string, name: string): string
  {
    (if |path| == 1 then path else path + "\\") + name
  }

  lemma LookupExtended(s: State, path: string, d: Ref, name: string)
    requires s.root in s.objects && d in s.objects && s.objects[d].kind == DIRECTORY && name != ""
    requires LookupPath(s, path) == Found(d)
    ensures LookupPath(s, Extended(path, name)) == LookupFrom(s, d, name)
  {
    assert Extended(path, name)[1..] == if |path| == 1 then name else path[1..] + "\\" + name;
    if |path| > 1 {
      LookupThrough(s, s.root, path[1..], d, name);
    }
  }

  /** The namespace's round trip: if a path names a directory, then after an insertion there
      the path extended by the name gives the object, and every path that named something
      still names it. */
  lemma InsertThenLookup(s: State, path: string, d: Ref, name: string, o: Ref, other: string)
    requires Inv(s) && LookupPath(s, path) == Found(d) && d in s.objects && s.objects[d].kind == DIRECTORY
    requires FreeName(s, d, name) && SegmentName(name)
    requires o in s.objects && s.objects[o].parent == NULL
    ensures Inserted(s, d, name, o).root in Inserted(s, d, name, o).objects
    ensures LookupPath(Inserted(s, d, name, o), Extended(path, name)) == Found(o)
    ensures LookupPath(s, other).Found? ==> LookupPath(Inserted(s, d, name, o), other) == LookupPath(s, other)
  {
    InsertThenFind(s, d, name, o);
    InsertEntries(s, d, name, o, d);
    PathKept(s, d, name, o, path);
    LookupExtended(Inserted(s, d, name, o), path, d, name);
    if LookupPath(s, other).Found? {
      PathKept(s, d, name, o, other);
    }
  }
}
