/** Runs of the object manager, and its operations as the code performs them on the header
    pool, the handle table and the directories. */
module ObjectTable {
  import opened ObjectManager
  import opened Prelude

  // --------------------------------------------------------------- handles

  /** index_to_handle */
  function HandleOf(index: nat): nat
  {
    (index + 1) * 4
  }

  /** handle_to_index */
  function IndexOf(handle: nat): Option<nat>
  {
    if handle == 0 || handle % 4 != 0 then None
    else if handle / 4 - 1 >= MAX_HANDLES then None
    else Some(handle / 4 - 1)
  }

  /** The two conversions are inverse, and no handle is NULL. */
  lemma HandleRoundTrip(handle: nat, index: nat)
    ensures IndexOf(handle) == Some(index) <==> index < MAX_HANDLES && handle == HandleOf(index)
    ensures HandleOf(index) != 0
  {
    if handle != 0 && handle % 4 == 0 {
      assert handle == 4 * (handle / 4);
    }
  }

  /** What a handle names, or NULL. */
  function Resolve(s: State, handle: nat): Ref
    requires |s.handles| == MAX_HANDLES
  {
    if IndexOf(handle).Some? then s.handles[IndexOf(handle).value].target else NULL
  }

  /** The first free slot from i on. */
  function FirstFree(handles: seq<Slot>, i: nat): (k: nat)
    requires i <= |handles|
    ensures i <= k <= |handles| && (k < |handles| ==> handles[k].target == NULL)
    decreases |handles| - i
  {
    if i == |handles| || handles[i].target == NULL then i else FirstFree(handles, i + 1)
  }

  /** Generic-all grants every right; otherwise each desired right must be granted. */
  predicate Allows(access: Access, desired: Access)
  {
    GENERIC_ALL in access || desired <= access
  }

  /** The checks of ObReferenceObjectByHandle; kind None accepts any type. */
  function UseStatus(s: State, handle: nat, desired: Access, kind: Option<nat>): Status
    requires Inv(s)
  {
    var o := Resolve(s, handle);
    if o == NULL then InvalidHandle
    else
      var i := IndexOf(handle).value;
      assert Named(s, i);
      if kind.Some? && s.objects[o].kind != kind.value then TypeMismatch
      else if !Allows(s.handles[i].access, desired) then AccessDenied
      else Success
  }

  // ------------------------------------------------------------------ runs

  datatype Action =
    | Create(address: Ref, kind: nat)
    | Reference(target: Ref)
    | Release(target: Ref)
    | Open(target: Ref, access: Access)
    | Use(handle: nat, desired: Access, wanted: Option<nat>)
    | Close(handle: nat)
    | Insert(directory: Ref, name: string, target: Ref)
    | Look(path: string)

  /** What the code asks of callers: live objects, references they hold, and objects not yet
      in the namespace to insert. */
  predicate Enabled(s: State, a: Action)
  {
    match a
    case Create(o, _) => o != NULL && o !in s.objects
    case Reference(o) => o in s.objects
    case Release(o) => o in s.objects && Held(s, o) > 0
    case Open(o, _) => o in s.objects
    case Insert(d, _, o) =>
      d in s.objects && s.objects[d].kind == DIRECTORY && o in s.objects && s.objects[o].parent == NULL
    case _ => true
  }

  function Next(s: State, a: Action): State
    requires Inv(s) && Enabled(s, a)
  {
    match a
    case Create(o, kind) => Created(s, o, kind)
    case Reference(o) => Referenced(s, o)
    case Release(o) => Released(s, o)
    case Open(o, access) =>
      var i := FirstFree(s.handles, 0);
      if i < MAX_HANDLES then Opened(s, o, access, i) else s
    case Use(handle, desired, kind) =>
      if UseStatus(s, handle, desired, kind) == Success
      then (assert Named(s, IndexOf(handle).value); Referenced(s, Resolve(s, handle))) else s
    case Close(handle) =>
      if Resolve(s, handle) == NULL then s
      else (assert Named(s, IndexOf(handle).value); Closed(s, IndexOf(handle).value))
    case Insert(d, name, o) =>
      if FindIn(s, s.objects[d].entries, name) != NULL then s else Inserted(s, d, name, o)
    case Look(path) =>
      var found := LookupPath(s, path);
      if found.Found? && found.target in s.objects then Referenced(s, found.target) else s
  }

  /** The name is free exactly when the search finds nothing. */
  lemma SearchMeansFree(s: State, d: Ref, name: string)
    requires Inv(s) && d in s.objects
    ensures FindIn(s, s.objects[d].entries, name) == NULL <==> FreeName(s, d, name)
  {
    var entries := s.objects[d].entries;
    assert Lists(s, d);
    forall k | 0 <= k < |entries| ensures entries[k] in s.objects {
      EntryOf(s, d, entries[k]);
    }
    FindMeaning(s, entries, name);
  }

  /** Every operation keeps the accounts. */
  lemma StepKeeps(s: State, a: Action)
    requires Inv(s) && Enabled(s, a)
    ensures Inv(Next(s, a))
  {
    match a
    case Create(o, kind) => CreateKeeps(s, o, kind);
    case Reference(o) => ReferenceKeeps(s, o);
    case Release(o) => ReleaseKeeps(s, o);
    case Open(o, access) =>
      if FirstFree(s.handles, 0) < MAX_HANDLES {
        OpenKeeps(s, o, access, FirstFree(s.handles, 0));
      }
    case Use(handle, desired, kind) =>
      if UseStatus(s, handle, desired, kind) == Success {
        assert Named(s, IndexOf(handle).value);
        ReferenceKeeps(s, Resolve(s, handle));
      }
    case Close(handle) =>
      if Resolve(s, handle) != NULL {
        CloseKeeps(s, IndexOf(handle).value);
      }
    case Insert(d, name, o) =>
      SearchMeansFree(s, d, name);
      if FindIn(s, s.objects[d].entries, name) == NULL {
        InsertKeeps(s, d, name, o);
      }
    case Look(path) =>
      var found := LookupPath(s, path);
      if found.Found? && found.target in s.objects {
        ReferenceKeeps(s, found.target);
      }
  }

  /** The one reference to o is the one a gives up. */
  predicate TakesLast(s: State, a: Action, o: Ref)
    requires Inv(s) && o in s.objects
  {
    s.objects[o].pointerCount == 1 && (a == Release(o) || (a.Close? && Resolve(s, a.handle) == o))
  }

  /** An object goes exactly when its last reference does, and its delete procedure runs then,
      once; no other object goes with it. */
  lemma DeletedExactly(s: State, a: Action, o: Ref)
    requires Inv(s) && Enabled(s, a) && o in s.objects
    ensures o !in Next(s, a).objects <==> TakesLast(s, a, o)
    ensures Next(s, a).deleted[o] == s.deleted[o] + if TakesLast(s, a, o) then 1 else 0
  {
    StepKeeps(s, a);
    assert Conserved(s, o) && Conserved(Next(s, a), o);
    assert Next(s, a).created[o] == s.created[o];
    if a.Close? && Resolve(s, a.handle) != NULL {
      assert Named(s, IndexOf(a.handle).value);
    }
  }

  /** What goes was never inserted, and is not the root: the detaching branch of
      ObpDeleteObject is never taken. */
  lemma DeletedUninserted(s: State, a: Action, o: Ref)
    requires Inv(s) && Enabled(s, a) && o in s.objects
    ensures o !in Next(s, a).objects ==> s.objects[o].parent == NULL && o != s.root
  {
    DeletedExactly(s, a, o);
    if TakesLast(s, a, o) {
      assert Balanced(s, o);
      if a.Close? {
        SlotCounts(s.handles, IndexOf(a.handle).value, MAX_HANDLES);
      }
    }
  }

  /** No operation moves an inserted object. */
  lemma InsertedKept(s: State, a: Action, o: Ref)
    requires Inv(s) && Enabled(s, a) && o in s.objects && s.objects[o].parent != NULL
    ensures o in Next(s, a).objects && Next(s, a).objects[o].parent == s.objects[o].parent
    ensures Next(s, a).objects[o].name == s.objects[o].name
  {
    DeletedUninserted(s, a, o);
    PlaceKept(s, a, o);
  }

  /** The object, if it is still there, has its name and parent. */
  predicate SamePlace(s: State, r: State, o: Ref)
    requires o in s.objects
  {
    o in r.objects ==> r.objects[o].parent == s.objects[o].parent && r.objects[o].name == s.objects[o].name
  }

  lemma DroppedPlace(s: State, x: Ref, o: Ref)
    requires x in s.objects && o in s.objects
    ensures SamePlace(s, Dropped(s, x), o)
  {
  }

  lemma InsertedPlace(s: State, d: Ref, name: string, x: Ref, o: Ref)
    requires d in s.objects && x in s.objects && o in s.objects && o != x
    ensures SamePlace(s, Inserted(s, d, name, x), o)
  {
  }

  lemma PlaceKept(s: State, a: Action, o: Ref)
    requires Inv(s) && Enabled(s, a) && o in s.objects && s.objects[o].parent != NULL
    ensures SamePlace(s, Next(s, a), o)
  {
    match a
    case Release(x) => DroppedPlace(s.(held := s.held[x := Held(s, x) - 1]), x, o);
    case Close(handle) =>
      if Resolve(s, handle) != NULL {
        var i := IndexOf(handle).value;
        assert Named(s, i);
        DroppedPlace(Emptied(s, i), s.handles[i].target, o);
      }
    case Insert(d, name, x) =>
      if FindIn(s, s.objects[d].entries, name) == NULL {
        InsertedPlace(s, d, name, x, o);
      }
    case _ =>
  }

  /** Closing is the only way a handle stops naming its object. */
  lemma HandleKept(s: State, a: Action, handle: nat)
    requires Inv(s) && Enabled(s, a) && Resolve(s, handle) != NULL && a != Close(handle)
    ensures |Next(s, a).handles| == MAX_HANDLES && Resolve(Next(s, a), handle) == Resolve(s, handle)
  {
    StepKeeps(s, a);
    if a.Close? && Resolve(s, a.handle) != NULL {
      HandleRoundTrip(handle, IndexOf(handle).value);
      HandleRoundTrip(a.handle, IndexOf(a.handle).value);
      assert Named(s, IndexOf(a.handle).value);
    }
  }

  /** r is where the code leads from a sound state s. */
  ghost predicate Steps(s: State, a: Action, r: State)
  {
    Inv(s) ==> Enabled(s, a) && r == Next(s, a)
  }

  /** The states of a run, from any sound state. */
  ghost predicate IsRun(trace: seq<State>, actions: seq<Action>)
  {
    |trace| == |actions| + 1 && Inv(trace[0])
    && forall k :: 0 <= k < |actions| ==> Steps(trace[k], actions[k], trace[k + 1])
  }

  lemma {:induction false} InvAlong(trace: seq<State>, actions: seq<Action>, k: nat)
    requires IsRun(trace, actions) && k < |trace|
    ensures Inv(trace[k])
  {
    if k > 0 {
      InvAlong(trace, actions, k - 1);
      assert Steps(trace[k - 1], actions[k - 1], trace[k]);
      StepKeeps(trace[k - 1], actions[k - 1]);
    }
  }

  /** A handle resolves to its object, live, until it is closed, whatever else happens. */
  lemma {:induction false} HandleStable(trace: seq<State>, actions: seq<Action>, j: nat, k: nat, handle: nat)
    requires IsRun(trace, actions) && j <= k < |trace|
    requires |trace[j].handles| == MAX_HANDLES && Resolve(trace[j], handle) != NULL
    requires forall l :: j <= l < k ==> actions[l] != Close(handle)
    ensures |trace[k].handles| == MAX_HANDLES && Resolve(trace[k], handle) == Resolve(trace[j], handle)
    ensures Resolve(trace[k], handle) in trace[k].objects
  {
    InvAlong(trace, actions, k);
    if j < k {
      HandleStable(trace, actions, j, k - 1, handle);
      InvAlong(trace, actions, k - 1);
      assert Steps(trace[k - 1], actions[k - 1], trace[k]);
      HandleKept(trace[k - 1], actions[k - 1], handle);
    }
    assert Named(trace[k], IndexOf(handle).value);
  }

  /** An inserted object stays for the rest of the run, under its name and parent. */
  lemma {:induction false} InsertedStays(trace: seq<State>, actions: seq<Action>, j: nat, k: nat, o: Ref)
    requires IsRun(trace, actions) && j <= k < |trace|
    requires o in trace[j].objects && trace[j].objects[o].parent != NULL
    ensures o in trace[k].objects && trace[k].objects[o].parent == trace[j].objects[o].parent
    ensures trace[k].objects[o].name == trace[j].objects[o].name
  {
    if j < k {
      InsertedStays(trace, actions, j, k - 1, o);
      InvAlong(trace, actions, k - 1);
      assert Steps(trace[k - 1], actions[k - 1], trace[k]);
      InsertedKept(trace[k - 1], actions[k - 1], o);
    }
  }

  /** No handle and no directory ever names a dead object. */
  lemma NothingDangles(trace: seq<State>, actions: seq<Action>, k: nat, handle: nat, d: Ref, e: Ref)
    requires IsRun(trace, actions) && k < |trace|
    ensures |trace[k].handles| == MAX_HANDLES
    ensures Resolve(trace[k], handle) != NULL ==> Resolve(trace[k], handle) in trace[k].objects
    ensures d in trace[k].objects && e in trace[k].objects[d].entries ==> e in trace[k].objects
  {
    var s := trace[k];
    InvAlong(trace, actions, k);
    if Resolve(s, handle) != NULL {
      assert Named(s, IndexOf(handle).value);
    }
    if d in s.objects && e in s.objects[d].entries {
      assert Lists(s, d);
      EntryOf(s, d, e);
    }
  }

  /** After ObInitialize: an empty handle table and the root directory. */
  function Boot(address: Ref): State
  {
    State(address, map[address := Fresh(DIRECTORY).(name := "\\")], seq(MAX_HANDLES, _ => Slot(NULL, {})), map[], {},
          multiset{address}, multiset{})
  }

  lemma BootInv(address: Ref)
    requires address != NULL
    ensures Inv(Boot(address))
  {
    var s := Boot(address);
    NoSlots(s.handles, address, MAX_HANDLES);
    forall o | o in s.objects ensures Balanced(s, o) && Lists(s, o) && Listed(s, o) {
    }
    forall i | 0 <= i < MAX_HANDLES ensures Named(s, i) {
    }
    forall o ensures Conserved(s, o) {
    }
  }

  // -------------------------------------------------------------- the code

  class Manager {
    var root: Ref
    var objects: map<Ref, Header>
    const handles: array<Slot>
    ghost var held: map<Ref, nat>
    ghost var orphans: set<Ref>
    ghost var created: multiset<Ref>
    ghost var deleted: multiset<Ref>

    ghost function View(): State
      reads this, handles
    {
      State(root, objects, handles[..], held, orphans, created, deleted)
    }

    ghost predicate Valid()
      reads this, handles
    {
      handles.Length == MAX_HANDLES && Inv(View())
    }

    /** ObInitialize */
    constructor (address: Ref)
      requires address != NULL
      ensures Valid() && fresh(handles) && View() == Boot(address)
    {
      handles := new Slot[MAX_HANDLES](_ => Slot(NULL, {}));
      root := address;
      objects := map[address := Header(1, 0, DIRECTORY, "\\", NULL, [])];
      held := map[];
      orphans := {};
      created := multiset{address};
      deleted := multiset{};
      new;
      BootInv(address);
      assert handles[..] == Boot(address).handles;
    }

    /** ObCreateObject; the pool's answer is an address not in use, or NULL. */
    method CreateObject(address: Ref, kind: nat) returns (status: Status)
      requires Valid() && address !in objects
      modifies this
      ensures status == if address == NULL then NoMemory else Success
      ensures View() == if address == NULL then old(View()) else Next(old(View()), Create(address, kind))
    {
      if address == NULL {
        return NoMemory;
      }
      objects := objects[address := Header(1, 0, kind, "", NULL, [])];
      held := held[address := 1];
      created := created + multiset{address};
      status := Success;
    }

    /** ObReferenceObject */
    method ReferenceObject(o: Ref)
      requires Valid() && o in objects
      modifies this
      ensures View() == Next(old(View()), Reference(o))
    {
      var h := objects[o];
      objects := objects[o := h.(pointerCount := h.pointerCount + 1)];
      held := held[o := Held(old(View()), o) + 1];
    }

    /** ObpDeleteObject */
    method DeleteObject(o: Ref)
      requires o in objects
      modifies this
      ensures View() == Removed(old(View()), o)
    {
      ghost var entries := objects[o].entries;
      var d := objects[o].parent;
      if d != NULL && d in objects {
        var rest := RemoveEntry(objects[d].entries, o);
        objects := objects[d := objects[d].(entries := rest)];
      }
      objects := objects - {o};
      deleted := deleted + multiset{o};
      orphans := orphans + set e | e in entries;
    }

    /** RemoveEntryList: the list without the entry. */
    method RemoveEntry(entries: seq<Ref>, o: Ref) returns (rest: seq<Ref>)
      ensures rest == Without(entries, o)
    {
      var i := 0;
      while i < |entries| && entries[i] != o
        invariant 0 <= i <= |entries|
        invariant Without(entries, o) == entries[..i] + Without(entries[i..], o)
      {
        i := i + 1;
      }
      assert entries[..|entries|] == entries;
      rest := if i < |entries| then entries[..i] + entries[i + 1..] else entries;
    }

    /** ObDereferenceObject after the count of what its caller gave up was adjusted. */
    method DropReference(o: Ref) returns (bugcheck: bool)
      requires o in objects
      modifies this
      ensures bugcheck <==> old(objects[o].pointerCount) < 1
      ensures !bugcheck ==> View() == Dropped(old(View()), o)
    {
      var remaining := objects[o].pointerCount - 1;
      objects := objects[o := objects[o].(pointerCount := remaining)];
      bugcheck := remaining < 0;
      if remaining == 0 {
        DeleteObject(o);
      }
    }

    /** ObDereferenceObject by a caller that holds a reference: it never underflows. */
    method DereferenceObject(o: Ref) returns (bugcheck: bool)
      requires Valid() && o in objects && Held(View(), o) > 0
      modifies this
      ensures !bugcheck && View() == Next(old(View()), Release(o))
    {
      held := held[o := held[o] - 1];
      bugcheck := DropReference(o);
    }

    /** ObCreateHandle */
    method CreateHandle(o: Ref, access: Access) returns (status: Status, handle: nat)
      requires Valid() && o in objects
      modifies this, handles
      ensures View() == Next(old(View()), Open(o, access))
      ensures status == Success || status == InsufficientResources
      ensures status == Success ==> old(Resolve(View(), handle)) == NULL && Resolve(View(), handle) == o
      ensures status != Success ==> forall h :: IndexOf(h).Some? ==> Resolve(View(), h) != NULL
    {
      var i := 0;
      handle := 0;
      while i < MAX_HANDLES
        invariant 0 <= i <= MAX_HANDLES && FirstFree(handles[..], 0) == FirstFree(handles[..], i)
        invariant forall j :: 0 <= j < i ==> handles[j].target != NULL
      {
        if handles[i].target == NULL {
          handles[i] := Slot(o, access);
          var h := objects[o];
          objects := objects[o := h.(pointerCount := h.pointerCount + 1, handleCount := h.handleCount + 1)];
          handle := (i + 1) * 4;
          HandleRoundTrip(handle, i);
          assert o != NULL;
          assert handles[..] == old(handles[..])[i := Slot(o, access)];
          return Success, handle;
        }
        i := i + 1;
      }
      status := InsufficientResources;
    }

    /** ObReferenceObjectByHandle */
    method ReferenceObjectByHandle(handle: nat, desired: Access, kind: Option<nat>)
      returns (status: Status, o: Ref)
      requires Valid()
      modifies this
      ensures status == old(UseStatus(View(), handle, desired, kind))
      ensures View() == Next(old(View()), Use(handle, desired, kind))
      ensures status == Success ==> o == Resolve(View(), handle)
    {
      o := NULL;
      var index := IndexOf(handle);
      if index == None {
        return InvalidHandle, o;
      }
      var slot := handles[index.value];
      if slot.target == NULL {
        return InvalidHandle, o;
      }
      assert Named(View(), index.value);
      if kind.Some? && objects[slot.target].kind != kind.value {
        return TypeMismatch, o;
      }
      if desired != {} && !(GENERIC_ALL in slot.access || desired <= slot.access) {
        return AccessDenied, o;
      }
      ReferenceObject(slot.target);
      return Success, slot.target;
    }

    /** The part of ObCloseHandle before the dereference. */
    method EmptySlot(i: nat)
      requires i < handles.Length && handles[i].target in objects
      modifies this, handles
      ensures View() == Emptied(old(View()), i)
    {
      var o := handles[i].target;
      handles[i] := Slot(NULL, {});
      assert handles[..] == old(handles[..])[i := Slot(NULL, {})];
      objects := objects[o := objects[o].(handleCount := objects[o].handleCount - 1)];
    }

    /** ObCloseHandle */
    method CloseHandle(handle: nat) returns (status: Status, bugcheck: bool)
      requires Valid()
      modifies this, handles
      ensures !bugcheck && View() == Next(old(View()), Close(handle))
      ensures status == if old(Resolve(View(), handle)) == NULL then InvalidHandle else Success
    {
      var index := IndexOf(handle);
      if index == None {
        return InvalidHandle, false;
      }
      var o := handles[index.value].target;
      if o == NULL {
        return InvalidHandle, false;
      }
      assert Named(View(), index.value);
      EmptySlot(index.value);
      bugcheck := DropReference(o);
      status := Success;
    }

    /** ObpFindInDirectory */
    method FindInDirectory(d: Ref, name: string) returns (h: Ref)
      requires Valid() && d in objects
      ensures h == FindIn(View(), objects[d].entries, name)
    {
      var entries, i := objects[d].entries, 0;
      assert Lists(View(), d);
      while i < |entries|
        invariant 0 <= i <= |entries| && FindIn(View(), entries, name) == FindIn(View(), entries[i..], name)
      {
        EntryOf(View(), d, entries[i]);
        if objects[entries[i]].name == name {
          return entries[i];
        }
        i := i + 1;
      }
      h := NULL;
    }

    /** ObInsertObjectByName */
    method InsertObjectByName(d: Ref, name: string, o: Ref) returns (status: Status)
      requires Valid() && (d != NULL && o != NULL ==> Enabled(View(), Insert(d, name, o)))
      modifies this
      ensures d == NULL || o == NULL ==> status == InvalidParameter && View() == old(View())
      ensures d != NULL && o != NULL ==> View() == Next(old(View()), Insert(d, name, o))
      ensures d != NULL && o != NULL ==> status == if old(FreeName(View(), d, name)) then Success else NameCollision
    {
      if d == NULL || o == NULL {
        return InvalidParameter;
      }
      SearchMeansFree(View(), d, name);
      var h := FindInDirectory(d, name);
      if h != NULL {
        return NameCollision;
      }
      var header := objects[o];
      objects := objects[o := header.(name := name, parent := d, pointerCount := header.pointerCount + 1)];
      objects := objects[d := objects[d].(entries := objects[d].entries + [o])];
      status := Success;
    }

    /** The length of the segment at the head of p. */
    static method ScanSegment(p: string) returns (n: nat)
      ensures n == SegmentLength(p)
    {
      n := 0;
      while n < |p| && p[n] != '\\'
        invariant n <= |p| && SegmentLength(p) == n + SegmentLength(p[n..])
      {
        n := n + 1;
      }
    }

    /** The loop of ObLookupObjectByName from the root on; p is what is left of the path. */
    method WalkPath(path: string) returns (found: Lookup)
      requires Valid()
      ensures found == LookupFrom(View(), root, path)
      ensures if found.Found? then found.target in objects else found.status != Success
    {
      var d, p := root, path;
      while true
        invariant d in objects && LookupFrom(View(), root, path) == LookupFrom(View(), d, p)
        decreases |p|
      {
        var n := ScanSegment(p);
        if n == 0 {
          return Failed(NameInvalid);
        }
        var h := FindInDirectory(d, p[..n]);
        if h == NULL {
          return Failed(if n < |p| then PathNotFound else NameNotFound);
        }
        FoundLives(View(), d, p[..n]);
        if n == |p| {
          return Found(h);
        }
        if objects[h].kind != DIRECTORY {
          return Failed(PathNotFound);
        }
        d, p := h, p[n + 1..];
      }
    }

    /** ObLookupObjectByName */
    method LookupObjectByName(path: string) returns (status: Status, o: Ref)
      requires Valid()
      modifies this
      ensures View() == Next(old(View()), Look(path))
      ensures old(LookupPath(View(), path)) == if status == Success then Found(o) else Failed(status)
    {
      o := NULL;
      if path == "" || path[0] != '\\' {
        return NameInvalid, o;
      }
      if |path| == 1 {
        o := root;
        ReferenceObject(o);
        return Success, o;
      }
      var found := WalkPath(path[1..]);
      match found
      case Found(h) =>
        o := h;
        ReferenceObject(o);
        status := Success;
      case Failed(reason) =>
        status := reason;
    }

    /** ObCreateDirectory */
    method CreateDirectory(address: Ref, parent: Ref, name: string) returns (status: Status, bugcheck: bool)
      requires Valid() && address !in objects
      requires parent != NULL ==> parent in objects && objects[parent].kind == DIRECTORY
      modifies this
      ensures Valid() && !bugcheck
      ensures address == NULL ==> status == NoMemory && View() == old(View())
      ensures address != NULL ==> View() == DirectoryMade(old(View()), address, parent, name)
      ensures address != NULL ==>
        status == if parent == NULL || old(FreeName(View(), parent, name)) then Success else NameCollision
    {
      bugcheck := false;
      status := CreateObject(address, DIRECTORY);
      if status == Success {
        CreateKeeps(old(View()), address, DIRECTORY);
        if parent != NULL {
          NameStaysFree(old(View()), address, parent, name);
          status, bugcheck := PlaceDirectory(address, parent, name);
        }
      }
    }

    /** The insertion of ObCreateDirectory, undone with the directory when the name is taken. */
    method PlaceDirectory(o: Ref, parent: Ref, name: string) returns (status: Status, bugcheck: bool)
      requires Valid() && parent != NULL && Enabled(View(), Insert(parent, name, o)) && Held(View(), o) > 0
      modifies this
      ensures Valid() && !bugcheck
      ensures View() == Placed(old(View()), o, parent, name)
      ensures status == if old(FreeName(View(), parent, name)) then Success else NameCollision
    {
      bugcheck := false;
      SearchMeansFree(View(), parent, name);
      StepKeeps(View(), Insert(parent, name, o));
      status := InsertObjectByName(parent, name, o);
      if status != Success {
        StepKeeps(View(), Release(o));
        bugcheck := DereferenceObject(o);
      }
    }
  }

  function Placed(s: State, o: Ref, parent: Ref, name: string): State
    requires parent in s.objects && o in s.objects && Held(s, o) > 0
  {
    if FreeName(s, parent, name) then Inserted(s, parent, name, o) else Released(s, o)
  }

  /** What ObCreateDirectory does once it has memory. */
  function DirectoryMade(s: State, o: Ref, parent: Ref, name: string): State
    requires parent == NULL || parent in s.objects
  {
    var c := Created(s, o, DIRECTORY);
    if parent == NULL then c else Placed(c, o, parent, name)
  }

  /** Either an empty directory appears under its parent, or the objects are as before. */
  lemma DirectoryMeaning(s: State, o: Ref, parent: Ref, name: string)
    requires Inv(s) && o != NULL && o !in s.objects
    requires parent != NULL ==> parent in s.objects && s.objects[parent].kind == DIRECTORY
    ensures var r := DirectoryMade(s, o, parent, name);
      if parent == NULL then r.objects == s.objects[o := Fresh(DIRECTORY)]
      else if FreeName(s, parent, name) then
        o in r.objects && r.objects[o].entries == [] && r.objects[o].parent == parent && r.objects[o].name == name
        && r.objects == s.objects[o := r.objects[o]]
                        [parent := s.objects[parent].(entries := s.objects[parent].entries + [o])]
      else r.objects == s.objects
  {
    if parent != NULL {
      NameStaysFree(s, o, parent, name);
    }
  }

  lemma FoundLives(s: State, d: Ref, name: string)
    requires Inv(s) && d in s.objects && FindIn(s, s.objects[d].entries, name) != NULL
    ensures FindIn(s, s.objects[d].entries, name) in s.objects
  {
    assert Lists(s, d);
    var entries := s.objects[d].entries;
    forall k | 0 <= k < |entries| ensures entries[k] in s.objects {
      EntryOf(s, d, entries[k]);
    }
    FindMeaning(s, entries, name);
    EntryOf(s, d, FindIn(s, entries, name));
  }

  lemma NameStaysFree(s: State, o: Ref, d: Ref, name: string)
    requires Inv(s) && d in s.objects && o != NULL && o !in s.objects
    ensures FreeName(Created(s, o, DIRECTORY), d, name) <==> FreeName(s, d, name)
  {
    assert Lists(s, d);
    var entries := s.objects[d].entries;
    forall k | 0 <= k < |entries| ensures SameName(s, Created(s, o, DIRECTORY), entries[k]) {
      EntryOf(s, d, entries[k]);
    }
    assert Created(s, o, DIRECTORY).objects[d].entries == entries;
  }
}
