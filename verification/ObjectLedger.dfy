/** The object manager counted from outside: what each operation adds to and takes from every
    count, what a handle grants, and what a path names. */
module ObjectLedger {
  import opened ObjectManager
  import opened ObjectTable
  import opened Prelude

  function One(b: bool): nat
  {
    if b then 1 else 0
  }

  // ---------------------------------------------------------------- handles

  /** The handle is 4, 8, ... up to 16384, and the slot it stands for names the object. */
  predicate Names(s: State, handle: nat, o: Ref)
    requires |s.handles| == MAX_HANDLES
  {
    handle % 4 == 0 && 4 <= handle <= 16384 && s.handles[handle / 4 - 1].target == o != NULL
  }

  /** The handle can be used so: it names an object of the kind asked for, and grants every
      right or those desired. */
  predicate Usable(s: State, handle: nat, desired: Access, wanted: Option<nat>, o: Ref)
    requires |s.handles| == MAX_HANDLES
  {
    && Names(s, handle, o) && o in s.objects
    && (wanted == None || wanted == Some(s.objects[o].kind))
    && var access := s.handles[handle / 4 - 1].access;
       28 in access || forall right :: right in desired ==> right in access
  }

  lemma ResolveMeaning(s: State, handle: nat, o: Ref)
    requires |s.handles| == MAX_HANDLES && o != NULL
    ensures Resolve(s, handle) == o <==> Names(s, handle, o)
  {
    if handle % 4 == 0 {
      assert handle == 4 * (handle / 4);
    }
  }

  /** A handle can be used exactly when it names an object of the kind asked for and grants
      the rights; then the object is the one it names. */
  lemma UseMeaning(s: State, handle: nat, desired: Access, wanted: Option<nat>, o: Ref)
    requires Inv(s) && o != NULL
    ensures UseStatus(s, handle, desired, wanted) == Success && Resolve(s, handle) == o
       <==> Usable(s, handle, desired, wanted, o)
  {
    ResolveMeaning(s, handle, o);
    if Resolve(s, handle) == o {
      assert Named(s, IndexOf(handle).value);
    }
  }

  /** Opening fills one free slot with the object and its rights, or there is none. */
  lemma OpenMeaning(s: State, o: Ref, access: Access)
    requires Inv(s) && Enabled(s, Open(o, access))
    ensures var r := Next(s, Open(o, access));
      if exists i :: 0 <= i < MAX_HANDLES && s.handles[i].target == NULL
      then exists i :: 0 <= i < MAX_HANDLES && s.handles[i].target == NULL
                       && r.handles == s.handles[i := Slot(o, access)]
      else r == s
  {
    var k := FirstFree(s.handles, 0);
    FirstFreeMeaning(s.handles, 0);
    if k < MAX_HANDLES {
      assert s.handles[k].target == NULL && Next(s, Open(o, access)).handles == s.handles[k := Slot(o, access)];
    }
  }

  lemma {:induction false} FirstFreeMeaning(handles: seq<Slot>, i: nat)
    requires i <= |handles|
    ensures forall j :: i <= j < FirstFree(handles, i) ==> handles[j].target != NULL
    decreases |handles| - i
  {
    if i < |handles| && handles[i].target != NULL {
      FirstFreeMeaning(handles, i + 1);
    }
  }

  // ----------------------------------------------------------- step by step

  /** References to x that an operation hands to its caller. */
  predicate Takes(s: State, a: Action, x: Ref)
    requires Inv(s)
  {
    match a
    case Create(o, _) => x == o
    case Reference(o) => x == o
    case Use(handle, desired, wanted) => Usable(s, handle, desired, wanted, x)
    case Look(path) => LookupPath(s, path) == Found(x)
    case _ => false
  }

  predicate Gives(a: Action, x: Ref)
  {
    a == Release(x)
  }

  predicate Opens(s: State, a: Action, x: Ref)
  {
    a.Open? && a.target == x && exists i :: 0 <= i < |s.handles| && s.handles[i].target == NULL
  }

  predicate Closes(s: State, a: Action, x: Ref)
    requires |s.handles| == MAX_HANDLES
  {
    a.Close? && Names(s, a.handle, x)
  }

  predicate Links(s: State, a: Action, x: Ref)
  {
    a.Insert? && a.target == x && a.directory in s.objects && FreeName(s, a.directory, a.name)
  }

  /** What callers hold changes by what the operation hands out or is given back. */
  lemma HeldStep(s: State, a: Action, x: Ref)
    requires Inv(s) && Enabled(s, a) && x != NULL
    ensures Held(Next(s, a), x) == Held(s, x) + One(Takes(s, a, x)) - One(Gives(a, x))
  {
    match a
    case Use(handle, desired, wanted) =>
      UseMeaning(s, handle, desired, wanted, x);
      if UseStatus(s, handle, desired, wanted) == Success {
        assert Named(s, IndexOf(handle).value);
      }
    case Look(path) => FoundIsLive(s, path);
    case Close(handle) =>
      if Resolve(s, handle) != NULL {
        assert Named(s, IndexOf(handle).value);
      }
    case _ =>
  }

  lemma FoundIsLive(s: State, path: string)
    requires Inv(s)
    ensures LookupPath(s, path).Found? ==> LookupPath(s, path).target in s.objects
  {
    if path != "" && path[0] == '\\' && |path| > 1 {
      FoundBelow(s, s.root, path[1..]);
    }
  }

  lemma {:induction false} FoundBelow(s: State, d: Ref, p: string)
    requires Inv(s) && d in s.objects
    ensures LookupFrom(s, d, p).Found? ==> LookupFrom(s, d, p).target in s.objects
    decreases |p|
  {
    var n := SegmentLength(p);
    if 0 < n < |p| {
      var h := FindIn(s, s.objects[d].entries, p[..n]);
      if h in s.objects {
        FoundBelow(s, h, p[n + 1..]);
      }
    }
  }

  /** The handles that name x change by opening and closing. */
  lemma HandlesStep(s: State, a: Action, x: Ref)
    requires Inv(s) && Enabled(s, a) && x != NULL
    ensures |Next(s, a).handles| == MAX_HANDLES
    ensures HandlesTo(Next(s, a), x) == HandlesTo(s, x) + One(Opens(s, a, x)) - One(Closes(s, a, x))
  {
    match a
    case Open(o, access) =>
      FirstFreeMeaning(s.handles, 0);
      if FirstFree(s.handles, 0) < MAX_HANDLES {
        SlotUpdate(s.handles, x, FirstFree(s.handles, 0), Slot(o, access), MAX_HANDLES);
      }
    case Close(handle) =>
      ResolveMeaning(s, handle, x);
      if Resolve(s, handle) != NULL {
        assert Named(s, IndexOf(handle).value);
        SlotUpdate(s.handles, x, IndexOf(handle).value, Slot(NULL, {}), MAX_HANDLES);
      }
    case Use(handle, desired, wanted) =>
      if UseStatus(s, handle, desired, wanted) == Success {
        assert Named(s, IndexOf(handle).value);
      }
    case _ =>
  }

  /** PointerCount changes by references handed out and given back, handles opened and
      closed, and the insertion. */
  lemma CountStep(s: State, a: Action, x: Ref)
    requires Inv(s) && Enabled(s, a) && x in s.objects && x in Next(s, a).objects
    ensures Next(s, a).objects[x].pointerCount
         == s.objects[x].pointerCount + One(Takes(s, a, x)) - One(Gives(a, x)) + One(Opens(s, a, x))
            - One(Closes(s, a, x)) + One(Links(s, a, x))
    ensures Next(s, a).objects[x].handleCount
         == s.objects[x].handleCount + One(Opens(s, a, x)) - One(Closes(s, a, x))
  {
    StepKeeps(s, a);
    HeldStep(s, a, x);
    HandlesStep(s, a, x);
    assert Balanced(s, x) && Balanced(Next(s, a), x);
    RootAndParent(s, a, x);
  }

  lemma RootAndParent(s: State, a: Action, x: Ref)
    requires Inv(s) && Enabled(s, a) && x in s.objects
    ensures Next(s, a).root == s.root
    ensures x in Next(s, a).objects ==>
      One(Next(s, a).objects[x].parent != NULL) == One(s.objects[x].parent != NULL) + One(Links(s, a, x))
  {
    match a
    case Release(o) => DroppedPlace(s.(held := s.held[o := Held(s, o) - 1]), o, x);
    case Close(handle) =>
      if Resolve(s, handle) != NULL {
        var i := IndexOf(handle).value;
        assert Named(s, i);
        DroppedPlace(Emptied(s, i), s.handles[i].target, x);
      }
    case Insert(d, name, o) => InsertParent(s, d, name, o, x);
    case _ =>
  }

  lemma InsertParent(s: State, d: Ref, name: string, o: Ref, x: Ref)
    requires Inv(s) && Enabled(s, Insert(d, name, o)) && x in s.objects
    ensures x in Next(s, Insert(d, name, o)).objects && Next(s, Insert(d, name, o)).root == s.root
    ensures One(Next(s, Insert(d, name, o)).objects[x].parent != NULL)
         == One(s.objects[x].parent != NULL) + One(Links(s, Insert(d, name, o), x))
  {
    SearchMeansFree(s, d, name);
  }

  /** A created object is live, of its kind, unnamed, and its creator's alone. */
  lemma CreateMeaning(s: State, o: Ref, kind: nat)
    requires Inv(s) && Enabled(s, Create(o, kind))
    ensures var r := Next(s, Create(o, kind));
      && o in r.objects && r.objects[o].kind == kind && r.objects[o].parent == NULL && r.objects[o].entries == []
      && r.objects[o].pointerCount == 1 && r.objects[o].handleCount == 0 && Held(r, o) == 1
      && forall x :: x in s.objects ==> x in r.objects && r.objects[x] == s.objects[x]
  {
    CreateKeeps(s, o, kind);
  }

  // ------------------------------------------------------------------ paths

  /** The directory has an entry of that name. */
  predicate HasEntry(s: State, d: Ref, name: string, e: Ref)
  {
    d in s.objects && e in s.objects[d].entries && e in s.objects && s.objects[e].name == name
  }

  /** Following the names from d, through directories, leads to o. */
  ghost predicate LeadsTo(s: State, d: Ref, segments: seq<string>, o: Ref)
    decreases |segments|
  {
    if segments == [] then o == d
    else exists e :: HasEntry(s, d, segments[0], e) && (|segments| > 1 ==> s.objects[e].kind == DIRECTORY)
                     && LeadsTo(s, e, segments[1..], o)
  }

  /** The names with a backslash between each two. */
  function Joined(segments: seq<string>): string
  {
    if segments == [] then ""
    else if |segments| == 1 then segments[0]
    else segments[0] + "\\" + Joined(segments[1..])
  }

  predicate AllNames(segments: seq<string>)
  {
    forall i :: 0 <= i < |segments| ==> SegmentName(segments[i])
  }

  /** All names but the last lead to a directory, which has no entry of the last name. */
  ghost predicate MissesLast(s: State, d: Ref, segments: seq<string>)
    decreases |segments|
  {
    segments != [] &&
    if |segments| == 1 then !exists e :: HasEntry(s, d, segments[0], e)
    else exists e :: HasEntry(s, d, segments[0], e) && s.objects[e].kind == DIRECTORY
                     && MissesLast(s, e, segments[1..])
  }

  /** An insertion adds one entry, if the directory has none of that name, and removes none. */
  lemma InsertMeaning(s: State, d: Ref, name: string, o: Ref, x: Ref, q: string, e: Ref)
    requires Inv(s) && Enabled(s, Insert(d, name, o))
    ensures HasEntry(Next(s, Insert(d, name, o)), x, q, e)
       <==> HasEntry(s, x, q, e) || (x == d && q == name && e == o && !exists f :: HasEntry(s, d, name, f))
  {
    var r := Next(s, Insert(d, name, o));
    var h := FindIn(s, s.objects[d].entries, name);
    SearchMeansFree(s, d, name);
    EntryFound(s, d, name);
    assert h != NULL ==> HasEntry(s, d, name, h);
    if x in s.objects {
      assert Lists(s, x);
      if e in s.objects[x].entries {
        EntryOf(s, x, e);
        assert s.objects[e].parent == x && e != o;
      }
    }
  }

  /** A path finds an object exactly when its names lead to it from the root; it fails for
      want of the last name exactly when only that is missing, and otherwise of the path. */
  lemma PathMeaning(s: State, segments: seq<string>, o: Ref)
    requires Inv(s) && AllNames(segments)
    ensures LookupPath(s, "\\" + Joined(segments)) == Found(o) <==> LeadsTo(s, s.root, segments, o)
    ensures LookupPath(s, "\\" + Joined(segments)) == Failed(NameNotFound) <==> MissesLast(s, s.root, segments)
    ensures LookupPath(s, "\\" + Joined(segments)).Failed? && !MissesLast(s, s.root, segments) ==>
      LookupPath(s, "\\" + Joined(segments)) == Failed(PathNotFound)
  {
    if segments != [] {
      JoinedNonempty(segments);
      assert ("\\" + Joined(segments))[1..] == Joined(segments);
      PathBelow(s, s.root, segments, o);
    }
  }

  lemma JoinedNonempty(segments: seq<string>)
    requires AllNames(segments) && segments != []
    ensures Joined(segments) != ""
  {
    assert SegmentName(segments[0]);
  }

  lemma {:induction false} PathBelow(s: State, d: Ref, segments: seq<string>, o: Ref)
    requires Inv(s) && d in s.objects && AllNames(segments) && segments != []
    ensures LookupFrom(s, d, Joined(segments)) == Found(o) <==> LeadsTo(s, d, segments, o)
    ensures LookupFrom(s, d, Joined(segments)) == Failed(NameNotFound) <==> MissesLast(s, d, segments)
    ensures LookupFrom(s, d, Joined(segments)).Failed? && !MissesLast(s, d, segments) ==>
      LookupFrom(s, d, Joined(segments)) == Failed(PathNotFound)
    decreases |segments|
  {
    var p, name := Joined(segments), segments[0];
    assert SegmentName(name);
    EntryFound(s, d, name);
    var h := FindIn(s, s.objects[d].entries, name);
    assert h != NULL ==> HasEntry(s, d, name, h);
    if |segments| == 1 {
      SegmentOf(name, "");
      assert p[..|name|] == name;
      assert LeadsTo(s, h, segments[1..], o) <==> o == h;
    } else {
      var rest := Joined(segments[1..]);
      SegmentOf(name, rest);
      assert p == name + "\\" + rest && p[..|name|] == name && p[|name| + 1..] == rest;
      if h in s.objects {
        PathBelow(s, h, segments[1..], o);
      }
    }
  }

  lemma OneOfName(s: State, d: Ref, name: string, e: Ref, f: Ref)
    requires Inv(s) && d in s.objects
    ensures HasEntry(s, d, name, e) && HasEntry(s, d, name, f) ==> e == f
  {
    if HasEntry(s, d, name, e) && HasEntry(s, d, name, f) {
      var entries := s.objects[d].entries;
      var i :| 0 <= i < |entries| && entries[i] == e;
      var j :| 0 <= j < |entries| && entries[j] == f;
      assert Lists(s, d);
    }
  }

  /** The search finds the one entry of that name. */
  lemma EntryFound(s: State, d: Ref, name: string)
    requires Inv(s) && d in s.objects
    ensures var h := FindIn(s, s.objects[d].entries, name);
      (h != NULL ==> h in s.objects) && forall e :: HasEntry(s, d, name, e) <==> e == h && h != NULL
  {
    var entries := s.objects[d].entries;
    assert Lists(s, d);
    forall k | 0 <= k < |entries| ensures entries[k] in s.objects {
      EntryOf(s, d, entries[k]);
    }
    FindMeaning(s, entries, name);
    var h := FindIn(s, entries, name);
    forall e ensures HasEntry(s, d, name, e) <==> e == h && h != NULL {
      OneOfName(s, d, name, e, h);
    }
  }
}
