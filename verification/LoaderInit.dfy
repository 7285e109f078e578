/** Initialization order of kernel/ldr/pe.c: the depth-first walk over the import graph, which
    may have cycles, and the table that records its edges. */
module LoaderInit {
  import opened Prelude

  const MAX_LOADED_MODULES := 64

  /** A slot of the loaded-module table. entryPoint is zero when the image has no valid
      headers or no entry point. */
  datatype Module = Module(valid: bool, base: nat, entryPoint: nat, dependencies: set<nat>)

  datatype Entry = Entry(moduleBase: nat, entryPoint: nat)

  datatype Color = White | Gray | Black

  type Graph = g: seq<Module> | |g| == MAX_LOADED_MODULES witness EmptyTable()

  function EmptyTable(): seq<Module>
  {
    seq(MAX_LOADED_MODULES, i => Module(false, 0, 0, {}))
  }

  predicate Valid(g: Graph, u: int)
  {
    0 <= u < MAX_LOADED_MODULES && g[u].valid
  }

  predicate Edge(g: Graph, u: int, v: int)
  {
    Valid(g, u) && Valid(g, v) && v in g[u].dependencies
  }

  ghost predicate Path(g: Graph, p: seq<int>)
  {
    p != [] && forall k, l :: 0 <= k && l == k + 1 && l < |p| ==> Edge(g, p[k], p[l])
  }

  ghost predicate PathBetween(g: Graph, p: seq<int>, u: int, v: int)
  {
    Path(g, p) && p[0] == u && p[|p| - 1] == v
  }

  /** u imports v, directly or through others; every module reaches itself. */
  ghost predicate Reaches(g: Graph, u: int, v: int)
  {
    exists p :: PathBetween(g, p, u, v)
  }

  lemma ReachesSelf(g: Graph, u: int)
    ensures Reaches(g, u, u)
  {
    assert PathBetween(g, [u], u, u);
  }

  lemma ReachesEdge(g: Graph, u: int, v: int, w: int)
    requires Reaches(g, u, v) && Edge(g, v, w)
    ensures Reaches(g, u, w)
  {
    var p :| PathBetween(g, p, u, v);
    assert PathBetween(g, p + [w], u, w);
  }

  // ------------------------------------------------------ recording edges

  /** The first valid module loaded at an address. */
  predicate FirstAt(g: Graph, base: nat, i: int)
  {
    Valid(g, i) && g[i].base == base && forall j :: 0 <= j < i ==> !(g[j].valid && g[j].base == base)
  }

  class ModuleTable {
    var loaded: seq<Module>

    predicate Sized()
      reads this
    {
      |loaded| == MAX_LOADED_MODULES
    }

    /** module_index_by_base */
    method IndexByBase(base: nat) returns (i: int)
      requires Sized()
      ensures i == -1 || FirstAt(loaded, base, i)
      ensures i == -1 ==> forall j :: 0 <= j < MAX_LOADED_MODULES ==> !(loaded[j].valid && loaded[j].base == base)
    {
      i := 0;
      while i < MAX_LOADED_MODULES
        invariant 0 <= i <= MAX_LOADED_MODULES
        invariant forall j :: 0 <= j < i ==> !(loaded[j].valid && loaded[j].base == base)
      {
        if loaded[i].valid && loaded[i].base == base {
          return;
        }
        i := i + 1;
      }
      i := -1;
    }

    /** remember_dependency: exactly one edge is added, between the first modules at the two
        addresses, and nothing else changes. */
    method RememberDependency(importer: nat, dependency: nat)
      requires Sized()
      modifies this
      ensures Sized()
      ensures forall u, v :: Edge(loaded, u, v) <==> (Edge(old(loaded), u, v)
        || (importer != 0 && dependency != 0 && importer != dependency
            && FirstAt(old(loaded), importer, u) && FirstAt(old(loaded), dependency, v)))
      ensures forall u :: 0 <= u < MAX_LOADED_MODULES ==>
        loaded[u] == old(loaded)[u].(dependencies := loaded[u].dependencies)
    {
      if importer == 0 || dependency == 0 || importer == dependency {
        return;
      }
      var from := IndexByBase(importer);
      var to := IndexByBase(dependency);
      if from >= 0 && to >= 0 {
        loaded := loaded[from := loaded[from].(dependencies := loaded[from].dependencies + {to})];
      }
    }
  }

  // ------------------------------------------------------------ the walk

  /** The colors of the walk, and the modules in the order they were finished. */
  datatype Progress = Progress(color: seq<Color>, order: seq<int>)

  function Whites(color: seq<Color>): set<int>
  {
    set k | 0 <= k < |color| && color[k] == White
  }

  /** LdrpAppendInitDfs on colors and order. */
  function Visited(g: Graph, s: Progress, u: int): (r: Progress)
    requires |s.color| == MAX_LOADED_MODULES
    ensures |r.color| == MAX_LOADED_MODULES && Whites(r.color) <= Whites(s.color)
    decreases Whites(s.color), 0
  {
    if !Valid(g, u) || s.color[u] != White then s
    else
      assert u in Whites(s.color) && u !in Whites(s.color[u := Gray]);
      var t := ImportsVisited(g, Progress(s.color[u := Gray], s.order), u, 0);
      Progress(t.color[u := Black], t.order + [u])
  }

  /** Its loop over the imports of u, from slot i on. */
  function ImportsVisited(g: Graph, s: Progress, u: int, i: nat): (r: Progress)
    requires |s.color| == MAX_LOADED_MODULES && Valid(g, u) && i <= MAX_LOADED_MODULES
    ensures |r.color| == MAX_LOADED_MODULES && Whites(r.color) <= Whites(s.color)
    decreases Whites(s.color), MAX_LOADED_MODULES - i + 1
  {
    if i == MAX_LOADED_MODULES then s
    else ImportsVisited(g, if i in g[u].dependencies then Visited(g, s, i) else s, u, i + 1)
  }

  /** The driver loop of LdrpBuildInitBlock from slot i on. */
  function Driven(g: Graph, s: Progress, i: nat): (r: Progress)
    requires |s.color| == MAX_LOADED_MODULES && i <= MAX_LOADED_MODULES
    ensures |r.color| == MAX_LOADED_MODULES
    decreases |s.color| - i
  {
    if i == MAX_LOADED_MODULES then s else Driven(g, Visited(g, s, i), i + 1)
  }

  function Untouched(): Progress
  {
    Progress(seq(MAX_LOADED_MODULES, _ => White), [])
  }

  /** The order in which the code finishes the modules of a graph. */
  function FinishOrder(g: Graph): seq<int>
  {
    Driven(g, Visited(g, Untouched(), 0), 1).order
  }

  /** Between visits: `order` lists the finished modules. Every import of a finished module
      was finished before it or leads back to it, and was visited. */
  ghost predicate Walk(g: Graph, color: seq<Color>, order: seq<int>)
  {
    && |color| == MAX_LOADED_MODULES
    && (forall u :: u in order <==> 0 <= u < MAX_LOADED_MODULES && color[u] == Black)
    && (forall u :: 0 <= u < MAX_LOADED_MODULES && color[u] != White ==> g[u].valid)
    && NoDup(order)
    && (forall u, v :: Edge(g, u, v) && color[u] == Black ==> color[v] != White)
    && (forall p :: 0 <= p < |order| ==> Settled(g, order, p) && AllSettled(g, order, p))
  }

  /** Two modules import each other, directly or through others. */
  ghost predicate InCycle(g: Graph, u: int, x: int)
  {
    Reaches(g, u, x) && Reaches(g, x, u)
  }

  /** Everything the module reaches was finished by then, unless a module of its cycle was
      not. */
  ghost predicate AllSettled(g: Graph, order: seq<int>, p: nat)
    requires p < |order|
  {
    forall v :: Reaches(g, order[p], v) ==> v in order[..p + 1] || OpenCycle(g, order[..p + 1], order[p])
  }

  ghost predicate OpenCycle(g: Graph, done: seq<int>, u: int)
  {
    exists x :: x !in done && InCycle(g, u, x)
  }

  ghost predicate Settled(g: Graph, order: seq<int>, p: nat)
    requires p < |order|
  {
    forall v :: Edge(g, order[p], v) ==> v in order[..p] || Reaches(g, v, order[p])
  }

  /** The modules whose visit is under way all lead to `u`. */
  ghost predicate GraysReach(g: Graph, color: seq<Color>, u: int)
    requires |color| == MAX_LOADED_MODULES
  {
    forall w :: 0 <= w < MAX_LOADED_MODULES && color[w] == Gray ==> Reaches(g, w, u)
  }

  /** A visit only turns white modules black. */
  predicate OnlyFinishes(before: seq<Color>, after: seq<Color>)
  {
    |before| == |after| && forall k :: 0 <= k < |before| ==>
      after[k] == before[k] || (before[k] == White && after[k] == Black)
  }

  /** The module is called at process start. */
  predicate Called(g: Graph, u: int)
  {
    Valid(g, u) && u != 0 && g[u].entryPoint != 0
  }

  function EntryOf(g: Graph, u: int): Entry
    requires Valid(g, u)
  {
    Entry(g[u].base, g[u].base + g[u].entryPoint)
  }

  /** The called modules of an order, in that order. */
  function CalledOf(g: Graph, order: seq<int>): seq<int>
  {
    if order == [] then []
    else
      var rest, last := order[..|order| - 1], order[|order| - 1];
      CalledOf(g, rest) + if Called(g, last) then [last] else []
  }

  lemma {:induction false} CalledMembers(g: Graph, order: seq<int>, u: int)
    ensures u in CalledOf(g, order) <==> u in order && Called(g, u)
  {
    if order != [] {
      CalledMembers(g, order[..|order| - 1], u);
      assert order == order[..|order| - 1] + [order[|order| - 1]];
    }
  }

  lemma {:induction false} CalledNoDup(g: Graph, order: seq<int>)
    requires NoDup(order)
    ensures NoDup(CalledOf(g, order))
  {
    if order != [] {
      var rest, last := order[..|order| - 1], order[|order| - 1];
      CalledNoDup(g, rest);
      CalledMembers(g, rest, last);
    }
  }

  /** v comes before u. */
  predicate Before(s: seq<int>, v: int, u: int)
  {
    exists j, k :: 0 <= j < k < |s| && s[j] == v && s[k] == u
  }

  lemma {:induction false} CalledKeepsOrder(g: Graph, order: seq<int>, v: int, u: int)
    requires Before(order, v, u) && Called(g, v) && Called(g, u)
    ensures Before(CalledOf(g, order), v, u)
  {
    var j, k :| 0 <= j < k < |order| && order[j] == v && order[k] == u;
    var rest, last := order[..|order| - 1], order[|order| - 1];
    var c := CalledOf(g, rest);
    if k == |order| - 1 {
      assert v == rest[j];
      CalledMembers(g, rest, v);
      var m :| 0 <= m < |c| && c[m] == v;
      assert CalledOf(g, order)[m] == v && CalledOf(g, order)[|c|] == u;
    } else {
      assert rest[j] == v && rest[k] == u;
      CalledKeepsOrder(g, rest, v, u);
      var a, b :| 0 <= a < b < |c| && c[a] == v && c[b] == u;
      assert CalledOf(g, order)[a] == v && CalledOf(g, order)[b] == u;
    }
  }

  /** The integers from lo up to hi. */
  function Range(lo: int, hi: int): (r: set<int>)
    requires lo <= hi
    ensures |r| == hi - lo && forall x :: x in r <==> lo <= x < hi
    decreases hi - lo
  {
    if lo == hi then {} else Range(lo, hi - 1) + {hi - 1}
  }

  lemma CalledBelow(g: Graph, order: seq<int>, n: nat)
    requires NoDup(order) && n == MAX_LOADED_MODULES
    ensures |CalledOf(g, order)| <= n - 1
  {
    CalledNoDup(g, order);
    forall i | 0 <= i < |CalledOf(g, order)| ensures CalledOf(g, order)[i] in Range(1, n) {
      CalledMembers(g, order, CalledOf(g, order)[i]);
    }
    NoDupFits(CalledOf(g, order), Range(1, n));
  }

  /** At most 63 modules are called: the block of 64 entries never fills up. */
  lemma CalledFits(g: Graph, order: seq<int>)
    requires NoDup(order)
    ensures |CalledOf(g, order)| < MAX_LOADED_MODULES
  {
    CalledBelow(g, order, MAX_LOADED_MODULES);
  }

  /** Following imports from u while u is being finished leads to finished modules, or to one
      still being visited, which leads back to u. */
  lemma {:induction false} PathSettled(g: Graph, color: seq<Color>, order: seq<int>, u: int, path: seq<int>, v: int)
    requires Walk(g, color, order) && 0 <= u < MAX_LOADED_MODULES && color[u] == Gray
    requires GraysReach(g, color, u) && (forall w :: Edge(g, u, w) ==> color[w] != White)
    requires PathBetween(g, path, u, v)
    ensures v in order + [u] || OpenCycle(g, order + [u], u)
    decreases |path|
  {
    if |path| > 1 {
      var n := |path| - 1;
      var w := path[n - 1];
      assert PathBetween(g, path[..n], u, w);
      PathSettled(g, color, order, u, path[..n], w);
      if w in order + [u] && v !in order + [u] {
        assert Edge(g, w, v) && color[v] == Gray;
        assert InCycle(g, u, v);
      }
    }
  }

  /** Finishing u keeps the walk, once none of its imports is white. */
  lemma FinishKeeps(g: Graph, color: seq<Color>, order: seq<int>, u: int)
    requires Walk(g, color, order) && 0 <= u < MAX_LOADED_MODULES && color[u] == Gray
    requires GraysReach(g, color, u)
    requires forall v :: Edge(g, u, v) ==> color[v] != White
    ensures Walk(g, color[u := Black], order + [u])
  {
    var after := order + [u];
    assert u !in order;
    forall p | 0 <= p < |after| ensures Settled(g, after, p) && AllSettled(g, after, p) {
      if p < |order| {
        assert Settled(g, order, p) && after[..p] == order[..p];
        assert AllSettled(g, order, p) && after[..p + 1] == order[..p + 1];
      } else {
        assert after[..p] == order && after[..p + 1] == after;
        forall v | Reaches(g, u, v) ensures v in after || OpenCycle(g, after, u) {
          var path :| PathBetween(g, path, u, v);
          PathSettled(g, color, order, u, path, v);
        }
      }
    }
  }

  /** A visit keeps the walk, turns only white modules black, and leaves its module visited. */
  lemma {:induction false} VisitKeeps(g: Graph, s: Progress, u: int)
    requires Walk(g, s.color, s.order) && (Valid(g, u) ==> GraysReach(g, s.color, u))
    ensures var r := Visited(g, s, u); Walk(g, r.color, r.order) && OnlyFinishes(s.color, r.color)
    ensures Valid(g, u) ==> Visited(g, s, u).color[u] != White
    decreases Whites(s.color), 0
  {
    if Valid(g, u) && s.color[u] == White {
      var t := Progress(s.color[u := Gray], s.order);
      ReachesSelf(g, u);
      assert u in Whites(s.color) && u !in Whites(t.color);
      ImportsKeep(g, t, u, 0);
      var r := ImportsVisited(g, t, u, 0);
      FinishKeeps(g, r.color, r.order, u);
    }
  }

  lemma {:induction false} ImportsKeep(g: Graph, s: Progress, u: int, i: nat)
    requires Walk(g, s.color, s.order) && Valid(g, u) && s.color[u] == Gray && i <= MAX_LOADED_MODULES
    requires GraysReach(g, s.color, u) && forall v :: 0 <= v < i && Edge(g, u, v) ==> s.color[v] != White
    ensures var r := ImportsVisited(g, s, u, i);
      && Walk(g, r.color, r.order) && OnlyFinishes(s.color, r.color) && GraysReach(g, r.color, u)
      && (forall v :: Edge(g, u, v) ==> r.color[v] != White)
    decreases Whites(s.color), MAX_LOADED_MODULES - i + 1
  {
    if i < MAX_LOADED_MODULES {
      var t := s;
      if i in g[u].dependencies {
        if Valid(g, i) {
          forall w | 0 <= w < MAX_LOADED_MODULES && s.color[w] == Gray ensures Reaches(g, w, i) {
            ReachesEdge(g, w, u, i);
          }
        }
        VisitKeeps(g, s, i);
        t := Visited(g, s, i);
      }
      assert t.color[u] == Gray;
      ImportsKeep(g, t, u, i + 1);
    }
  }

  /** Visiting one import of u: the modules under way lead to it, and stay under way. */
  lemma ImportStep(g: Graph, s: Progress, u: int, i: nat)
    requires Walk(g, s.color, s.order) && Valid(g, u) && s.color[u] == Gray && i < MAX_LOADED_MODULES
    requires GraysReach(g, s.color, u) && i in g[u].dependencies
    ensures Valid(g, i) ==> GraysReach(g, s.color, i)
    ensures var t := Visited(g, s, i); t.color[u] == Gray && GraysReach(g, t.color, u)
  {
    if Valid(g, i) {
      forall w | 0 <= w < MAX_LOADED_MODULES && s.color[w] == Gray ensures Reaches(g, w, i) {
        ReachesEdge(g, w, u, i);
      }
    }
    VisitKeeps(g, s, i);
  }

  predicate NoneUnderWay(color: seq<Color>)
  {
    forall k :: 0 <= k < |color| ==> color[k] != Gray
  }

  /** One round of the driver, from a state with nothing under way. */
  lemma DriveOne(g: Graph, s: Progress, i: nat)
    requires Walk(g, s.color, s.order) && i < MAX_LOADED_MODULES && NoneUnderWay(s.color)
    ensures NoneUnderWay(Visited(g, s, i).color) && GraysReach(g, s.color, i)
    ensures Driven(g, s, i) == Driven(g, Visited(g, s, i), i + 1)
    ensures !(Valid(g, i) && s.color[i] == White) ==> Visited(g, s, i) == s
  {
    VisitKeeps(g, s, i);
  }

  /** The driver visits every valid module and leaves none under way. */
  lemma {:induction false} DriveKeeps(g: Graph, s: Progress, i: nat)
    requires Walk(g, s.color, s.order) && i <= MAX_LOADED_MODULES
    requires forall k :: 0 <= k < MAX_LOADED_MODULES ==> s.color[k] != Gray
    requires forall k :: 0 <= k < i && Valid(g, k) ==> s.color[k] == Black
    ensures var r := Driven(g, s, i); Walk(g, r.color, r.order) && forall k :: Valid(g, k) ==> r.color[k] == Black
    decreases MAX_LOADED_MODULES - i
  {
    if i < MAX_LOADED_MODULES {
      VisitKeeps(g, s, i);
      DriveKeeps(g, Visited(g, s, i), i + 1);
    }
  }

  /** The finishing order is a finished walk over all modules. */
  lemma FinishOrderWalk(g: Graph) returns (color: seq<Color>)
    ensures Walk(g, color, FinishOrder(g)) && forall k :: Valid(g, k) ==> color[k] == Black
  {
    var start := Untouched();
    VisitKeeps(g, start, 0);
    DriveKeeps(g, Visited(g, start, 0), 1);
    color := Driven(g, Visited(g, start, 0), 1).color;
  }

  /** Dependency-first order of the called modules. */
  ghost predicate DependencyFirst(g: Graph, called: seq<int>)
  {
    forall u, v :: Edge(g, u, v) && Called(g, u) && Called(g, v) && !Reaches(g, v, u) ==> Before(called, v, u)
  }

  /** Imports through others come first too, for a module that is in no cycle. */
  ghost predicate TransitivelyFirst(g: Graph, called: seq<int>)
  {
    forall u, v :: Reaches(g, u, v) && u != v && Called(g, u) && Called(g, v) && Alone(g, u) ==> Before(called, v, u)
  }

  ghost predicate Alone(g: Graph, u: int)
  {
    forall x :: InCycle(g, u, x) ==> x == u
  }

  /** What the loader owes the process: every called module once, nothing else, imports
      first. */
  ghost predicate InitOrder(g: Graph, called: seq<int>)
  {
    (forall u :: u in called <==> Called(g, u)) && NoDup(called)
    && DependencyFirst(g, called) && TransitivelyFirst(g, called)
  }

  /** Every module that module order[p] reaches, other than itself, comes before it. */
  ghost predicate AllImportsFirst(g: Graph, order: seq<int>, p: nat)
    requires p < |order|
  {
    forall v :: Reaches(g, order[p], v) && v != order[p] ==> v in order[..p]
  }

  /** No module of its cycle comes after it. */
  ghost predicate LastOfCycle(g: Graph, order: seq<int>, p: nat)
    requires p < |order|
  {
    forall x :: InCycle(g, order[p], x) ==> x in order[..p + 1]
  }

  /** The transitive order holds for a module exactly when it is the last of its cycle. */
  lemma TransitiveExactly(g: Graph, p: nat)
    requires p < |FinishOrder(g)|
    ensures AllImportsFirst(g, FinishOrder(g), p) <==> LastOfCycle(g, FinishOrder(g), p)
  {
    var order := FinishOrder(g);
    var color := FinishOrderWalk(g);
    assert AllSettled(g, order, p) && order[..p + 1] == order[..p] + [order[p]];
  }

  /** All modules have all their transitive imports before them exactly when no two modules
      import each other, directly or through others. */
  lemma TransitiveOrderExactly(g: Graph)
    ensures (forall p: nat :: p < |FinishOrder(g)| ==> AllImportsFirst(g, FinishOrder(g), p))
       <==> (forall u :: Valid(g, u) ==> Alone(g, u))
  {
    var order := FinishOrder(g);
    var color := FinishOrderWalk(g);
    if forall u :: Valid(g, u) ==> Alone(g, u) {
      forall p: nat | p < |order| ensures AllImportsFirst(g, order, p) {
        assert order[p] in order && Valid(g, order[p]);
        assert order[..p + 1][p] == order[p];
        assert LastOfCycle(g, order, p);
        TransitiveExactly(g, p);
      }
    }
    if forall p: nat :: p < |order| ==> AllImportsFirst(g, order, p) {
      forall u, x | Valid(g, u) && InCycle(g, u, x) ensures x == u {
        ReachedFirst(g, u, x);
        ReachedFirst(g, x, u);
        BeforeOnce(order, u, x);
      }
    }
  }

  lemma ReachedFirst(g: Graph, u: int, x: int)
    ensures (forall p: nat :: p < |FinishOrder(g)| ==> AllImportsFirst(g, FinishOrder(g), p)) ==>
      (u in FinishOrder(g) && Reaches(g, u, x) && x != u ==> Before(FinishOrder(g), x, u) && x in FinishOrder(g))
  {
    var order := FinishOrder(g);
    if u in order && Reaches(g, u, x) && x != u {
      var p :| 0 <= p < |order| && order[p] == u;
      if AllImportsFirst(g, order, p) {
        var j :| 0 <= j < p && order[..p][j] == x;
        assert order[j] == x && order[p] == u;
      }
    }
  }

  lemma BeforeOnce(order: seq<int>, u: int, v: int)
    requires NoDup(order)
    ensures !(Before(order, u, v) && Before(order, v, u))
  {
  }

  /** Every module that module order[p] reaches and that does not lead back to it comes
      before it. */
  ghost predicate OneWayImportsFirst(g: Graph, order: seq<int>, p: nat)
    requires p < |order|
  {
    forall v :: Reaches(g, order[p], v) && !Reaches(g, v, order[p]) ==> v in order[..p]
  }

  /** That holds for a module of no cycle, and for one all of whose imports lead back. */
  lemma OneWayFirst(g: Graph, p: nat)
    requires p < |FinishOrder(g)|
    requires Alone(g, FinishOrder(g)[p])
             || forall v :: Reaches(g, FinishOrder(g)[p], v) ==> Reaches(g, v, FinishOrder(g)[p])
    ensures OneWayImportsFirst(g, FinishOrder(g), p)
  {
    var order := FinishOrder(g);
    if Alone(g, order[p]) {
      assert order[..p + 1][p] == order[p];
      assert LastOfCycle(g, order, p);
      TransitiveExactly(g, p);
    }
  }

  /** A finished walk over all modules: every called module appears once, nothing else
      appears, and imports come first except around a cycle. */
  lemma WalkMeaning(g: Graph, color: seq<Color>, order: seq<int>)
    requires Walk(g, color, order)
    requires forall u :: Valid(g, u) ==> color[u] == Black
    ensures InitOrder(g, CalledOf(g, order))
  {
    forall u ensures u in CalledOf(g, order) <==> Called(g, u) {
      CalledMembers(g, order, u);
    }
    CalledNoDup(g, order);
    forall u, v | Edge(g, u, v) && Called(g, u) && Called(g, v) && !Reaches(g, v, u)
      ensures Before(CalledOf(g, order), v, u)
    {
      var p :| 0 <= p < |order| && order[p] == u;
      assert Settled(g, order, p);
      var j :| 0 <= j < p && order[..p][j] == v;
      assert order[j] == v;
      CalledKeepsOrder(g, order, v, u);
    }
    forall u, v | Reaches(g, u, v) && u != v && Called(g, u) && Called(g, v) && Alone(g, u)
      ensures Before(CalledOf(g, order), v, u)
    {
      var p :| 0 <= p < |order| && order[p] == u;
      assert AllSettled(g, order, p) && u in order[..p + 1];
      var j :| 0 <= j < p + 1 && order[..p + 1][j] == v;
      assert order[j] == v && order[p] == u;
      CalledKeepsOrder(g, order, v, u);
    }
  }

  /** What the code calls, in its order, is what the loader owes. */
  lemma CodeOrder(g: Graph)
    ensures InitOrder(g, CalledOf(g, FinishOrder(g)))
  {
    var color := FinishOrderWalk(g);
    WalkMeaning(g, color, FinishOrder(g));
  }

  /** The entry holds the module's load address and the address of its entry point. */
  predicate EntryFor(g: Graph, u: int, e: Entry)
  {
    0 <= u < MAX_LOADED_MODULES && e.moduleBase == g[u].base && e.entryPoint == g[u].base + g[u].entryPoint
  }

  /** The modules called are those in slots 1 to 63 that are loaded and have an entry point. */
  lemma CalledExactly(g: Graph, u: int)
    ensures u in CalledOf(g, FinishOrder(g)) <==> 1 <= u <= 63 && g[u].valid && g[u].entryPoint != 0
  {
    CodeOrder(g);
  }

  // ------------------------------------------- where the order falls short

  /** 0 imports 1, 1 imports 2 and 3, and 2 imports 1 back. */
  function CyclicTable(): (g: Graph)
  {
    EmptyTable()[0 := Module(true, 1, 1, {1})][1 := Module(true, 2, 1, {2, 3})]
                [2 := Module(true, 3, 1, {1})][3 := Module(true, 4, 1, {})]
  }

  lemma {:induction false} SkipImports(g: Graph, s: Progress, u: int, i: nat, j: nat)
    requires |s.color| == MAX_LOADED_MODULES && Valid(g, u) && i <= j <= MAX_LOADED_MODULES
    requires forall k :: i <= k < j ==> k !in g[u].dependencies
    ensures ImportsVisited(g, s, u, i) == ImportsVisited(g, s, u, j)
    decreases j - i
  {
    if i < j {
      SkipImports(g, s, u, i + 1, j);
    }
  }

  lemma {:induction false} NothingLeft(g: Graph, s: Progress, i: nat)
    requires |s.color| == MAX_LOADED_MODULES && i <= MAX_LOADED_MODULES
    requires forall k :: Valid(g, k) ==> s.color[k] != White
    ensures Driven(g, s, i) == s
    decreases MAX_LOADED_MODULES - i
  {
    if i < MAX_LOADED_MODULES {
      NothingLeft(g, s, i + 1);
    }
  }

  /** A module without imports finishes at once. */
  lemma LeafVisited(g: Graph, s: Progress, u: int)
    requires |s.color| == MAX_LOADED_MODULES && Valid(g, u) && s.color[u] == White && g[u].dependencies == {}
    ensures Visited(g, s, u) == Progress(s.color[u := Black], s.order + [u])
  {
    SkipImports(g, Progress(s.color[u := Gray], s.order), u, 0, MAX_LOADED_MODULES);
    assert s.color[u := Gray][u := Black] == s.color[u := Black];
  }

  /** A module whose one import is visited already finishes at once. */
  lemma BackEdgeVisited(g: Graph, s: Progress, u: int, v: nat)
    requires |s.color| == MAX_LOADED_MODULES && Valid(g, u) && s.color[u] == White && g[u].dependencies == {v}
    requires v < MAX_LOADED_MODULES && s.color[v] != White && v != u
    ensures Visited(g, s, u) == Progress(s.color[u := Black], s.order + [u])
  {
    var t := Progress(s.color[u := Gray], s.order);
    SkipImports(g, t, u, 0, v);
    assert Visited(g, t, v) == t;
    SkipImports(g, t, u, v + 1, MAX_LOADED_MODULES);
    assert s.color[u := Gray][u := Black] == s.color[u := Black];
  }

  /** The visit of 1, entered from 0: 2 finishes, then 3, then 1. */
  lemma VisitOfOne(g: Graph, s: Progress)
    requires g == CyclicTable() && |s.color| == MAX_LOADED_MODULES && s.color[1] == s.color[2] == s.color[3] == White
    ensures Visited(g, s, 1) == Progress(s.color[1 := Black][2 := Black][3 := Black], s.order + [2, 3, 1])
  {
    var t := Progress(s.color[1 := Gray], s.order);
    SkipImports(g, t, 1, 0, 2);
    BackEdgeVisited(g, t, 2, 1);
    var t2 := Progress(t.color[2 := Black], t.order + [2]);
    LeafVisited(g, t2, 3);
    var t3 := Progress(t2.color[3 := Black], t2.order + [3]);
    assert ImportsVisited(g, t, 1, 2) == ImportsVisited(g, t2, 1, 3) == ImportsVisited(g, t3, 1, 4);
    SkipImports(g, t3, 1, 4, MAX_LOADED_MODULES);
    assert t3.color[1 := Black] == s.color[1 := Black][2 := Black][3 := Black];
    assert t3.order + [1] == s.order + [2, 3, 1];
  }

  lemma CyclicOrder()
    ensures FinishOrder(CyclicTable()) == [2, 3, 1, 0]
  {
    var g, s := CyclicTable(), Untouched();
    var t := Progress(s.color[0 := Gray], s.order);
    SkipImports(g, t, 0, 0, 1);
    VisitOfOne(g, t);
    var t1 := Visited(g, t, 1);
    SkipImports(g, t1, 0, 2, MAX_LOADED_MODULES);
    assert ImportsVisited(g, t, 0, 0) == t1;
    NothingLeft(g, Visited(g, s, 0), 1);
  }

  lemma LeafReachesNothing(g: Graph, p: seq<int>, u: int, v: int)
    requires Valid(g, u) && g[u].dependencies == {} && u != v
    ensures !PathBetween(g, p, u, v)
  {
    if |p| > 1 && p[0] == u {
      assert !Edge(g, p[0], p[1]);
    }
  }

  lemma CalledAppend(g: Graph, order: seq<int>, u: int)
    ensures CalledOf(g, order + [u]) == CalledOf(g, order) + if Called(g, u) then [u] else []
  {
    assert (order + [u])[..|order|] == order;
  }

  lemma CyclicCalls()
    ensures CalledOf(CyclicTable(), FinishOrder(CyclicTable())) == [2, 3, 1]
  {
    var g := CyclicTable();
    CyclicOrder();
    CalledAppend(g, [], 2);
    CalledAppend(g, [2], 3);
    CalledAppend(g, [2, 3], 1);
    CalledAppend(g, [2, 3, 1], 0);
    assert [] + [2] == [2] && [2] + [3] == [2, 3] && [2, 3] + [1] == [2, 3, 1] && [2, 3, 1] + [0] == [2, 3, 1, 0];
    assert [2, 3, 1] + [] == [2, 3, 1];
  }

  /** In that graph 2 imports 3 through 1, 3 does not import 2, and yet 2 is called first. */
  lemma TransitiveOrderFails()
    ensures Reaches(CyclicTable(), 2, 3) && !Reaches(CyclicTable(), 3, 2)
    ensures CalledOf(CyclicTable(), FinishOrder(CyclicTable())) == [2, 3, 1]
    ensures FinishOrder(CyclicTable()) != [] && !OneWayImportsFirst(CyclicTable(), FinishOrder(CyclicTable()), 0)
  {
    var g := CyclicTable();
    CyclicOrder();
    CyclicCalls();
    assert FinishOrder(g)[0] == 2 && 3 !in FinishOrder(g)[..0];
    assert PathBetween(g, [2, 1, 3], 2, 3);
    forall p ensures !PathBetween(g, p, 3, 2) {
      LeafReachesNothing(g, p, 3, 2);
    }
  }

  /** The block handed to user mode, and the colors of the walk that fills it. `order` is
      the walk's finishing order. */
  class InitBlock {
    const color: array<Color>
    const entries: array<Entry>
    var count: nat
    ghost var order: seq<int>

    ghost function State(): Progress
      reads this, color
    {
      Progress(color[..], order)
    }

    /** The block holds exactly the entries of `called`, in order. */
    ghost predicate Listed(g: Graph, called: seq<int>)
      reads this, entries
    {
      count == |called| && count <= entries.Length
      && forall k :: 0 <= k < count ==> Valid(g, called[k]) && entries[k] == EntryOf(g, called[k])
    }

    ghost predicate Ok(g: Graph)
      reads this, color, entries
    {
      && color.Length == MAX_LOADED_MODULES && entries.Length == MAX_LOADED_MODULES
      && Walk(g, color[..], order) && Listed(g, CalledOf(g, order))
    }

    constructor (g: Graph)
      ensures Ok(g) && fresh(color) && fresh(entries) && State() == Untouched()
    {
      color := new Color[MAX_LOADED_MODULES](_ => White);
      entries := new Entry[MAX_LOADED_MODULES](_ => Entry(0, 0));
      count := 0;
      order := [];
      new;
      assert color[..] == Untouched().color;
    }

    /** What follows a module's imports: color it and append its entry. */
    method Finish(g: Graph, index: int)
      requires Ok(g) && 0 <= index < MAX_LOADED_MODULES && color[index] == Gray
      requires GraysReach(g, color[..], index)
      requires forall v :: Edge(g, index, v) ==> color[v] != White
      modifies this, color, entries
      ensures Ok(g) && State() == Progress(old(color[..])[index := Black], old(order) + [index])
    {
      FinishKeeps(g, color[..], order, index);
      CalledFits(g, order);
      CalledFits(g, order + [index]);
      CalledAppend(g, order, index);
      ghost var called := CalledOf(g, order);
      color[index] := Black;
      assert color[..] == old(color[..])[index := Black];
      order := order + [index];
      AppendEntry(g, index, called);
    }

    /** The entry of a finished module, unless it is the executable or has no entry point. */
    method AppendEntry(g: Graph, index: int, ghost called: seq<int>)
      requires Listed(g, called) && |called| < MAX_LOADED_MODULES == entries.Length && Valid(g, index)
      modifies `count, entries
      ensures Listed(g, called + if Called(g, index) then [index] else [])
    {
      if index == 0 {
        return;
      }
      if g[index].entryPoint == 0 || count >= MAX_LOADED_MODULES {
        return;
      }
      var n := count;
      count := count + 1;
      entries[n] := Entry(g[index].base, g[index].base + g[index].entryPoint);
    }

    /** LdrpAppendInitDfs */
    method Visit(g: Graph, index: int)
      requires Ok(g) && (Valid(g, index) ==> GraysReach(g, color[..], index))
      modifies this, color, entries
      ensures Ok(g) && State() == Visited(g, old(State()), index)
      decreases Whites(color[..])
    {
      if index < 0 || index >= MAX_LOADED_MODULES || !g[index].valid || color[index] == Black {
        return;
      }
      if color[index] == Gray {
        return;
      }
      color[index] := Gray;
      ghost var start := State();
      assert start.color == old(color[..])[index := Gray];
      ReachesSelf(g, index);
      assert index in Whites(old(color[..])) && index !in Whites(start.color);
      ImportsKeep(g, start, index, 0);
      var i := 0;
      while i < MAX_LOADED_MODULES
        invariant 0 <= i <= MAX_LOADED_MODULES && Ok(g) && color[index] == Gray
        invariant Whites(color[..]) <= Whites(start.color) && GraysReach(g, color[..], index)
        invariant ImportsVisited(g, State(), index, i) == ImportsVisited(g, start, index, 0)
      {
        if i in g[index].dependencies {
          ImportStep(g, State(), index, i);
          Visit(g, i);
        }
        i := i + 1;
      }
      Finish(g, index);
    }

    /** The driver loop over the modules the executable does not lead to. */
    method VisitRest(g: Graph)
      requires Ok(g) && NoneUnderWay(color[..])
      modifies this, color, entries
      ensures Ok(g) && State() == Driven(g, old(State()), 1)
    {
      var i := 1;
      while i < MAX_LOADED_MODULES
        invariant 1 <= i <= MAX_LOADED_MODULES && Ok(g) && NoneUnderWay(color[..])
        invariant Driven(g, State(), i) == Driven(g, old(State()), 1)
      {
        DriveOne(g, State(), i);
        if g[i].valid && color[i] == White {
          Visit(g, i);
        }
        i := i + 1;
      }
    }

    /** The walk of LdrpBuildInitBlock: from a fresh block, the entries of the called modules
        in finishing order. */
    method Build(g: Graph)
      requires Ok(g) && State() == Untouched()
      modifies this, color, entries
      ensures Listed(g, CalledOf(g, FinishOrder(g)))
      ensures count == |CalledOf(g, FinishOrder(g))| <= entries.Length
      ensures forall k :: 0 <= k < count ==> EntryFor(g, CalledOf(g, FinishOrder(g))[k], entries[k])
    {
      DriveOne(g, State(), 0);
      Visit(g, 0);
      VisitRest(g);
    }
  }
}
