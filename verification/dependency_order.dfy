/** The load order of kernel modules as a function of what they export and need
    (module.c). Modules are named by their file names, which are distinct. */
module DependencyOrder {
  import opened Wrappers

  /** An exported symbol; an owner of None is the kernel image itself. */
  datatype Export = Export(symbol: string, owner: Option<string>)

  /** A module file: its name and its undefined symbols, in file order. */
  datatype Unit = Unit(name: string, undef: seq<string>)

  datatype Image = Image(exports: seq<Export>, units: seq<Unit>)

  datatype SortResult =
    | Sorted(order: seq<string>)
    | Unresolved          // "mod has undef symbols"
    | Cyclic              // "cyclic chain"

  type Graph = map<string, seq<string>>

  // ---------------------------------------------------------------- symbols

  /** The first entry of the symbol table with the given name. */
  function FirstExport(exports: seq<Export>, symbol: string): Option<Export> {
    if exports == [] then None
    else if exports[0].symbol == symbol then Some(exports[0])
    else FirstExport(exports[1..], symbol)
  }

  ghost predicate Resolvable(exports: seq<Export>, symbol: string) {
    exists e :: e in exports && e.symbol == symbol
  }

  lemma {:induction false} FirstExportFinds(exports: seq<Export>, symbol: string)
    ensures FirstExport(exports, symbol).Some? <==> Resolvable(exports, symbol)
    ensures FirstExport(exports, symbol).Some? ==>
              exists i :: 0 <= i < |exports| && FirstExport(exports, symbol).value == exports[i]
                          && exports[i].symbol == symbol
                          && forall j :: 0 <= j < i ==> exports[j].symbol != symbol
  {
    if exports != [] && exports[0].symbol != symbol {
      FirstExportFinds(exports[1..], symbol);
      if FirstExport(exports[1..], symbol).Some? {
        var i :| 0 <= i < |exports| - 1 && FirstExport(exports, symbol).value == exports[1..][i]
                 && exports[1..][i].symbol == symbol
                 && forall j :: 0 <= j < i ==> exports[1..][j].symbol != symbol;
        assert exports[i + 1] == exports[1..][i];
        assert forall j :: 1 <= j < i + 1 ==> exports[j] == exports[1..][j - 1];
      }
    }
  }

  // ----------------------------------------------------------- dependencies

  /** The dependency list grown from `acc` by resolving `undef` in order, each
      owner appended once; None when a symbol has no exporter. */
  function Resolve(exports: seq<Export>, undef: seq<string>, acc: seq<string>): Option<seq<string>> {
    if undef == [] then Some(acc)
    else
      match FirstExport(exports, undef[0])
      case None => None
      case Some(e) =>
        Resolve(exports, undef[1..],
                if e.owner.Some? && e.owner.value !in acc then acc + [e.owner.value] else acc)
  }

  ghost predicate Distinct<T>(s: seq<T>) {
    forall i, j :: 0 <= i < j < |s| ==> s[i] != s[j]
  }

  /** `n` is the first exporter of one of the symbols. */
  ghost predicate Needs(exports: seq<Export>, undef: seq<string>, n: string) {
    exists u :: u in undef && FirstExport(exports, u).Some? && FirstExport(exports, u).value.owner == Some(n)
  }

  lemma {:induction false} ResolveMeaning(exports: seq<Export>, undef: seq<string>, acc: seq<string>)
    requires Distinct(acc)
    ensures Resolve(exports, undef, acc).Some? <==> forall u :: u in undef ==> Resolvable(exports, u)
    ensures Resolve(exports, undef, acc).Some? ==>
              var r := Resolve(exports, undef, acc).value;
              Distinct(r) && acc <= r && forall n :: n in r <==> n in acc || Needs(exports, undef, n)
  {
    if undef == [] {
    } else {
      FirstExportFinds(exports, undef[0]);
      var first := FirstExport(exports, undef[0]);
      assert forall u :: u in undef <==> u == undef[0] || u in undef[1..];
      if first.Some? {
        var e := first.value;
        var acc' := if e.owner.Some? && e.owner.value !in acc then acc + [e.owner.value] else acc;
        ResolveMeaning(exports, undef[1..], acc');
        forall n ensures Needs(exports, undef, n) <==> e.owner == Some(n) || Needs(exports, undef[1..], n) {
        }
      }
    }
  }

  ghost predicate DistinctNames(units: seq<Unit>) {
    forall i, j :: 0 <= i < j < |units| ==> units[i].name != units[j].name
  }

  function Names(units: seq<Unit>): seq<string> {
    if units == [] then [] else [units[0].name] + Names(units[1..])
  }

  /** What discovery guarantees: names are distinct, and every exporter is the
      kernel image or one of the discovered modules. */
  ghost predicate WellFormed(image: Image) {
    && DistinctNames(image.units)
    && forall e :: e in image.exports && e.owner.Some? ==> e.owner.value in Names(image.units)
  }

  /** The dependency graph, or None when some module has an unresolved symbol. */
  function BuildGraph(exports: seq<Export>, units: seq<Unit>): Option<Graph> {
    if units == [] then Some(map[])
    else
      match Resolve(exports, units[0].undef, [])
      case None => None
      case Some(deps) =>
        match BuildGraph(exports, units[1..])
        case None => None
        case Some(rest) => Some(rest[units[0].name := deps])
  }

  lemma {:induction false} NamesMembers(units: seq<Unit>)
    ensures |Names(units)| == |units|
    ensures forall i :: 0 <= i < |units| ==> Names(units)[i] == units[i].name
    ensures DistinctNames(units) ==> Distinct(Names(units))
  {
    if units == [] {
    } else {
      NamesMembers(units[1..]);
    }
  }

  lemma {:induction false} BuildGraphMeaning(exports: seq<Export>, units: seq<Unit>)
    requires DistinctNames(units)
    ensures BuildGraph(exports, units).Some? <==>
              forall i, u :: 0 <= i < |units| && u in units[i].undef ==> Resolvable(exports, u)
    ensures BuildGraph(exports, units).Some? ==>
              var g := BuildGraph(exports, units).value;
              && (forall n :: n in g <==> n in Names(units))
              && (forall i :: 0 <= i < |units| ==>
                    units[i].name in g && Distinct(g[units[i].name])
                    && Resolve(exports, units[i].undef, []) == Some(g[units[i].name]))
  {
    if units == [] {
    } else {
      BuildGraphMeaning(exports, units[1..]);
      ResolveMeaning(exports, units[0].undef, []);
      NamesMembers(units);
      NamesMembers(units[1..]);
      assert forall i :: 1 <= i < |units| ==> units[i] == units[1..][i - 1];
      if Resolve(exports, units[0].undef, []).None? {
        var u :| u in units[0].undef && !Resolvable(exports, u);
      } else if BuildGraph(exports, units[1..]).None? {
        var i, u :| 0 <= i < |units[1..]| && u in units[1..][i].undef && !Resolvable(exports, u);
        assert units[i + 1] == units[1..][i];
      }
    }
  }

  // ------------------------------------------------------- depth-first search

  /** The three module states: DOING members, DONE members in completion order
      (which is the order of the callback), all others NONE. */
  datatype Marks = Marks(doing: set<string>, done: seq<string>)

  ghost predicate Closed(g: Graph) {
    forall m, d :: m in g && d in g[m] ==> d in g
  }

  function Elements<T(==)>(s: seq<T>): set<T> { set x | x in s }

  function Unvisited(g: Graph, s: Marks): set<string> {
    g.Keys - s.doing - Elements(s.done)
  }

  /** traverse_dependency: visit `m`, leaving it DOING when a cycle was met. */
  ghost function Visit(g: Graph, s: Marks, m: string): (t: Marks)
    requires Closed(g) && m in g
    ensures s.doing <= t.doing && s.done <= t.done
    ensures m in t.done || m in t.doing
    decreases Unvisited(g, s), 0
  {
    if m in s.doing || m in s.done then s
    else
      assert m in Unvisited(g, s) && m !in Unvisited(g, s.(doing := s.doing + {m}));
      var (t, finished) := VisitAll(g, s.(doing := s.doing + {m}), g[m]);
      if !finished then t
      else Marks(t.doing - {m}, t.done + [m])
  }

  /** The loop over one dependency list; false when it returned early. */
  ghost function VisitAll(g: Graph, s: Marks, ds: seq<string>): (r: (Marks, bool))
    requires Closed(g) && forall d :: d in ds ==> d in g
    ensures s.doing <= r.0.doing && s.done <= r.0.done
    decreases Unvisited(g, s), |ds|
  {
    if ds == [] then (s, true)
    else
      var t := Visit(g, s, ds[0]);
      if ds[0] !in t.done then (t, false)
      else
        assert Unvisited(g, t) <= Unvisited(g, s);
        VisitAll(g, t, ds[1..])
  }

  lemma VisitSeen(g: Graph, s: Marks, m: string)
    requires Closed(g) && m in g && (m in s.doing || m in s.done)
    ensures Visit(g, s, m) == s
  {
  }

  /** One visit, given what its loop does. */
  lemma VisitByLoop(g: Graph, s: Marks, m: string, t: Marks, finished: bool)
    requires Closed(g) && m in g && m !in s.doing && m !in s.done
    requires VisitAll(g, Marks(s.doing + {m}, s.done), g[m]) == (t, finished)
    ensures Visit(g, s, m) == if finished then Marks(t.doing - {m}, t.done + [m]) else t
  {
  }

  /** One round of the loop. */
  lemma VisitAllStep(g: Graph, s: Marks, d: string, rest: seq<string>)
    requires Closed(g) && d in g && forall e :: e in rest ==> e in g
    ensures var t := Visit(g, s, d);
            VisitAll(g, s, [d] + rest) == if d !in t.done then (t, false) else VisitAll(g, t, rest)
  {
    assert ([d] + rest)[1..] == rest;
  }

  lemma VisitAllEnd(g: Graph, s: Marks)
    requires Closed(g)
    ensures VisitAll(g, s, []) == (s, true)
  {
  }

  // ------------------------------------------------------------ reachability

  ghost predicate IsPath(g: Graph, p: seq<string>) {
    && p != []
    && (forall i :: 0 <= i < |p| ==> p[i] in g)
    && (forall i :: 0 <= i < |p| - 1 ==> p[i + 1] in g[p[i]])
  }

  ghost predicate PathFromTo(g: Graph, p: seq<string>, a: string, b: string) {
    IsPath(g, p) && p[0] == a && p[|p| - 1] == b
  }

  ghost predicate Reaches(g: Graph, a: string, b: string) {
    exists p :: PathFromTo(g, p, a, b)
  }

  /** `b` is reached from `a` along at least one edge. */
  ghost predicate Leads(g: Graph, a: string, b: string) {
    exists p :: PathFromTo(g, p, a, b) && |p| >= 2
  }

  /** A dependency cycle (a self-loop included) is reachable from `a`. */
  ghost predicate CycleFrom(g: Graph, a: string) {
    exists c :: Reaches(g, a, c) && Leads(g, c, c)
  }

  lemma Join(g: Graph, p: seq<string>, q: seq<string>, a: string, b: string, c: string)
    requires PathFromTo(g, p, a, b) && PathFromTo(g, q, b, c)
    ensures PathFromTo(g, p + q[1..], a, c)
  {
    var r := p + q[1..];
    assert forall i :: |p| - 1 <= i < |r| ==> r[i] == q[i - (|p| - 1)];
  }

  lemma ReachesSelf(g: Graph, a: string)
    requires a in g
    ensures Reaches(g, a, a)
  {
    assert PathFromTo(g, [a], a, a);
  }

  lemma EdgeLeads(g: Graph, a: string, b: string)
    requires a in g && b in g && b in g[a]
    ensures Leads(g, a, b)
  {
    assert PathFromTo(g, [a, b], a, b);
  }

  lemma LeadsReaches(g: Graph, a: string, b: string)
    requires Leads(g, a, b)
    ensures Reaches(g, a, b)
  {
  }

  lemma ReachesTransitive(g: Graph, a: string, b: string, c: string)
    requires Reaches(g, a, b) && Reaches(g, b, c)
    ensures Reaches(g, a, c)
    ensures Leads(g, a, b) || Leads(g, b, c) ==> Leads(g, a, c)
  {
    var p :| PathFromTo(g, p, a, b) && (Leads(g, a, b) ==> |p| >= 2);
    var q :| PathFromTo(g, q, b, c) && (Leads(g, b, c) ==> |q| >= 2);
    Join(g, p, q, a, b, c);
  }

  // -------------------------------------------------------- search invariant

  /** Every finished module is listed after all its dependencies, once, and is
      no longer being visited. */
  ghost predicate Ordered(g: Graph, s: Marks) {
    && Distinct(s.done)
    && (forall i :: 0 <= i < |s.done| ==> s.done[i] in g && s.done[i] !in s.doing)
    && (forall i, d :: 0 <= i < |s.done| && d in g[s.done[i]] ==> d in s.done[..i])
  }

  /** The modules being visited form the chain that led to `m`. */
  ghost predicate OnStack(g: Graph, s: Marks, m: string) {
    forall d :: d in s.doing ==> Leads(g, d, m)
  }

  /** Everything finished since `s` is reachable from `m`. */
  ghost predicate AddsOnlyReachable(g: Graph, s: Marks, t: Marks, m: string) {
    forall x :: x in t.done && x !in s.done ==> Reaches(g, m, x)
  }

  lemma OrderedFinish(g: Graph, t: Marks, m: string)
    requires Ordered(g, t) && m in g && m !in t.done
    requires forall d :: d in g[m] ==> d in t.done
    ensures Ordered(g, Marks(t.doing - {m}, t.done + [m]))
  {
    var r := t.done + [m];
    assert r[..|t.done|] == t.done;
    assert forall i :: 0 <= i < |t.done| ==> r[..i] == t.done[..i];
  }

  lemma {:induction false} VisitCorrect(g: Graph, s: Marks, m: string)
    requires Closed(g) && m in g && Ordered(g, s) && OnStack(g, s, m)
    ensures var t := Visit(g, s, m);
            && Ordered(g, t)
            && AddsOnlyReachable(g, s, t, m)
            && (m in t.done ==> t.doing == s.doing)
            && (m !in t.done ==> CycleFrom(g, m))
    decreases Unvisited(g, s), 0
  {
    if m in s.done {
      ReachesSelf(g, m);
    } else if m in s.doing {
      ReachesSelf(g, m);
    } else {
      var s' := s.(doing := s.doing + {m});
      assert m in Unvisited(g, s) && m !in Unvisited(g, s');
      VisitAllCorrect(g, s', g[m], m);
      var (t, finished) := VisitAll(g, s', g[m]);
      ReachesSelf(g, m);
      if finished {
        assert m !in t.done;
        OrderedFinish(g, t, m);
      }
    }
  }

  lemma {:induction false} VisitAllCorrect(g: Graph, s: Marks, ds: seq<string>, m: string)
    requires Closed(g) && m in g && m in s.doing && Ordered(g, s)
    requires forall d :: d in s.doing && d != m ==> Leads(g, d, m)
    requires forall d :: d in ds ==> d in g[m] && d in g
    ensures var (t, finished) := VisitAll(g, s, ds);
            && Ordered(g, t)
            && AddsOnlyReachable(g, s, t, m)
            && (finished ==> t.doing == s.doing && forall d :: d in ds ==> d in t.done)
            && (!finished ==> CycleFrom(g, m))
    decreases Unvisited(g, s), |ds|
  {
    if ds == [] {
    } else {
      var d := ds[0];
      EdgeLeads(g, m, d);
      forall x | x in s.doing ensures Leads(g, x, d) {
        if x != m { LeadsReaches(g, x, m); LeadsReaches(g, m, d); ReachesTransitive(g, x, m, d); }
      }
      VisitCorrect(g, s, d);
      var t := Visit(g, s, d);
      LeadsReaches(g, m, d);
      forall x | Reaches(g, d, x) ensures Reaches(g, m, x) { ReachesTransitive(g, m, d, x); }
      if d in t.done {
        assert Unvisited(g, t) <= Unvisited(g, s);
        VisitAllCorrect(g, t, ds[1..], m);
      }
    }
  }

  /** A finished module cannot be on or lead to a cycle: along any path the
      completion positions strictly fall. */
  lemma {:induction false} PathsFall(g: Graph, s: Marks, p: seq<string>)
    requires Ordered(g, s) && IsPath(g, p) && p[0] in s.done
    ensures p[|p| - 1] in s.done
    ensures forall i :: 0 <= i < |s.done| && s.done[i] == p[0] ==>
              p[|p| - 1] in s.done[..if |p| >= 2 then i else i + 1]
    decreases |p|
  {
    if |p| >= 2 {
      var i :| 0 <= i < |s.done| && s.done[i] == p[0];
      assert p[1] in s.done[..i];
      PathsFall(g, s, p[1..]);
    }
  }

  lemma FinishedAcyclic(g: Graph, s: Marks, m: string)
    requires Ordered(g, s) && m in s.done
    ensures !CycleFrom(g, m)
  {
    if CycleFrom(g, m) {
      var c :| Reaches(g, m, c) && Leads(g, c, c);
      var p :| PathFromTo(g, p, m, c);
      PathsFall(g, s, p);
      var q :| PathFromTo(g, q, c, c) && |q| >= 2;
      PathsFall(g, s, q);
    }
  }

  // ------------------------------------------------------------ sort_modules

  /** The start-point filter: all modules without one, else a name prefix. */
  predicate Selected(startpoint: Option<string>, name: string) {
    startpoint.Some? ==> startpoint.value <= name
  }

  /** The third pass over the module list. */
  ghost function SelectAll(g: Graph, startpoint: Option<string>, names: seq<string>, s: Marks): (r: (Marks, bool))
    requires Closed(g) && forall n :: n in names ==> n in g
    ensures s.done <= r.0.done
  {
    if names == [] then (s, true)
    else if !Selected(startpoint, names[0]) then SelectAll(g, startpoint, names[1..], s)
    else
      var t := Visit(g, s, names[0]);
      if names[0] !in t.done then (t, false)
      else SelectAll(g, startpoint, names[1..], t)
  }

  lemma GraphClosed(image: Image)
    requires WellFormed(image) && BuildGraph(image.exports, image.units).Some?
    ensures Closed(BuildGraph(image.exports, image.units).value)
  {
    BuildGraphMeaning(image.exports, image.units);
    NamesMembers(image.units);
    var g := BuildGraph(image.exports, image.units).value;
    forall m, d | m in g && d in g[m] ensures d in g {
      var i :| 0 <= i < |image.units| && image.units[i].name == m;
      var undef := image.units[i].undef;
      ResolveMeaning(image.exports, undef, []);
      assert Needs(image.exports, undef, d);
      var u :| u in undef && FirstExport(image.exports, u).Some?
               && FirstExport(image.exports, u).value.owner == Some(d);
      FirstExportFinds(image.exports, u);
    }
  }

  ghost function Sort(image: Image, startpoint: Option<string>): SortResult
    requires WellFormed(image)
  {
    match BuildGraph(image.exports, image.units)
    case None => Unresolved
    case Some(g) =>
      GraphClosed(image);
      BuildGraphMeaning(image.exports, image.units);
      var (t, finished) := SelectAll(g, startpoint, Names(image.units), Marks({}, []));
      if finished then Sorted(t.done) else Cyclic
  }

  lemma {:induction false} SelectAllCorrect(g: Graph, startpoint: Option<string>, names: seq<string>, s: Marks)
    requires Closed(g) && Ordered(g, s) && s.doing == {}
    requires forall n :: n in names ==> n in g
    ensures var (t, finished) := SelectAll(g, startpoint, names, s);
            && Ordered(g, t)
            && (forall x :: x in t.done && x !in s.done ==>
                  exists n :: n in names && Selected(startpoint, n) && Reaches(g, n, x))
            && (finished ==> forall n :: n in names && Selected(startpoint, n) ==> n in t.done)
            && (!finished ==> exists n :: n in names && Selected(startpoint, n) && CycleFrom(g, n))
    decreases |names|
  {
    if names == [] {
    } else {
      if !Selected(startpoint, names[0]) {
        SelectAllCorrect(g, startpoint, names[1..], s);
      } else {
        VisitCorrect(g, s, names[0]);
        var t := Visit(g, s, names[0]);
        if names[0] in t.done {
          SelectAllCorrect(g, startpoint, names[1..], t);
        }
      }
    }
  }

  // ------------------------------------------------------------ main results

  /** `m` must be loaded: it is reachable from a selected module. */
  ghost predicate Required(image: Image, startpoint: Option<string>, g: Graph, m: string) {
    exists n :: n in Names(image.units) && Selected(startpoint, n) && Reaches(g, n, m)
  }

  /** The emitted sequence has no duplicates and is exactly what is reachable
      from the selected modules. */
  lemma SortedIsExactlyRequired(image: Image, startpoint: Option<string>)
    requires WellFormed(image) && Sort(image, startpoint).Sorted?
    ensures Distinct(Sort(image, startpoint).order)
    ensures forall m :: m in Sort(image, startpoint).order <==>
                          Required(image, startpoint, BuildGraph(image.exports, image.units).value, m)
  {
    var g := BuildGraph(image.exports, image.units).value;
    GraphClosed(image);
    BuildGraphMeaning(image.exports, image.units);
    SelectAllCorrect(g, startpoint, Names(image.units), Marks({}, []));
    var (t, _) := SelectAll(g, startpoint, Names(image.units), Marks({}, []));
    forall m | Required(image, startpoint, g, m) ensures m in t.done {
      var n :| n in Names(image.units) && Selected(startpoint, n) && Reaches(g, n, m);
      var p :| PathFromTo(g, p, n, m);
      PathsFall(g, t, p);
    }
  }

  /** Each undefined symbol of each emitted module is exported by the kernel
      image or by a module emitted strictly earlier. */
  lemma LoadOrderResolves(image: Image, startpoint: Option<string>, i: nat, k: nat, u: string)
    requires WellFormed(image) && Sort(image, startpoint).Sorted?
    requires i < |Sort(image, startpoint).order| && k < |image.units|
    requires image.units[k].name == Sort(image, startpoint).order[i] && u in image.units[k].undef
    ensures exists e :: e in image.exports && e.symbol == u
                        && (e.owner.None? || e.owner.value in Sort(image, startpoint).order[..i])
  {
    var g := BuildGraph(image.exports, image.units).value;
    GraphClosed(image);
    BuildGraphMeaning(image.exports, image.units);
    SelectAllCorrect(g, startpoint, Names(image.units), Marks({}, []));
    var undef := image.units[k].undef;
    ResolveMeaning(image.exports, undef, []);
    assert Resolvable(image.exports, u);
    FirstExportFinds(image.exports, u);
    var e := FirstExport(image.exports, u).value;
    assert e.owner.Some? ==> Needs(image.exports, undef, e.owner.value);
  }

  /** Sorting stops for an unresolved symbol exactly when some module, selected
      or not, needs a symbol nobody exports. */
  lemma UnresolvedIff(image: Image, startpoint: Option<string>)
    requires WellFormed(image)
    ensures Sort(image, startpoint).Unresolved? <==>
              exists i, u :: 0 <= i < |image.units| && u in image.units[i].undef && !Resolvable(image.exports, u)
  {
    BuildGraphMeaning(image.exports, image.units);
  }

  /** The cyclic-chain panic happens exactly when a selected module reaches a
      dependency cycle. */
  lemma CyclicIff(image: Image, startpoint: Option<string>)
    requires WellFormed(image) && !Sort(image, startpoint).Unresolved?
    ensures var g := BuildGraph(image.exports, image.units).value;
            Sort(image, startpoint).Cyclic? <==>
              exists n :: n in Names(image.units) && Selected(startpoint, n) && CycleFrom(g, n)
  {
    var g := BuildGraph(image.exports, image.units).value;
    GraphClosed(image);
    BuildGraphMeaning(image.exports, image.units);
    SelectAllCorrect(g, startpoint, Names(image.units), Marks({}, []));
    var (t, finished) := SelectAll(g, startpoint, Names(image.units), Marks({}, []));
    if finished {
      forall n | n in Names(image.units) && Selected(startpoint, n) ensures !CycleFrom(g, n) {
        FinishedAcyclic(g, t, n);
      }
    }
  }
}
