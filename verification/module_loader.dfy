/** The module loader's in-place algorithm (module.c): symbols are matched,
    dependency lists are built and taken apart, and statuses move from NONE to
    DOING to DONE. Each method is proved against module DependencyOrder. */
module ModuleLoader {
  import opened Wrappers
  import opened DependencyOrder

  datatype Status = NONE | DOING | DONE

  class Module {
    const name: string
    var status: Status
    var undefSyms: seq<string>
    var dependencies: seq<Module>

    constructor (name: string, undefSyms: seq<string>)
      ensures this.name == name && this.undefSyms == undefSyms
      ensures status == NONE && dependencies == []
    {
      this.name := name;
      this.undefSyms := undefSyms;
      status := NONE;
      dependencies := [];
    }
  }

  /** A symbol table entry; a null owner is the kernel image. */
  datatype Symbol = Symbol(name: string, mod: Module?)

  function ToExport(sym: Symbol): Export {
    Export(sym.name, if sym.mod == null then None else Some(sym.mod.name))
  }

  function Exports(symbols: seq<Symbol>): seq<Export> {
    if symbols == [] then [] else [ToExport(symbols[0])] + Exports(symbols[1..])
  }

  function ModNames(mods: seq<Module>): seq<string> {
    if mods == [] then [] else [mods[0].name] + ModNames(mods[1..])
  }

  lemma ModNamesAppend(mods: seq<Module>, m: Module)
    ensures ModNames(mods + [m]) == ModNames(mods) + [m.name]
  {
    if mods != [] {
      assert (mods + [m])[1..] == mods[1..] + [m];
      ModNamesAppend(mods[1..], m);
    }
  }

  lemma ModNamesMembers(mods: seq<Module>)
    ensures |ModNames(mods)| == |mods|
    ensures forall i :: 0 <= i < |mods| ==> ModNames(mods)[i] == mods[i].name
  {
  }

  function Units(mods: seq<Module>): seq<Unit>
    reads mods
  {
    if mods == [] then [] else [Unit(mods[0].name, mods[0].undefSyms)] + Units(mods[1..])
  }

  lemma UnitsMembers(mods: seq<Module>)
    ensures |Units(mods)| == |mods|
    ensures forall i :: 0 <= i < |mods| ==> Units(mods)[i] == Unit(mods[i].name, mods[i].undefSyms)
    ensures Names(Units(mods)) == ModNames(mods)
  {
  }

  /** No two modules share a name: they are files of one directory. */
  ghost predicate NamesIdentify(all: set<Module>) {
    forall a, b :: a in all && b in all && a.name == b.name ==> a == b
  }

  method MatchUndef(symbols: seq<Symbol>, name: string) returns (r: Option<Symbol>)
    ensures r.Some? ==> r.value in symbols
    ensures FirstExport(Exports(symbols), name) == if r.None? then None else Some(ToExport(r.value))
  {
    var i := 0;
    while i < |symbols|
      invariant 0 <= i <= |symbols|
      invariant FirstExport(Exports(symbols), name) == FirstExport(Exports(symbols[i..]), name)
    {
      if symbols[i].name == name {
        return Some(symbols[i]);
      }
      assert symbols[i..][1..] == symbols[i + 1..];
      i := i + 1;
    }
    return None;
  }

  method FindDependency(cur: Module, target: Module) returns (found: bool)
    ensures found <==> target in cur.dependencies
  {
    var i := 0;
    while i < |cur.dependencies|
      invariant 0 <= i <= |cur.dependencies|
      invariant target !in cur.dependencies[..i]
    {
      if cur.dependencies[i] == target {
        return true;
      }
      i := i + 1;
    }
    return false;
  }

  /** Every entry of a is still there. */
  ghost predicate Keeps(a: map<Module, seq<Module>>, b: map<Module, seq<Module>>) {
    forall x :: x in a ==> x in b && b[x] == a[x]
  }

  lemma KeepsOn(a: map<Module, seq<Module>>, b: map<Module, seq<Module>>, c: map<Module, seq<Module>>)
    requires Keeps(a, b) && Keeps(b, c)
    ensures Keeps(a, c)
  {
  }

  lemma KeepsWithout(a: map<Module, seq<Module>>, m: Module, rest: seq<Module>, b: map<Module, seq<Module>>)
    requires m !in a && Keeps(a[m := rest], b)
    ensures Keeps(a, b - {m}) && Keeps(a, b)
  {
    forall x | x in a ensures x in b && b[x] == a[x] && x != m { assert x in a[m := rest]; }
  }

  lemma KeepsOf(a: map<Module, seq<Module>>, m: Module, rest: seq<Module>, b: map<Module, seq<Module>>)
    requires Keeps(a[m := rest], b)
    ensures m in b && b[m] == rest
  {
    assert m in a[m := rest];
  }

  /** The list of m gets shorter, the others are kept. */
  lemma KeepsDropped(a: map<Module, seq<Module>>, m: Module, was: seq<Module>, rest: seq<Module>,
                     b: map<Module, seq<Module>>)
    requires Keeps(a[m := was], b)
    ensures Keeps(a[m := rest], b[m := rest])
  {
    forall x | x in a && x != m ensures x in b && b[x] == a[x] { assert x in a[m := was]; }
  }

  lemma KeepsItself(a: map<Module, seq<Module>>)
    ensures Keeps(a, a)
  {
  }

  class Loader {
    const startpoint: Option<string>
    var modules: seq<Module>
    var symbols: seq<Symbol>
    var emitted: seq<string>    // the names passed to the callback

    constructor (startpoint: Option<string>, modules: seq<Module>, symbols: seq<Symbol>)
      ensures this.startpoint == startpoint && this.modules == modules && this.symbols == symbols
      ensures emitted == []
    {
      this.startpoint := startpoint;
      this.modules := modules;
      this.symbols := symbols;
      emitted := [];
    }

    /** check_dependency; false is the panic for an unresolved symbol. */
    method CheckDependency(mod: Module, ghost all: set<Module>) returns (ok: bool)
      requires mod in all && NamesIdentify(all)
      requires forall sym :: sym in symbols && sym.mod != null ==> sym.mod in all
      requires forall d :: d in mod.dependencies ==> d in all
      modifies mod`undefSyms, mod`dependencies
      ensures var r := Resolve(Exports(symbols), old(mod.undefSyms), ModNames(old(mod.dependencies)));
              ok == r.Some? && (ok ==> ModNames(mod.dependencies) == r.value && mod.undefSyms == [])
      ensures forall d :: d in mod.dependencies ==> d in all
    {
      ghost var exports := Exports(symbols);
      ghost var r := Resolve(exports, mod.undefSyms, ModNames(mod.dependencies));
      while mod.undefSyms != []
        invariant r == Resolve(exports, mod.undefSyms, ModNames(mod.dependencies))
        invariant forall d :: d in mod.dependencies ==> d in all
        decreases |mod.undefSyms|
      {
        var sym := MatchUndef(symbols, mod.undefSyms[0]);
        if sym.None? {
          return false;
        }
        if sym.value.mod != null {
          var found := FindDependency(mod, sym.value.mod);
          ModNamesMembers(mod.dependencies);
          if !found {
            ModNamesAppend(mod.dependencies, sym.value.mod);
            mod.dependencies := mod.dependencies + [sym.value.mod];
          }
        }
        mod.undefSyms := mod.undefSyms[1..];
      }
      return true;
    }

    /** The search state held in the statuses and in the callback's log. */
    ghost function MarksOf(all: set<Module>): Marks
      reads this`emitted, all
    {
      Marks(set x | x in all && x.status == DOING :: x.name, emitted)
    }

    /** The heap represents a search of graph `g`. */
    ghost predicate Represents(all: set<Module>, g: Graph)
      reads this`emitted, all
    {
      && NamesIdentify(all) && Closed(g)
      && (forall x :: x in all ==> x.name in g)
      && (forall x :: x in all ==> (x.status == DONE <==> x.name in emitted))
      && (forall x, d :: x in all && d in x.dependencies ==> d in all)
      && (forall x :: x in all && x.status == NONE ==> ModNames(x.dependencies) == g[x.name])
      && (forall x :: x in all && x.status == DONE ==> x.dependencies == [])
    }

    ghost function Pending(all: set<Module>): set<Module>
      reads all
    {
      set x | x in all && x.status == NONE
    }

    lemma PendingMeaning(x: Module, all: set<Module>)
      requires x in all
      ensures x in Pending(all) <==> x.status == NONE
    {
    }

    /** The modules being visited, with what is left of their lists. */
    ghost function Stack(all: set<Module>): map<Module, seq<Module>>
      reads all
    {
      map x | x in all && x.status == DOING :: x.dependencies
    }

    lemma StackMeaning(x: Module, all: set<Module>)
      requires x in all
      ensures x in Stack(all) <==> x.status == DOING
      ensures x in Stack(all) ==> Stack(all)[x] == x.dependencies
    {
    }

    lemma MemberMeaning(x: Module, all: set<Module>, g: Graph)
      requires Represents(all, g) && x in all
      ensures MarksOf(all).done == emitted && Closed(g) && x.name in g
      ensures x.status == DONE <==> x.name in emitted
      ensures forall d :: d in x.dependencies ==> d in all && d.name in g
      ensures x.status == NONE ==> ModNames(x.dependencies) == g[x.name]
      ensures x.status == DOING <==> x.name in MarksOf(all).doing
    {
    }

    method Enter(mod: Module, ghost all: set<Module>, ghost g: Graph)
      requires mod in all && Represents(all, g) && mod.status == NONE
      modifies mod`status
      ensures mod.status == DOING && Represents(all, g)
      ensures MarksOf(all) == Marks(old(MarksOf(all)).doing + {mod.name}, emitted)
      ensures mod.name !in old(MarksOf(all)).doing
      ensures Pending(all) == old(Pending(all)) - {mod}
      ensures Stack(all) == old(Stack(all))[mod := mod.dependencies] && mod.dependencies == old(mod.dependencies)
    {
      mod.status := DOING;
    }

    /** list_del and free of the first dependency. */
    method DropDependency(mod: Module, ghost all: set<Module>, ghost g: Graph)
      requires mod in all && Represents(all, g) && mod.status == DOING && mod.dependencies != []
      modifies mod`dependencies
      ensures mod.dependencies == old(mod.dependencies)[1..]
      ensures Represents(all, g) && MarksOf(all) == old(MarksOf(all)) && Pending(all) == old(Pending(all))
      ensures Stack(all) == old(Stack(all))[mod := mod.dependencies]
    {
      mod.dependencies := mod.dependencies[1..];
    }

    method Finish(mod: Module, ghost all: set<Module>, ghost g: Graph)
      requires mod in all && Represents(all, g) && mod.status == DOING && mod.dependencies == []
      modifies mod`status, this`emitted
      ensures mod.status == DONE && Represents(all, g)
      ensures MarksOf(all) == Marks(old(MarksOf(all)).doing - {mod.name}, old(emitted) + [mod.name])
      ensures Pending(all) == old(Pending(all)) && Stack(all) == old(Stack(all)) - {mod}
    {
      ghost var marks, pending, stack := MarksOf(all), Pending(all), Stack(all);
      mod.status := DONE;
      emitted := emitted + [mod.name];
      assert Represents(all, g) by { hide MarksOf, Pending, Stack; }
      assert Pending(all) == pending && Stack(all) == stack - {mod} by { hide MarksOf, Represents; }
      assert MarksOf(all) == Marks(marks.doing - {mod.name}, emitted) by { hide Pending, Stack; }
    }

    /** traverse_dependency. The list it walks is left alone by the recursive
        calls because its module is DOING, so it ends empty and the "broken
        dependencies" panic cannot happen. */
    method TraverseDependency(mod: Module, ghost all: set<Module>, ghost g: Graph)
      requires mod in all && Represents(all, g)
      modifies all`status, all`dependencies, this`emitted
      ensures Represents(all, g)
      ensures MarksOf(all) == Visit(g, old(MarksOf(all)), mod.name)
      ensures Keeps(old(Stack(all)), Stack(all))
      ensures Pending(all) <= old(Pending(all))
      decreases Pending(all)
    {
      hide Represents, MarksOf, Visit, VisitAll, Pending, Stack, Keeps;
      MemberMeaning(mod, all, g);
      StackMeaning(mod, all);
      KeepsItself(Stack(all));
      if mod.status != NONE {
        VisitSeen(g, MarksOf(all), mod.name);
        return;
      }
      PendingMeaning(mod, all);
      ghost var before, stack := MarksOf(all), Stack(all);
      Enter(mod, all, g);
      ghost var start := MarksOf(all);
      var rest := mod.dependencies;
      ModNamesMembers(rest);
      KeepsItself(Stack(all));
      while rest != []
        invariant Keeps(stack[mod := rest], Stack(all))
        invariant Represents(all, g)
        invariant forall d :: d in ModNames(rest) ==> d in g
        invariant VisitAll(g, start, g[mod.name]) == VisitAll(g, MarksOf(all), ModNames(rest))
        invariant Pending(all) <= old(Pending(all)) - {mod}
        decreases |rest|
      {
        StackMeaning(mod, all);
        KeepsOf(stack, mod, rest, Stack(all));
        MemberMeaning(mod, all, g);
        var d := rest[0];
        ghost var here, kept := MarksOf(all), Stack(all);
        TraverseDependency(d, all, g);
        KeepsOn(stack[mod := rest], kept, Stack(all));
        MemberMeaning(d, all, g);
        VisitAllStep(g, here, d.name, ModNames(rest[1..]));
        if d.status != DONE {
          VisitByLoop(g, before, mod.name, MarksOf(all), false);
          KeepsWithout(stack, mod, rest, Stack(all));
          return;
        }
        StackMeaning(mod, all);
        KeepsOf(stack, mod, rest, Stack(all));
        KeepsDropped(stack, mod, rest, rest[1..], Stack(all));
        DropDependency(mod, all, g);
        rest := rest[1..];
      }
      StackMeaning(mod, all);
      KeepsOf(stack, mod, rest, Stack(all));
      assert mod.dependencies == [];
      VisitAllEnd(g, MarksOf(all));
      MemberMeaning(mod, all, g);
      ghost var last := MarksOf(all);
      VisitByLoop(g, before, mod.name, last, true);
      KeepsWithout(stack, mod, rest, Stack(all));
      Finish(mod, all, g);
      assert MarksOf(all) == Marks(last.doing - {mod.name}, last.done + [mod.name]);
    }

    /** What discovery and ELF analysis hand over. */
    ghost predicate Discovered(all: set<Module>)
      reads this, all
    {
      && emitted == []
      && all == (set x | x in modules)
      && (forall i, j :: 0 <= i < j < |modules| ==> modules[i].name != modules[j].name)
      && (forall sym :: sym in symbols && sym.mod != null ==> sym.mod in all)
      && (forall x :: x in all ==> x.status == NONE && x.dependencies == [])
    }

    lemma DiscoveredWellFormed(all: set<Module>)
      requires Discovered(all)
      ensures WellFormed(Image(Exports(symbols), Units(modules)))
      ensures NamesIdentify(all)
    {
      UnitsMembers(modules);
      ModNamesMembers(modules);
      forall e | e in Exports(symbols) && e.owner.Some? ensures e.owner.value in ModNames(modules) {
        ExportsOwned(symbols, e);
        var k :| 0 <= k < |modules| && modules[k].name == e.owner.value;
        assert ModNames(modules)[k] == e.owner.value;
      }
    }

    lemma ExportsOwned(syms: seq<Symbol>, e: Export)
      requires e in Exports(syms)
      requires forall sym :: sym in syms && sym.mod != null ==> sym.mod in modules
      ensures e.owner.Some? ==> exists k :: 0 <= k < |modules| && modules[k].name == e.owner.value
    {
      if e == ToExport(syms[0]) {
        assert syms[0].mod != null ==> syms[0].mod in modules;
      } else {
        ExportsOwned(syms[1..], e);
      }
    }

    lemma UnresolvedGraph(exports: seq<Export>, units: seq<Unit>, i: nat)
      requires i < |units| && Resolve(exports, units[i].undef, []).None?
      ensures BuildGraph(exports, units).None?
    {
      if i > 0 { UnresolvedGraph(exports, units[1..], i - 1); }
    }

    lemma ResolvedGraph(image: Image)
      requires WellFormed(image)
      requires forall j :: 0 <= j < |image.units| ==> Resolve(image.exports, image.units[j].undef, []).Some?
      ensures BuildGraph(image.exports, image.units).Some?
      ensures var g := BuildGraph(image.exports, image.units).value;
              && Closed(g)
              && (forall j :: 0 <= j < |image.units| ==>
                    image.units[j].name in g
                    && Resolve(image.exports, image.units[j].undef, []) == Some(g[image.units[j].name]))
    {
      forall j | 0 <= j < |image.units| ensures forall u :: u in image.units[j].undef ==> Resolvable(image.exports, u) {
        ResolveMeaning(image.exports, image.units[j].undef, []);
      }
      BuildGraphMeaning(image.exports, image.units);
      GraphClosed(image);
    }

    /** The first `i` modules carry their resolved dependency lists; nothing
        has been visited. */
    ghost predicate Linked(all: set<Module>, exports: seq<Export>, units: seq<Unit>, i: nat)
      reads this, all
    {
      && all == (set x | x in modules) && |units| == |modules| && i <= |modules|
      && (forall x :: x in all ==> x.status == NONE)
      && (forall x, d :: x in all && d in x.dependencies ==> d in all)
      && (forall j :: 0 <= j < i ==>
            Resolve(exports, units[j].undef, []) == Some(ModNames(modules[j].dependencies)))
    }

    lemma LinkedRepresents(all: set<Module>, image: Image)
      requires WellFormed(image) && NamesIdentify(all) && emitted == []
      requires Linked(all, image.exports, image.units, |image.units|)
      requires forall j :: 0 <= j < |image.units| ==> image.units[j].name == modules[j].name
      ensures BuildGraph(image.exports, image.units).Some?
      ensures Represents(all, BuildGraph(image.exports, image.units).value)
    {
      ResolvedGraph(image);
      var g := BuildGraph(image.exports, image.units).value;
      forall x | x in all ensures x.name in g && ModNames(x.dependencies) == g[x.name] {
        var j :| 0 <= j < |modules| && modules[j] == x;
        assert image.units[j].name in g;
      }
    }

    /** The second pass of sort_modules; false is the unresolved-symbol panic. */
    method CheckAll(ghost all: set<Module>, ghost units: seq<Unit>) returns (ok: bool)
      requires Discovered(all) && units == Units(modules)
      modifies all`undefSyms, all`dependencies
      ensures ok <==> BuildGraph(Exports(symbols), units).Some?
      ensures ok ==> Linked(all, Exports(symbols), units, |units|)
    {
      hide Resolve, BuildGraph, Exports, Units, WellFormed;
      ghost var exports := Exports(symbols);
      DiscoveredWellFormed(all);
      UnitsMembers(modules);
      var i := 0;
      while i < |modules|
        invariant 0 <= i <= |modules| && Linked(all, exports, units, i)
        invariant forall j :: i <= j < |modules| ==>
                    modules[j].undefSyms == units[j].undef && modules[j].dependencies == []
      {
        assert forall j :: 0 <= j < |modules| && j != i ==> modules[j] != modules[i];
        ok := CheckDependency(modules[i], all);
        assert ok ==> Resolve(exports, units[i].undef, []) == Some(ModNames(modules[i].dependencies));
        if !ok {
          UnresolvedGraph(exports, units, i);
          return;
        }
        i := i + 1;
      }
      ResolvedGraph(Image(exports, units));
      return true;
    }

    /** The third pass; false is the cyclic-chain panic. */
    method TraverseAll(ghost all: set<Module>, ghost g: Graph) returns (ok: bool)
      requires Represents(all, g) && MarksOf(all) == Marks({}, [])
      requires forall x :: x in modules ==> x in all
      requires forall n :: n in ModNames(modules) ==> n in g
      modifies all`status, all`dependencies, this`emitted
      ensures SelectAll(g, startpoint, ModNames(modules), Marks({}, [])) == (MarksOf(all), ok)
    {
      var i := 0;
      ghost var result := SelectAll(g, startpoint, ModNames(modules), Marks({}, []));
      while i < |modules|
        invariant 0 <= i <= |modules| && Represents(all, g)
        invariant forall n :: n in ModNames(modules[i..]) ==> n in g
        invariant result == SelectAll(g, startpoint, ModNames(modules[i..]), MarksOf(all))
      {
        var mod := modules[i];
        assert modules[i..][1..] == modules[i + 1..];
        if startpoint.None? || startpoint.value <= mod.name {
          TraverseDependency(mod, all, g);
          if mod.status != DONE {
            return false;
          }
        }
        i := i + 1;
      }
      return true;
    }

    /** sort_modules after analysis: refines DependencyOrder.Sort, then drains
        the symbol table. */
    method SortModules(ghost all: set<Module>) returns (r: SortResult)
      requires Discovered(all)
      modifies all, this`emitted, this`symbols
      ensures WellFormed(old(Image(Exports(symbols), Units(modules))))
      ensures r == Sort(old(Image(Exports(symbols), Units(modules))), startpoint)
      ensures r.Sorted? ==> emitted == r.order && symbols == []
    {
      DiscoveredWellFormed(all);
      ghost var image := Image(Exports(symbols), Units(modules));
      UnitsMembers(modules);
      BuildGraphMeaning(image.exports, image.units);
      var ok := CheckAll(all, image.units);
      if !ok {
        return Unresolved;
      }
      ghost var g := BuildGraph(image.exports, image.units).value;
      LinkedRepresents(all, image);
      ok := TraverseAll(all, g);
      if !ok {
        return Cyclic;
      }
      while symbols != []
        modifies this`symbols
        decreases |symbols|
      {
        symbols := symbols[1..];
      }
      return Sorted(emitted);
    }

    method ClearModules()
      modifies this`modules
      ensures modules == []
    {
      while modules != []
        decreases |modules|
      {
        modules := modules[1..];
      }
    }
  }
}
