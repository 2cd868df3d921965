/** The module host: it maps a module id to the module to construct,
    tears the current module down before constructing the next, keeps one
    delegated click listener on the action bar, and resolves a clicked
    button's action name to what runs. Module instances are represented by
    their kind and their shared lifecycle part; sidebar highlighting, the
    camera and the speed slider are not modelled. */
module Host {
  import opened Common
  import opened Graphics
  import opened Lifecycle

  /** The modules the factory can construct, with their constructor
      arguments. */
  datatype ModuleKind =
    | TutorialPage
    | BigOPage
    | ArrayPage
    | StackPage
    | QueuePage
    | ListPage(doubly: bool)
    | BstPage
    | RecursionPage
    | SortingPage(algorithm: string)
    | GraphPage

  /** The prefix of `s` before the first `c`: all of `s` when it holds
      no `c`. */
  function UpTo(s: string, c: char): (r: string)
    ensures r <= s && c !in r
    ensures |r| < |s| ==> s[|r|] == c
  {
    if s == [] || s[0] == c then [] else [s[0]] + UpTo(s[1..], c)
  }

  const SORT_PREFIX := "sort_"

  /** The ids with a module of their own. */
  const FIXED_IDS: set<string> := {"tutorial", "bigO", "array", "stack", "queue", "sll", "dll", "bst", "recursion", "graph"}

  /** The module an id constructs, tried in the host's order; an id
      starting with `sort_` constructs the sorting module for the second
      `_`-separated segment of the id. */
  function Factory(id: string): Option<ModuleKind>
  {
    if id == "tutorial" then Some(TutorialPage)
    else if id == "bigO" then Some(BigOPage)
    else if id == "array" then Some(ArrayPage)
    else if id == "stack" then Some(StackPage)
    else if id == "queue" then Some(QueuePage)
    else if id == "sll" then Some(ListPage(false))
    else if id == "dll" then Some(ListPage(true))
    else if id == "bst" then Some(BstPage)
    else if id == "recursion" then Some(RecursionPage)
    else if SORT_PREFIX <= id then Some(SortingPage(UpTo(id[|SORT_PREFIX|..], '_')))
    else if id == "graph" then Some(GraphPage)
    else None
  }

  /** An id constructs a module exactly when it is one of the fixed ids or
      starts with `sort_`. */
  lemma FactoryKnows(id: string)
    ensures Factory(id).Some? <==> id in FIXED_IDS || SORT_PREFIX <= id
  {
  }

  /** The fixed ids: the linked-list ids differ only in the list kind. */
  lemma FactoryTable()
    ensures Factory("tutorial") == Some(TutorialPage) && Factory("bigO") == Some(BigOPage)
    ensures Factory("array") == Some(ArrayPage) && Factory("stack") == Some(StackPage)
    ensures Factory("queue") == Some(QueuePage) && Factory("bst") == Some(BstPage)
    ensures Factory("recursion") == Some(RecursionPage) && Factory("graph") == Some(GraphPage)
    ensures Factory("sll") == Some(ListPage(false)) && Factory("dll") == Some(ListPage(true))
  {
    assert "graph"[0] != SORT_PREFIX[0];
  }

  /** `sort_X...` constructs the sorting module for `X`, the text after
      `sort_` up to the next `_` or the end of the id. */
  lemma FactorySorts(id: string)
    requires SORT_PREFIX <= id
    ensures Factory(id).Some? && Factory(id).value.SortingPage?
    ensures var t := Factory(id).value.algorithm;
            SORT_PREFIX + t <= id && '_' !in t
            && (|SORT_PREFIX + t| < |id| ==> id[|SORT_PREFIX + t|] == '_')
  {
    var t := UpTo(id[5..], '_');
    assert id[0] == 's' && id[1] == 'o';
    assert id == SORT_PREFIX + id[5..];
    assert id[5..][..|t|] == t;
    assert (SORT_PREFIX + t) == id[..5 + |t|];
  }

  /** A concrete sorting id: `sort_bubble` builds the bubble-sort module,
      the prefix test coming after every fixed id. */
  lemma SortingIds()
    ensures Factory("sort_bubble") == Some(SortingPage("bubble"))
  {
    var id := "sort_bubble";
    assert id[0] == 's' && id[1] == 'o' && SORT_PREFIX <= id;
    assert id[5..] == "bubble" && UpTo("bubble", '_') == "bubble";
  }

  /** Methods every module object answers: the shared lifecycle's and
      the usual ones every object inherits (a partial list; no button
      names any of them other than through this set). */
  const SHARED_METHODS: set<string> := {"sleep", "destroy", "constructor", "hasOwnProperty", "isPrototypeOf", "propertyIsEnumerable", "toLocaleString", "toString", "valueOf"}

  /** The methods a module of each kind answers, by name. */
  function Methods(k: ModuleKind): set<string>
  {
    SHARED_METHODS +
    match k
    case TutorialPage => {"defineTutorialSteps", "renderBaseUI", "displayStep", "nextStep", "prevStep"}
    case BigOPage => {"renderUI", "setActiveComplexityButton", "showO1", "showLogN", "showON", "showON2", "showNLogN"}
    case ArrayPage => {"renderUI", "generateArray", "addValue", "removeValue"}
    case StackPage => {"renderUI", "push", "pop", "peek", "resetStack"}
    case QueuePage => {"renderUI", "repositionElements", "enqueue", "dequeue", "peek"}
    case ListPage(_) => {"_createHTMLLabel", "_removeHTMLLabel", "renderUI", "_animateNodeMovement", "redraw", "_updateHeadTailLabels", "_updateNullPointers", "addHead", "addTail", "removeHead", "removeTail", "resetList"}
    case BstPage => {"renderUI", "insertRandom", "createNode", "_insertRec", "traverse", "_inOrder", "_preOrder", "visit"}
    case RecursionPage => {"renderUI", "runFact", "factorial"}
    case SortingPage(_) => {"renderUI", "generate", "run", "swap", "bubbleSort", "selectionSort", "insertionSort", "quickSort", "partition", "highlight", "resetColor"}
    case GraphPage => {"renderUI", "createGraph", "setStartNode", "runBFS", "runDFS", "_dfsRecursive"}
  }

  /** The actions the buttons on each module's action bar carry (the
      binary-tree and sorting modules call their methods directly from
      their buttons instead). */
  function ButtonActions(k: ModuleKind): set<string>
  {
    match k
    case TutorialPage => {"prev-step", "next-step", "load-module"}
    case BigOPage => {"showO1", "showLogN", "showON", "showON2", "showNLogN"}
    case ArrayPage => {"generateArray", "addValue", "removeValue"}
    case StackPage => {"push", "pop", "peek", "resetStack"}
    case QueuePage => {"enqueue", "dequeue", "peek"}
    case ListPage(_) => {"addHead", "addTail", "removeHead", "removeTail", "resetList"}
    case BstPage => {}
    case RecursionPage => {"runFact"}
    case SortingPage(_) => {}
    case GraphPage => {"createGraph", "runBFS", "runDFS"}
  }

  /** The extra argument a module method gets: the button's module id
      when it has a non-empty one, else its size. */
  function Aux(moduleId: Option<string>, dataSize: Option<string>): (r: Option<string>)
    ensures moduleId.Some? && moduleId.value != "" ==> r == moduleId
    ensures (moduleId.None? || moduleId.value == "") ==> r == dataSize
  {
    if moduleId.Some? && moduleId.value != "" then moduleId else dataSize
  }

  /** What a clicked action runs. */
  datatype Resolution =
    | CallMethod(name: string, arg: Option<string>)
    | CallPrev
    | CallNext
    | LoadModule(target: Option<string>)
    | Unrecognized(warning: string)

  /** Resolves an action against the current module's methods (`None`:
      no module): a method of the same name first, then the tutorial's
      step actions, then module loading, else a warning. */
  function Resolve(methods: Option<set<string>>, action: string, moduleId: Option<string>, dataSize: Option<string>): Resolution
  {
    if methods.Some? && action in methods.value then CallMethod(action, Aux(moduleId, dataSize))
    else if action == "prev-step" && methods.Some? && "prevStep" in methods.value then CallPrev
    else if action == "next-step" && methods.Some? && "nextStep" in methods.value then CallNext
    else if action == "load-module" then LoadModule(moduleId)
    else Unrecognized("Action \"" + action + "\" not recognized or not implemented in current module.")
  }

  lemma PrevStepUnshadowed(k: ModuleKind)
    ensures "prev-step" !in Methods(k)
  {
  }

  lemma NextStepUnshadowed(k: ModuleKind)
    ensures "next-step" !in Methods(k)
  {
  }

  lemma LoadModuleUnshadowed(k: ModuleKind)
    ensures "load-module" !in Methods(k)
  {
  }

  /** No module has a method named like a built-in action, so the built-in
      actions are never shadowed. */
  lemma BuiltinsUnshadowed(k: ModuleKind)
    ensures "prev-step" !in Methods(k) && "next-step" !in Methods(k) && "load-module" !in Methods(k)
  {
    PrevStepUnshadowed(k);
    NextStepUnshadowed(k);
    LoadModuleUnshadowed(k);
  }

  /** Every action on a module's own action bar reaches that module: a
      method of the same name, or the tutorial's navigation. */
  lemma {:induction false} ButtonsResolve(k: ModuleKind, a: string, moduleId: Option<string>, dataSize: Option<string>)
    requires a in ButtonActions(k)
    ensures var r := Resolve(Some(Methods(k)), a, moduleId, dataSize);
            if k.TutorialPage? then
              r == (if a == "prev-step" then CallPrev else if a == "next-step" then CallNext else LoadModule(moduleId))
            else r == CallMethod(a, Aux(moduleId, dataSize))
  {
    BuiltinsUnshadowed(k);
  }

  /** Only the tutorial has the step methods. */
  lemma PrevStepOnlyTutorial(k: ModuleKind)
    ensures "prevStep" in Methods(k) <==> k.TutorialPage?
  {
  }

  lemma NextStepOnlyTutorial(k: ModuleKind)
    ensures "nextStep" in Methods(k) <==> k.TutorialPage?
  {
  }

  /** Previous and Next reach only the tutorial: on any other module, and
      with no module, they are reported as unrecognised. */
  lemma StepActionsNeedTutorial(m: Option<ModuleKind>, a: string, moduleId: Option<string>, dataSize: Option<string>)
    requires a == "prev-step" || a == "next-step"
    requires m.None? || !m.value.TutorialPage?
    ensures Resolve(if m.Some? then Some(Methods(m.value)) else None, a, moduleId, dataSize).Unrecognized?
  {
    if m.Some? {
      PrevStepOnlyTutorial(m.value);
      NextStepOnlyTutorial(m.value);
      PrevStepUnshadowed(m.value);
      NextStepUnshadowed(m.value);
    }
  }

  /** With no module loaded only `load-module` does anything. */
  lemma NothingLoaded(a: string, moduleId: Option<string>, dataSize: Option<string>)
    ensures Resolve(None, a, moduleId, dataSize) ==
            if a == "load-module" then LoadModule(moduleId)
            else Unrecognized("Action \"" + a + "\" not recognized or not implemented in current module.")
  {
  }

  /** A loaded module: its kind and its lifecycle part. */
  datatype Loaded = Loaded(kind: ModuleKind, base: ModuleBase)

  function MethodsOf(m: Option<Loaded>): Option<set<string>>
  {
    if m.Some? then Some(Methods(m.value.kind)) else None
  }

  /** `s` without `x`, in order. */
  function Without(s: seq<nat>, x: nat): (r: seq<nat>)
    ensures x !in r && forall y :: y in r <==> y in s && y != x
  {
    if s == [] then [] else (if s[0] == x then [] else [s[0]]) + Without(s[1..], x)
  }

  /** A button on the action bar: its action, its module id and size
      attributes, and its disabled flag. */
  class Button {
    var disabled: bool
    const action: string
    const moduleId: Option<string>
    const dataSize: Option<string>

    constructor (action: string, moduleId: Option<string>, dataSize: Option<string>)
      ensures this.action == action && this.moduleId == moduleId && this.dataSize == dataSize && !disabled
    {
      this.action, this.moduleId, this.dataSize := action, moduleId, dataSize;
      disabled := false;
    }
  }

  class App {
    const gfx: GraphicsEngine
    /** Whether the page has an action bar. */
    const hasActionBar: bool
    /** The module loaded last (still the torn-down one after an unknown id). */
    var current: Option<Loaded>
    /** The notice channel. */
    var log: seq<Notice>
    /** The click listeners attached to the action bar, by id. */
    var attached: seq<nat>
    /** The listener the host last attached, which it detaches first. */
    var stored: Option<nat>
    /** Ids handed out to listeners so far. */
    var issued: nat

    ghost predicate Valid()
      reads this, gfx, gfx.resources
    {
      gfx.Valid()
      && attached == (if stored.Some? then [stored.value] else [])
      && (stored.Some? ==> stored.value < issued)
      && (current.Some? ==> current.value.base.gfx == gfx)
    }

    constructor (engine: GraphicsEngine, actionBar: bool)
      requires engine.Valid()
      ensures Valid() && gfx == engine && hasActionBar == actionBar
      ensures current == None && log == [] && attached == [] && stored == None
    {
      gfx, hasActionBar := engine, actionBar;
      current, log, attached, stored, issued := None, [], [], None, 0;
    }

    /** Detaches the listener attached last, if any, and attaches a new
        one, so that exactly one is attached. */
    method InitActionBarListeners()
      requires Valid()
      modifies this
      ensures Valid() && |attached| <= 1 && current == old(current) && log == old(log)
      ensures hasActionBar ==> stored == Some(old(issued)) && attached == [old(issued)] && issued == old(issued) + 1
      ensures !hasActionBar ==> attached == old(attached) && stored == old(stored) && issued == old(issued)
    {
      if hasActionBar {
        if stored.Some? {
          assert Without([stored.value], stored.value) == [];
          attached := Without(attached, stored.value);
        }
        var id := issued;
        issued := issued + 1;
        stored := Some(id);
        attached := attached + [id];
      }
    }

    /** Loads module `id` (`None`: the button carries no id). The current
        module is torn down first and the log restarted; a known id then
        constructs its module over a cleared scene, an unknown one logs a
        warning and keeps the torn-down module. A missing id fails the
        factory's string test (`thrown`), after the teardown and before
        the listener is renewed. The scene stated here is the one the
        shared lifecycle leaves on construction, before the module's own
        constructor draws; those constructors are the module classes'. */
    method Load(id: Option<string>) returns (thrown: bool)
      requires Valid()
      modifies this, gfx, gfx.hoveredObject, if current.Some? then {current.value.base} else {}
      ensures Valid() && (thrown <==> id.None?)
      ensures old(current).Some? ==> old(current).value.base.cancelToken
      ensures log == [Notice(Info, "Loading module: " + (if id.Some? then id.value else "undefined") + "...")]
                     + (if id.Some? && Factory(id.value).None? then [Notice(Warning, "Module under construction")] else [])
      ensures id.Some? && Factory(id.value).Some? ==>
                current.Some? && current.value.kind == Factory(id.value).value
                && fresh(current.value.base) && !current.value.base.cancelToken
                && gfx.objects == [] && gfx.labels == [] && gfx.arrows == []
      ensures id.None? || Factory(id.value).None? ==> current == old(current)
      ensures !thrown && hasActionBar ==> attached == [old(issued)] && stored == Some(old(issued))
      ensures thrown || !hasActionBar ==> attached == old(attached) && stored == old(stored)
    {
      if current.Some? {
        current.value.base.Destroy();
      }
      log := [Notice(Info, "Loading module: " + (if id.Some? then id.value else "undefined") + "...")];
      if id.None? {
        return true;
      }
      var kind := Factory(id.value);
      if kind.Some? {
        var base := new ModuleBase(gfx);
        current := Some(Loaded(kind.value, base));
      } else {
        log := log + [Notice(Warning, "Module under construction")];
      }
      InitActionBarListeners();
      thrown := false;
    }

    /** One click on button `b`: the button is disabled, the action is
        resolved against the current module and enacted, and the button is
        enabled again once it settles, unless loading failed before
        settling, which leaves it disabled. */
    method HandleClick(b: Button) returns (r: Resolution)
      requires Valid()
      modifies this, b, gfx, gfx.hoveredObject, if current.Some? then {current.value.base} else {}
      ensures Valid() && r == Resolve(MethodsOf(old(current)), b.action, b.moduleId, b.dataSize)
      ensures b.disabled <==> r.LoadModule? && r.target.None?
      ensures r.Unrecognized? ==> log == old(log) + [Notice(Warning, r.warning)] && current == old(current)
      ensures r.CallMethod? || r.CallPrev? || r.CallNext? ==> log == old(log) && current == old(current)
      ensures r.LoadModule? && old(current).Some? ==> old(current).value.base.cancelToken
      ensures r.LoadModule? && r.target.Some? && Factory(r.target.value).Some? ==>
                current.Some? && current.value.kind == Factory(r.target.value).value && fresh(current.value.base)
    {
      r := Resolve(MethodsOf(current), b.action, b.moduleId, b.dataSize);
      b.disabled := true;
      Enact(r, b);
    }

    /** Enacts a resolved click on the disabled button `b`: a module call
        or a tutorial step is the resolved module's own operation, modelled
        in that module; loading and the warning are enacted here. */
    method Enact(r: Resolution, b: Button)
      requires Valid()
      modifies this, b, gfx, gfx.hoveredObject, if current.Some? then {current.value.base} else {}
      ensures Valid() && (b.disabled <==> r.LoadModule? && r.target.None?)
      ensures r.Unrecognized? ==> log == old(log) + [Notice(Warning, r.warning)] && current == old(current)
      ensures r.CallMethod? || r.CallPrev? || r.CallNext? ==> log == old(log) && current == old(current)
      ensures r.LoadModule? && old(current).Some? ==> old(current).value.base.cancelToken
      ensures r.LoadModule? && r.target.Some? && Factory(r.target.value).Some? ==>
                current.Some? && current.value.kind == Factory(r.target.value).value && fresh(current.value.base)
    {
      match r {
        case LoadModule(target) =>
          var thrown := Load(target);
          b.disabled := thrown;
        case Unrecognized(warning) =>
          log := log + [Notice(Warning, warning)];
          b.disabled := false;
        case _ =>
          b.disabled := false;
      }
    }
  }
}
