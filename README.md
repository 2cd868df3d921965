# DSA Arcade core, modelled in Dafny

DSA Arcade is a browser page that teaches data structures and algorithms. It draws them in a 3D scene. Its core, as modelled here, has four parts:

- **Host.** It builds one demonstration module at a time from a module id, and tears the previous module down first. It keeps one delegated click listener on the action bar. It resolves each clicked button's action name to what runs, and disables the button until that settles.
- **Shared lifecycle.** Every module has a cancellation flag, raised by teardown. Each suspension (`sleep`) fails once the flag is up.
- **Resource cache.** It hands out one geometry and one material object per key.
- **Graphics engine's registry.** It keeps the meshes in the scene, their optional names, their screen labels, the arrows, and the hovered mesh with its tooltip. The names are a sequence parallel to the meshes (`names[i]` is the name of `objects[i]`); removing by name removes the first mesh carrying it.

On top of these sit the modules:
- the tutorial;
- the array, stack and queue;
- the singly and doubly linked list;
- the binary search tree;
- the factorial call stack;
- the four sorting algorithms;
- breadth- and depth-first graph traversal;
- the Big-O demonstrations.

How the model is built:

- **Classes and mutable state.** Each module is a class whose fields the operations update. Each class holds the module's shared lifecycle object (`ModuleBase`) and the engine.
- **Data inside the modules.** The items a module keeps are `seq`s of value/mesh pairs. The sorting row is an `array` sorted in place. The binary search tree is a linked structure of heap nodes, with a ghost `repr` footprint.
- **Suspensions.** `await this.sleep(...)` becomes a call to `ModuleBase.Sleep`. It resumes exactly when the module has not been torn down; after a teardown it fails, and the operation stops there with status `Cancelled`.
- **Inputs from outside.** Random draws (`Math.random()`) are parameters in `[0, 1)`. The value drawn is `floor(r * k)` (`Common.RandomBelow`).
- **Observable results.** What an operation reports becomes a `Status`: `Done`, `Rejected(notice)` (full, empty, no start node), `Cancelled`, or `Failed` (an exception).
- **Specification functions.** Every algorithm is proved against a function on values. Binary search uses `Probes`/`Outcome`, insertion into the tree uses `Insert`, quick sort uses `QuickSorted`, and the factorial uses `Factorial`. The properties the demonstrations teach are then proved about those functions:
  - the search is logarithmic and complete on sorted input;
  - insertion keeps the tree ordered and the in-order walk sorted;
  - quick sort sorts and permutes;
  - the factorial equals the product 1..n;
  - both graph walks reach exactly the reachable nodes, each once.

Where the program does something other than what it evidently intends, the model has both halves. The table under "## Findings" lists these cases: each names a member that follows the code as written, and the correction modelled beside it, which the rest of the model uses. Three smaller points of the same kind are modelled as written:

- **Unknown id.** Loading an unknown id logs "Module under construction". The torn-down module stays the current one (`Host.App.Load`); no module is left unset.
- **Stack underflow.** The underflow feedback in the stack looks for the base mesh by a `labelText` field. The engine never records that field, so the base is never highlighted (`Stack.StackModule.Pop`, `Stack.StackModule.Peek`).
- **Missing module id.** A "load-module" button without a module id reaches `load(undefined)`. The teardown happens, and then the factory's `startsWith` test throws (`Host.App.Load`, `thrown`). The button is then left disabled (`Host.App.HandleClick`).

## Model

| member | source | states |
|---|---|---|
| Common.RandomBelow | modules/StackModule.js:41 | `Math.floor(Math.random() * k)` lies in `[0, k)` |
| Resources.DecimalText | resourceManager.js:21 | an integer colour prints as a non-empty run of digits, one digit exactly below 10 |
| Resources.DecimalTextInjective | resourceManager.js:21 | two numbers with the same printed text are equal |
| Resources.JoinInjective | resourceManager.js:9 | two numeric parameter lists with the same comma-joined text are the same list |
| Resources.GeometryKeyInjective | resourceManager.js:9 | two geometry requests share a cache key exactly when kind and parameters agree (for the kinds and numeric parameters the modules use) |
| Resources.MaterialKeyInjective | resourceManager.js:21 | two material requests share a key exactly when colour and transparency agree |
| Resources.MaterialStepMatchesRequest | resourceManager.js:20-33 | hit or miss, the material returned has the requested colour and transparency |
| Resources.GeometryRequestIdempotent | resourceManager.js:8-18 | repeating a geometry request returns the first handle and adds no entry |
| Resources.MaterialRequestIdempotent | resourceManager.js:20-33 | repeating a material request returns the first handle and adds no entry |
| Resources.RequestsOnlyGrow | resourceManager.js:8-33 | a request only adds entries: one new key exactly on a miss, the other map untouched |
| Resources.SameRequestSameHandle | resourceManager.js:11 | once a key is stored, every later cache extending this one returns the same handle for it |
| Resources.GeometryStepKeepsValid | resourceManager.js:8-18 | a geometry request keeps distinct keys mapped to distinct handle objects |
| Resources.MaterialStepKeepsValid | resourceManager.js:20-33 | a material request keeps handles distinct and each material under its own colour/flag key |
| Resources.MaterialStepKeepsKeyed | resourceManager.js:20-33 | a material request keeps every stored material under the key of its own colour and flag |
| Resources.RunKeepsValid | resourceManager.js:4-33 | any sequence of requests preserves the cache invariant |
| Resources.RunFromEmptyValid | resourceManager.js:4-6 | every cache state reachable from the empty singleton satisfies the invariant |
| Resources.TransparencySplitsMaterials | resourceManager.js:21 | the same colour with the other transparency flag is a different entry holding a different material object |
| Resources.NewMaterialAttributes | resourceManager.js:22-31 | a new material has the requested colour and flag, roughness 0.3, metalness 0.6, opacity 0.5 exactly when transparent |
| Resources.UnknownKindCachesUndefined | resourceManager.js:10-16 | an unknown kind yields and caches an undefined handle; box, sphere and arrow yield a library geometry |
| Resources.ResourceCache.constructor | resourceManager.js:4-6 | the cache starts with both maps empty |
| Resources.ResourceCache.GetGeometry | resourceManager.js:8-18 | the new cache state and the handle are the geometry step of the old state |
| Resources.ResourceCache.GetMaterial | resourceManager.js:20-33 | the new state and handle are the material step of the old state; the handle matches the request |
| Resources.ResourceCache.Dispose | resourceManager.js:35-38 | disposing changes nothing |
| Lifecycle.ModuleBase.constructor | moduleBase.js:6-9 | a new module starts uncancelled and empties the registry, the hover and the tooltip |
| Lifecycle.ModuleBase.Sleep | moduleBase.js:10-13 | a suspension resumes exactly when the module has not been torn down |
| Lifecycle.ModuleBase.Destroy | moduleBase.js:14 | teardown raises the cancellation flag |
| Lifecycle.Outcomes | moduleBase.js:10-14 | a run of calls gives one outcome per call |
| Lifecycle.TokenNeverLowers | moduleBase.js:14 | once raised, the flag stays raised whatever calls follow |
| Lifecycle.SleepsAfterDestroyFail | moduleBase.js:11 | every suspension after a teardown fails |
| Lifecycle.AllSleepsFail | moduleBase.js:11 | with the flag up, every suspension fails |
| Lifecycle.SleepsBeforeDestroyResume | moduleBase.js:11-12 | with the flag down and no teardown yet, every suspension resumes |
| Lifecycle.DestroyIdempotent | moduleBase.js:14 | tearing down twice is the same as tearing down once |
| Graphics.Mesh.constructor | modules/ArrayModule.js:39 | a new mesh holds the geometry and material given, with no recorded material and no tooltip |
| Graphics.NewMesh | modules/ArrayModule.js:39 | a module mesh takes a geometry then an opaque material from the cache, exactly its steps, in that order |
| Graphics.Recolor | modules/StackModule.js:107 | recolouring is exactly the cache's material step for that colour, opaque |
| Graphics.IndexOf | graphicsEngine.js:150 | `indexOf`: the first index holding the mesh, or -1 when none does |
| Graphics.LabelIndex | graphicsEngine.js:155 | `findIndex`: the first label following the mesh, or -1 when none does |
| Graphics.NamedIndex | graphicsEngine.js:138 | `find` by name: the first registry position with the name, or -1 |
| Graphics.RemoveAtKeepsOthers | graphicsEngine.js:152 | `splice(i, 1)` removes exactly element `i`: the rest keep their order and one copy is lost |
| Graphics.AddThenRemove | graphicsEngine.js:147-191 | registering a new mesh and then removing it gives back the mesh and label lists |
| Graphics.KeepArrows | graphicsEngine.js:208-216 | the kept arrows are exactly those whose name is not listed |
| Graphics.KeepArrowsAppend | graphicsEngine.js:209 | filtering distributes over concatenation, so kept arrows keep their relative order |
| Graphics.KeepArrowsIdempotent | graphicsEngine.js:208-216 | filtering twice by the same names equals filtering once |
| Graphics.KeepArrowsCount | graphicsEngine.js:208-216 | every arrow whose name is not listed stays as many times as it was |
| Graphics.KeepArrowsKeepsAll | graphicsEngine.js:208-216 | filtering by names no arrow carries keeps the whole list |
| Graphics.NameCountZero | graphicsEngine.js:138 | no position carries a name exactly when the name lookup finds none |
| Graphics.NameCountAppend | graphicsEngine.js:176-178 | registering a mesh counts its name once more |
| Graphics.NameCountRemoveAt | graphicsEngine.js:152 | unregistering a position counts its name once less |
| Graphics.GraphicsEngine.constructor | graphicsEngine.js:37-47 | the engine starts with no meshes, labels or arrows, and no hover or tooltip |
| Graphics.GraphicsEngine.Clear | graphicsEngine.js:100-131 | clearing empties meshes, names, labels and arrows, restores the hovered mesh's recorded material, and hides the tooltip |
| Graphics.GraphicsEngine.RemoveSingleObj | graphicsEngine.js:147-170 | the mesh's first registry position and first label go, arrows stay, and a hovered mesh stops being hovered |
| Graphics.GraphicsEngine.RemoveEntry | graphicsEngine.js:150-169 | the given position (or none) and the mesh's first label are spliced out |
| Graphics.GraphicsEngine.RemoveObj | graphicsEngine.js:133-145 | a mesh is removed directly, a name removes its first holder, a falsy or unknown target changes nothing |
| Graphics.GraphicsEngine.AddObj | graphicsEngine.js:172-191 | the mesh is appended with its name, its current material recorded, and a label exactly when text and labels layer exist |
| Graphics.GraphicsEngine.AddArrow | graphicsEngine.js:193-206 | exactly one arrow is appended, named when a non-empty name is given |
| Graphics.GraphicsEngine.ClearNamedArrows | graphicsEngine.js:208-216 | the arrows become the filtered list, and nothing else changes |
| Graphics.GraphicsEngine.RenderHover | graphicsEngine.js:233-279 | a new pick restores the old hover, records and highlights the new mesh and shows its tooltip; the same pick changes nothing; no pick restores and hides |
| Host.UpTo | app.js:44 | `split('_')[1]`: the longest prefix without `_`, ended by `_` or the end |
| Host.FactoryKnows | app.js:35-46 | an id constructs a module exactly when it is one of the ten fixed ids or starts with `sort_` |
| Host.FactoryTable | app.js:35-45 | each fixed id builds its own module, and `sll`/`dll` differ only in the list kind |
| Host.FactorySorts | app.js:44 | `sort_X...` builds the sorting module for the segment after `sort_` up to the next `_` |
| Host.SortingIds | app.js:44 | `sort_bubble` builds the bubble-sort module |
| Host.Aux | app.js:113 | a method gets the button's module id when non-empty, otherwise its size |
| Host.PrevStepUnshadowed | app.js:114 | no module has a method named `prev-step` |
| Host.NextStepUnshadowed | app.js:116 | no module has a method named `next-step` |
| Host.LoadModuleUnshadowed | app.js:118 | no module has a method named `load-module` |
| Host.BuiltinsUnshadowed | app.js:111-118 | the built-in actions are never shadowed by a module method |
| Host.ButtonsResolve | app.js:111-120 | every action on a module's own bar reaches that module (its method, or the tutorial's navigation and load) |
| Host.PrevStepOnlyTutorial | app.js:114 | only the tutorial has `prevStep` |
| Host.NextStepOnlyTutorial | app.js:116 | only the tutorial has `nextStep` |
| Host.StepActionsNeedTutorial | app.js:114-122 | Previous/Next on another module or with none are reported as unrecognised |
| Host.NothingLoaded | app.js:111-123 | with no module only `load-module` acts; everything else gets the warning |
| Host.Without | app.js:93 | removing the stored listener leaves every other listener |
| Host.Button.constructor | app.js:101-103 | a button carries its action, module id and size, and starts enabled |
| Host.App.constructor | app.js:15-17 | the host starts with no module, no log and no listener |
| Host.App.InitActionBarListeners | app.js:88-137 | after a renewal exactly one listener is attached, the new one (nothing changes without an action bar) |
| Host.App.Load | app.js:19-50 | the old module is torn down and the log restarted; a known id builds its kind with the lifecycle part, which leaves an empty scene; an unknown one warns and keeps the old; a missing id throws before the listener is renewed |
| Host.App.HandleClick | app.js:97-134 | the result is the resolution against the current module; the button is re-enabled exactly unless loading threw; a warning or a load happens as resolved |
| Host.App.Enact | app.js:111-133 | a resolved click is enacted: warning logged, module loaded, or the module's own operation |
| Tutorial.StepsShape | modules/TutorialModule.js:20-81 | five steps, and only the last has an action button |
| Tutorial.DisplayedButtons | modules/TutorialModule.js:109-132 | after display Previous is disabled exactly on the first step, and Next loads Big-O exactly on the last step (next-step everywhere else) |
| Tutorial.StepAfter | modules/TutorialModule.js:144-159 | a click always leaves a valid step index |
| Tutorial.StepAfterAll | modules/TutorialModule.js:144-159 | any run of clicks leaves a valid step index |
| Tutorial.StepsUndo | modules/TutorialModule.js:144-159 | Previous undoes Next except on the last step, and Next undoes Previous except on the first |
| Tutorial.NextClicksClimb | modules/TutorialModule.js:145-146 | `k` clicks on Next from step `i` reach step `min(i + k, 4)` |
| Tutorial.PreviousEnabledOnFirstStep | app.js:128-130 | as written, going back to the first step leaves Previous enabled |
| Tutorial.PrevClickKeepsRule | modules/TutorialModule.js:109 | with the busy mark apart, Previous stays disabled exactly on the first step |
| Tutorial.TutorialModule.constructor | modules/TutorialModule.js:7-18 | a new tutorial shows step 0 with its buttons over an empty scene |
| Tutorial.TutorialModule.DisplayStep | modules/TutorialModule.js:95-142 | the scene is cleared, the step and title set, and the buttons are as the step decides |
| Tutorial.TutorialModule.NextStep | modules/TutorialModule.js:144-152 | moves forward and shows the step; on the last step it asks to load Big-O and changes nothing |
| Tutorial.TutorialModule.PrevStep | modules/TutorialModule.js:154-159 | moves back and shows the step; on the first step it changes nothing |
| Tutorial.TutorialModule.ClickPreviousAsWritten | app.js:106-130 | the host's disable/re-enable around `prevStep` gives the as-written outcome |
| Tutorial.TutorialModule.ClickPrevious | modules/TutorialModule.js:109 | the corrected click keeps Previous disabled exactly on the first step |
| Arrays.LoopBound | modules/ArrayModule.js:37 | the loop runs `size` times for a number, and none for no number or a non-positive one |
| Arrays.ParseDigits | modules/ArrayModule.js:27 | a size text of plain decimal digits (the form the buttons carry) converts to a number; any other text converts to none |
| Arrays.ResetButtonBuildsNothing | app.js:113 | as dispatched, the reset button builds an empty array, whatever its size text |
| Arrays.ResetButtonBuildsItsSize | modules/ArrayModule.js:27 | read as intended, the size text `n` builds `n` elements ("5" builds five) |
| Arrays.ParseDecimalText | modules/ArrayModule.js:27 | printing then converting a number gives it back |
| Arrays.ArrayModule.constructor | modules/ArrayModule.js:9-18 | a new module shows five random values `floor(r * 99)`, one mesh each |
| Arrays.ArrayModule.GenerateArray | modules/ArrayModule.js:32-46 | the scene is cleared and exactly loop-bound values are drawn, each with its index tooltip, its mesh in order |
| Arrays.ArrayModule.PlaceBlock | modules/ArrayModule.js:39-42 | one new mesh of the colour, with its index tooltip, is appended |
| Arrays.ArrayModule.AddValue | modules/ArrayModule.js:48-69 | a full array (8) is rejected unchanged; otherwise the value is appended at the next index and its block turns blue after the pause |
| Arrays.ArrayModule.RemoveValue | modules/ArrayModule.js:71-81 | an empty array is rejected; otherwise the last value goes and its mesh is unregistered |
| Arrays.ArrayModule.ResetFromActionBarAsWritten | app.js:113 | the reset click leaves an empty array and an empty scene |
| Arrays.ArrayModule.ResetFromActionBar | modules/ArrayModule.js:27 | the corrected reset builds as many values as its size text says |
| Stack.StackModule.constructor | modules/StackModule.js:9-26 | a new stack is empty, and the scene holds only the labelled base |
| Stack.StackModule.Push | modules/StackModule.js:40-85 | a full stack (5) rejects and is unchanged; otherwise the value goes on top, unless a teardown stops it first |
| Stack.StackModule.RejectPush | modules/StackModule.js:45-65 | the overflow branch reports overflow, and the temporary block is gone again |
| Stack.StackModule.ShowRejected | modules/StackModule.js:47-50 | the rejected value gets a red block with its tooltip and label |
| Stack.StackModule.Pop | modules/StackModule.js:87-122 | an empty stack reports underflow and nothing changes; otherwise the top leaves, turns red and is unregistered unless a teardown stops it |
| Stack.StackModule.Peek | modules/StackModule.js:124-152 | the stack never changes; the top block gets its material back unless a teardown leaves it highlighted; an empty stack warns |
| Stack.StackModule.ResetStack | modules/StackModule.js:154-163 | empty stack, and a scene with only the labelled base |
| Queue.QueueModule.constructor | modules/QueueModule.js:10-31 | a new queue is empty, and the scene holds only the labelled path |
| Queue.QueueModule.RepositionElements | modules/QueueModule.js:44-70 | every block is relabelled with its position, unless a teardown stops the first move before any relabelling |
| Queue.QueueModule.Enqueue | modules/QueueModule.js:72-94 | a full queue (8) is rejected unchanged; otherwise the value joins at the rear and positions are relabelled |
| Queue.QueueModule.AddBlock | modules/QueueModule.js:81-87 | the new blue block carries the "Enqueueing" tooltip and is appended |
| Queue.QueueModule.Dequeue | modules/QueueModule.js:96-128 | an empty queue is rejected; otherwise the front leaves, turns red and is unregistered, and the rest are relabelled |
| Queue.QueueModule.DequeueFront | modules/QueueModule.js:102-125 | the front leaves the queue, then the scene, and the remaining blocks are renumbered |
| Queue.QueueModule.Peek | modules/QueueModule.js:130-148 | the queue never changes; the front gets its material back unless a teardown leaves it highlighted; an empty queue warns |
| LinkedList.LabelShown | modules/LinkedListModule.js:35-62 | showing a label reuses an existing element, makes exactly one for a new id, and touches no other id |
| LinkedList.LabelRemovedAfterShown | modules/LinkedListModule.js:64-70 | removing a label just added gives the table back, and removing twice equals once |
| LinkedList.MarkerLabelsReplaced | modules/LinkedListModule.js:165-194 | the HEAD and TAIL labels are made anew with those texts, and the other labels are unchanged |
| LinkedList.PointerArrowsShape | modules/LinkedListModule.js:137-160 | `n` nodes get `n - 1` next arrows, and as many prev arrows exactly when doubly linked; none is named |
| LinkedList.PointerArrowColors | modules/LinkedListModule.js:143-158 | next arrows are blue and prev arrows green, `links` of each |
| LinkedList.RedrawsKeepEarlierArrows | modules/LinkedListModule.js:171-200 | clearing the named marker and NULL arrows keeps the pointer arrows drawn before |
| LinkedList.RedrawAsWrittenLosesPointers | modules/LinkedListModule.js:104 | for two or more nodes, whatever named arrows the scene holds differ from the redrawn list's, which holds `n - 1` next pointers; so the throwing redraw leaves the scene without them |
| LinkedList.LinkedListModule.constructor | modules/LinkedListModule.js:10-32 | a new list is empty, with no labels and nothing drawn |
| LinkedList.LinkedListModule.CreateHtmlLabel | modules/LinkedListModule.js:35-62 | the label table becomes the shown-label table |
| LinkedList.LinkedListModule.RemoveHtmlLabel | modules/LinkedListModule.js:64-70 | the id's label is dropped, and no other id is touched |
| LinkedList.LinkedListModule.DrawPointers | modules/LinkedListModule.js:137-160 | the pointer arrows are appended, and every node gets its index/HEAD/TAIL tooltip |
| LinkedList.LinkedListModule.DrawNode | modules/LinkedListModule.js:138-159 | node `i` gets its tooltip, and its link's arrows are appended |
| LinkedList.LinkedListModule.UpdateHeadTailLabels | modules/LinkedListModule.js:165-195 | the marker arrows are replaced (none for an empty list), and the labels made anew |
| LinkedList.LinkedListModule.UpdateNullPointers | modules/LinkedListModule.js:196-239 | the old NULL boxes and arrows go; exactly one next-NULL box, and a prev one exactly when doubly linked and non-empty |
| LinkedList.LinkedListModule.DrawNullBoxes | modules/LinkedListModule.js:202-238 | on a registry without NULL boxes, draws one past the tail and (doubly, non-empty) one before the head, with their arrows |
| LinkedList.LinkedListModule.RemoveNamed | modules/LinkedListModule.js:198-199 | removing by name leaves no box of that name and the other NULL box untouched |
| LinkedList.LinkedListModule.AddNullBox | modules/LinkedListModule.js:207-209 | adds exactly one box of that name |
| LinkedList.LinkedListModule.Redraw | modules/LinkedListModule.js:103-163 | the corrected redraw keeps the list; done, every tooltip, arrow and marker is as drawn; cancelled, no arrows |
| LinkedList.LinkedListModule.DrawList | modules/LinkedListModule.js:137-162 | from no arrows, the list ends fully drawn with the HEAD and TAIL labels |
| LinkedList.LinkedListModule.DrawEnds | modules/LinkedListModule.js:161-162 | after the pointers, the arrows are the redrawn list's, and both marker labels show |
| LinkedList.LinkedListModule.RedrawAsWritten | modules/LinkedListModule.js:103-104 | the redraw throws at the missing `clearArrows`: it fails, and the list, the registry and every node's mesh are unchanged |
| LinkedList.LinkedListModule.AddHead | modules/LinkedListModule.js:242-256 | with the corrected redraw: the new value becomes the head, the rest follow unchanged, and it is drawn unless torn down |
| LinkedList.LinkedListModule.PrependNode | modules/LinkedListModule.js:243-252 | the new node goes first with its insertion tooltip, its block is appended to the registry, and no arrow changes |
| LinkedList.LinkedListModule.AddHeadAsWritten | modules/LinkedListModule.js:242-256 | as written: the new value becomes the head and its block is registered, then the redraw fails and every arrow stays as it was |
| LinkedList.LinkedListModule.AddHeadTwiceAsWritten | modules/LinkedListModule.js:242-256 | as written, two Add Heads on an empty list give two nodes and no arrow at all, where the redrawn list has its pointer arrows |
| LinkedList.LinkedListModule.AddTail | modules/LinkedListModule.js:257-270 | with the corrected redraw: the new value becomes the tail, the rest precede unchanged, and it is drawn unless torn down |
| LinkedList.LinkedListModule.AppendNode | modules/LinkedListModule.js:258-266 | the new node goes last with its insertion tooltip, its block is appended to the registry, and no arrow changes |
| LinkedList.LinkedListModule.AddTailAsWritten | modules/LinkedListModule.js:257-270 | as written: the new value becomes the tail and its block is registered, then the redraw fails and every arrow stays as it was |
| LinkedList.LinkedListModule.AddNode | modules/LinkedListModule.js:247-250 | the inserted node's block carries its insertion tooltip and is appended |
| LinkedList.LinkedListModule.Retire | modules/LinkedListModule.js:281-295 | the removed block turns red and is unregistered, unless a teardown stops it first |
| LinkedList.LinkedListModule.Unregister | modules/LinkedListModule.js:295 | the block's mesh leaves the registry |
| LinkedList.LinkedListModule.RemoveHead | modules/LinkedListModule.js:271-304 | with the corrected redraw: an empty list is rejected; otherwise the head leaves and the rest are redrawn |
| LinkedList.LinkedListModule.DetachHead | modules/LinkedListModule.js:277-295 | the head leaves the list, its block turns red, and it leaves the registry unless a teardown stops it first; no arrow changes |
| LinkedList.LinkedListModule.RemoveHeadAsWritten | modules/LinkedListModule.js:271-304 | as written: an empty list is rejected with nothing changed; otherwise the head leaves, then the redraw fails (or the teardown cancels) and every arrow stays as it was |
| LinkedList.LinkedListModule.RemoveTail | modules/LinkedListModule.js:306-351 | with the corrected redraw: an empty list is rejected; one node is a head removal; otherwise the tail leaves (after the singly linked walk) |
| LinkedList.LinkedListModule.DetachTail | modules/LinkedListModule.js:312-347 | after the singly linked walk (none when doubly linked) the tail leaves and its block is retired; a teardown during the walk keeps the list with the first node lit; no arrow changes |
| LinkedList.LinkedListModule.RemoveTailAsWritten | modules/LinkedListModule.js:306-351 | as written: empty rejected, one node a head removal, otherwise the tail leaves; then the redraw fails (or the teardown cancels) and every arrow stays as it was |
| LinkedList.LinkedListModule.Traverse | modules/LinkedListModule.js:325-329 | every node before the tail ends blue again, or the first stays lit on teardown |
| LinkedList.LinkedListModule.Blink | modules/LinkedListModule.js:326-328 | the node ends blue after a resumed pause, or lit otherwise |
| LinkedList.LinkedListModule.ResetList | modules/LinkedListModule.js:353-365 | with the corrected redraw: an empty list drawn as one NULL box with the two marker labels and no arrows |
| LinkedList.LinkedListModule.ResetListAsWritten | modules/LinkedListModule.js:353-365 | as written: list, labels, meshes and arrows are cleared, then the redraw fails, so not even the NULL box is drawn |
| LinkedList.LinkedListModule.ClearList | modules/LinkedListModule.js:355-361 | list, labels, registry and arrows all empty |
| Bst.Insert | modules/BSTModule.js:59-75 | insertion grafts exactly one new leaf for `v` where the search path ends |
| Bst.InsertElems | modules/BSTModule.js:59-75 | insertion adds `v` once and keeps every other value (size grows by one) |
| Bst.InsertKeepsBst | modules/BSTModule.js:59-75 | insertion keeps the search-tree order |
| Bst.InsertAllKeepsBst | modules/BSTModule.js:26-37 | every tree built by insertions is a search tree |
| Bst.WalksVisitEveryNode | modules/BSTModule.js:85-97 | both walks visit every value, each as often as it is held |
| Bst.InOrderSorted | modules/BSTModule.js:85-90 | the in-order walk of a search tree is non-decreasing |
| Bst.FiveInsertions | modules/BSTModule.js:59-97 | inserting 50, 30, 70, 20, 40 gives in-order 20..70 and pre-order 50, 30, 20, 40, 70 |
| Bst.Node.constructor | modules/BSTModule.js:51 | a new node has no children and holds the one-node tree |
| Bst.BstModule.constructor | modules/BSTModule.js:9-14 | a new module holds the empty tree |
| Bst.BstModule.InsertRandom | modules/BSTModule.js:26-37 | an empty tree gets the value as root; otherwise the tree becomes the insertion of the value, unless torn down |
| Bst.BstModule.CreateNode | modules/BSTModule.js:39-52 | a fresh leaf node whose sphere is appended to the scene |
| Bst.BstModule.InsertRec | modules/BSTModule.js:54-76 | after the pause, the subtree becomes its insertion of `v`, or stays unchanged on teardown |
| Bst.BstModule.InsertLeft | modules/BSTModule.js:59-66 | the left subtree becomes its insertion of `v` |
| Bst.BstModule.AttachLeft | modules/BSTModule.js:60-63 | a new leaf for `v` becomes the missing left child |
| Bst.BstModule.InsertRight | modules/BSTModule.js:67-74 | the right subtree becomes its insertion of `v` |
| Bst.BstModule.AttachRight | modules/BSTModule.js:68-71 | a new leaf for `v` becomes the missing right child |
| Bst.BstModule.Traverse | modules/BSTModule.js:78-83 | the values visited are the in-order or pre-order walk (nothing for another kind), cut at the first visit on teardown |
| Bst.BstModule.InOrderWalk | modules/BSTModule.js:85-90 | visits the subtree in order, or only its first value on teardown |
| Bst.BstModule.PreOrderWalk | modules/BSTModule.js:92-97 | visits the subtree in pre-order, or only its root on teardown |
| Recursion.Factorial | modules/RecursionModule.js:60-100 | a call always returns at least 1 |
| Recursion.FactorialIsProduct | modules/RecursionModule.js:40-101 | the recursion computes the product 1 * 2 * ... * n |
| Recursion.ButtonResults | modules/RecursionModule.js:24-25 | the two buttons compute 6 and 120 |
| Recursion.RemoveMeshesKeepsOthers | modules/RecursionModule.js:31 | clearing old frames never touches another mesh and never adds one |
| Recursion.RecursionModule.constructor | modules/RecursionModule.js:9-18 | an empty call stack, no depth reached yet, and an empty scene |
| Recursion.RecursionModule.RunFact | modules/RecursionModule.js:28-38 | the old frames are cleared and the depth count restarts; when done the result is `n!`, the stack is empty, and the most frames it ever held is exactly `max(n, 1)` |
| Recursion.RecursionModule.ClearFrames | modules/RecursionModule.js:31-32 | every earlier frame's mesh and label leave the registry |
| Recursion.RecursionModule.FactorialCall | modules/RecursionModule.js:40-101 | done, it returns `Factorial(n)` with the stack and registry as before, and the greatest depth rises to at most the depth at the call plus `max(n, 1)`; cancelled, it stopped at its first pause |
| Recursion.RecursionModule.ReturnOne | modules/RecursionModule.js:60-74 | the base case returns 1 and marks its frame green "Returning 1" |
| Recursion.RecursionModule.MarkFrame | modules/RecursionModule.js:78-79 | the frame has the colour and hover text given |
| Recursion.RecursionModule.Recurse | modules/RecursionModule.js:77-100 | returns `n * factorial(n - 1)` = `Factorial(n)` with the stack and registry unchanged, and the frame says what it returns |
| Recursion.RecursionModule.PushFrame | modules/RecursionModule.js:44-48 | a new frame labelled `fact(n)` is pushed and registered, and the greatest depth is updated to cover it |
| Recursion.RecursionModule.PopFrame | modules/RecursionModule.js:91-98 | the top frame is popped, and the registry is as before it was shown |
| Sorting.SortingModule.constructor | modules/SortingModule.js:9-15 | a new module shows ten bars of heights `floor(r * 8) + 1` |
| Sorting.SortingModule.Generate | modules/SortingModule.js:29-39 | a cleared scene with ten bars of heights 1..8 drawn from the inputs, meshes in order |
| Sorting.SortingModule.AddBar | modules/SortingModule.js:33-37 | one white bar is appended |
| Sorting.SortingModule.Run | modules/SortingModule.js:40-46 | a known algorithm leaves the row sorted and a permutation of the old one (unchanged on teardown); an unknown one leaves it as it is |
| Sorting.SortingModule.Swap | modules/SortingModule.js:48-57 | exactly the bars at `i` and `j` are exchanged |
| Sorting.SortingModule.BubbleSort | modules/SortingModule.js:59-72 | sorted and a permutation of the input, or unchanged on teardown |
| Sorting.SortingModule.BubblePass | modules/SortingModule.js:62-69 | a pass permutes, keeps the sorted suffix and carries the largest of the first `m` to `m - 1` |
| Sorting.SortingModule.SelectionSort | modules/SortingModule.js:74-94 | sorted and a permutation of the input, or unchanged on teardown |
| Sorting.SortingModule.SelectMin | modules/SortingModule.js:77-90 | the index of the first smallest bar from `i` on |
| Sorting.SortingModule.InsertionSort | modules/SortingModule.js:96-125 | sorted and a permutation of the input, or unchanged on teardown |
| Sorting.SortingModule.InsertKey | modules/SortingModule.js:100-120 | the key goes right after the nearest earlier bar not above it, the bars above it shifting up |
| Sorting.SortingModule.QuickSort | modules/SortingModule.js:127-133 | the row becomes the quick sort of `low..high` on values, or stays unchanged on teardown |
| Sorting.SortingModule.Partition | modules/SortingModule.js:135-150 | the row becomes the Lomuto partition, and the pivot's new index is returned |
| Sorting.SortingModule.Gather | modules/SortingModule.js:138-147 | the row becomes the scan's result, and the lower side's end is returned |
| Sorting.BubbleStepKeeps | modules/SortingModule.js:65-67 | one comparison permutes, and carries the largest bar so far forward |
| Sorting.SelectStepKeeps | modules/SortingModule.js:91 | bringing the minimum to `i` permutes and extends the sorted prefix |
| Sorting.InsertedPermutes | modules/SortingModule.js:107-120 | taking the key out and putting it back keeps every bar |
| Sorting.InsertedSorted | modules/SortingModule.js:107-120 | putting the key at the hole keeps the first `i + 1` bars sorted |
| Sorting.ScanSplits | modules/SortingModule.js:139-147 | the scan keeps Lomuto's invariant up to the pivot, and the pivot stays put |
| Sorting.ScanPermutes | modules/SortingModule.js:139-147 | the scan only rearranges `low..high-1` |
| Sorting.PartitionedPermutes | modules/SortingModule.js:135-150 | a partition only rearranges `low..high` |
| Sorting.PartitionedOrders | modules/SortingModule.js:135-150 | the pivot lands at its index, above everything before and not above anything after |
| Sorting.QuickSortedPermutes | modules/SortingModule.js:127-133 | quick sort only rearranges `low..high` |
| Sorting.QuickSortedSorts | modules/SortingModule.js:127-133 | quick sort leaves `low..high` sorted |
| Rows.JoinSorted | modules/SortingModule.js:129-131 | sorting each side of a placed pivot sorts the whole range |
| Rows.JoinPermuted | modules/SortingModule.js:129-131 | rearranging each side of the pivot rearranges the whole range |
| Graph.AddEdge | modules/GraphModule.js:73-74 | an edge appends each end to the other's neighbours and touches no other node |
| Graph.NeighboursSnoc | modules/GraphModule.js:71-75 | one more edge appends its other ends to the neighbours |
| Graph.AddEdgeBuilds | modules/GraphModule.js:71-75 | adding the edges in order builds the listed adjacency |
| Graph.NeighboursJoin | modules/GraphModule.js:71-75 | every neighbour is a listed node |
| Graph.NeighboursSymmetric | modules/GraphModule.js:74 | edges are undirected: `w` neighbours `v` exactly when `v` neighbours `w` |
| Graph.BuiltSymmetric | modules/GraphModule.js:71-75 | the built adjacency is well formed and symmetric |
| Graph.EdgesJoinNodes | modules/GraphModule.js:40-58 | every listed edge joins two listed nodes |
| Graph.DemoShape | modules/GraphModule.js:40-75 | the graph has nodes A..G with the adjacency lists in edge order, and it is well formed and symmetric |
| Graph.DemoNodes | modules/GraphModule.js:41-49 | the graph's nodes are A..G |
| Graph.DemoFirstNeighbours | modules/GraphModule.js:50-57 | the neighbours of A, B and C in order |
| Graph.DemoLastNeighbours | modules/GraphModule.js:50-57 | the neighbours of D, E, F and G in order |
| Graph.NeighboursA | modules/GraphModule.js:51 | A's neighbours are B, E |
| Graph.NeighboursB | modules/GraphModule.js:51-52 | B's neighbours are A, C, F |
| Graph.NeighboursC | modules/GraphModule.js:52-53 | C's neighbours are B, D, F |
| Graph.NeighboursD | modules/GraphModule.js:53-54 | D's neighbours are C, G |
| Graph.NeighboursE | modules/GraphModule.js:51-55 | E's neighbours are A, F |
| Graph.NeighboursF | modules/GraphModule.js:52-56 | F's neighbours are B, C, E, G |
| Graph.NeighboursG | modules/GraphModule.js:54-56 | G's neighbours are D, F |
| Graph.ClosedHoldsReachable | modules/GraphModule.js:115-118 | a set holding the start that no edge leaves holds every reachable node |
| Graph.Unseen | modules/GraphModule.js:115-118 | the newly discovered neighbours are exactly the unmarked ones, each once |
| Graph.BfsStep | modules/GraphModule.js:106-126 | one visit keeps the breadth-first invariant, and visits a node not visited before |
| Graph.BfsAdvance | modules/GraphModule.js:106-126 | taking the front of the queue keeps the invariant, and the order so far plus `BfsOrder` from the new queue is still the whole order |
| Graph.BfsDone | modules/GraphModule.js:106-127 | breadth-first order holds every reachable node, each once, and nothing else |
| Graph.DfsDone | modules/GraphModule.js:150-174 | depth-first order holds every reachable node, each once, and nothing else |
| Graph.DfsListStep | modules/GraphModule.js:160-168 | a visited neighbour is passed over; an unvisited one contributes `DfsOrder` from it before the rest |
| Graph.PathExtend | modules/GraphModule.js:153 | pushing a neighbour of the top of a path from the start gives a path from the start, ending at a reachable node |
| Graph.GraphModule.constructor | modules/GraphModule.js:9-22 | a new module shows the demonstration graph without a start node |
| Graph.GraphModule.CreateGraph | modules/GraphModule.js:35-78 | a cleared scene with seven boxes, nine arrows and the demonstration adjacency, and no start node |
| Graph.GraphModule.PlaceNodes | modules/GraphModule.js:60-69 | seven boxes, box `k` with the tooltip naming node `k`, each node without neighbours yet |
| Graph.GraphModule.JoinEdges | modules/GraphModule.js:71-75 | nine arrows, and the adjacency is the demonstration graph |
| Graph.GraphModule.RunDfs | modules/GraphModule.js:130-148 | no start node is rejected; done, the order is the depth-first order `DfsOrder` from the start node, and holds exactly the reachable nodes, each once |
| Graph.GraphModule.DfsVisit | modules/GraphModule.js:150-174 | entered with the stack plus the node a path from the start, it records the node, then its neighbours' walks: what it appends is `DfsOrder` from that node over the nodes visited before; it keeps the depth-first invariant and gives the stack back |
| Graph.GraphModule.VisitNeighbours | modules/GraphModule.js:160-168 | with the stack a path from the start ending at the node, each neighbour unvisited when its turn comes is walked in adjacency order (its stack again a path), appending `DfsList` over the list; afterwards every neighbour is visited |
| Graph.GraphModule.AddNode | modules/GraphModule.js:61-67 | exactly one new box is appended, blue, with the tooltip `Node: id` and, when the label layer exists, the label `id` |
| Graph.GraphModule.SetStartNode | modules/GraphModule.js:80-88 | the clicked node becomes the start node |
| Graph.GraphModule.RunBfs | modules/GraphModule.js:90-128 | no start node is rejected; done, the order is the breadth-first order `BfsOrder` from the start node, and holds exactly the reachable nodes, each once |
| Graph.GraphModule.Discover | modules/GraphModule.js:115-125 | all neighbours become marked, and the unmarked ones are queued in adjacency order |
| BigO.Numbers | modules/BigOModule.js:102 | the values are 1..n in order |
| BigO.ProbesWithin | modules/BigOModule.js:121-122 | every probed index lies in the searched range |
| BigO.ProbesLogarithmic | modules/BigOModule.js:121-149 | a range below 2^k values takes at most k probes |
| BigO.OutcomeFound | modules/BigOModule.js:137-140 | what the search finds is a match inside the range |
| BigO.OutcomeLastProbe | modules/BigOModule.js:137-140 | a search stops at its first match, which is the last probe |
| BigO.OutcomeMisses | modules/BigOModule.js:141-146 | on sorted values a miss passes over no match |
| BigO.OutcomeComplete | modules/BigOModule.js:118-153 | on sorted values the search finds nothing exactly when the value is absent |
| BigO.DemoSearch | modules/BigOModule.js:101-149 | over 1..31 looking for 25 it probes 15, 23, 27, 25, 24 and finds index 24 |
| BigO.RowMajorLength | modules/BigOModule.js:284-295 | the nested loop visits `n * n` pairs |
| BigO.RowMajorAt | modules/BigOModule.js:284-295 | pair `(i, j)` is visited at position `i * n + j`, every pair once, row by row |
| BigO.RowLabelsSnoc | modules/BigOModule.js:274-279 | each new box adds its own value label after the others |
| BigO.BigOModule.constructor | modules/BigOModule.js:9-15 | a new module over an empty scene, with the un-awaited `showO1` call left out |
| BigO.BigOModule.DrawRow | modules/BigOModule.js:107-112 | one new box per value, appended in order, each labelled with its value |
| BigO.BigOModule.PlaceBox | modules/BigOModule.js:108-110 | one new box is appended, labelled with its value |
| BigO.BigOModule.BinarySearch | modules/BigOModule.js:118-153 | the probes and result are the search's specification; a found index holds the target; not found exactly when nothing is found; a torn-down module stops after the first probe |
| BigO.BigOModule.LinearSearch | modules/BigOModule.js:217-249 | found exactly when the target occurs; then at its first index, else at the end; a torn-down module stops before any comparison |
| BigO.BigOModule.NestedVisits | modules/BigOModule.js:284-295 | the pairs visited are row-major order over `n` by `n`; a torn-down module visits none |
| BigO.BigOModule.ShowLogN | modules/BigOModule.js:83-155 | done, 31 boxes and 25 found at index 24 after probes 15, 23, 27, 25, 24; cancelled, an empty scene |
| BigO.BigOModule.ShowON | modules/BigOModule.js:157-253 | eight values `floor(r * 10)` and a target 1..9; done, found exactly when present, at its first index |
| BigO.BigOModule.ShowON2 | modules/BigOModule.js:255-298 | five values; done, all 25 pairs are visited in row-major order |

## Left out

- Rendering is not modelled: positions, camera, animation timing, easing, opacity fades, colours of transient highlights other than those stated, and the three.js scene graph. A mesh carries only its geometry handle, material handle, recorded original material and tooltip.
- DOM updates (`renderUI`, titles, descriptions, complexity badges, `setActiveComplexityButton`, the tutorial's progress text and step descriptions) and the log's message text are not modelled, except the host's own log entries and the notices a module reports as its `Status`.
- Concurrency: a suspension is one sequential step. Overlapping clicks, and a teardown that lands in the middle of a running operation, are modelled only as the flag being up at the next suspension.
- The Big-O `showO1` and `showNLogN` demonstrations are not modelled. They draw a fixed row and recolour it on a timer, and prove nothing beyond the row drawing that `DrawRow` already covers. The constructor's un-awaited `showO1` call is left out for the same reason.
- The Big-O loops' highlight colours and the per-step recolouring of boxes are not modelled. The search's probes and outcome are.
- Host: sidebar highlighting, `setSpeed`, `initEventListeners`, the logger's rendering and `main.js` are not part of this model. A module instance is represented by its kind and its lifecycle part. The methods each kind answers are the class's own methods plus the lifecycle's and a partial list of the `Object.prototype` names (no button names one).
- Host.App.Enact: a resolved module method call or tutorial step is the module's own operation, modelled in that module's class, not dispatched from the host.
- The binary-tree and sorting modules' buttons call their methods directly from inline handlers, so they do not go through the host's listener. Their methods are modelled directly.
- Bst.BstModule.CreateNode: the node's click handler (recolour on click) is not modelled.
- The tree's node positions and arrow geometry are not modelled. The arrows are counted only.
- Recursion: `parseInt` of the button's size text is replaced by the integer argument. The tooltips carry the state text, and the opacity fade is left out.
- Graph.GraphModule.RunBfs and Graph.GraphModule.RunDfs: the node colouring during a walk is not modelled. The visiting order (`Graph.BfsOrder`, `Graph.DfsOrder`), marking and reachability are.
- BigO.BigOModule.constructor: the un-awaited `showO1` call, which draws five boxes before its first pause, is left out, so a new module's scene is stated empty.
- Screen labels: the module operations that state the label list (`gfx.labels`) are the engine's own, `Arrays.ArrayModule.RemoveValue`, `BigO.BigOModule.DrawRow`, `Graph.GraphModule.AddNode` and the recursion's frames. The stack, queue and linked-list operations state the meshes, their tooltips and the arrows, but not the labels. Each label change they make is the one `Graphics.GraphicsEngine.AddObj` or `Graphics.GraphicsEngine.RemoveObj` states.
- Graph.GraphModule.CreateGraph: an arrow carries only its colour and optional name, so the model counts the edge arrows (one per listed edge, in order) but does not record which two boxes an arrow joins. The adjacency built from the same edges is modelled exactly.
- Host.App.Load: constructing a module's own class (which draws its initial scene) is modelled in each module class's constructor, not called from the host; the empty scene Load states is the one left by the shared lifecycle's construction just before.
- Arrays.ParseDigits: JavaScript's number conversion also accepts surrounding whitespace, a decimal point, an exponent and hexadecimal; only plain digit strings (the empty text converting to 0), the form every size button carries, are modelled.
- Resources.ResourceCache: the class keeps only `MaterialsKeyed` as its invariant. Distinctness of the handle objects is proved over request sequences (`Resources.RunKeepsValid`). Handles are abstract values with a serial number, not library objects.
- BigO.RowMajorAt: the row-major layout is stated per pair, `(i, j)` at `i * n + j`, rather than as one quantified statement over all positions.

## Findings

| source | as written | input that shows it | evidently intended | confidence | as-written member | corrected member |
|---|---|---|---|---|---|---|
| app.js:113 | the listener calls `generateArray(target, moduleId \|\| dataSize)`, so the array's size parameter receives the button element and the loop `i < size` never runs | a click on "Reset Array" (`data-size="5"`) | the reset builds an array of the button's size, five values | not executed | Arrays.ResetButtonBuildsNothing | Arrays.ResetButtonBuildsItsSize |
| modules/LinkedListModule.js:104 | `redraw` first calls `GFX.clearArrows()`, which the engine does not define, so every redraw throws before drawing pointers, markers or NULL boxes | Add Head twice on the singly linked list | the redraw clears the old arrows and draws the list | not executed | LinkedList.LinkedListModule.AddHeadTwiceAsWritten | LinkedList.LinkedListModule.Redraw |
| app.js:128-130 | the host's `finally` re-enables the clicked Previous button after `prevStep`, overriding `displayStep`'s `prevBtn.disabled = currentStep === 0` | on the tutorial's second step click Previous: the first step shows with Previous enabled | Previous is disabled on the first step | not executed | Tutorial.PreviousEnabledOnFirstStep | Tutorial.PrevClickKeepsRule |
