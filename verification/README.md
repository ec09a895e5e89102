# Virtual-DOM reconciler of the messenger template engine

This project models the template engine in `src/utils/template/template.ts`:
- the node builders (`checkKey`, `createElement`, `createTextElement`, `createComponent`);
- the shallow prop comparison `checkPropsEqual`;
- the handler test `isEvent` and the event type derived from a handler name;
- the reconciler `createDiff`, which decides whether to skip, replace or update a node;
- the keyed child alignment `createChildDiff` with its loops `removeBeforeKey` and `insertBeforeKey`;
- `unmountChildNodes`;
- the applier (`renderElement`, `addProps`, `applyUpdate`, `applyChildrenDiff`), which works on an abstract live tree instead of a DOM.

The model is functional. The source writes Component instance slots in place. Here those writes are threaded explicitly:
- `Reconcile.Diff` and `Reconcile.ChildDiff` return the old and new trees as they stand after the writes.
- A `World` value carries the next fresh instance identity and the ordered log of lifecycle calls (`Created`, `Unmounted`).

The collaborators the engine calls but does not define are parameters:
- The component instance methods `setProps` and `dispatchInitProps` are the function-valued fields of `Reconcile.Components`.
- The rendering of a component in `renderElement` is `mount: Node -> LiveNode`.

Modules, one per file:

| module | file | contents |
|---|---|---|
| `Wrappers` | wrappers.dfy | `Option`, `Result` |
| `Values` | values.dfy | property values, keys, JavaScript truthiness of keys, number-to-text conversion |
| `Nodes` | nodes.dfy | the three node kinds, size measures, instance slots |
| `Builders` | builders.dfy | `checkKey`, `createElement`, `createTextElement`, `createComponent` |
| `Attributes` | attributes.dfy | `checkPropsEqual` and the `{add, remove}` attribute delta |
| `Operations` | operations.dfy | update and child operations; the reference predicate `Aligned` |
| `Reconcile` | reconcile.dfy | `createDiff`, `createChildDiff`, `removeBeforeKey`, `insertBeforeKey`, `unmountChildNodes` |
| `Apply` | apply.dfy | `renderElement`, `addProps`, `applyUpdate`, `applyChildrenDiff` |
| `Properties` | properties.dfy | whole-list properties of the child alignment |
| `Scenarios` | scenarios.dfy | concrete behaviours, including the kept quirks |

The reference meaning of a child-operation list is `Operations.Aligned(ops, olds, news)`:
- Read left to right, a Remove consumes the next old child.
- An Insert consumes the next new child and carries it.
- A nested update consumes one child from each list, and the two have equal keys.
- Both lists are used up at the end.

`Reconcile.ChildDiff` is proved to produce an aligned list. The conservation, pairing and key-replay lemmas follow from that.

Behaviours of the source that the model keeps on purpose:
- **Falsy keys.** The loop guard `while (nextUpdateKey)` treats a shared key `0` or `""` as "no match". The rest of both lists is then drained as Removes and Inserts (`Scenarios.FalsyKeyDrains`).
- **Greedy alignment.** The alignment is greedy. Old keys [a, b, x] against new keys [x, a, b] give Insert(x), diff(a), diff(b), Remove, so the shared key x is never diffed (`Scenarios.GreedyReorder`).
- **Component replaced by text.** A Component replaced by a Text node is not unmounted, because the text branch of `createDiff` is tried first (`Scenarios.ComponentToTextSkipsUnmount`).
- **Removed elements.** `removeBeforeKey` unmounts a removed child only when the child itself is a Component. Components nested inside a removed Element keep their instances (`Scenarios.RemovedElementKeepsNestedInstance`).
- **Listeners.**
  - `addProps` registers a handler under its lower-cased name without the `on` prefix.
  - `applyUpdate` removes it under the raw property name.
  - A changed handler therefore leaves the old listener registered (`Scenarios.StaleListenerAfterHandlerChange`).
- **Removed `class`.** A removed `class` property is cleared to the empty string, not removed.

Two consequences of `template.ts` that a reader might not expect:
- **Moved keys are not always diffed.** A key present in both lists is not always paired with its partner. The greedy loop emits an Insert and a Remove for a key that moved to the front (`Scenarios.GreedyReorder`).
- **No subtree teardown.** Removing or replacing a subtree does not tear down the components nested inside its elements. `removeBeforeKey` and `createDiff` call `dispatchUnmount` only on a Component node that is itself removed or replaced. The recursive walk exists only as `unmountChildNodes`, which the reconciler does not call (`Scenarios.RemovedElementKeepsNestedInstance`).

## Model

| member | source | states |
|---|---|---|
| `Builders.CheckKey` | src/utils/template/template.ts:18-27 | the result has a `key` entry; it is `'key'` when the caller gave none; every other entry is unchanged |
| `Builders.CreateElement` | src/utils/template/template.ts:44-65 | `key` leaves the props for the node's key field, with `'key'` when it is absent; `ref` leaves them only when it is an object with a `current` field; every other property is kept with its value |
| `Builders.CreateElementKeepsProps` | src/utils/template/template.ts:49-63 | when the caller gave a key, the original props can be rebuilt from the node's props, key and ref: the builder loses nothing |
| `Builders.CreateTextElement` | src/utils/template/template.ts:67-76 | the node is text; its key is the given key or `'text'`, with no key check; its text is the string itself, `"true"`/`"false"`, or, for a number, the canonical numeral (no leading zeros, no `-0`) that reads back as the number |
| `Builders.CreateComponent` | src/utils/template/template.ts:79-92 | `key` moves to the node's key field, with `'key'` when it is absent; the other props are kept; the instance slot starts empty |
| `Values.DecimalRoundTrip` | src/utils/template/template.ts:73 | the text `toString` gives an integer parses back to the same integer |
| `Values.DecimalCanonical` | src/utils/template/template.ts:73 | the text written for an integer has no leading zeros and no `-0` |
| `Values.CanonicalUnique` | src/utils/template/template.ts:73 | a canonical numeral that reads back as `n` is the text written for `n`, so the number's text is fixed |
| `Builders.NumberTextMatchesString` | src/utils/template/template.ts:67-76 | `createTextElement` of a number and of the string of its digits give the same node |
| `Values.IsEvent` | src/utils/template/template.ts:17 | a property name denotes a handler exactly when it starts with `o`, `n`; such a name is `on` followed by its rest |
| `Values.OnPrefixIsEvent` | src/utils/template/template.ts:17 | every name `on` + rest is a handler name, whatever the rest |
| `Values.Stringify` | src/utils/template/template.ts:73 | `toString` of a string is itself, of a boolean is `"true"`/`"false"`, and of a number is the canonical numeral (no leading zeros, no `-0`) that parses back to it |
| `Attributes.PropsEqual` | src/utils/template/template.ts:28-42 | true exactly when the two maps are equal (same key set and equal value per key), so it is reflexive and symmetric |
| `Attributes.AttributeDelta` | src/utils/template/template.ts:146-157 | `add` holds exactly the new keys whose value differs or is new, with the new value; `remove` holds exactly the old keys that are gone plus the event keys whose value changed, with the old value |
| `Attributes.DeltaReconstructs` | src/utils/template/template.ts:146-157 | dropping the removed keys from the old map and writing the added ones gives exactly the new map |
| `Attributes.UnchangedInNeither` | src/utils/template/template.ts:147-155 | a key with equal values on both sides is in neither half of the delta |
| `Attributes.DeltaEmptyIffEqual` | src/utils/template/template.ts:146-157 | the delta is empty exactly when `checkPropsEqual` holds of the two maps |
| `Operations.AlignedConserves` | src/utils/template/template.ts:166-226 | in an aligned list, #Remove + #nested = number of old children and #Insert + #nested = number of new children |
| `Operations.AlignedPairs` | src/utils/template/template.ts:166-226 | slot k works on old child (Removes + nested before k) and new child (Inserts + nested before k); an Insert carries that new child; a nested update pairs children with equal keys |
| `Reconcile.FirstShared` | src/utils/template/template.ts:177-179 | the position of the first old entry whose key occurs in the new queue: every entry before it has no counterpart; the length of the queue when there is none |
| `Reconcile.NextUpdateKeyFound` | src/utils/template/template.ts:177-179 | the `find` lookup gives `null` exactly when no old key occurs among the new keys; otherwise a key present in both lists, taken from an old entry with no shared entry before it |
| `Reconcile.Continues` | src/utils/template/template.ts:181 | the loop goes on exactly when the key is present and is neither `""` nor `0` |
| `Reconcile.RemoveBefore` | src/utils/template/template.ts:203-216 | emits one Remove per entry before the first entry with the stop key; each removed Component has its slot emptied and an `Unmounted` record logged, in order; the rest of the queue starts at the stop key |
| `Reconcile.InsertBefore` | src/utils/template/template.ts:218-226 | emits an Insert of each entry before the first with the stop key, in queue order; the rest starts at the stop key |
| `Reconcile.UnmountHooksSound` | src/utils/template/template.ts:208-212 | every unmount record of a removed run is `Unmounted` of a Component in the run itself (never of a component nested in a removed Element), and every removed Component's instance has one |
| `Reconcile.Diff` | src/utils/template/template.ts:94-164 | the decision list: equal texts give Skip; text or a changed tag give Replace(new); same class with an instance moves the instance and gives Skip (equal props) or `setProps`; another old component is unmounted, its slot emptied, then replaced; a new component over an element gets a fresh instance and a `didMount` callback; same-tag elements give Update with the attribute delta and aligned children; trees change only in instance slots; the log only grows, unmounting only old instances |
| `Reconcile.ChildDiff` | src/utils/template/template.ts:166-201 | the operations are aligned with the old and new children; trees change only in instance slots; every removed old child has its slot emptied; a slot is emptied only after its instance is unmounted; the log only grows, unmounting only instances of the old children |
| `Reconcile.ChildDiffIteration` | src/utils/template/template.ts:181-194 | one loop iteration: the Removes of the old entries before the first shared key, the Inserts of the new entries before its partner, the nested diff of the pair, then the rest |
| `Reconcile.ChildDiffDrained` | src/utils/template/template.ts:195-198 | when the loop does not start, all old entries become Removes and then all new entries Inserts, and only the removed components are unmounted |
| `Reconcile.UnmountChildNodes` | src/utils/template/template.ts:228-238 | the instances unmounted are exactly those of components reachable through element children; nothing for a text or component node |
| `Properties.ChildDiffConserves` | src/utils/template/template.ts:166-226 | #Remove + #nested = number of old children, #Insert + #nested = number of new children, and every operation is one of the three |
| `Properties.ChildDiffPairs` | src/utils/template/template.ts:177-194 | every Insert carries the next unconsumed new child, and every nested diff pairs an old and a new child with equal keys, both in list order |
| `Properties.ChildDiffReplaysKeys` | src/utils/template/template.ts:166-201 | replaying the operations on the old key sequence with `Apply.ReplayKeys`, which uses `applyChildrenDiff`'s slot arithmetic (see `Apply.ReplayTracksApply`), yields exactly the new key sequence |
| `Properties.ChildDiffApplyLength` | src/utils/template/template.ts:321-347 | a successful child update of a live list built from the old children leaves as many children as the new list has |
| `Properties.RemovedComponentsUnmounted` | src/utils/template/template.ts:208-213 | every old Component child the operations remove ends with an empty slot and an `Unmounted` record for its instance |
| `Apply.EventType` | src/utils/template/template.ts:276 | the event type is the name after `on`, letter by letter lower-cased, of length two less, with no upper-case ASCII letter left |
| `Apply.EventTypeOfOnName` | src/utils/template/template.ts:276 | a handler named `on` + rest is registered under the lower-cased rest |
| `Apply.AddProps` | src/utils/template/template.ts:269-288 | handler properties are registered as listeners under their lower-cased name without `on`, and nothing else is registered; every other property is written; other attributes, tag and children are unchanged |
| `Apply.RemoveProps` | src/utils/template/template.ts:308-314 | non-handler properties other than `class` are removed; `class` is set to `""`; a listener is removed only if it matches a handler under its raw property name; everything else stays |
| `Apply.Render` | src/utils/template/template.ts:240-267 | text renders as its text; an element renders with its tag, its plain properties as attributes, one listener per handler under its event type, and child i rendered into slot i |
| `Apply.ApplyUpdate` | src/utils/template/template.ts:290-319 | Skip returns the node unchanged; Replace returns the rendered node and fires its callback; Update on a text node throws; a successful Update applies the removals, then the additions, and changes the child count by #Insert − #Remove |
| `Apply.ApplyChildren` | src/utils/template/template.ts:321-347 | operation k works on child k − (Removes before k); a successful run changes the child count by #Insert − #Remove |
| `Apply.ReplayRealignsKeys` | src/utils/template/template.ts:321-347 | for any aligned operation list, the slot arithmetic of `applyChildrenDiff` turns the old keys into exactly the new keys |
| `Apply.ApplyChildrenLength` | src/utils/template/template.ts:321-347 | a successful update with an aligned list leaves as many children as the new list has |
| `Apply.ReplayTracksApply` | src/utils/template/template.ts:321-347 | whenever `applyChildrenDiff` succeeds on a live list, the key replay succeeds on a key list of the same length and ends with as many keys as the live list has children |
| `Properties.UpdateReachesNewProps` | src/utils/template/template.ts:290-319 | after rendering the old element and applying `createDiff`'s update for a same-tag node, a plain property other than `class` is present exactly when the new node has it, every plain property holds its new value, and every new or changed handler is registered |
| `Properties.PatchReachesNewProps` | src/utils/template/template.ts:269-315 | removing the delta's `remove` half from an element whose attributes are the old plain props, then adding its `add` half, leaves exactly the new plain props (except a cleared `class`) and registers each new or changed handler |
| `Scenarios.TextSkipped` | src/utils/template/template.ts:98-105 | a text node diffed against an equal one gives Skip and leaves the log alone |
| `Scenarios.NumberAgainstStringSkipped` | src/utils/template/template.ts:98-105 | `createTextElement(5)` diffed against `createTextElement("5")` gives Skip, because their texts are equal |
| `Scenarios.GreedyReorder` | src/utils/template/template.ts:177-198 | old keys [a, b, x] and new keys [x, a, b] give exactly Insert(x), diff(a), diff(b), Remove |
| `Scenarios.RemoveBeforeMatch` | src/utils/template/template.ts:183-189 | old keys [a, x] and new keys [x] give exactly Remove, diff(x) |
| `Scenarios.FalsyKeyDrains` | src/utils/template/template.ts:181 | a shared key `0` ends the loop, so the matching child is removed and re-inserted |
| `Scenarios.DeltaExample` | src/utils/template/template.ts:146-157 | the delta of `{a:1, b:2, onClick:f1}` against `{a:1, b:3, onClick:f2, c:4}` adds b, onClick and c, and removes only onClick |
| `Scenarios.ComponentReuse` | src/utils/template/template.ts:116-128 | a same-class component with new props keeps its instance, unmounts nothing and yields the instance's `setProps` result |
| `Scenarios.ComponentToTextSkipsUnmount` | src/utils/template/template.ts:106-115 | a component replaced by text is not unmounted |
| `Scenarios.RemovedElementKeepsNestedInstance` | src/utils/template/template.ts:208-213 | removing an element that holds a component logs no unmount |
| `Scenarios.ButtonRendered` | src/utils/template/template.ts:269-277 | an element with `onClick` renders with no attributes and a single `click` listener |
| `Scenarios.HandlerChangeOp` | src/utils/template/template.ts:146-163 | changing a button's handler gives an Update that adds the new handler, removes the old one and touches no children |
| `Scenarios.HandlerChangeReplay` | src/utils/template/template.ts:308-315 | applying that update removes nothing (raw name `onClick`) and registers the new handler under `click` |
| `Scenarios.StaleListenerAfterHandlerChange` | src/utils/template/template.ts:274-315 | after a handler change, both the old and the new handler are registered for `click` |
| `Scenarios.UpdateOnTextThrows` | src/utils/template/template.ts:305-307 | an Update aimed at a text node gives the text-node error |

## Left out

- Real DOM work is not modelled: `document.createElement`, `createTextNode`, `replaceWith`, `before`, `appendChild`, `remove`, `childNodes`, `className`, `setAttribute` and property writes. The live output is the abstract `Apply.LiveNode` tree: attribute writes go to one attribute map and listeners to a set.
- `renderDom` and `createRef` (lines 349-361) are left out. They look up the DOM root and build a trivial `{ current }` object.
- The write `node.ref.current = element` (line 260) is left out. The ref only identifies the capture cell.
- The `console.warn` in `checkKey` is diagnostic output and is left out.
- `createElement` deletes `key` and `ref` from the caller's own props object when a key was given (lines 51, 55). The model builds new maps and does not model that mutation of the argument.
- Component rendering inside `renderElement` (lines 246-255) is left out. This covers `new component()`, `dispatchInitProps`, `instance.render()` and the `dispatchComponentDidMount` call made there. The `mount` parameter stands for all of it.
- The `Block` class (`setProps`, `dispatchInitProps`, `dispatchComponentDidMount`, `dispatchUnmount`, `render`) is not part of this model. Its calls are parameters or entries in the lifecycle log.
- JavaScript numbers are unbounded integers here: no fractions, `NaN` or infinities. Property values `undefined` and `null` are not modelled.
- Values.Stringify: a number is written in plain decimal at every size. JavaScript switches to exponent form from 1e21 (`"1e+21"`), and the model does not reproduce that.
- Numeric keys (`Values.Key`'s `KN`) are compared as unbounded integers. JavaScript doubles lose precision above 2^53, where distinct integers such as 9007199254740992 and 9007199254740993 compare `===`. That limit is not modelled.
- `toLowerCase` is modelled on ASCII letters only.
- The source throws when an old Component node lacks an instance where it is dereferenced (lines 131, 210, 234). The model requires old trees to be mounted (`Nodes.Mounted`) instead of modelling that exception. This covers `Reconcile.Diff`, `Reconcile.RemoveBefore` and `Reconcile.UnmountChildNodes`.
- Apply.ApplyUpdate: for a successful Update, only the resulting attributes, listeners and child count are stated, not the child contents. The keys of the children are covered separately by `Apply.ReplayRealignsKeys`.
- Apply.ApplyChildren: only the resulting child count is stated. `Apply.ReplayKeys` repeats the same slot arithmetic on keys. `Apply.ReplayTracksApply` proves the two agree on success and length, but no lemma states which live child ends in which slot.
- Apply.Render: a component's output is whatever `mount` returns, so its contract says nothing about components.
- The repository's store, application wiring, pages, form components and field constants are not part of this model. They are callers of the engine or unrelated plumbing.
