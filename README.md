# Form state resolution, modelled in Dafny

This project models the state-resolution engine of the form service
(`packages/core/src/services/form.service.ts`). A form is a tree of pages,
sections and components. The service binds the form to a keyed data record
and keeps the two in step:

- `setValue` writes a value into the record along a dot-separated path. It
  creates missing intermediate objects and turns `undefined` and `''` into
  `null`.
- `getValue` reads a component's value from the record through the
  expression helper and coerces it to the component's type.
- `populateComponents` walks the tree in document order. It backfills
  missing page, section and component ids, binds each component's value,
  builds the flat component list, then runs the resolver.
- `resolveConditions` runs two waves.
  - Wave one evaluates every property that has a condition and drops those
    that have none. A computed `value` property writes its result back to
    the component and to the record.
  - Wave two re-evaluates only the computed values.
  - If wave two still changes something, the whole resolver runs once more,
    and no further.
- `updateComponent` writes an edited value, re-reads the components that
  depend on it, and runs the resolver.
- The stripping loop of `saveForm` sets every component value and every
  property value of a copy to `null`.

Files:

- `values.dfy` (`Values`): the data record `Val`, JavaScript truthiness,
  the `undefined`/`''` → `null` normalisation and path lookup.
- `paths.dfy` (`Paths`): `setValue` as the source's cursor loop
  (`SetValue`), proved equal to a recursive reference (`Walk`,
  `SetValueSpec`), with the round-trip, frame, intermediate-object and
  throw lemmas.
- `external.dfy` (`External`): the helpers the service calls but does not
  define. Evaluation and coercion are a `Helpers` value of total functions;
  the UUID generator is the `IdSource` oracle.
- `forms.dfy` (`Forms`): pages, sections, components, document order
  (`Flatten`), id backfill and value stripping as predicates and functions.
- `resolver.dfy` (`Resolver`): the resolver and the edit handler as
  functions of the arena and the record (`ResolveSpec`, `UpdateSpec`), and
  the lemmas about them.
- `form_service.dfy` (`FormService`): the service's imperative code. The
  `Form` and `FormState` classes have their methods proved to compute the
  functions above.

Components live in one array (`Form.store`). Both the tree's sections and
`FormState.components` hold indices into it, so a change made through the
flat list is the change seen through the tree, as with the shared objects
of the source. A component's properties are an ordered list of entries.
Key order matters: a computed value written by one key is what the
conditions of later keys read.

## Model

| member | source | states |
|---|---|---|
| Values.Normalise | packages/core/src/services/form.service.ts:80-81 | the result is never `undefined` or `''`; it is `null` exactly when the input was `undefined` or `''` (or already `null`), and otherwise the input |
| Paths.SetValue | packages/core/src/services/form.service.ts:79-102 | the source's cursor loop computes the reference write `SetValueSpec`; an empty schema returns the record unchanged |
| Paths.WritePath | packages/core/src/services/form.service.ts:85-97 | the cursor loop over the segments of a dotted or plain schema on a truthy record computes the recursive reference `Walk` |
| Paths.SetValueRoundTrip | packages/core/src/services/form.service.ts:85-99 | after a successful write, reading the record along the schema's segments yields the normalised value |
| Paths.SetValueFrame | packages/core/src/services/form.service.ts:85-99 | after a successful write, any path that follows the schema's path for some keys and then leaves it reads as before |
| Paths.SetValueIntermediates | packages/core/src/services/form.service.ts:86-96 | every intermediate on the schema's path is an object afterwards; one that was missing or falsy is now a fresh object holding only the next segment |
| Paths.SetValueThrowsIff | packages/core/src/services/form.service.ts:82-97 | the write throws exactly when the schema is non-empty and a truthy non-object sits on its path; otherwise it succeeds |
| Paths.SetValueTopLevel | packages/core/src/services/form.service.ts:82-84 | a schema without a dot is a single top-level assignment into the record, or into `{}` when the record is falsy |
| Paths.SplitSegments | packages/core/src/services/form.service.ts:86-87 | no segment contains a dot; a schema splits into several segments exactly when it contains one, and otherwise into itself |
| Paths.JoinSplit | packages/core/src/services/form.service.ts:87 | joining the segments with dots gives back the schema |
| Values.LookupBelowScalar | packages/core/src/services/form.service.ts:91 | reading any non-empty path below a non-object yields `undefined` |
| External.GetValue | packages/core/src/services/form.service.ts:71-77 | `null` when evaluating the schema reports an error, otherwise the evaluated value coerced to the component's type |
| External.IdSource.Next | packages/core/src/services/form.service.ts:48 | each identifier is non-empty and was not issued before; it joins the issued set |
| Forms.FlattenMembers | packages/core/src/services/form.service.ts:46-66 | an index is in the flat list exactly when some page's section list has a section whose component list holds it; absent lists contribute nothing |
| Forms.FlattenAppend | packages/core/src/services/form.service.ts:46-62 | flattening distributes over concatenation of pages, so the list follows document order |
| Forms.BackfilledFlatten | packages/core/src/services/form.service.ts:46-59 | backfilling ids changes neither which components the tree lists nor their order |
| Forms.BackfillIdentified | packages/core/src/services/form.service.ts:47-54 | on a tree whose pages and sections all carry ids, backfilling changes nothing |
| Forms.BackfillIdentifies | packages/core/src/services/form.service.ts:47-54 | after backfilling, every page and section carries an id |
| Forms.Strip | packages/core/src/services/form.service.ts:144-150 | value `null`, each property value `null`; id, schema, type, property names and conditions as they were |
| Forms.StripIdempotent | packages/core/src/services/form.service.ts:144-150 | stripping a component twice is stripping it once, so a component listed twice ends stripped |
| FormService.BuildState | packages/core/src/services/form.service.ts:40-66 | a new state over `{...data}`; each missing page and section id is filled with a new id that the owner map records as given to that slot; the list is the tree's components in document order; each listed component has its id backfilled the same way and its value read from the record, and every other arena slot is untouched |
| FormService.PopulateComponents | packages/core/src/services/form.service.ts:39-69 | the tree walk, then the resolver from the bound arena; afterwards every page, section and listed component has an id and every existing id is kept, so a tree already identified keeps its page tree unchanged; the new ids are pairwise distinct and were not issued before, and when the existing ids were reserved with the generator, no other slot holds a new id |
| FormService.WalkOwned | packages/core/src/services/form.service.ts:46-59 | after the walk, the owner map names the receiving slot of every new page, section and component id, and every id present before is still at its slot |
| FormService.WalkIds | packages/core/src/services/form.service.ts:46-68 | after the walk and the resolver, every id present before is kept, the new ids are fresh and pairwise distinct, every listed component has an id, and under reservation no other slot holds a new id |
| Forms.OwnedFresh | packages/core/src/services/form.service.ts:47-59 | ids that the owner map records and that were not issued before are pairwise distinct across all slots and fresh |
| Forms.FreshIdsUnique | packages/core/src/services/form.service.ts:47-59 | when every id already in the tree was reserved with the generator, an id handed out is held by its receiving slot only |
| FormService.CopyRecord | packages/core/src/services/form.service.ts:42 | the copy is always an object: the record itself when it is one, `{}` otherwise |
| Resolver.PropertyStep | packages/core/src/services/form.service.ts:187-206 | a property without a condition is deleted and nothing else changes; a non-`value` property holds its condition's result and writes neither the record nor the component; a throw leaves the component, property and record as they were |
| Resolver.ComputedValueWrite | packages/core/src/services/form.service.ts:191-204 | a computed value stores the evaluation's value in its property unless the step throws; an error or an unchanged coerced result writes nothing and changes nothing; a new coerced result sets the component's value, the record reads it back, normalised, at the schema, and every path leaving the schema's path is unchanged; the step throws exactly when a truthy non-object blocks the path, and then changes nothing |
| Resolver.ResolvePrunes | packages/core/src/services/form.service.ts:183-233 | after a run that does not throw, no listed component keeps a property without a condition; a run never changes a component's id, schema or type, nor a component outside the list |
| Resolver.FirstWavePrunes | packages/core/src/services/form.service.ts:185-209 | wave one on one component leaves no property without a condition unless it throws, and never changes the component's id, schema or type |
| Resolver.PassPrunes | packages/core/src/services/form.service.ts:185-209 | wave one prunes every listed component unless it throws, and both waves keep pruned components pruned |
| Resolver.PassFrame | packages/core/src/services/form.service.ts:185-228 | a wave changes no id, schema or type and no arena slot the list does not name |
| Resolver.ResolveWithoutComputed | packages/core/src/services/form.service.ts:185-209 | when no listed component has a computed value, the run does not throw, the record is unchanged, and each listed component keeps its value and its conditioned properties, each holding its condition's result against the record |
| Resolver.ValueIndex | packages/core/src/services/form.service.ts:215-217 | the position of the `value` property when there is one, and none exactly when no property is called `value` |
| FormService.ResolveProperty | packages/core/src/services/form.service.ts:188-206 | one key of wave one computes `EntryStep`, whose effect `PropertyStep` and `ComputedValueWrite` state |
| FormService.ResolveKeys | packages/core/src/services/form.service.ts:187-207 | the loop over a component's property keys computes `PropsPass`: keys in order, stopping at the first throw with the rest of the keys untouched |
| FormService.ResolveProperties | packages/core/src/services/form.service.ts:186-208 | wave one on one component computes `FirstWaveStep`: its keys in order, stopping at a throw with the unprocessed keys left as they were |
| FormService.ResolveComputedValue | packages/core/src/services/form.service.ts:215-227 | wave two on one component computes `SecondWaveStep`, whose effect `SecondWaveWrite` states |
| Resolver.SecondWaveWrite | packages/core/src/services/form.service.ts:215-227 | wave two looks only at a conditioned `value` property; an error or an unchanged coerced result does nothing; a new result becomes the component's value before the write, so it survives a throw, and the write throws exactly when a truthy non-object blocks the path; otherwise the record reads the result back, normalised, at the schema, other paths are unchanged, the `value` property holds `true`, and every other property is untouched |
| Resolver.SettledQuiet | packages/core/src/services/form.service.ts:215-227 | wave two changes a component exactly when it is not settled (a conditioned first `value` property whose evaluation has no error and whose coerced result differs from the component's value); a settled component and the record are left as they were |
| Resolver.QuietFirstWave | packages/core/src/services/form.service.ts:185-209 | a wave one that changed no value and did not throw kept the record and left every listed component settled against it |
| Resolver.QuietSecondWave | packages/core/src/services/form.service.ts:211-227 | wave two changes nothing exactly when every listed component is settled, and then the arena and the record are as they were |
| Resolver.RoundSettles | packages/core/src/services/form.service.ts:185-228 | a round that reports no changed value and does not throw leaves every listed component settled against the final record |
| Resolver.ResolveSettles | packages/core/src/services/form.service.ts:183-233 | chained computed values settle as far as the single rerun reaches: a first round without a change ends the run settled; a change outside a rerun runs exactly one more round, after which the run is settled unless that round threw or still changed a value; a change during a rerun ends the run after the first round, with no promise of settling |
| FormService.FormState.ResolveConditions | packages/core/src/services/form.service.ts:183-233 | the new arena and record are `ResolveSpec`: wave one; wave two only when wave one changed a value; one recursive rerun only when wave two changed a value and this is not already the rerun; the recursion ends because the rerun passes `true` |
| FormService.FormState.UpdateComponent | packages/core/src/services/form.service.ts:172-181 | the new arena and record are `UpdateSpec`: write the coerced edited value, refresh, then run the resolver; a throwing write changes nothing |
| Resolver.RefreshExact | packages/core/src/services/form.service.ts:175-178 | the refresh re-reads exactly the listed components whose schema is the edited one or a non-empty schema without a dot; every other slot is untouched |
| Resolver.UpdateWrites | packages/core/src/services/form.service.ts:172-179 | a component without a schema writes nothing; the edit throws exactly when the schema is non-empty and a truthy non-object blocks its path, and then nothing changes; otherwise the record holds the coerced, normalised edited value at the schema, other paths read as before, and the resolver runs on the refreshed arena |
| FormService.ClearValues | packages/core/src/services/form.service.ts:145-150 | the loop over the property keys computes `Strip` |
| FormService.StripPage | packages/core/src/services/form.service.ts:142-152 | one page of the walk succeeds exactly when the page has a section list and every section a component list, and then strips every component the page lists |
| FormService.StripPages | packages/core/src/services/form.service.ts:142-153 | the page loop on the copy succeeds exactly when every page has a section list and every section a component list, and then every listed component is stripped and every other slot is as it was |
| FormService.StripForSave | packages/core/src/services/form.service.ts:141-153 | on a fresh copy, every listed component is stripped and every other slot is as in the original; the walk succeeds exactly when every page has a section list and every section a component list; the original form is not written |

## Left out

- The Observable plumbing is not modelled: `getFormAndData`, `getData`, `getForms`, `getForm`, `saveData`, the transport call at the end of `saveForm` and the injected constructor. They only forward to a transport service.
- The internals of `HelperService.evaluateValue`, `evaluateCondition`, `resolveType` and `deepCopy` live in a file that is not part of this model. The first three are arbitrary total functions passed in, and every lemma holds for all of them. `deepCopy` is a copy of the page tree and of the component array.
- `UUID.UUID()` is an oracle that promises a non-empty identifier not issued before. Its format and randomness are not modelled.
- FormService.PopulateComponents: that a new id differs from every id already in the tree is promised only when those ids were reserved with the generator (the `IdSource` constructor takes them). A UUID is random, and the model does not claim it cannot collide with an id it was never told about.
- External.IdSource.Next: the identifiers returned are deterministic strings. Only freshness against the oracle's issued set is promised, which is the property the service relies on.
- Numbers are unbounded integers: floating point, `NaN` and `-0` are not modelled. Strict inequality `!==` between values is structural equality on the record datatype; object identity is not modelled.
- `{...data}` copies an object record and yields `{}` for an absent or scalar record. The spread of a string into indexed keys is not modelled. The copy shares nested objects with the caller's record in the source; records here are values, so that sharing is not modelled.
- Property objects are values inside their component: two components sharing one property object are not modelled.
- A property key whose entry is itself `null` (reading its `condition` would throw) and a form whose `pages` list is null are not modelled: every entry is a property record and the page list is always present.
- An absent schema or condition (`undefined`, `null`, `''`) is the empty string. Property keys are unique, as in an object; with a repeated `value` key, wave two would use the first one.
- Reading a key of a string or number (built-in properties such as `length`) yields `undefined` in the model.
- Values.Child: keys are read as own keys only. A key that names an inherited member of an object (`__proto__`, `constructor`, `toString`) reads as absent, whereas the source's `item[key]` follows the prototype chain. For such a schema `setValue` descends into the shared prototype (`setValue('__proto__.x', v, {})` sets `x` on every object and adds no key to the record); the model writes a nested own key instead.
- Paths.SetValueFrame: does not hold of the source for a schema with a segment naming an inherited object member, because the source's write then lands on the shared prototype (see Values.Child above).
- Paths.SetValueRoundTrip: for the same schemas the source reads the value back through the prototype rather than from an own key of the record.
- Wave two (`Resolver.SecondWaveStep`) stores `true` in the `value` property when it changes a value, as the code does. Wave one stores the evaluation's value. The model follows the code.
- FormService.StripForSave: the walk dereferences the section and component lists without checking them, so a page without sections or a section without components makes `saveForm` throw. The model returns `ok == false` there and states nothing about the partly stripped copy, which the service discards.
- A `setValue` that throws inside the resolver or the edit handler ends the whole operation. The model reports it with a flag and the state reached so far; the exception value itself is not modelled.
