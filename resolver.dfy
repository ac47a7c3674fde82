/**
 * The condition resolver and the edit handler as functions of the state
 * they act on: the component arena and the data record. The methods of
 * `FormService` are proved to compute exactly these; the lemmas here state
 * what the resolver and the edit handler promise.
 */
module Resolver {
  import opened Values
  import opened Paths
  import opened External
  import opened Forms

  /** The mutable state: the component arena and the data record. */
  datatype St = St(store: seq<Component>, data: Val)

  /** The state after a run, and whether a `setValue` in it threw (the run stops where it threw). */
  datatype Run = Run(st: St, threw: bool)

  /*
   * Wave one: every property of one component, in key order.
   */

  /** One property key processed: the component, the entry as kept (`None` when deleted), the record. */
  datatype EntryOut = EntryOut(comp: Component, entry: Option<Entry>, data: Val, changed: bool, threw: bool)

  function EntryStep(h: Helpers, e: Entry, comp: Component, data: Val): (o: EntryOut)
    ensures o.comp == comp.(value := o.comp.value)
  {
    if e.prop.condition == "" then EntryOut(comp, None, data, false, false)
    else
      var ev := if e.name == "value" then h.evaluateValue(e.prop.condition, data)
                else h.evaluateCondition(e.prop.condition, data);
      var stored := Some(Entry(e.name, e.prop.(value := ev.value)));
      if ev.Ok? && e.name == "value" && h.resolveType(ev.value, comp.typ) != comp.value then
        var v := h.resolveType(ev.value, comp.typ);
        match SetValueSpec(comp.schema, v, data)
        case TypeError => EntryOut(comp, Some(e), data, true, true)
        case Success(d) => EntryOut(comp.(value := v), stored, d, true, false)
      else EntryOut(comp, stored, data, false, false)
  }

  function OptSeq(e: Option<Entry>): seq<Entry>
  {
    if e.Some? then [e.value] else []
  }

  /** The component's properties after wave one, with the record; on a throw the keys from there on are left as they were. */
  datatype PropsOut = PropsOut(comp: Component, kept: seq<Entry>, data: Val, changed: bool, threw: bool)

  function PropsPass(h: Helpers, ps: seq<Entry>, comp: Component, data: Val): PropsOut
    decreases |ps|
  {
    if ps == [] then PropsOut(comp, [], data, false, false)
    else
      var o := EntryStep(h, ps[0], comp, data);
      if o.threw then PropsOut(o.comp, ps, o.data, true, true)
      else
        var rest := PropsPass(h, ps[1..], o.comp, o.data);
        PropsOut(rest.comp, OptSeq(o.entry) + rest.kept, rest.data, o.changed || rest.changed, rest.threw)
  }

  /** Wave one's result on a whole list, given what an earlier part of the list kept and changed. */
  function Resume(kept: seq<Entry>, changed: bool, r: PropsOut): PropsOut
  {
    PropsOut(r.comp, kept + r.kept, r.data, changed || r.changed, r.threw)
  }

  lemma ResumeStep(h: Helpers, ps: seq<Entry>, j: nat, comp: Component, data: Val, kept: seq<Entry>, changed: bool)
    requires j < |ps| && !EntryStep(h, ps[j], comp, data).threw
    ensures var o := EntryStep(h, ps[j], comp, data);
      Resume(kept, changed, PropsPass(h, ps[j..], comp, data))
        == Resume(kept + OptSeq(o.entry), changed || o.changed, PropsPass(h, ps[j + 1..], o.comp, o.data))
  {
    assert ps[j..][0] == ps[j] && ps[j..][1..] == ps[j + 1..];
    var o := EntryStep(h, ps[j], comp, data);
    var rest := PropsPass(h, ps[j + 1..], o.comp, o.data);
    assert kept + (OptSeq(o.entry) + rest.kept) == (kept + OptSeq(o.entry)) + rest.kept;
  }

  lemma ResumeThrow(h: Helpers, ps: seq<Entry>, j: nat, comp: Component, data: Val, kept: seq<Entry>, changed: bool)
    requires j < |ps| && EntryStep(h, ps[j], comp, data).threw
    ensures Resume(kept, changed, PropsPass(h, ps[j..], comp, data)) == PropsOut(comp, kept + ps[j..], data, true, true)
  {
    assert ps[j..][0] == ps[j];
  }

  lemma ResumeEnd(h: Helpers, ps: seq<Entry>, comp: Component, data: Val, kept: seq<Entry>, changed: bool)
    ensures Resume(kept, changed, PropsPass(h, ps[|ps|..], comp, data)) == PropsOut(comp, kept, data, changed, false)
  {
    assert ps[|ps|..] == [] && kept + [] == kept;
  }

  /** What one wave did to one component and to the record. */
  datatype Step = Step(comp: Component, data: Val, changed: bool, threw: bool)

  function FirstWaveStep(h: Helpers, comp: Component, data: Val): Step
  {
    if comp.properties.None? then Step(comp, data, false, false)
    else
      var r := PropsPass(h, comp.properties.value, comp, data);
      Step(r.comp.(properties := Some(r.kept)), r.data, r.changed, r.threw)
  }

  /*
   * Wave two: only the computed-value property.
   */

  /** The position of the `value` key, if the component has one. */
  function ValueIndex(ps: seq<Entry>): (r: Option<nat>)
    ensures r.Some? ==> r.value < |ps| && ps[r.value].name == "value"
    ensures r.None? ==> forall i :: 0 <= i < |ps| ==> ps[i].name != "value"
    decreases |ps|
  {
    if ps == [] then None
    else if ps[0].name == "value" then Some(0)
    else
      var r := ValueIndex(ps[1..]);
      if r.Some? then Some(r.value + 1) else None
  }

  function SecondWaveStep(h: Helpers, comp: Component, data: Val): Step
  {
    if comp.properties.None? then Step(comp, data, false, false)
    else
      var ps := comp.properties.value;
      match ValueIndex(ps)
      case None => Step(comp, data, false, false)
      case Some(i) =>
        var p := ps[i].prop;
        if p.condition == "" then Step(comp, data, false, false)
        else
          var ev := h.evaluateValue(p.condition, data);
          if ev.Err? || h.resolveType(ev.value, comp.typ) == comp.value then Step(comp, data, false, false)
          else
            var v := h.resolveType(ev.value, comp.typ);
            match SetValueSpec(comp.schema, v, data)
            case TypeError => Step(comp.(value := v), data, true, true)
            case Success(d) =>
              Step(comp.(value := v, properties := Some(ps[i := Entry("value", p.(value := Bool(true)))])), d, true, false)
  }

  /*
   * A wave over the component list, one full round, and the resolver.
   */

  datatype Wave = First | Second

  function WaveStep(h: Helpers, w: Wave, comp: Component, data: Val): Step
  {
    if w == First then FirstWaveStep(h, comp, data) else SecondWaveStep(h, comp, data)
  }

  /** The state after a wave, whether it changed some component's value, and whether it threw. */
  datatype Sweep = Sweep(st: St, changed: bool, threw: bool)

  function Pass(h: Helpers, w: Wave, order: seq<nat>, st: St): (r: Sweep)
    requires InBounds(order, |st.store|)
    ensures |r.st.store| == |st.store|
    decreases |order|
  {
    if order == [] then Sweep(st, false, false)
    else
      var k := order[0];
      var s := WaveStep(h, w, st.store[k], st.data);
      var st' := St(st.store[k := s.comp], s.data);
      if s.threw then Sweep(st', true, true)
      else
        var rest := Pass(h, w, order[1..], st');
        Sweep(rest.st, s.changed || rest.changed, rest.threw)
  }

  /** Wave one, then wave two when wave one changed a value; `changed` reports whether wave two changed one. */
  function Round(h: Helpers, order: seq<nat>, st: St): (r: Sweep)
    requires InBounds(order, |st.store|)
    ensures |r.st.store| == |st.store|
  {
    var w1 := Pass(h, First, order, st);
    if w1.threw || !w1.changed then Sweep(w1.st, false, w1.threw)
    else Pass(h, Second, order, w1.st)
  }

  /**
   * `resolveConditions(formState, reRun)`: one round, and a second one only
   * when the first round's wave two changed a value and this is not
   * already the rerun. There is no third round.
   */
  function ResolveSpec(h: Helpers, order: seq<nat>, st: St, reRun: bool): (r: Run)
    requires InBounds(order, |st.store|)
    ensures |r.st.store| == |st.store|
  {
    var r1 := Round(h, order, st);
    if r1.threw then Run(r1.st, true)
    else if r1.changed && !reRun then
      var r2 := Round(h, order, r1.st);
      Run(r2.st, r2.threw)
    else Run(r1.st, false)
  }

  /*
   * The edit handler.
   */

  /** The components `updateComponent` re-reads: same schema as the edited one, or a non-empty schema without a dot. */
  predicate Refreshed(schema: string, edited: string)
  {
    schema == edited || (schema != "" && '.' !in schema)
  }

  function Refresh(h: Helpers, order: seq<nat>, store: seq<Component>, data: Val, edited: string): (r: seq<Component>)
    requires InBounds(order, |store|)
    ensures |r| == |store|
    decreases |order|
  {
    if order == [] then store
    else
      var c := store[order[0]];
      var store' := if Refreshed(c.schema, edited)
                    then store[order[0] := c.(value := GetValue(h, c.schema, data, c.typ))]
                    else store;
      Refresh(h, order[1..], store', data, edited)
  }

  /** `updateComponent(component, formState)` for the component at arena index `c`. */
  function UpdateSpec(h: Helpers, order: seq<nat>, st: St, c: nat): (r: Run)
    requires InBounds(order, |st.store|) && c < |st.store|
    ensures |r.st.store| == |st.store|
  {
    var comp := st.store[c];
    match SetValueSpec(comp.schema, h.resolveType(comp.value, comp.typ), st.data)
    case TypeError => Run(st, true)
    case Success(d) => ResolveSpec(h, order, St(Refresh(h, order, st.store, d, comp.schema), d), false)
  }

  /*
   * What the resolver promises.
   */

  /**
   * One property key of wave one: a property without a condition is
   * deleted and nothing else happens; one with a condition is kept under its
   * name with its condition; a non-`value` property holds its condition's
   * result and writes neither the record nor the component; a throw leaves
   * the component, the property and the record as they were.
   */
  lemma PropertyStep(h: Helpers, e: Entry, comp: Component, data: Val)
    ensures var o := EntryStep(h, e, comp, data);
      && (e.prop.condition == "" ==> o.entry.None? && o.comp == comp && o.data == data && !o.changed && !o.threw)
      && (e.prop.condition != "" ==> o.entry.Some? && o.entry.value.name == e.name
                                     && o.entry.value.prop.condition == e.prop.condition)
      && (e.name != "value" && e.prop.condition != "" ==>
            && o.entry == Some(Entry(e.name, Property(e.prop.condition, h.evaluateCondition(e.prop.condition, data).value)))
            && o.comp == comp && o.data == data && !o.changed && !o.threw)
      && (o.threw ==> o.comp == comp && o.entry == Some(e) && o.data == data)
  {
  }

  /** The path `q` follows the schema's path for `j` keys and then leaves it. */
  predicate Diverges(schema: string, q: seq<string>, j: nat)
  {
    schema != "" && j < |Split(schema)| && j < |q| && q[..j] == Split(schema)[..j] && q[j] != Split(schema)[j]
  }

  /**
   * A computed value in wave one. The property keeps its condition and
   * holds the evaluation's value whenever the step does not throw, an error
   * included. An evaluation error, or a coerced result equal to the
   * component's value, writes nothing. A new coerced result is set in the
   * component and, normalised, at the component's schema in the record,
   * leaving every path that leaves the schema's path unchanged; the step
   * throws exactly when a truthy non-object blocks that path, and then
   * changes nothing.
   */
  lemma ComputedValueWrite(h: Helpers, e: Entry, comp: Component, data: Val, q: seq<string>, j: nat)
    requires e.name == "value" && e.prop.condition != ""
    ensures var ev := h.evaluateValue(e.prop.condition, data);
            var v := h.resolveType(ev.value, comp.typ);
            var o := EntryStep(h, e, comp, data);
            && (!o.threw ==> o.entry == Some(Entry("value", Property(e.prop.condition, ev.value))))
            && (o.threw <==> ev.Ok? && v != comp.value && comp.schema != "" && Blocked(data, Split(comp.schema)))
            && (o.threw ==> o.comp == comp && o.data == data)
            && (ev.Err? ==> o.comp == comp && o.data == data && !o.changed)
            && (ev.Ok? && v == comp.value ==> o.comp == comp && o.data == data && !o.changed)
            && (ev.Ok? && v != comp.value && !o.threw ==>
                  && o.changed
                  && o.comp.value == v
                  && (comp.schema != "" ==> Lookup(o.data, Split(comp.schema)) == Normalise(v))
                  && (comp.schema == "" ==> o.data == data)
                  && (Diverges(comp.schema, q, j) ==> Lookup(o.data, q) == Lookup(data, q)))
  {
    var ev := h.evaluateValue(e.prop.condition, data);
    var v := h.resolveType(ev.value, comp.typ);
    SetValueThrowsIff(comp.schema, v, data);
    if ev.Ok? && comp.schema != "" && v != comp.value && SetValueSpec(comp.schema, v, data).Success? {
      SetValueRoundTrip(comp.schema, v, data);
      if Diverges(comp.schema, q, j) {
        SetValueFrame(comp.schema, v, data, q, j);
      }
    }
  }

  /**
   * Wave two on one component. Only the first `value` property is looked
   * at, and only when it has a condition; an evaluation error or a coerced
   * result equal to the component's value does nothing. A new result becomes
   * the component's value before the record is written, so it stays when
   * the write throws (which happens exactly when a truthy non-object blocks
   * the schema's path). Otherwise the record reads the result back,
   * normalised, at the schema, every path leaving the schema's path reads
   * as before, the `value` property holds `true` under its condition, and
   * every other property is untouched.
   */
  lemma SecondWaveWrite(h: Helpers, comp: Component, data: Val, q: seq<string>, j: nat)
    ensures var s := SecondWaveStep(h, comp, data);
      && s.comp.componentId == comp.componentId && s.comp.schema == comp.schema && s.comp.typ == comp.typ
      && (comp.properties.None? || ValueIndex(comp.properties.value).None? ==> s == Step(comp, data, false, false))
      && (comp.properties.Some? && ValueIndex(comp.properties.value).Some? ==>
            var ps := comp.properties.value;
            var i := ValueIndex(ps).value;
            var ev := h.evaluateValue(ps[i].prop.condition, data);
            var v := h.resolveType(ev.value, comp.typ);
            && (ps[i].prop.condition == "" || ev.Err? || v == comp.value ==> s == Step(comp, data, false, false))
            && (ps[i].prop.condition != "" && ev.Ok? && v != comp.value ==>
                  && s.changed && s.comp.value == v
                  && (s.threw <==> comp.schema != "" && Blocked(data, Split(comp.schema)))
                  && (s.threw ==> s.comp == comp.(value := v) && s.data == data)
                  && (!s.threw ==>
                        && s.comp.properties.Some? && |s.comp.properties.value| == |ps|
                        && s.comp.properties.value[i] == Entry("value", Property(ps[i].prop.condition, Bool(true)))
                        && (forall t :: 0 <= t < |ps| && t != i ==> s.comp.properties.value[t] == ps[t])
                        && (comp.schema != "" ==> Lookup(s.data, Split(comp.schema)) == Normalise(v))
                        && (comp.schema == "" ==> s.data == data)
                        && (Diverges(comp.schema, q, j) ==> Lookup(s.data, q) == Lookup(data, q)))))
  {
    if comp.properties.Some? && ValueIndex(comp.properties.value).Some? {
      var ps := comp.properties.value;
      var i := ValueIndex(ps).value;
      var ev := h.evaluateValue(ps[i].prop.condition, data);
      var v := h.resolveType(ev.value, comp.typ);
      SetValueThrowsIff(comp.schema, v, data);
      if ps[i].prop.condition != "" && ev.Ok? && v != comp.value && comp.schema != ""
         && SetValueSpec(comp.schema, v, data).Success? {
        SetValueRoundTrip(comp.schema, v, data);
        if Diverges(comp.schema, q, j) {
          SetValueFrame(comp.schema, v, data, q, j);
        }
      }
    }
  }

  /** Every property left has a condition. */
  predicate Pruned(c: Component)
  {
    c.properties.Some? ==> forall i :: 0 <= i < |c.properties.value| ==> c.properties.value[i].prop.condition != ""
  }

  /** Every component the list names is pruned. */
  predicate AllPruned(order: seq<nat>, store: seq<Component>)
  {
    forall k :: 0 <= k < |store| && k in order ==> Pruned(store[k])
  }

  /** Identity, binding and type of every slot are the same in both arenas. */
  predicate SameIdentity(a: seq<Component>, b: seq<Component>)
  {
    && |a| == |b|
    && forall k :: 0 <= k < |a| ==>
         a[k].componentId == b[k].componentId && a[k].schema == b[k].schema && a[k].typ == b[k].typ
  }

  /** Slots that the list does not name are the same in both arenas. */
  predicate OutsideUnchanged(order: seq<nat>, a: seq<Component>, b: seq<Component>)
  {
    |a| == |b| && forall k :: 0 <= k < |a| && k !in order ==> b[k] == a[k]
  }

  /** Wave one keeps the properties that have a condition, in order, and drops the rest; a throw keeps the rest as it was. */
  lemma {:induction false} PropsPassPrunes(h: Helpers, ps: seq<Entry>, comp: Component, data: Val)
    ensures var r := PropsPass(h, ps, comp, data);
            && (!r.threw ==> forall i :: 0 <= i < |r.kept| ==> r.kept[i].prop.condition != "")
            && ((forall i :: 0 <= i < |ps| ==> ps[i].prop.condition != "") ==>
                  forall i :: 0 <= i < |r.kept| ==> r.kept[i].prop.condition != "")
            && r.comp == comp.(value := r.comp.value)
    decreases |ps|
  {
    if ps != [] {
      var o := EntryStep(h, ps[0], comp, data);
      PropertyStep(h, ps[0], comp, data);
      if !o.threw {
        PropsPassPrunes(h, ps[1..], o.comp, o.data);
        var rest := PropsPass(h, ps[1..], o.comp, o.data);
        var kept := OptSeq(o.entry) + rest.kept;
        if !rest.threw || forall i :: 0 <= i < |ps| ==> ps[i].prop.condition != "" {
          forall i | 0 <= i < |kept|
            ensures kept[i].prop.condition != ""
          {
            if i >= |OptSeq(o.entry)| {
              assert kept[i] == rest.kept[i - |OptSeq(o.entry)|];
              if rest.threw {
                assert forall i :: 0 <= i < |ps[1..]| ==> ps[1..][i].prop.condition != "" by {
                  forall i | 0 <= i < |ps[1..]| ensures ps[1..][i].prop.condition != "" {
                    assert ps[1..][i] == ps[i + 1];
                  }
                }
              }
            }
          }
        }
      }
    }
  }

  lemma WaveStepPrunes(h: Helpers, w: Wave, comp: Component, data: Val)
    ensures var s := WaveStep(h, w, comp, data);
            && (w == First && !s.threw ==> Pruned(s.comp))
            && (Pruned(comp) ==> Pruned(s.comp))
            && s.comp.componentId == comp.componentId && s.comp.schema == comp.schema && s.comp.typ == comp.typ
  {
    if w == First {
      FirstWavePrunes(h, comp, data);
    } else {
      SecondWaveKeeps(h, comp, data);
    }
  }

  lemma FirstWavePrunes(h: Helpers, comp: Component, data: Val)
    ensures var s := FirstWaveStep(h, comp, data);
            && (!s.threw ==> Pruned(s.comp))
            && (Pruned(comp) ==> Pruned(s.comp))
            && s.comp.componentId == comp.componentId && s.comp.schema == comp.schema && s.comp.typ == comp.typ
  {
    if comp.properties.Some? {
      PropsPassPrunes(h, comp.properties.value, comp, data);
    }
  }

  /** Wave two changes only the component's value and the computed property's value. */
  lemma SecondWaveKeeps(h: Helpers, comp: Component, data: Val)
    ensures var s := SecondWaveStep(h, comp, data);
            && (Pruned(comp) ==> Pruned(s.comp))
            && s.comp.componentId == comp.componentId && s.comp.schema == comp.schema && s.comp.typ == comp.typ
  {
  }

  /** A wave changes no slot's identity, binding or type, and no slot the list does not name. */
  lemma {:induction false} PassFrame(h: Helpers, w: Wave, order: seq<nat>, st: St)
    requires InBounds(order, |st.store|)
    ensures SameIdentity(st.store, Pass(h, w, order, st).st.store)
    ensures OutsideUnchanged(order, st.store, Pass(h, w, order, st).st.store)
    decreases |order|
  {
    if order != [] {
      var k := order[0];
      var s := WaveStep(h, w, st.store[k], st.data);
      WaveStepPrunes(h, w, st.store[k], st.data);
      var st' := St(st.store[k := s.comp], s.data);
      if !s.threw {
        PassFrame(h, w, order[1..], st');
      }
    }
  }

  /**
   * A wave keeps every listed component pruned, and wave one prunes every
   * listed component unless it throws.
   */
  lemma {:induction false} PassPrunes(h: Helpers, w: Wave, order: seq<nat>, st: St)
    requires InBounds(order, |st.store|)
    ensures var r := Pass(h, w, order, st);
            && (w == First && !r.threw ==> AllPruned(order, r.st.store))
            && (AllPruned(order, st.store) ==> AllPruned(order, r.st.store))
    decreases |order|
  {
    if order != [] {
      var k := order[0];
      var s := WaveStep(h, w, st.store[k], st.data);
      WaveStepPrunes(h, w, st.store[k], st.data);
      var st' := St(st.store[k := s.comp], s.data);
      if !s.threw {
        var rest := order[1..];
        PassPrunes(h, w, rest, st');
        PassFrame(h, w, rest, st');
        var r := Pass(h, w, rest, st');
        if (w == First && !r.threw) || AllPruned(order, st.store) {
          forall x | 0 <= x < |st.store| && x in order
            ensures Pruned(r.st.store[x])
          {
            if x !in rest {
              assert x == k;
            }
          }
        }
      }
    }
  }

  /**
   * After a resolver run that does not throw, no component of the list has a
   * property without a condition; the run changes no component's identity,
   * binding or type, and no component outside the list.
   */
  lemma ResolvePrunes(h: Helpers, order: seq<nat>, st: St, reRun: bool)
    requires InBounds(order, |st.store|)
    ensures var r := ResolveSpec(h, order, st, reRun);
            && (!r.threw ==> AllPruned(order, r.st.store))
            && SameIdentity(st.store, r.st.store)
            && OutsideUnchanged(order, st.store, r.st.store)
  {
    RoundPrunes(h, order, st);
    var r1 := Round(h, order, st);
    if !r1.threw && r1.changed && !reRun {
      RoundPrunes(h, order, r1.st);
    }
  }

  lemma RoundPrunes(h: Helpers, order: seq<nat>, st: St)
    requires InBounds(order, |st.store|)
    ensures var r := Round(h, order, st);
            && (!r.threw ==> AllPruned(order, r.st.store))
            && SameIdentity(st.store, r.st.store)
            && OutsideUnchanged(order, st.store, r.st.store)
  {
    PassPrunes(h, First, order, st);
    PassFrame(h, First, order, st);
    var w1 := Pass(h, First, order, st);
    if !w1.threw && w1.changed {
      PassPrunes(h, Second, order, w1.st);
      PassFrame(h, Second, order, w1.st);
    }
  }

  /** The component has a `value` property with a condition, i.e. a computed value. */
  predicate HasComputed(c: Component)
  {
    && c.properties.Some?
    && exists i :: 0 <= i < |c.properties.value| &&
         c.properties.value[i].name == "value" && c.properties.value[i].prop.condition != ""
  }

  /** Reference for wave one without computed values: conditionless properties dropped, the others holding their condition's result. */
  function Evaluated(h: Helpers, ps: seq<Entry>, data: Val): (r: seq<Entry>)
    decreases |ps|
  {
    if ps == [] then []
    else
      var e := ps[0];
      var head := if e.prop.condition == "" then []
                  else [Entry(e.name, Property(e.prop.condition, h.evaluateCondition(e.prop.condition, data).value))];
      head + Evaluated(h, ps[1..], data)
  }

  function Conditions(h: Helpers, c: Component, data: Val): Component
  {
    if c.properties.Some? then c.(properties := Some(Evaluated(h, c.properties.value, data))) else c
  }

  /** Without a computed value, wave one on a component is `Evaluated`: the record and the value stay as they were. */
  lemma {:induction false} PropsPassConditions(h: Helpers, ps: seq<Entry>, comp: Component, data: Val)
    requires forall i :: 0 <= i < |ps| ==> ps[i].name != "value" || ps[i].prop.condition == ""
    ensures PropsPass(h, ps, comp, data) == PropsOut(comp, Evaluated(h, ps, data), data, false, false)
    decreases |ps|
  {
    if ps != [] {
      assert ps[0].name != "value" || ps[0].prop.condition == "";
      PropertyStep(h, ps[0], comp, data);
      PropsPassConditions(h, ps[1..], comp, data);
    }
  }

  /** Evaluating the conditions again against the same record changes nothing. */
  lemma {:induction false} EvaluatedAgain(h: Helpers, ps: seq<Entry>, data: Val)
    ensures Evaluated(h, Evaluated(h, ps, data), data) == Evaluated(h, ps, data)
    decreases |ps|
  {
    if ps != [] {
      EvaluatedAgain(h, ps[1..], data);
      if ps[0].prop.condition != "" {
        var r := Evaluated(h, ps, data);
        var tail := Evaluated(h, ps[1..], data);
        var e := ps[0];
        var e' := Entry(e.name, Property(e.prop.condition, h.evaluateCondition(e.prop.condition, data).value));
        assert r == [e'] + tail;
        assert r[0] == e' && r[1..] == tail;
        assert Evaluated(h, r, data) == [e'] + Evaluated(h, tail, data);
      } else {
        assert Evaluated(h, ps, data) == Evaluated(h, ps[1..], data);
      }
    }
  }

  /** Evaluating the conditions adds no computed value: every property left has a condition and none is `value`. */
  lemma {:induction false} EvaluatedPlain(h: Helpers, ps: seq<Entry>, data: Val)
    requires forall i :: 0 <= i < |ps| ==> ps[i].name != "value" || ps[i].prop.condition == ""
    ensures forall i :: 0 <= i < |Evaluated(h, ps, data)| ==>
      Evaluated(h, ps, data)[i].name != "value" && Evaluated(h, ps, data)[i].prop.condition != ""
    decreases |ps|
  {
    if ps != [] {
      assert forall i :: 0 <= i < |ps[1..]| ==> ps[1..][i] == ps[i + 1];
      EvaluatedPlain(h, ps[1..], data);
      assert ps[0].name != "value" || ps[0].prop.condition == "";
    }
  }

  lemma ConditionsAgain(h: Helpers, c: Component, data: Val)
    requires !HasComputed(c)
    ensures Conditions(h, Conditions(h, c, data), data) == Conditions(h, c, data)
    ensures !HasComputed(Conditions(h, c, data))
  {
    if c.properties.Some? {
      EvaluatedAgain(h, c.properties.value, data);
      EvaluatedPlain(h, c.properties.value, data);
    }
  }

  lemma FirstWaveConditions(h: Helpers, c: Component, data: Val)
    requires !HasComputed(c)
    ensures FirstWaveStep(h, c, data) == Step(Conditions(h, c, data), data, false, false)
  {
    if c.properties.Some? {
      PropsPassConditions(h, c.properties.value, c, data);
    }
  }

  /** Wave one over a list without computed values: each listed component gets its conditions evaluated, and nothing else changes. */
  lemma {:induction false} PassConditions(h: Helpers, order: seq<nat>, st: St)
    requires InBounds(order, |st.store|)
    requires forall k :: 0 <= k < |st.store| && k in order ==> !HasComputed(st.store[k])
    ensures var r := Pass(h, First, order, st);
            && !r.threw && !r.changed && r.st.data == st.data
            && forall k :: 0 <= k < |st.store| ==>
                 r.st.store[k] == if k in order then Conditions(h, st.store[k], st.data) else st.store[k]
    decreases |order|
  {
    if order != [] {
      var k0 := order[0];
      FirstWaveConditions(h, st.store[k0], st.data);
      ConditionsAgain(h, st.store[k0], st.data);
      var st' := St(st.store[k0 := Conditions(h, st.store[k0], st.data)], st.data);
      PassConditions(h, order[1..], st');
    }
  }

  /**
   * When no listed component has a computed value, the resolver runs wave
   * one only: the record and every component value stay as they were, the
   * conditionless properties go, and each remaining property holds its
   * condition's result against the record.
   */
  lemma ResolveWithoutComputed(h: Helpers, order: seq<nat>, st: St, reRun: bool)
    requires InBounds(order, |st.store|)
    requires forall k :: 0 <= k < |st.store| && k in order ==> !HasComputed(st.store[k])
    ensures var r := ResolveSpec(h, order, st, reRun);
            && !r.threw && r.st.data == st.data
            && forall k :: 0 <= k < |st.store| ==>
                 r.st.store[k] == if k in order then Conditions(h, st.store[k], st.data) else st.store[k]
  {
    PassConditions(h, order, st);
  }

  /*
   * Settling: what wave two and the rerun are for.
   */

  /**
   * A computed value that wave two would leave alone: the component has no
   * `value` property, that property has no condition, its evaluation
   * reports an error, or the coerced result is already the component's
   * value.
   */
  predicate Settled(h: Helpers, c: Component, data: Val)
  {
    c.properties.Some? && ValueIndex(c.properties.value).Some? ==>
      var p := c.properties.value[ValueIndex(c.properties.value).value].prop;
      var ev := h.evaluateValue(p.condition, data);
      p.condition == "" || ev.Err? || h.resolveType(ev.value, c.typ) == c.value
  }

  /** Every component the list names is settled against the record. */
  predicate AllSettled(h: Helpers, order: seq<nat>, st: St)
  {
    forall k :: 0 <= k < |st.store| && k in order ==> Settled(h, st.store[k], st.data)
  }

  /** A `value` entry that wave one kept without changing anything: a condition whose result changes nothing. */
  predicate QuietEntry(h: Helpers, e: Entry, comp: Component, data: Val)
  {
    var ev := h.evaluateValue(e.prop.condition, data);
    e.prop.condition != "" && (ev.Err? || h.resolveType(ev.value, comp.typ) == comp.value)
  }

  /** Wave two on one component changes something exactly when the component is not settled. */
  lemma SettledQuiet(h: Helpers, c: Component, data: Val)
    ensures Settled(h, c, data) <==> SecondWaveStep(h, c, data) == Step(c, data, false, false)
    ensures !Settled(h, c, data) <==> SecondWaveStep(h, c, data).changed
  {
    SecondWaveWrite(h, c, data, [], 0);
  }

  /**
   * Wave one over a property list that changed nothing and did not throw
   * left the component and the record as they were, and every `value`
   * entry it kept is quiet against them.
   */
  lemma {:induction false} PropsPassQuiet(h: Helpers, ps: seq<Entry>, comp: Component, data: Val)
    ensures var r := PropsPass(h, ps, comp, data);
            !r.changed && !r.threw ==>
              && r.comp == comp && r.data == data
              && forall i :: 0 <= i < |r.kept| && r.kept[i].name == "value" ==> QuietEntry(h, r.kept[i], comp, data)
    decreases |ps|
  {
    if ps != [] {
      var o := EntryStep(h, ps[0], comp, data);
      EntryQuiet(h, ps[0], comp, data);
      if !o.threw && !o.changed {
        var rest := PropsPass(h, ps[1..], comp, data);
        assert PropsPass(h, ps, comp, data) == PropsOut(rest.comp, OptSeq(o.entry) + rest.kept, rest.data, rest.changed, rest.threw);
        PropsPassQuiet(h, ps[1..], comp, data);
        var kept := OptSeq(o.entry) + rest.kept;
        if !rest.changed && !rest.threw {
          forall i | 0 <= i < |kept| && kept[i].name == "value"
            ensures QuietEntry(h, kept[i], comp, data)
          {
            if i >= |OptSeq(o.entry)| {
              assert kept[i] == rest.kept[i - |OptSeq(o.entry)|];
            }
          }
        }
      }
    }
  }

  /** One key of wave one that changed nothing and did not throw: a `value` entry it keeps is quiet. */
  lemma EntryQuiet(h: Helpers, e: Entry, comp: Component, data: Val)
    ensures var o := EntryStep(h, e, comp, data);
            !o.changed && !o.threw ==>
              && o.comp == comp && o.data == data
              && (o.entry.Some? && o.entry.value.name == "value" ==> QuietEntry(h, o.entry.value, comp, data))
  {
  }

  /** Wave one on one component that changed nothing and did not throw leaves it settled and the record as it was. */
  lemma FirstWaveQuiet(h: Helpers, comp: Component, data: Val)
    ensures var s := FirstWaveStep(h, comp, data);
            !s.changed && !s.threw ==> s.data == data && s.comp.value == comp.value && Settled(h, s.comp, data)
  {
    if comp.properties.Some? {
      var ps := comp.properties.value;
      PropsPassQuiet(h, ps, comp, data);
      var r := PropsPass(h, ps, comp, data);
      if !r.changed && !r.threw && ValueIndex(r.kept).Some? {
        assert QuietEntry(h, r.kept[ValueIndex(r.kept).value], comp, data);
      }
    }
  }

  /**
   * A wave one that changed no value and did not throw kept the record and
   * left every listed component settled.
   */
  lemma {:induction false} QuietFirstWave(h: Helpers, order: seq<nat>, st: St)
    requires InBounds(order, |st.store|)
    ensures var r := Pass(h, First, order, st);
            !r.changed && !r.threw ==> r.st.data == st.data && AllSettled(h, order, r.st)
    decreases |order|
  {
    if order != [] {
      var k := order[0];
      var s := FirstWaveStep(h, st.store[k], st.data);
      FirstWaveQuiet(h, st.store[k], st.data);
      if !s.changed && !s.threw {
        var st' := St(st.store[k := s.comp], s.data);
        var rest := order[1..];
        QuietFirstWave(h, rest, st');
        PassFrame(h, First, rest, st');
        var r := Pass(h, First, rest, st');
        if !r.changed && !r.threw {
          forall x | 0 <= x < |r.st.store| && x in order
            ensures Settled(h, r.st.store[x], r.st.data)
          {
            if x !in rest {
              assert x == k && r.st.store[x] == s.comp;
            }
          }
        }
      }
    }
  }

  /**
   * Wave two changes nothing exactly when every listed component is
   * settled, and then it leaves the arena and the record as they were.
   */
  lemma {:induction false} QuietSecondWave(h: Helpers, order: seq<nat>, st: St)
    requires InBounds(order, |st.store|)
    ensures var r := Pass(h, Second, order, st);
            && (!r.changed <==> AllSettled(h, order, st))
            && (!r.changed ==> r == Sweep(st, false, false))
    decreases |order|
  {
    if order != [] {
      var k := order[0];
      SettledQuiet(h, st.store[k], st.data);
      if Settled(h, st.store[k], st.data) {
        assert St(st.store[k := st.store[k]], st.data) == st;
        QuietSecondWave(h, order[1..], st);
        assert AllSettled(h, order, st) <==> AllSettled(h, order[1..], st) by {
          assert forall x :: x in order <==> x == k || x in order[1..];
        }
      }
    }
  }

  /** A round that reports no change to a computed value, and did not throw, leaves every listed component settled. */
  lemma RoundSettles(h: Helpers, order: seq<nat>, st: St)
    requires InBounds(order, |st.store|)
    ensures var r := Round(h, order, st);
            !r.threw && !r.changed ==> AllSettled(h, order, r.st)
  {
    var w1 := Pass(h, First, order, st);
    if !w1.threw {
      if w1.changed {
        QuietSecondWave(h, order, w1.st);
      } else {
        QuietFirstWave(h, order, st);
      }
    }
  }

  /**
   * The resolver settles chained computed values as far as its single
   * rerun reaches. When the first round reports no change, the run ends
   * there with every listed component settled. When it reports a change
   * and this is not already the rerun, the rerun round follows, and the
   * run ends settled unless that round still changed a value. Settling is
   * not promised when the first round changed a value during a rerun, or
   * the rerun round still changed one: there is no third round.
   */
  lemma ResolveSettles(h: Helpers, order: seq<nat>, st: St, reRun: bool)
    requires InBounds(order, |st.store|)
    ensures var r1 := Round(h, order, st);
            var r := ResolveSpec(h, order, st, reRun);
            && (!r1.threw && !r1.changed ==> r == Run(r1.st, false) && AllSettled(h, order, r.st))
            && (!r1.threw && r1.changed && reRun ==> r == Run(r1.st, false))
            && (!r1.threw && r1.changed && !reRun ==>
                  var r2 := Round(h, order, r1.st);
                  r == Run(r2.st, r2.threw) && (!r2.threw && !r2.changed ==> AllSettled(h, order, r.st)))
  {
    RoundSettles(h, order, st);
    var r1 := Round(h, order, st);
    if !r1.threw && r1.changed && !reRun {
      RoundSettles(h, order, r1.st);
    }
  }

  /*
   * What the edit handler promises.
   */

  /**
   * The refresh re-reads exactly the listed components whose schema is the
   * edited one or a non-empty schema without a dot, from the record as
   * written; every other slot is untouched.
   */
  lemma {:induction false} RefreshExact(h: Helpers, order: seq<nat>, store: seq<Component>, data: Val, edited: string)
    requires InBounds(order, |store|)
    ensures forall k :: 0 <= k < |store| ==>
      Refresh(h, order, store, data, edited)[k]
        == if k in order && Refreshed(store[k].schema, edited)
           then store[k].(value := GetValue(h, store[k].schema, data, store[k].typ))
           else store[k]
    decreases |order|
  {
    if order != [] {
      var k0 := order[0];
      var c := store[k0];
      var store' := if Refreshed(c.schema, edited)
                    then store[k0 := c.(value := GetValue(h, c.schema, data, c.typ))]
                    else store;
      RefreshExact(h, order[1..], store', data, edited);
    }
  }

  /**
   * The edited value is written first: a component without a schema writes
   * nothing; otherwise the write throws exactly when a truthy non-object
   * blocks the schema's path, and then nothing changes. When the write
   * succeeds, the edited value, coerced and normalised, is what the record
   * holds at the edited schema before the resolver runs, every path leaving
   * the schema's path reads as before, and the resolver then runs from the
   * written record and the refreshed arena.
   */
  lemma UpdateWrites(h: Helpers, order: seq<nat>, st: St, c: nat, q: seq<string>, j: nat)
    requires InBounds(order, |st.store|) && c < |st.store|
    ensures var comp := st.store[c];
            var w := SetValueSpec(comp.schema, h.resolveType(comp.value, comp.typ), st.data);
            && (comp.schema == "" ==> w == Success(st.data))
            && (w.TypeError? <==> comp.schema != "" && Blocked(st.data, Split(comp.schema)))
            && (w.TypeError? ==> UpdateSpec(h, order, st, c) == Run(st, true))
            && (w.Success? ==>
                  && (comp.schema != "" ==> Lookup(w.value, Split(comp.schema)) == Normalise(h.resolveType(comp.value, comp.typ)))
                  && (Diverges(comp.schema, q, j) ==> Lookup(w.value, q) == Lookup(st.data, q))
                  && UpdateSpec(h, order, st, c)
                       == ResolveSpec(h, order, St(Refresh(h, order, st.store, w.value, comp.schema), w.value), false))
  {
    var comp := st.store[c];
    var v := h.resolveType(comp.value, comp.typ);
    SetValueThrowsIff(comp.schema, v, st.data);
    if comp.schema != "" && SetValueSpec(comp.schema, v, st.data).Success? {
      SetValueRoundTrip(comp.schema, v, st.data);
      if Diverges(comp.schema, q, j) {
        SetValueFrame(comp.schema, v, st.data, q, j);
      }
    }
  }
}
