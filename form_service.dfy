/**
 * The form service's state-resolution engine, as the imperative code it is:
 * the tree walk that builds the form state, the condition resolver with its
 * two waves and single rerun, the edit handler, and the value stripping
 * done before a form is saved. Every method is proved to compute the
 * functions of `Resolver` (or states its effect outright).
 */
module FormService {
  import opened Values
  import opened Paths
  import opened External
  import opened Forms
  import opened Resolver

  /** A form definition: the page tree and the arena its sections point into. */
  class Form {
    var pages: seq<Page>
    const store: array<Component>

    ghost predicate Valid()
      reads this
    {
      InBounds(Flatten(pages), store.Length)
    }

    constructor (pages: seq<Page>, components: seq<Component>)
      ensures this.pages == pages && store[..] == components && fresh(store)
      ensures InBounds(Flatten(pages), |components|) ==> Valid()
    {
      this.pages := pages;
      store := new Component[|components|](i requires 0 <= i < |components| => components[i]);
    }
  }

  /** `FormState {components, data, form}`: the flat list holds arena indices of `form`'s components. */
  class FormState {
    var components: seq<nat>
    var data: Val
    const form: Form

    ghost predicate Valid()
      reads this
    {
      InBounds(components, form.store.Length)
    }

    ghost function State(): St
      reads this, form.store
    {
      St(form.store[..], data)
    }

    constructor (form: Form, components: seq<nat>, data: Val)
      ensures this.form == form && this.components == components && this.data == data
      ensures InBounds(components, form.store.Length) ==> Valid()
    {
      this.form := form;
      this.components := components;
      this.data := data;
    }

    /**
     * `resolveConditions(formState, reRun)`: wave one over every property of
     * every component, wave two over the computed values when wave one
     * changed one, and one recursive rerun when wave two changed one and
     * this is not already the rerun.
     */
    method ResolveConditions(h: Helpers, reRun: bool) returns (ok: bool)
      requires Valid()
      modifies this`data, form.store
      ensures Valid()
      ensures Run(State(), !ok) == ResolveSpec(h, components, old(State()), reRun)
      decreases if reRun then 0 else 1
    {
      ghost var start := State();
      var recalculate := false;
      var i := 0;
      while i < |components|
        invariant 0 <= i <= |components|
        invariant var rest := Pass(h, First, components[i..], State());
          Pass(h, First, components, start) == Sweep(rest.st, recalculate || rest.changed, rest.threw)
      {
        var k := components[i];
        assert components[i..][0] == k && components[i..][1..] == components[i + 1..];
        var s := ResolveProperties(h, form.store[k], data);
        form.store[k] := s.comp;
        data := s.data;
        if s.threw {
          return false;
        }
        recalculate := recalculate || s.changed;
        i := i + 1;
      }
      ghost var afterFirst := State();
      if recalculate {
        recalculate := false;
        i := 0;
        while i < |components|
          invariant 0 <= i <= |components|
          invariant var rest := Pass(h, Second, components[i..], State());
            Pass(h, Second, components, afterFirst) == Sweep(rest.st, recalculate || rest.changed, rest.threw)
        {
          var k := components[i];
          assert components[i..][0] == k && components[i..][1..] == components[i + 1..];
          var s := ResolveComputedValue(h, form.store[k], data);
          form.store[k] := s.comp;
          data := s.data;
          if s.threw {
            return false;
          }
          recalculate := recalculate || s.changed;
          i := i + 1;
        }
        if recalculate && !reRun {
          ok := ResolveConditions(h, true);
          return;
        }
      }
      ok := true;
    }

    /**
     * `updateComponent(component, formState)` for the component at arena
     * index `c`: write its coerced value at its schema, re-read every
     * component sharing that schema or bound to a top-level key, then run
     * the resolver.
     */
    method UpdateComponent(h: Helpers, c: nat) returns (ok: bool)
      requires Valid() && c < form.store.Length
      modifies this`data, form.store
      ensures Valid()
      ensures Run(State(), !ok) == UpdateSpec(h, components, old(State()), c)
    {
      ghost var start := State();
      var component := form.store[c];
      var value := h.resolveType(component.value, component.typ);
      var written := SetValue(component.schema, value, data);
      if written.TypeError? {
        return false;
      }
      data := written.value;
      ghost var before := form.store[..];
      var i := 0;
      while i < |components|
        invariant 0 <= i <= |components|
        invariant data == written.value
        invariant Refresh(h, components, before, data, component.schema)
               == Refresh(h, components[i..], form.store[..], data, component.schema)
      {
        var k := components[i];
        assert components[i..][0] == k && components[i..][1..] == components[i + 1..];
        var other := form.store[k];
        if other.schema == component.schema || (other.schema != "" && '.' !in other.schema) {
          form.store[k] := other.(value := GetValue(h, other.schema, data, other.typ));
        }
        i := i + 1;
      }
      assert components[i..] == [];
      assert form.store[..] == Refresh(h, components, start.store, data, component.schema);
      assert SetValueSpec(component.schema, value, start.data) == Success(data);
      ok := ResolveConditions(h, false);
    }
  }

  /*
   * Building the form state.
   */

  /** `{...data}`: the record itself when it is an object, `{}` when it is absent or a scalar. */
  function CopyRecord(data: Val): (r: Val)
    ensures r.Obj?
    ensures data.Obj? ==> r == data
    ensures !data.Obj? ==> r == EmptyObj
  {
    if data.Obj? then data else EmptyObj
  }

  /**
   * A component as bound at load time: its id backfilled (a new one recorded
   * in `owner` as handed to arena slot `k`) and its value read from the
   * record, nothing else changed.
   */
  ghost predicate Bound(h: Helpers, data: Val, before: Component, after: Component, owner: map<string, Slot>, k: nat)
  {
    && IdKept(before.componentId, after.componentId, owner, ComponentSlot(k))
    && after == before.(componentId := after.componentId, value := GetValue(h, before.schema, data, before.typ))
  }

  /** The arena after binding the components listed in `visited`: those are bound, every other slot is as it was. */
  ghost predicate StoreBound(h: Helpers, data: Val, store0: seq<Component>, store: seq<Component>, visited: seq<nat>,
                             owner: map<string, Slot>)
  {
    && |store| == |store0|
    && forall k :: 0 <= k < |store| ==>
         if k in visited then Bound(h, data, store0[k], store[k], owner, k) else store[k] == store0[k]
  }

  /** The owner map only records identifiers issued during the walk. */
  ghost predicate OwnerIssued(owner: map<string, Slot>, ids: IdSource, issued0: set<string>)
    reads ids
  {
    issued0 <= ids.issued && owner.Keys <= ids.issued - issued0
  }

  lemma StoreBoundGrow(h: Helpers, data: Val, store0: seq<Component>, store: seq<Component>, visited: seq<nat>,
                       a: map<string, Slot>, b: map<string, Slot>)
    requires StoreBound(h, data, store0, store, visited, a) && Extends(a, b)
    ensures StoreBound(h, data, store0, store, visited, b)
  {
  }

  /** Binding arena slot `k` once more (a first visit, or a repeat that keeps the id it got) keeps the arena bound. */
  lemma BindStep(h: Helpers, data: Val, store0: seq<Component>, store: seq<Component>, visited: seq<nat>,
                 owner: map<string, Slot>, k: nat, id: string)
    requires StoreBound(h, data, store0, store, visited, owner) && k < |store|
    requires IdKept(store[k].componentId, id, owner, ComponentSlot(k))
    ensures StoreBound(h, data, store0,
                       store[k := store[k].(componentId := id, value := GetValue(h, store[k].schema, data, store[k].typ))],
                       visited + [k], owner)
  {
    var after := store[k := store[k].(componentId := id, value := GetValue(h, store[k].schema, data, store[k].typ))];
    forall x | 0 <= x < |after|
      ensures if x in visited + [k] then Bound(h, data, store0[x], after[x], owner, x) else after[x] == store0[x]
    {
      if x == k && k in visited {
        assert Bound(h, data, store0[k], store[k], owner, k);
      }
    }
  }

  /** The innermost walk of `populateComponents`: backfill each component's id, bind its value, push it onto the list. */
  method BindComponents(h: Helpers, fs: FormState, cs: seq<nat>, data: Val, ids: IdSource,
                        ghost store0: seq<Component>, ghost issued0: set<string>, ghost owner0: map<string, Slot>)
      returns (ghost owner: map<string, Slot>)
    requires InBounds(cs, fs.form.store.Length) && ids.Valid() && OwnerIssued(owner0, ids, issued0)
    requires StoreBound(h, data, store0, fs.form.store[..], fs.components, owner0)
    modifies fs`components, fs.form.store, ids
    ensures ids.Valid() && old(ids.issued) <= ids.issued
    ensures OwnerIssued(owner, ids, issued0) && Extends(owner0, owner)
    ensures fs.components == old(fs.components) + cs
    ensures StoreBound(h, data, store0, fs.form.store[..], fs.components, owner)
  {
    owner := owner0;
    var j := 0;
    while j < |cs|
      invariant 0 <= j <= |cs|
      invariant ids.Valid() && old(ids.issued) <= ids.issued
      invariant OwnerIssued(owner, ids, issued0) && Extends(owner0, owner)
      invariant fs.components == old(fs.components) + cs[..j]
      invariant StoreBound(h, data, store0, fs.form.store[..], fs.components, owner)
    {
      var k := cs[j];
      var component := fs.form.store[k];
      var id := component.componentId;
      if id == "" {
        ghost var before := owner;
        id := ids.Next();
        owner := owner[id := ComponentSlot(k)];
        StoreBoundGrow(h, data, store0, fs.form.store[..], fs.components, before, owner);
      }
      BindStep(h, data, store0, fs.form.store[..], fs.components, owner, k, id);
      fs.form.store[k] := component.(componentId := id, value := GetValue(h, component.schema, data, component.typ));
      fs.components := fs.components + [k];
      assert cs[..j + 1] == cs[..j] + [k];
      j := j + 1;
    }
    assert cs[..j] == cs;
  }

  /** One section of the walk (section `s` of page `p`): backfill its id and bind its components when it has a list. */
  method BindSection(h: Helpers, fs: FormState, section: Section, p: nat, s: nat, data: Val, ids: IdSource,
                     ghost store0: seq<Component>, ghost issued0: set<string>, ghost owner0: map<string, Slot>)
      returns (filled: Section, ghost owner: map<string, Slot>)
    requires InBounds(SectionComponents(section), fs.form.store.Length) && ids.Valid() && OwnerIssued(owner0, ids, issued0)
    requires StoreBound(h, data, store0, fs.form.store[..], fs.components, owner0)
    modifies fs`components, fs.form.store, ids
    ensures ids.Valid() && old(ids.issued) <= ids.issued
    ensures OwnerIssued(owner, ids, issued0) && Extends(owner0, owner)
    ensures SectionBackfilled(section, filled, owner, p, s)
    ensures fs.components == old(fs.components) + SectionComponents(section)
    ensures StoreBound(h, data, store0, fs.form.store[..], fs.components, owner)
  {
    owner := owner0;
    filled := section;
    if section.sectionId == "" {
      var id := ids.Next();
      owner := owner[id := SectionSlot(p, s)];
      StoreBoundGrow(h, data, store0, fs.form.store[..], fs.components, owner0, owner);
      filled := section.(sectionId := id);
    }
    if section.components.Some? {
      ghost var mid := owner;
      owner := BindComponents(h, fs, section.components.value, data, ids, store0, issued0, owner);
      assert IdKept(section.sectionId, filled.sectionId, mid, SectionSlot(p, s));
    }
  }

  /** One more section backfilled: the earlier ones stay backfilled under the larger owner map. */
  lemma SectionsSnoc(secs: seq<Section>, filled: seq<Section>, section: Section, p: nat, s: nat,
                     a: map<string, Slot>, b: map<string, Slot>)
    requires s < |secs| && |filled| == s && Extends(a, b)
    requires forall t :: 0 <= t < s ==> SectionBackfilled(secs[t], filled[t], a, p, t)
    requires SectionBackfilled(secs[s], section, b, p, s)
    ensures forall t :: 0 <= t < s + 1 ==> SectionBackfilled(secs[t], (filled + [section])[t], b, p, t)
  {
    forall t | 0 <= t < s + 1
      ensures SectionBackfilled(secs[t], (filled + [section])[t], b, p, t)
    {
      if t < s {
        assert (filled + [section])[t] == filled[t];
        assert SectionBackfilled(secs[t], filled[t], a, p, t);
      }
    }
  }

  /** The section walk of page `p`; yields the sections as backfilled. */
  method BindSections(h: Helpers, fs: FormState, secs: seq<Section>, p: nat, data: Val, ids: IdSource,
                      ghost store0: seq<Component>, ghost issued0: set<string>, ghost owner0: map<string, Slot>)
      returns (filled: seq<Section>, ghost owner: map<string, Slot>)
    requires InBounds(FlattenSections(secs), fs.form.store.Length) && ids.Valid() && OwnerIssued(owner0, ids, issued0)
    requires StoreBound(h, data, store0, fs.form.store[..], fs.components, owner0)
    modifies fs`components, fs.form.store, ids
    ensures ids.Valid() && old(ids.issued) <= ids.issued
    ensures OwnerIssued(owner, ids, issued0) && Extends(owner0, owner)
    ensures |filled| == |secs|
    ensures forall s :: 0 <= s < |secs| ==> SectionBackfilled(secs[s], filled[s], owner, p, s)
    ensures fs.components == old(fs.components) + FlattenSections(secs)
    ensures StoreBound(h, data, store0, fs.form.store[..], fs.components, owner)
  {
    owner := owner0;
    filled := [];
    var s := 0;
    while s < |secs|
      invariant 0 <= s <= |secs| && |filled| == s
      invariant ids.Valid() && old(ids.issued) <= ids.issued
      invariant OwnerIssued(owner, ids, issued0) && Extends(owner0, owner)
      invariant forall t :: 0 <= t < s ==> SectionBackfilled(secs[t], filled[t], owner, p, t)
      invariant fs.components == old(fs.components) + FlattenSections(secs[..s])
      invariant StoreBound(h, data, store0, fs.form.store[..], fs.components, owner)
    {
      ghost var before := owner;
      SectionInBounds(secs, s, fs.form.store.Length);
      var section;
      section, owner := BindSection(h, fs, secs[s], p, s, data, ids, store0, issued0, owner);
      SectionsSnoc(secs, filled, section, p, s, before, owner);
      filled := filled + [section];
      FlattenSectionsSnoc(secs, s);
      ConcatAssoc(old(fs.components), FlattenSections(secs[..s]), SectionComponents(secs[s]));
      s := s + 1;
    }
    assert secs[..s] == secs;
  }

  /** Page `p` of the walk: backfill its id and walk its sections when it has a list. */
  method BindPage(h: Helpers, fs: FormState, page: Page, p: nat, data: Val, ids: IdSource,
                  ghost store0: seq<Component>, ghost issued0: set<string>, ghost owner0: map<string, Slot>)
      returns (filled: Page, ghost owner: map<string, Slot>)
    requires InBounds(PageComponents(page), fs.form.store.Length) && ids.Valid() && OwnerIssued(owner0, ids, issued0)
    requires StoreBound(h, data, store0, fs.form.store[..], fs.components, owner0)
    modifies fs`components, fs.form.store, ids
    ensures ids.Valid() && old(ids.issued) <= ids.issued
    ensures OwnerIssued(owner, ids, issued0) && Extends(owner0, owner)
    ensures PageBackfilled(page, filled, owner, p)
    ensures fs.components == old(fs.components) + PageComponents(page)
    ensures StoreBound(h, data, store0, fs.form.store[..], fs.components, owner)
  {
    owner := owner0;
    filled := page;
    if page.pageId == "" {
      var id := ids.Next();
      owner := owner[id := PageSlot(p)];
      StoreBoundGrow(h, data, store0, fs.form.store[..], fs.components, owner0, owner);
      filled := page.(pageId := id);
    }
    if page.sections.Some? {
      ghost var mid := owner;
      var secs;
      secs, owner := BindSections(h, fs, page.sections.value, p, data, ids, store0, issued0, owner);
      assert IdKept(page.pageId, filled.pageId, mid, PageSlot(p));
      filled := filled.(sections := Some(secs));
    }
  }

  /**
   * The tree walk of `populateComponents`: a new form state over a copy of
   * the record, every missing page, section and component id backfilled from
   * the generator (`owner` records which slot each new id went to), every
   * component's value read from the record at its schema, and the
   * components pushed onto the flat list in document order.
   */
  method BuildState(h: Helpers, form: Form, data: Val, ids: IdSource) returns (fs: FormState, ghost owner: map<string, Slot>)
    requires form.Valid() && ids.Valid()
    modifies form, form.store, ids
    ensures fresh(fs) && fs.form == form && fs.Valid() && form.Valid() && ids.Valid()
    ensures fs.data == CopyRecord(data)
    ensures old(ids.issued) <= ids.issued && owner.Keys <= ids.issued - old(ids.issued)
    ensures Backfilled(old(form.pages), form.pages, owner)
    ensures fs.components == Flatten(old(form.pages)) == Flatten(form.pages)
    ensures StoreBound(h, data, old(form.store[..]), form.store[..], fs.components, owner)
  {
    fs := new FormState(form, [], CopyRecord(data));
    var pages := form.pages;
    ghost var store0, issued0 := form.store[..], ids.issued;
    owner := map[];
    var filled: seq<Page> := [];
    var p := 0;
    while p < |pages|
      invariant 0 <= p <= |pages| && |filled| == p
      invariant fs.data == CopyRecord(data)
      invariant ids.Valid() && issued0 <= ids.issued && OwnerIssued(owner, ids, issued0)
      invariant Backfilled(pages[..p], filled, owner)
      invariant fs.components == Flatten(pages[..p])
      invariant StoreBound(h, data, store0, form.store[..], fs.components, owner)
    {
      ghost var before := owner;
      PageInBounds(pages, p, form.store.Length);
      var page;
      page, owner := BindPage(h, fs, pages[p], p, data, ids, store0, issued0, owner);
      PagesSnoc(pages, filled, page, p, before, owner);
      filled := filled + [page];
      FlattenSnoc(pages, p);
      p := p + 1;
    }
    assert pages[..p] == pages;
    form.pages := filled;
    BackfilledFlatten(pages, filled, owner);
  }

  /** One more page backfilled: the earlier ones stay backfilled under the larger owner map. */
  lemma PagesSnoc(pages: seq<Page>, filled: seq<Page>, page: Page, p: nat, a: map<string, Slot>, b: map<string, Slot>)
    requires p < |pages| && Extends(a, b)
    requires Backfilled(pages[..p], filled, a) && PageBackfilled(pages[p], page, b, p)
    ensures Backfilled(pages[..p + 1], filled + [page], b)
  {
    BackfilledGrow(pages[..p], filled, a, b);
    forall q | 0 <= q < p + 1
      ensures PageBackfilled(pages[..p + 1][q], (filled + [page])[q], b, q)
    {
      if q < p {
        assert pages[..p + 1][q] == pages[..p][q];
        assert (filled + [page])[q] == filled[q];
      }
    }
  }

  /**
   * After the walk, `owner` names the receiver of every new identifier in
   * the tree and the arena, and every identifier present before is kept.
   */
  lemma WalkOwned(h: Helpers, data: Val, pb: seq<Page>, pa: seq<Page>, sb: seq<Component>, sa: seq<Component>,
                  visited: seq<nat>, owner: map<string, Slot>)
    requires Backfilled(pb, pa, owner) && StoreBound(h, data, sb, sa, visited, owner)
    ensures Owned(pb, sb, pa, sa, owner) && IdsKept(pb, sb, pa, sa)
  {
    forall x
      ensures Assigned(pb, sb, pa, sa, x) ==> IdAt(pa, sa, x) in owner && owner[IdAt(pa, sa, x)] == x
      ensures IdAt(pb, sb, x) != "" ==> IdAt(pa, sa, x) == IdAt(pb, sb, x)
    {
      match x
      case PageSlot(p) =>
        if p < |pb| {
          assert PageBackfilled(pb[p], pa[p], owner, p);
        }
      case SectionSlot(p, s) =>
        if p < |pb| {
          assert PageBackfilled(pb[p], pa[p], owner, p);
          if pb[p].sections.Some? && s < |pb[p].sections.value| {
            assert SectionBackfilled(pb[p].sections.value[s], pa[p].sections.value[s], owner, p, s);
          }
        }
      case ComponentSlot(k) =>
    }
  }

  /** Identity, binding and type kept slot by slot keep every slot's identifier. */
  lemma SameIdentityIds(pages: seq<Page>, a: seq<Component>, b: seq<Component>)
    requires SameIdentity(a, b)
    ensures forall x :: IdAt(pages, a, x) == IdAt(pages, b, x)
  {
    forall x
      ensures IdAt(pages, a, x) == IdAt(pages, b, x)
    {
      if x.ComponentSlot? && x.k < |a| {
        assert a[x.k].componentId == b[x.k].componentId;
      }
    }
  }

  /**
   * `populateComponents(form, data)`: the tree walk, then the resolver on
   * the new state. `bound` is the arena as the walk left it, the state the
   * resolver starts from.
   */
  method PopulateComponents(h: Helpers, form: Form, data: Val, ids: IdSource)
      returns (fs: FormState, ok: bool, ghost bound: seq<Component>, ghost owner: map<string, Slot>)
    requires form.Valid() && ids.Valid()
    modifies form, form.store, ids
    ensures fresh(fs) && fs.form == form && fs.Valid() && form.Valid() && ids.Valid()
    ensures old(ids.issued) <= ids.issued && owner.Keys <= ids.issued - old(ids.issued)
    ensures Backfilled(old(form.pages), form.pages, owner) && Identified(form.pages)
    ensures Identified(old(form.pages)) ==> form.pages == old(form.pages)
    ensures fs.components == Flatten(old(form.pages)) == Flatten(form.pages)
    ensures StoreBound(h, data, old(form.store[..]), bound, fs.components, owner)
    ensures Run(fs.State(), !ok) == ResolveSpec(h, fs.components, St(bound, CopyRecord(data)), false)
    ensures forall k :: 0 <= k < form.store.Length && k in fs.components ==> form.store[k].componentId != ""
    ensures IdsKept(old(form.pages), old(form.store[..]), form.pages, form.store[..])
    ensures FreshIds(old(form.pages), old(form.store[..]), form.pages, form.store[..], old(ids.issued))
    ensures Reserved(old(form.pages), old(form.store[..]), old(ids.issued)) ==>
      NewIdsUnique(old(form.pages), old(form.store[..]), form.pages, form.store[..])
  {
    ghost var pages0, store0, issued0 := form.pages, form.store[..], ids.issued;
    fs, owner := BuildState(h, form, data, ids);
    bound := form.store[..];
    BackfillIdentifies(pages0, form.pages, owner);
    if Identified(pages0) {
      BackfillIdentified(pages0, form.pages, owner);
    }
    ResolvePrunes(h, fs.components, fs.State(), false);
    ok := fs.ResolveConditions(h, false);
    WalkIds(h, data, pages0, form.pages, store0, bound, form.store[..], fs.components, owner, issued0);
  }

  /**
   * The identifiers after the walk and the resolver run: those present
   * before are kept, the new ones are fresh and pairwise distinct, each
   * listed component has one, and under reservation no slot shares a new one.
   */
  lemma WalkIds(h: Helpers, data: Val, pb: seq<Page>, pa: seq<Page>, sb: seq<Component>, bound: seq<Component>,
                sa: seq<Component>, visited: seq<nat>, owner: map<string, Slot>, issued: set<string>)
    requires Backfilled(pb, pa, owner) && StoreBound(h, data, sb, bound, visited, owner)
    requires owner.Keys !! issued && SameIdentity(bound, sa)
    ensures IdsKept(pb, sb, pa, sa) && FreshIds(pb, sb, pa, sa, issued)
    ensures forall k :: 0 <= k < |sa| && k in visited ==> sa[k].componentId != ""
    ensures Reserved(pb, sb, issued) ==> NewIdsUnique(pb, sb, pa, sa)
  {
    WalkOwned(h, data, pb, pa, sb, bound, visited, owner);
    SameIdentityIds(pa, bound, sa);
    assert forall x :: Assigned(pb, sb, pa, sa, x) == Assigned(pb, sb, pa, bound, x);
    OwnedFresh(pb, sb, pa, sa, owner, issued);
    forall k | 0 <= k < |sa| && k in visited
      ensures sa[k].componentId != ""
    {
      assert Bound(h, data, sb[k], bound[k], owner, k);
      assert sa[k].componentId == IdAt(pa, sa, ComponentSlot(k)) == IdAt(pa, bound, ComponentSlot(k));
    }
    if Reserved(pb, sb, issued) {
      FreshIdsUnique(pb, sb, pa, sa, issued);
    }
  }

  /*
   * Save-time stripping.
   */

  /** The arena after stripping the components listed in `visited`: those are stripped, every other slot is as it was. */
  ghost predicate StripState(orig: seq<Component>, store: seq<Component>, visited: seq<nat>)
  {
    |store| == |orig| && forall k :: 0 <= k < |orig| ==> store[k] == if k in visited then Strip(orig[k]) else orig[k]
  }

  /** The value of one component and of each of its properties set to `null`. */
  method ClearValues(c: Component) returns (r: Component)
    ensures r == Strip(c)
  {
    r := c.(value := Null);
    if c.properties.Some? {
      var ps := c.properties.value;
      var cleared: seq<Entry> := [];
      var i := 0;
      while i < |ps|
        invariant 0 <= i <= |ps| && |cleared| == i
        invariant forall t :: 0 <= t < i ==> cleared[t] == Entry(ps[t].name, ps[t].prop.(value := Null))
      {
        cleared := cleared + [Entry(ps[i].name, ps[i].prop.(value := Null))];
        i := i + 1;
      }
      assert cleared == StripEntries(ps);
      r := r.(properties := Some(cleared));
    }
  }

  method StripComponents(copy: Form, cs: seq<nat>, ghost orig: seq<Component>, ghost visited: seq<nat>)
    requires InBounds(cs, copy.store.Length)
    requires StripState(orig, copy.store[..], visited)
    modifies copy.store
    ensures StripState(orig, copy.store[..], visited + cs)
  {
    var j := 0;
    while j < |cs|
      invariant 0 <= j <= |cs|
      invariant StripState(orig, copy.store[..], visited + cs[..j])
    {
      var k := cs[j];
      StripIdempotent(orig[k]);
      var cleared := ClearValues(copy.store[k]);
      copy.store[k] := cleared;
      assert visited + cs[..j + 1] == (visited + cs[..j]) + [k];
      j := j + 1;
    }
    assert cs[..j] == cs;
  }

  method StripSections(copy: Form, secs: seq<Section>, ghost orig: seq<Component>, ghost visited: seq<nat>)
      returns (ok: bool)
    requires InBounds(FlattenSections(secs), copy.store.Length)
    requires StripState(orig, copy.store[..], visited)
    modifies copy.store
    ensures ok <==> ComponentListsPresent(secs)
    ensures ok ==> StripState(orig, copy.store[..], visited + FlattenSections(secs))
  {
    var s := 0;
    while s < |secs|
      invariant 0 <= s <= |secs|
      invariant ComponentListsPresent(secs[..s])
      invariant StripState(orig, copy.store[..], visited + FlattenSections(secs[..s]))
    {
      if secs[s].components.None? {
        return false;
      }
      SectionInBounds(secs, s, copy.store.Length);
      StripComponents(copy, secs[s].components.value, orig, visited + FlattenSections(secs[..s]));
      FlattenSectionsSnoc(secs, s);
      assert visited + FlattenSections(secs[..s + 1]) == (visited + FlattenSections(secs[..s])) + secs[s].components.value;
      s := s + 1;
    }
    assert secs[..s] == secs;
    ok := true;
  }

  /** One page of the stripping walk; fails when the page has no section list or a section has no component list. */
  method StripPage(copy: Form, page: Page, ghost orig: seq<Component>, ghost visited: seq<nat>) returns (ok: bool)
    requires InBounds(PageComponents(page), copy.store.Length)
    requires StripState(orig, copy.store[..], visited)
    modifies copy.store
    ensures ok <==> PageListsPresent(page)
    ensures ok ==> StripState(orig, copy.store[..], visited + PageComponents(page))
  {
    if page.sections.None? {
      return false;
    }
    ok := StripSections(copy, page.sections.value, orig, visited);
  }

  /**
   * The value-stripping loop of `saveForm`: on a deep copy of the form,
   * every listed component's value and property values become `null`. The
   * walk does not check for absent lists, so it fails (`ok` false) when a
   * page has no section list or a section no component list. The original
   * form is not touched.
   */
  method StripForSave(form: Form) returns (copy: Form, ok: bool)
    requires form.Valid()
    ensures fresh(copy) && fresh(copy.store) && copy.pages == form.pages && copy.store.Length == form.store.Length
    ensures ok <==> ListsPresent(form.pages)
    ensures ok ==> forall k :: 0 <= k < copy.store.Length ==>
      copy.store[k] == if k in Flatten(form.pages) then Strip(form.store[k]) else form.store[k]
  {
    copy := new Form(form.pages, form.store[..]);
    ok := StripPages(copy, form.store[..]);
  }

  /** The page loop of the stripping walk over a copy whose arena still equals `orig`. */
  method StripPages(copy: Form, ghost orig: seq<Component>) returns (ok: bool)
    requires copy.Valid() && copy.store[..] == orig
    modifies copy.store
    ensures ok <==> ListsPresent(copy.pages)
    ensures ok ==> forall k :: 0 <= k < copy.store.Length ==>
      copy.store[k] == if k in Flatten(copy.pages) then Strip(orig[k]) else orig[k]
  {
    var pages := copy.pages;
    var p := 0;
    while p < |pages|
      invariant 0 <= p <= |pages| && pages == copy.pages
      invariant copy.store.Length == |orig|
      invariant forall q :: 0 <= q < p ==> PageListsPresent(pages[q])
      invariant StripState(orig, copy.store[..], Flatten(pages[..p]))
    {
      PageInBounds(pages, p, copy.store.Length);
      ok := StripPage(copy, pages[p], orig, Flatten(pages[..p]));
      if !ok {
        return;
      }
      FlattenSnoc(pages, p);
      p := p + 1;
    }
    assert pages[..p] == pages;
    ok := true;
  }

  /** Wave one on one component: each property key in order, pruning, evaluating and writing computed values back. */
  method ResolveProperties(h: Helpers, comp: Component, data: Val) returns (out: Step)
    ensures out == FirstWaveStep(h, comp, data)
  {
    if comp.properties.None? {
      return Step(comp, data, false, false);
    }
    var r := ResolveKeys(h, comp.properties.value, comp, data);
    out := Step(r.comp.(properties := Some(r.kept)), r.data, r.changed, r.threw);
  }

  /** The loop over the property keys; on a throw the keys from there on are kept as they were. */
  method ResolveKeys(h: Helpers, ps: seq<Entry>, comp: Component, data: Val) returns (r: PropsOut)
    ensures r == PropsPass(h, ps, comp, data)
  {
    var current, d, kept, changed := comp, data, [], false;
    var j := 0;
    while j < |ps|
      invariant 0 <= j <= |ps|
      invariant PropsPass(h, ps, comp, data) == Resume(kept, changed, PropsPass(h, ps[j..], current, d))
    {
      var o := ResolveProperty(h, ps[j], current, d);
      if o.threw {
        assert PropsPass(h, ps, comp, data) == PropsOut(current, kept + ps[j..], d, true, true) by {
          ResumeThrow(h, ps, j, current, d, kept, changed);
        }
        return PropsOut(current, kept + ps[j..], d, true, true);
      }
      assert PropsPass(h, ps, comp, data)
          == Resume(kept + OptSeq(o.entry), changed || o.changed, PropsPass(h, ps[j + 1..], o.comp, o.data)) by {
        ResumeStep(h, ps, j, current, d, kept, changed);
      }
      current, d := o.comp, o.data;
      kept := kept + OptSeq(o.entry);
      changed := changed || o.changed;
      j := j + 1;
    }
    ResumeEnd(h, ps, current, d, kept, changed);
    r := PropsOut(current, kept, d, changed, false);
  }

  /**
   * One key of wave one: a property without a condition is deleted; a
   * `value` property is evaluated as a value and, when its coerced result
   * differs from the component's value, written to the record and to the
   * component; any other property is evaluated as a condition. The
   * evaluation's value is stored in the property either way. This is the
   * source's statement sequence; `Resolver.EntryStep` is the reference it is
   * proved against, and `PropertyStep` and `ComputedValueWrite` state what
   * that reference does.
   */
  method ResolveProperty(h: Helpers, e: Entry, comp: Component, data: Val) returns (o: EntryOut)
    ensures o == EntryStep(h, e, comp, data)
  {
    if e.prop.condition == "" {
      return EntryOut(comp, None, data, false, false);
    }
    var ev := if e.name == "value" then h.evaluateValue(e.prop.condition, data)
              else h.evaluateCondition(e.prop.condition, data);
    var current, d, changed := comp, data, false;
    if ev.Ok? && e.name == "value" {
      var v := h.resolveType(ev.value, comp.typ);
      if comp.value != v {
        changed := true;
        var w := SetValue(comp.schema, v, data);
        if w.TypeError? {
          return EntryOut(comp, Some(e), data, true, true);
        }
        d := w.value;
        current := comp.(value := v);
      }
    }
    o := EntryOut(current, Some(Entry(e.name, e.prop.(value := ev.value))), d, changed, false);
  }

  /**
   * Wave two on one component: re-evaluate only its computed value, setting
   * the component's value before the record is written and marking the
   * property `true` when it changes. This is the source's statement
   * sequence; `Resolver.SecondWaveStep` is the reference it is proved
   * against, and `SecondWaveWrite` states what that reference does.
   */
  method ResolveComputedValue(h: Helpers, comp: Component, data: Val) returns (out: Step)
    ensures out == SecondWaveStep(h, comp, data)
  {
    out := Step(comp, data, false, false);
    if comp.properties.Some? {
      var ps := comp.properties.value;
      var at := ValueIndex(ps);
      if at.Some? && ps[at.value].prop.condition != "" {
        var property := ps[at.value].prop;
        var ev := h.evaluateValue(property.condition, data);
        if ev.Ok? {
          var v := h.resolveType(ev.value, comp.typ);
          if comp.value != v {
            var updated := comp.(value := v);
            var w := SetValue(comp.schema, v, data);
            if w.TypeError? {
              return Step(updated, data, true, true);
            }
            out := Step(updated.(properties := Some(ps[at.value := Entry("value", property.(value := Bool(true)))])), w.value, true, false);
          }
        }
      }
    }
  }
}
