/**
 * The form definition: pages of sections of components. Components live in
 * an arena (`Form.store`); the tree's sections and the flat component list
 * hold indices into it, so that a change made through the list is the
 * change seen through the tree, as with the shared objects of the source.
 */
module Forms {
  import opened Values

  /** A property entry `{condition, value}`; an absent condition (`undefined`, `null` or `''`) is `""`. */
  datatype Property = Property(condition: string, value: Val)

  /** One key of a component's `properties` object, in key order. */
  datatype Entry = Entry(name: string, prop: Property)

  /** A component; `properties` is `None` when the object is absent. */
  datatype Component = Component(
    componentId: string,
    schema: string,
    typ: string,
    value: Val,
    properties: Option<seq<Entry>>)

  /** A section; `components` holds arena indices and is `None` when the list is null. */
  datatype Section = Section(sectionId: string, components: Option<seq<nat>>)

  /** A page; `sections` is `None` when the list is null. */
  datatype Page = Page(pageId: string, sections: Option<seq<Section>>)

  /** Every index of the list names a slot of an arena of `n` components. */
  predicate InBounds(order: seq<nat>, n: nat)
  {
    forall i :: 0 <= i < |order| ==> order[i] < n
  }

  /*
   * Document order.
   */

  function SectionComponents(s: Section): seq<nat>
  {
    if s.components.Some? then s.components.value else []
  }

  function FlattenSections(ss: seq<Section>): seq<nat>
    decreases |ss|
  {
    if ss == [] then [] else SectionComponents(ss[0]) + FlattenSections(ss[1..])
  }

  function PageComponents(p: Page): seq<nat>
  {
    if p.sections.Some? then FlattenSections(p.sections.value) else []
  }

  /** The components of the tree in document order: pages, then sections, then components. */
  function Flatten(pages: seq<Page>): seq<nat>
    decreases |pages|
  {
    if pages == [] then [] else PageComponents(pages[0]) + Flatten(pages[1..])
  }

  lemma {:induction false} FlattenSectionsMembers(ss: seq<Section>, k: nat)
    ensures k in FlattenSections(ss) <==> exists s :: 0 <= s < |ss| && k in SectionComponents(ss[s])
    decreases |ss|
  {
    if ss != [] {
      var tail := ss[1..];
      FlattenSectionsMembers(tail, k);
      if k in FlattenSections(tail) {
        var s :| 0 <= s < |tail| && k in SectionComponents(tail[s]);
        assert ss[s + 1] == tail[s];
      }
      if exists s :: 0 <= s < |ss| && k in SectionComponents(ss[s]) {
        var s :| 0 <= s < |ss| && k in SectionComponents(ss[s]);
        if s > 0 {
          assert tail[s - 1] == ss[s];
        }
      }
    }
  }

  /**
   * The flat list holds exactly the components of the tree: an index is in
   * it iff some page has a section list, one of whose sections has a
   * component list holding the index.
   */
  lemma {:induction false} FlattenMembers(pages: seq<Page>, k: nat)
    ensures k in Flatten(pages) <==> exists p :: 0 <= p < |pages| && k in PageComponents(pages[p])
    decreases |pages|
  {
    if pages != [] {
      var tail := pages[1..];
      FlattenMembers(tail, k);
      if k in Flatten(tail) {
        var p :| 0 <= p < |tail| && k in PageComponents(tail[p]);
        assert pages[p + 1] == tail[p];
      }
      if exists p :: 0 <= p < |pages| && k in PageComponents(pages[p]) {
        var p :| 0 <= p < |pages| && k in PageComponents(pages[p]);
        if p > 0 {
          assert tail[p - 1] == pages[p];
        }
      }
    }
  }

  lemma PageInBounds(pages: seq<Page>, p: nat, n: nat)
    requires InBounds(Flatten(pages), n) && p < |pages|
    ensures InBounds(PageComponents(pages[p]), n)
  {
    var cs := PageComponents(pages[p]);
    forall i | 0 <= i < |cs|
      ensures cs[i] < n
    {
      FlattenMembers(pages, cs[i]);
    }
  }

  lemma SectionInBounds(ss: seq<Section>, s: nat, n: nat)
    requires InBounds(FlattenSections(ss), n) && s < |ss|
    ensures InBounds(SectionComponents(ss[s]), n)
  {
    var cs := SectionComponents(ss[s]);
    forall i | 0 <= i < |cs|
      ensures cs[i] < n
    {
      FlattenSectionsMembers(ss, cs[i]);
    }
  }

  lemma ConcatAssoc(x: seq<nat>, y: seq<nat>, z: seq<nat>)
    ensures x + (y + z) == (x + y) + z
  {
  }

  /** Flattening distributes over concatenation, so the list keeps the pages' order. */
  lemma {:induction false} FlattenAppend(a: seq<Page>, b: seq<Page>)
    ensures Flatten(a + b) == Flatten(a) + Flatten(b)
    decreases |a|
  {
    if a == [] {
      assert a + b == b;
    } else {
      var t := a[1..];
      FlattenAppend(t, b);
      assert (a + b)[0] == a[0] && (a + b)[1..] == t + b;
      assert Flatten(a + b) == PageComponents(a[0]) + Flatten(t + b);
      assert Flatten(a) == PageComponents(a[0]) + Flatten(t);
      ConcatAssoc(PageComponents(a[0]), Flatten(t), Flatten(b));
    }
  }

  lemma {:induction false} FlattenSectionsAppend(a: seq<Section>, b: seq<Section>)
    ensures FlattenSections(a + b) == FlattenSections(a) + FlattenSections(b)
    decreases |a|
  {
    if a == [] {
      assert a + b == b;
    } else {
      var t := a[1..];
      FlattenSectionsAppend(t, b);
      assert (a + b)[0] == a[0] && (a + b)[1..] == t + b;
      assert FlattenSections(a + b) == SectionComponents(a[0]) + FlattenSections(t + b);
      assert FlattenSections(a) == SectionComponents(a[0]) + FlattenSections(t);
      ConcatAssoc(SectionComponents(a[0]), FlattenSections(t), FlattenSections(b));
    }
  }

  /** One more section of a list: its components follow those of the sections before it. */
  lemma FlattenSectionsSnoc(ss: seq<Section>, s: nat)
    requires s < |ss|
    ensures FlattenSections(ss[..s + 1]) == FlattenSections(ss[..s]) + SectionComponents(ss[s])
  {
    assert ss[..s + 1] == ss[..s] + [ss[s]];
    FlattenSectionsAppend(ss[..s], [ss[s]]);
    assert [ss[s]][1..] == [];
  }

  /** One more page: its components follow those of the pages before it. */
  lemma FlattenSnoc(pages: seq<Page>, p: nat)
    requires p < |pages|
    ensures Flatten(pages[..p + 1]) == Flatten(pages[..p]) + PageComponents(pages[p])
  {
    assert pages[..p + 1] == pages[..p] + [pages[p]];
    FlattenAppend(pages[..p], [pages[p]]);
    assert [pages[p]][1..] == [];
  }

  /*
   * Identity backfill.
   */

  /** A place in the tree that carries an identifier: a page, a section of a page, or an arena slot. */
  datatype Slot = PageSlot(p: nat) | SectionSlot(p: nat, s: nat) | ComponentSlot(k: nat)

  /** `b` records every identifier `a` records, for the same slot. */
  predicate Extends(a: map<string, Slot>, b: map<string, Slot>)
  {
    forall id :: id in a ==> id in b && b[id] == a[id]
  }

  /**
   * An identifier kept when present; otherwise a new one, which `owner`
   * records as handed to `slot` (so no other slot can have received it).
   */
  predicate IdKept(before: string, after: string, owner: map<string, Slot>, slot: Slot)
  {
    if before != "" then after == before else after != "" && after in owner && owner[after] == slot
  }

  predicate SectionBackfilled(before: Section, after: Section, owner: map<string, Slot>, p: nat, s: nat)
  {
    IdKept(before.sectionId, after.sectionId, owner, SectionSlot(p, s)) && after.components == before.components
  }

  predicate PageBackfilled(before: Page, after: Page, owner: map<string, Slot>, p: nat)
  {
    && IdKept(before.pageId, after.pageId, owner, PageSlot(p))
    && before.sections.Some? == after.sections.Some?
    && (before.sections.Some? ==>
          && |after.sections.value| == |before.sections.value|
          && forall s :: 0 <= s < |before.sections.value| ==>
               SectionBackfilled(before.sections.value[s], after.sections.value[s], owner, p, s))
  }

  /** `after` is `before` with every missing page and section id filled from `owner`, and nothing else changed. */
  predicate Backfilled(before: seq<Page>, after: seq<Page>, owner: map<string, Slot>)
  {
    |after| == |before| && forall p :: 0 <= p < |before| ==> PageBackfilled(before[p], after[p], owner, p)
  }

  /** Every page and section of the tree carries an identifier. */
  predicate Identified(pages: seq<Page>)
  {
    forall p :: 0 <= p < |pages| ==>
      && pages[p].pageId != ""
      && (pages[p].sections.Some? ==>
            forall s :: 0 <= s < |pages[p].sections.value| ==> pages[p].sections.value[s].sectionId != "")
  }

  lemma BackfilledGrow(before: seq<Page>, after: seq<Page>, a: map<string, Slot>, b: map<string, Slot>)
    requires Backfilled(before, after, a) && Extends(a, b)
    ensures Backfilled(before, after, b)
  {
    forall p | 0 <= p < |before|
      ensures PageBackfilled(before[p], after[p], b, p)
    {
      assert PageBackfilled(before[p], after[p], a, p);
      if before[p].sections.Some? {
        forall s | 0 <= s < |before[p].sections.value|
          ensures SectionBackfilled(before[p].sections.value[s], after[p].sections.value[s], b, p, s)
        {
          assert SectionBackfilled(before[p].sections.value[s], after[p].sections.value[s], a, p, s);
        }
      }
    }
  }

  lemma {:induction false} BackfilledSections(before: seq<Section>, after: seq<Section>, owner: map<string, Slot>, p: nat)
    requires |after| == |before|
    requires forall s :: 0 <= s < |before| ==> SectionBackfilled(before[s], after[s], owner, p, s)
    ensures FlattenSections(after) == FlattenSections(before)
    decreases |before|
  {
    if before != [] {
      assert SectionBackfilled(before[0], after[0], owner, p, 0);
      forall s | 0 <= s < |before[1..]|
        ensures after[1..][s].components == before[1..][s].components
      {
        assert SectionBackfilled(before[s + 1], after[s + 1], owner, p, s + 1);
      }
      SameComponents(before[1..], after[1..]);
    }
  }

  lemma {:induction false} SameComponents(before: seq<Section>, after: seq<Section>)
    requires |after| == |before|
    requires forall s :: 0 <= s < |before| ==> after[s].components == before[s].components
    ensures FlattenSections(after) == FlattenSections(before)
    decreases |before|
  {
    if before != [] {
      SameComponents(before[1..], after[1..]);
    }
  }

  /** Backfilling identifiers does not change which components the tree lists, nor their order. */
  lemma {:induction false} BackfilledFlatten(before: seq<Page>, after: seq<Page>, owner: map<string, Slot>)
    requires Backfilled(before, after, owner)
    ensures Flatten(after) == Flatten(before)
    decreases |before|
  {
    if before != [] {
      assert PageBackfilled(before[0], after[0], owner, 0);
      forall p | 0 <= p < |before[1..]|
        ensures PageComponents(after[1..][p]) == PageComponents(before[1..][p])
      {
        assert PageBackfilled(before[p + 1], after[p + 1], owner, p + 1);
        if before[p + 1].sections.Some? {
          BackfilledSections(before[p + 1].sections.value, after[p + 1].sections.value, owner, p + 1);
        }
      }
      SamePageComponents(before[1..], after[1..]);
      if before[0].sections.Some? {
        BackfilledSections(before[0].sections.value, after[0].sections.value, owner, 0);
      }
    }
  }

  lemma {:induction false} SamePageComponents(before: seq<Page>, after: seq<Page>)
    requires |after| == |before|
    requires forall p :: 0 <= p < |before| ==> PageComponents(after[p]) == PageComponents(before[p])
    ensures Flatten(after) == Flatten(before)
    decreases |before|
  {
    if before != [] {
      SamePageComponents(before[1..], after[1..]);
    }
  }

  /** On a tree whose pages and sections all carry identifiers, backfilling changes nothing. */
  lemma BackfillIdentified(before: seq<Page>, after: seq<Page>, owner: map<string, Slot>)
    requires Identified(before) && Backfilled(before, after, owner)
    ensures after == before
  {
    forall p | 0 <= p < |before|
      ensures after[p] == before[p]
    {
      assert PageBackfilled(before[p], after[p], owner, p);
      if before[p].sections.Some? {
        var bs, as_ := before[p].sections.value, after[p].sections.value;
        forall s | 0 <= s < |bs|
          ensures as_[s] == bs[s]
        {
          assert SectionBackfilled(bs[s], as_[s], owner, p, s);
        }
        assert as_ == bs;
      }
    }
  }

  /** Backfilling leaves every page and section with an identifier. */
  lemma BackfillIdentifies(before: seq<Page>, after: seq<Page>, owner: map<string, Slot>)
    requires Backfilled(before, after, owner)
    ensures Identified(after)
  {
    forall p | 0 <= p < |after|
      ensures after[p].pageId != ""
      ensures after[p].sections.Some? ==>
        forall s :: 0 <= s < |after[p].sections.value| ==> after[p].sections.value[s].sectionId != ""
    {
      assert PageBackfilled(before[p], after[p], owner, p);
      if after[p].sections.Some? {
        forall s | 0 <= s < |after[p].sections.value|
          ensures after[p].sections.value[s].sectionId != ""
        {
          assert SectionBackfilled(before[p].sections.value[s], after[p].sections.value[s], owner, p, s);
        }
      }
    }
  }

  /*
   * Uniqueness of the identifiers handed out.
   */

  /** The identifier at a slot of the tree and arena; `""` for a slot that does not exist. */
  function IdAt(pages: seq<Page>, store: seq<Component>, x: Slot): string
  {
    match x
    case PageSlot(p) => if p < |pages| then pages[p].pageId else ""
    case SectionSlot(p, s) =>
      if p < |pages| && pages[p].sections.Some? && s < |pages[p].sections.value|
      then pages[p].sections.value[s].sectionId else ""
    case ComponentSlot(k) => if k < |store| then store[k].componentId else ""
  }

  /** The slot had no identifier before and has one after: it received a new one. */
  predicate Assigned(pb: seq<Page>, sb: seq<Component>, pa: seq<Page>, sa: seq<Component>, x: Slot)
  {
    IdAt(pb, sb, x) == "" && IdAt(pa, sa, x) != ""
  }

  /** Every identifier present before is still at its slot. */
  ghost predicate IdsKept(pb: seq<Page>, sb: seq<Component>, pa: seq<Page>, sa: seq<Component>)
  {
    forall x :: IdAt(pb, sb, x) != "" ==> IdAt(pa, sa, x) == IdAt(pb, sb, x)
  }

  /** `owner` records, for every slot that received an identifier, that slot as its receiver. */
  ghost predicate Owned(pb: seq<Page>, sb: seq<Component>, pa: seq<Page>, sa: seq<Component>, owner: map<string, Slot>)
  {
    forall x :: Assigned(pb, sb, pa, sa, x) ==> IdAt(pa, sa, x) in owner && owner[IdAt(pa, sa, x)] == x
  }

  /**
   * The identifiers handed out are pairwise distinct (two slots that
   * received one received different ones) and none was issued before.
   */
  ghost predicate FreshIds(pb: seq<Page>, sb: seq<Component>, pa: seq<Page>, sa: seq<Component>, issued: set<string>)
  {
    && (forall x, y :: Assigned(pb, sb, pa, sa, x) && Assigned(pb, sb, pa, sa, y) && x != y ==>
          IdAt(pa, sa, x) != IdAt(pa, sa, y))
    && (forall x :: Assigned(pb, sb, pa, sa, x) ==> IdAt(pa, sa, x) !in issued)
  }

  /** Every identifier already in the tree or the arena is one the generator knows as issued. */
  ghost predicate Reserved(pages: seq<Page>, store: seq<Component>, issued: set<string>)
  {
    forall x :: IdAt(pages, store, x) != "" ==> IdAt(pages, store, x) in issued
  }

  /** No slot other than the receiver holds an identifier that was handed out. */
  ghost predicate NewIdsUnique(pb: seq<Page>, sb: seq<Component>, pa: seq<Page>, sa: seq<Component>)
  {
    forall x, y :: Assigned(pb, sb, pa, sa, x) && x != y ==> IdAt(pa, sa, y) != IdAt(pa, sa, x)
  }

  /** Identifiers recorded in an owner map that shares nothing with the issued set are fresh and pairwise distinct. */
  lemma OwnedFresh(pb: seq<Page>, sb: seq<Component>, pa: seq<Page>, sa: seq<Component>,
                   owner: map<string, Slot>, issued: set<string>)
    requires Owned(pb, sb, pa, sa, owner) && owner.Keys !! issued
    ensures FreshIds(pb, sb, pa, sa, issued)
  {
    forall x, y | Assigned(pb, sb, pa, sa, x) && Assigned(pb, sb, pa, sa, y) && x != y
      ensures IdAt(pa, sa, x) != IdAt(pa, sa, y)
    {
      assert owner[IdAt(pa, sa, x)] == x && owner[IdAt(pa, sa, y)] == y;
    }
    forall x | Assigned(pb, sb, pa, sa, x)
      ensures IdAt(pa, sa, x) !in issued
    {
      assert IdAt(pa, sa, x) in owner.Keys;
    }
  }

  /**
   * When every identifier present before was reserved with the generator,
   * an identifier handed out during the walk is held by its receiver only:
   * it differs from every other new one and from every one kept.
   */
  lemma FreshIdsUnique(pb: seq<Page>, sb: seq<Component>, pa: seq<Page>, sa: seq<Component>, issued: set<string>)
    requires FreshIds(pb, sb, pa, sa, issued) && IdsKept(pb, sb, pa, sa) && Reserved(pb, sb, issued)
    ensures NewIdsUnique(pb, sb, pa, sa)
  {
    forall x, y | Assigned(pb, sb, pa, sa, x) && x != y
      ensures IdAt(pa, sa, y) != IdAt(pa, sa, x)
    {
      if !Assigned(pb, sb, pa, sa, y) && IdAt(pa, sa, y) != "" {
        assert IdAt(pa, sa, y) == IdAt(pb, sb, y) && IdAt(pb, sb, y) in issued;
      }
    }
  }

  /*
   * Values bound at load time, and stripped before saving.
   */

  function StripEntries(ps: seq<Entry>): (r: seq<Entry>)
    ensures |r| == |ps|
    ensures forall i :: 0 <= i < |ps| ==>
      r[i].name == ps[i].name && r[i].prop.condition == ps[i].prop.condition && r[i].prop.value == Null
    decreases |ps|
  {
    if ps == [] then []
    else [Entry(ps[0].name, ps[0].prop.(value := Null))] + StripEntries(ps[1..])
  }

  /**
   * A component as `saveForm` leaves it in its copy: the value and every
   * property value set to `null`; its identity, binding, type and property
   * names and conditions as they were.
   */
  function Strip(c: Component): (r: Component)
    ensures r.value == Null
    ensures r.componentId == c.componentId && r.schema == c.schema && r.typ == c.typ
    ensures r.properties.Some? == c.properties.Some?
    ensures r.properties.Some? ==>
      && |r.properties.value| == |c.properties.value|
      && forall i :: 0 <= i < |c.properties.value| ==>
           && r.properties.value[i].name == c.properties.value[i].name
           && r.properties.value[i].prop == Property(c.properties.value[i].prop.condition, Null)
  {
    c.(value := Null, properties := if c.properties.Some? then Some(StripEntries(c.properties.value)) else None)
  }

  /** Stripping twice is stripping once. */
  lemma StripIdempotent(c: Component)
    ensures Strip(Strip(c)) == Strip(c)
  {
    if c.properties.Some? {
      var ps := Strip(c).properties.value;
      assert StripEntries(ps) == ps;
    }
  }

  /** Every section of the list has a component list. */
  predicate ComponentListsPresent(secs: seq<Section>)
  {
    forall s :: 0 <= s < |secs| ==> secs[s].components.Some?
  }

  /** The page has a section list, and each of its sections a component list. */
  predicate PageListsPresent(p: Page)
  {
    p.sections.Some? && ComponentListsPresent(p.sections.value)
  }

  /** Every page has a section list and every section a component list (what `saveForm` walks without checking). */
  predicate ListsPresent(pages: seq<Page>)
  {
    forall p :: 0 <= p < |pages| ==> PageListsPresent(pages[p])
  }
}
