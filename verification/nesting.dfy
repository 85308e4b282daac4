/**
 `getNestedStructure`: projects an already-ordered flat list of nodes and
 teaching elements into nested copies, section container -> sections ->
 invisible-level nodes -> teaching elements. Datatype values are copies by
 construction, so later edits of the view never reach the store.
 */
module Nesting {
  import opened Store
  import opened Seqs

  /** One entry of the ordered courseware list: a node, or a teaching element
      (the entries that own an `activity_id`). */
  datatype Item = Act(node: Activity) | Te(element: Element) {

    function Kind(): string
    {
      match this
      case Act(a) => a.kind
      case Te(e) => e.kind
    }

    function Id(): int
    {
      match this
      case Act(a) => a.id
      case Te(e) => e.id
    }

    /** `parent_id`; a teaching element has none. */
    function Parent(): Option<int>
    {
      match this
      case Act(a) => a.parentId
      case Te(_) => None
    }
  }

  datatype InvisibleView = InvisibleView(item: Item, tes: seq<Item>)
  datatype SectionView = SectionView(item: Item, contents: seq<InvisibleView>)
  datatype ContainerView = ContainerView(item: Item, sections: seq<SectionView>)

  // The four flat lists the source filters out of its input.

  function Containers(items: seq<Item>): seq<Item>
  {
    Filter(items, (x: Item) => x.Kind() == ContainerKind)
  }

  function Sections(items: seq<Item>): seq<Item>
  {
    Filter(items, (x: Item) => x.Kind() == SectionKind)
  }

  function SectionIds(items: seq<Item>): set<int>
  {
    set x | x in Sections(items) :: x.Id()
  }

  /** Invisible-level nodes are recognised by their parent being a section. */
  function Friends(items: seq<Item>): seq<Item>
  {
    Filter(items, (x: Item) => x.Parent().Some? && x.Parent().value in SectionIds(items))
  }

  function Tes(items: seq<Item>): seq<Item>
  {
    Filter(items, (x: Item) => x.Te?)
  }

  /** The candidates whose `parent_id` is `id` (strict equality). */
  function ChildrenOf(cands: seq<Item>, id: int): seq<Item>
  {
    Filter(cands, (x: Item) => x.Parent() == Some(id))
  }

  /** The teaching elements whose `activity_id` is `id`. */
  function TesOf(tes: seq<Item>, id: int): seq<Item>
  {
    Filter(tes, (x: Item) => x.Te? && x.element.activityId == id)
  }

  // The reference projection, level by level.

  function InvisibleViewOf(tes: seq<Item>, inv: Item): InvisibleView
  {
    InvisibleView(inv, TesOf(tes, inv.Id()))
  }

  function SectionViewOf(friends: seq<Item>, tes: seq<Item>, s: Item): SectionView
  {
    var kids := ChildrenOf(friends, s.Id());
    SectionView(s, seq(|kids|, m requires 0 <= m < |kids| => InvisibleViewOf(tes, kids[m])))
  }

  function ContainerViewOf(sections: seq<Item>, friends: seq<Item>, tes: seq<Item>, c: Item): ContainerView
  {
    var secs := ChildrenOf(sections, c.Id());
    ContainerView(c, seq(|secs|, k requires 0 <= k < |secs| => SectionViewOf(friends, tes, secs[k])))
  }

  function Nested(items: seq<Item>): seq<ContainerView>
  {
    var scs := Containers(items);
    seq(|scs|, i requires 0 <= i < |scs| =>
      ContainerViewOf(Sections(items), Friends(items), Tes(items), scs[i]))
  }

  /** One pass of the source's innermost loops: collect, in order, the
      candidates whose `parent_id` is `id`. */
  method CollectChildren(cands: seq<Item>, id: int) returns (r: seq<Item>)
    ensures r == ChildrenOf(cands, id)
  {
    r := [];
    var j := 0;
    while j < |cands|
      invariant 0 <= j <= |cands|
      invariant r == ChildrenOf(cands[..j], id)
    {
      assert cands[..j + 1][..j] == cands[..j];
      if cands[j].Parent() == Some(id) {
        r := r + [cands[j]];
      }
      j := j + 1;
    }
    assert cands[..|cands|] == cands;
  }

  /** Collect, in order, the teaching elements whose `activity_id` is `id`. */
  method CollectTes(tes: seq<Item>, id: int) returns (r: seq<Item>)
    ensures r == TesOf(tes, id)
  {
    r := [];
    var n := 0;
    while n < |tes|
      invariant 0 <= n <= |tes|
      invariant r == TesOf(tes[..n], id)
    {
      assert tes[..n + 1][..n] == tes[..n];
      if tes[n].Te? && tes[n].element.activityId == id {
        r := r + [tes[n]];
      }
      n := n + 1;
    }
    assert tes[..|tes|] == tes;
  }

  method BuildSection(friends: seq<Item>, tes: seq<Item>, s: Item) returns (v: SectionView)
    ensures v == SectionViewOf(friends, tes, s)
  {
    var kids := CollectChildren(friends, s.Id());
    var views: seq<InvisibleView> := [];
    var m := 0;
    while m < |kids|
      invariant 0 <= m <= |kids|
      invariant |views| == m
      invariant forall t | 0 <= t < m :: views[t] == InvisibleViewOf(tes, kids[t])
    {
      var localTes := CollectTes(tes, kids[m].Id());
      views := views + [InvisibleView(kids[m], localTes)];
      m := m + 1;
    }
    v := SectionView(s, views);
  }

  method BuildContainer(sections: seq<Item>, friends: seq<Item>, tes: seq<Item>, c: Item)
    returns (v: ContainerView)
    ensures v == ContainerViewOf(sections, friends, tes, c)
  {
    var secs := CollectChildren(sections, c.Id());
    var views: seq<SectionView> := [];
    var k := 0;
    while k < |secs|
      invariant 0 <= k <= |secs|
      invariant |views| == k
      invariant forall t | 0 <= t < k :: views[t] == SectionViewOf(friends, tes, secs[t])
    {
      var sv := BuildSection(friends, tes, secs[k]);
      views := views + [sv];
      k := k + 1;
    }
    v := ContainerView(c, views);
  }

  /** The source's nested loops, producing the reference projection. */
  method GetNestedStructure(items: seq<Item>) returns (outline: seq<ContainerView>)
    ensures outline == Nested(items)
  {
    var scs := Containers(items);
    var sections := Sections(items);
    var friends := Friends(items);
    var tes := Tes(items);
    outline := [];
    var i := 0;
    while i < |scs|
      invariant 0 <= i <= |scs|
      invariant |outline| == i
      invariant forall t | 0 <= t < i :: outline[t] == ContainerViewOf(sections, friends, tes, scs[t])
    {
      var cv := BuildContainer(sections, friends, tes, scs[i]);
      outline := outline + [cv];
      i := i + 1;
    }
  }

  // Grouping properties of the projection, stated against the input list.

  function SectionItems(cv: ContainerView): seq<Item>
  {
    seq(|cv.sections|, k requires 0 <= k < |cv.sections| => cv.sections[k].item)
  }

  function InvisibleItems(sv: SectionView): seq<Item>
  {
    seq(|sv.contents|, m requires 0 <= m < |sv.contents| => sv.contents[m].item)
  }

  /** One entry per SECTION_CONTAINER of the input, in input order; each entry
      holds, in input order, exactly the SECTIONs whose parent is that container. */
  lemma NestedContainers(items: seq<Item>)
    ensures var outline := Nested(items);
            && |outline| == |Containers(items)|
            && (forall i | 0 <= i < |outline| ::
                  && outline[i].item == Containers(items)[i]
                  && outline[i].item.Kind() == ContainerKind
                  && outline[i].item in items
                  && SectionItems(outline[i]) ==
                     Filter(items, (x: Item) => x.Kind() == SectionKind && x.Parent() == Some(outline[i].item.Id())))
  {
    var outline := Nested(items);
    forall i | 0 <= i < |outline|
      ensures SectionItems(outline[i]) ==
              Filter(items, (x: Item) => x.Kind() == SectionKind && x.Parent() == Some(outline[i].item.Id()))
    {
      var id := outline[i].item.Id();
      FilterCompose(items, (x: Item) => x.Kind() == SectionKind, (x: Item) => x.Parent() == Some(id),
                    (x: Item) => x.Kind() == SectionKind && x.Parent() == Some(id));
    }
  }

  /** Each section's contents are, in input order, exactly the entries whose
      parent is that section. */
  lemma NestedSectionContents(items: seq<Item>, i: nat, k: nat)
    requires i < |Nested(items)| && k < |Nested(items)[i].sections|
    ensures var sv := Nested(items)[i].sections[k];
            && sv.item.Kind() == SectionKind
            && InvisibleItems(sv) == Filter(items, (x: Item) => x.Parent() == Some(sv.item.Id()))
  {
    var scs := Containers(items);
    var secs := ChildrenOf(Sections(items), scs[i].Id());
    var s := secs[k];
    assert s in Sections(items);
    var ids := SectionIds(items);
    assert s.Id() in ids;
    FilterCompose(items, (x: Item) => x.Parent().Some? && x.Parent().value in ids,
                  (x: Item) => x.Parent() == Some(s.Id()), (x: Item) => x.Parent() == Some(s.Id()));
  }

  /** Each invisible's contents are, in input order, exactly the teaching
      elements whose `activity_id` is that invisible. */
  lemma NestedTes(items: seq<Item>, i: nat, k: nat, m: nat)
    requires i < |Nested(items)| && k < |Nested(items)[i].sections|
    requires m < |Nested(items)[i].sections[k].contents|
    ensures var iv := Nested(items)[i].sections[k].contents[m];
            && iv.item in items && iv.item.Parent() == Some(Nested(items)[i].sections[k].item.Id())
            && iv.tes == Filter(items, (x: Item) => x.Te? && x.element.activityId == iv.item.Id())
  {
    var iv := Nested(items)[i].sections[k].contents[m];
    var id := iv.item.Id();
    FilterCompose(items, (x: Item) => x.Te?, (x: Item) => x.Te? && x.element.activityId == id,
                  (x: Item) => x.Te? && x.element.activityId == id);
  }
}
