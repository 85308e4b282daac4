/**
 `sectionCourse`: for each live page, collect its section containers, live
 sections and live invisible-level nodes, sort the invisibles by the
 composite key and renumber them 1..N, create one new SECTION_CONTAINER and,
 depending on the scope, new SECTIONs, reparent the invisibles, and tombstone
 the old containers and sections. Afterwards drop the INVISIBLE_CONTAINERs no
 element names and clean the course.

 The store is a sequence; the source's in-place edits of the objects it
 collected are edits at store positions, and created nodes are appended.
 */
module Sectioning {
  import opened Store
  import opened Seqs
  import opened Ordering
  import Cleaning

  const PerTe := "section_per_te"
  const PerPage := "section_per_page"

  predicate InRange(store: seq<Activity>, idx: seq<nat>)
  {
    forall j | 0 <= j < |idx| :: idx[j] < |store|
  }

  predicate Distinct(idx: seq<nat>)
  {
    forall i, j | 0 <= i < j < |idx| :: idx[i] != idx[j]
  }

  /** The ids of the nodes at the given positions (`xs.map(x => x.id)`). */
  function IdsAt(store: seq<Activity>, idx: seq<nat>): set<int>
  {
    set k | k in idx && k < |store| :: store[k].id
  }

  /** `ids.includes(a.parent_id)` */
  predicate ChildOfAny(a: Activity, ids: set<int>)
  {
    a.parentId.Some? && a.parentId.value in ids
  }

  // ---------------------------------------------------------------------
  // Collecting a page's nodes (lines 160-192)
  // ---------------------------------------------------------------------

  /** Every node whose parent is the page, live or not. */
  function PageContainers(store: seq<Activity>, pageId: int): seq<nat>
  {
    Indices(store, (a: Activity) => a.parentId == Some(pageId))
  }

  /** The ids of the nodes whose parent is the page. */
  function ContainerIds(store: seq<Activity>, pageId: int): set<int>
  {
    set k | 0 <= k < |store| && store[k].parentId == Some(pageId) :: store[k].id
  }

  /** The nodes a page tombstones: its containers, and the live nodes whose
      parent is one of them. */
  predicate Retired(store: seq<Activity>, pageId: int, k: nat)
    requires k < |store|
  {
    store[k].parentId == Some(pageId) || (Live(store[k]) && ChildOfAny(store[k], ContainerIds(store, pageId)))
  }

  /** The live nodes whose parent is one of the given nodes. */
  function LiveChildren(store: seq<Activity>, parents: seq<nat>): (r: seq<nat>)
    ensures InRange(store, r) && Distinct(r) && Increasing(r)
    ensures forall k | k in r :: k < |store| && ChildOfAny(store[k], IdsAt(store, parents)) && Live(store[k])
    ensures forall k | 0 <= k < |store| && ChildOfAny(store[k], IdsAt(store, parents)) && Live(store[k]) :: k in r
  {
    var ids := IdsAt(store, parents);
    var r := Indices(store, (a: Activity) => ChildOfAny(a, ids) && Live(a));
    assert forall k | k in r :: k < |store| && ChildOfAny(store[k], ids) && Live(store[k]) by {
      forall k | k in r ensures k < |store| && ChildOfAny(store[k], ids) && Live(store[k]) {
        var j :| 0 <= j < |r| && r[j] == k;
      }
    }
    IncreasingDistinct(r);
    r
  }

  /** The containers tagged by their position, for the stable sort at 162. */
  function ByPosition(store: seq<Activity>, idx: seq<nat>): (r: seq<Tagged>)
    requires InRange(store, idx)
    ensures Indexes(r) == idx
  {
    seq(|idx|, j requires 0 <= j < |idx| => Tagged(idx[j], Key(store[idx[j]].position, 0, 0)))
  }

  /** First of the given positions holding a node with id `id` (`xs.find`). */
  function FirstWithId(store: seq<Activity>, idx: seq<nat>, id: int): (r: Option<nat>)
    requires InRange(store, idx)
    ensures r.Some? ==> r.value in idx && r.value < |store| && store[r.value].id == id
    ensures r.None? <==> id !in IdsAt(store, idx)
  {
    if |idx| == 0 then None
    else if store[idx[0]].id == id then Some(idx[0])
    else
      var r := FirstWithId(store, idx[1..], id);
      assert IdsAt(store, idx) == {store[idx[0]].id} + IdsAt(store, idx[1..]) by {
        assert idx == [idx[0]] + idx[1..];
      }
      r
  }

  /** `find` returns the first match: whatever position `j` holds a node
      with the id, the node found is listed no later than `j`. */
  lemma {:induction false} FirstWithIdIsFirst(store: seq<Activity>, idx: seq<nat>, id: int, j: nat)
    requires InRange(store, idx) && j < |idx| && store[idx[j]].id == id
    ensures FirstWithId(store, idx, id).Some? && FirstWithId(store, idx, id).value in idx[..j + 1]
    decreases j
  {
    if store[idx[0]].id != id {
      FirstWithIdIsFirst(store, idx[1..], id, j - 1);
      assert idx[1..][..j] == idx[1..j + 1];
    }
  }

  /** `sc_position` of the section at `s`: the position of the first container
      (in sorted order) whose id is the section's parent. */
  function ContainerPosition(store: seq<Activity>, containers: seq<nat>, s: nat): int
    requires InRange(store, containers) && s < |store|
    requires ChildOfAny(store[s], IdsAt(store, containers))
  {
    store[FirstWithId(store, containers, store[s].parentId.value).value].position
  }

  /** The composite key of the invisible at `i`: its own position, the position
      of the first section whose id is its parent, and that section's
      `sc_position`. */
  function InvisibleKey(store: seq<Activity>, containers: seq<nat>, sections: seq<nat>, i: nat): Key
    requires InRange(store, containers) && InRange(store, sections) && i < |store|
    requires forall s | s in sections :: s < |store| && ChildOfAny(store[s], IdsAt(store, containers))
    requires ChildOfAny(store[i], IdsAt(store, sections))
  {
    var s := FirstWithId(store, sections, store[i].parentId.value).value;
    Key(store[i].position, store[s].position, ContainerPosition(store, containers, s))
  }

  /** What one page iteration collects before it writes anything. */
  datatype PagePlan = PagePlan(
    containers: seq<nat>,         // line 161, in store order
    sortedContainers: seq<nat>,   // line 162
    sections: seq<nat>,           // lines 168-174
    invisibles: seq<nat>,         // lines 185-187, in store order
    order: seq<nat>)              // lines 194-200: the invisibles by composite key

  /** What the writing half of a page needs of a plan. */
  predicate PlanFits(store: seq<Activity>, plan: PagePlan)
  {
    && InRange(store, plan.containers) && InRange(store, plan.sortedContainers)
    && InRange(store, plan.sections) && InRange(store, plan.invisibles) && InRange(store, plan.order)
    && Distinct(plan.order)
    && (forall j | 0 <= j < |plan.order| :: plan.order[j] in plan.invisibles)
  }

  predicate PlanShape(store: seq<Activity>, plan: PagePlan)
  {
    && PlanFits(store, plan)
    && (forall s | s in plan.sections :: ChildOfAny(store[s], IdsAt(store, plan.sortedContainers)))
    && (forall i | i in plan.invisibles :: ChildOfAny(store[i], IdsAt(store, plan.sections)))
  }

  lemma DistinctCount(s: seq<nat>, x: nat)
    requires Distinct(s)
    ensures multiset(s)[x] <= 1
  {
    if |s| > 0 {
      assert Distinct(s[1..]);
      DistinctCount(s[1..], x);
      assert s == [s[0]] + s[1..];
      if s[0] == x {
        assert x !in s[1..];
      }
    }
  }

  lemma DistinctByCount(s: seq<nat>, t: seq<nat>)
    requires Distinct(t) && multiset(s) == multiset(t)
    ensures Distinct(s)
  {
    forall i, j | 0 <= i < j < |s| ensures s[i] != s[j] {
      if s[i] == s[j] {
        var x := s[i];
        assert s == s[..i] + [x] + s[i + 1..j] + [x] + s[j + 1..];
        assert multiset(s)[x] >= 2;
        DistinctCount(t, x);
      }
    }
  }

  lemma PermutedMembers(s: seq<nat>, t: seq<nat>)
    requires multiset(s) == multiset(t)
    ensures forall x :: x in s <==> x in t
  {
    forall x ensures x in s <==> x in t {
      assert x in s <==> x in multiset(s);
      assert x in t <==> x in multiset(t);
    }
  }

  lemma SameIds(store: seq<Activity>, s: seq<nat>, t: seq<nat>)
    requires forall x :: x in s <==> x in t
    ensures IdsAt(store, s) == IdsAt(store, t)
  {
  }

  /** Line 162: the containers stably sorted by position. */
  function SortedContainers(store: seq<Activity>, containers: seq<nat>): (r: seq<nat>)
    requires InRange(store, containers)
    ensures multiset(r) == multiset(containers)
    ensures forall x :: x in r <==> x in containers
    ensures InRange(store, r)
    ensures forall a, b | 0 <= a < b < |r| :: store[r[a]].position <= store[r[b]].position
    ensures Increasing(containers) ==>
              forall a, b | 0 <= a < b < |r| && store[r[a]].position == store[r[b]].position :: r[a] < r[b]
  {
    var byPosition := ByPosition(store, containers);
    SortIndexes(byPosition);
    var sorted := Sort(byPosition);
    var r := Indexes(sorted);
    PermutedMembers(r, containers);
    assert forall j | 0 <= j < |r| :: r[j] in containers;
    PositionKeys(store, containers, sorted);
    if Increasing(containers) then SortTiesByIndex(byPosition); r else r
  }

  /** The sorted containers carry their own position as key. */
  lemma PositionKeys(store: seq<Activity>, containers: seq<nat>, sorted: seq<Tagged>)
    requires InRange(store, containers) && sorted == Sort(ByPosition(store, containers))
    ensures forall a | 0 <= a < |sorted| :: sorted[a].index < |store| && sorted[a].key == Key(store[sorted[a].index].position, 0, 0)
  {
    var byPosition := ByPosition(store, containers);
    forall a | 0 <= a < |sorted|
      ensures sorted[a].index < |store| && sorted[a].key == Key(store[sorted[a].index].position, 0, 0)
    {
      assert sorted[a] in multiset(byPosition);
      var j :| 0 <= j < |byPosition| && byPosition[j] == sorted[a];
    }
  }

  /** The invisibles tagged by their composite key (lines 189-192). */
  function Keyed(store: seq<Activity>, containers: seq<nat>, sections: seq<nat>, invisibles: seq<nat>)
    : (r: seq<Tagged>)
    requires InRange(store, containers) && InRange(store, sections) && InRange(store, invisibles)
    requires forall s | s in sections :: s < |store| && ChildOfAny(store[s], IdsAt(store, containers))
    requires forall i | i in invisibles :: ChildOfAny(store[i], IdsAt(store, sections))
    ensures Indexes(r) == invisibles
    ensures forall j | 0 <= j < |r| :: r[j].key == InvisibleKey(store, containers, sections, invisibles[j])
  {
    seq(|invisibles|, j requires 0 <= j < |invisibles| =>
          Tagged(invisibles[j], InvisibleKey(store, containers, sections, invisibles[j])))
  }

  /** Lines 194-200: the invisibles in document order. */
  function DocumentOrder(store: seq<Activity>, containers: seq<nat>, sections: seq<nat>, invisibles: seq<nat>)
    : (r: seq<nat>)
    requires InRange(store, containers) && InRange(store, sections) && InRange(store, invisibles)
    requires forall s | s in sections :: s < |store| && ChildOfAny(store[s], IdsAt(store, containers))
    requires forall i | i in invisibles :: ChildOfAny(store[i], IdsAt(store, sections))
    requires Distinct(invisibles)
    ensures multiset(r) == multiset(invisibles)
    ensures forall j | 0 <= j < |r| :: r[j] in invisibles
    ensures InRange(store, r) && Distinct(r)
  {
    var keyed := Keyed(store, containers, sections, invisibles);
    var r := Indexes(Sort(keyed));
    SortIndexes(keyed);
    PermutedMembers(r, invisibles);
    DistinctByCount(r, invisibles);
    assert forall j | 0 <= j < |r| :: r[j] in invisibles;
    r
  }

  lemma IncreasingDistinct(s: seq<nat>)
    requires Increasing(s)
    ensures Distinct(s)
  {
  }

  function PlanPage(store: seq<Activity>, pi: nat): (plan: PagePlan)
    requires pi < |store|
    ensures PlanShape(store, plan)
  {
    var containers := PageContainers(store, store[pi].id);
    var sorted := SortedContainers(store, containers);
    var sections := LiveChildren(store, sorted);
    var invisibles := LiveChildren(store, sections);
    var order := DocumentOrder(store, sorted, sections, invisibles);
    PagePlan(containers, sorted, sections, invisibles, order)
  }

  // ---------------------------------------------------------------------
  // Writing (lines 203-299)
  // ---------------------------------------------------------------------

  /** Positions `first`, `first + 1`, ... for the nodes at `order`, in order. */
  function RenumberFrom(store: seq<Activity>, order: seq<nat>, first: int): (r: seq<Activity>)
    requires InRange(store, order) && Distinct(order)
    ensures |r| == |store|
    ensures forall j | 0 <= j < |order| :: r[order[j]] == store[order[j]].(position := first + j)
    ensures forall k | 0 <= k < |store| && k !in order :: r[k] == store[k]
    decreases |order|
  {
    if |order| == 0 then store
    else
      var store1 := store[order[0] := store[order[0]].(position := first)];
      assert Distinct(order[1..]);
      assert order == [order[0]] + order[1..];
      RenumberFrom(store1, order[1..], first + 1)
  }

  /** A node the engine creates: fresh id and token, live, stamped now. */
  function NewNode(drawn: nat, repo: int, parent: int, kind: string, position: int, title: Option<string>): Activity
  {
    Activity(Seed + drawn, repo, Some(parent), Minted(drawn), kind, position, title, false,
             Unset, Now, Now, Unset, Unset)
  }

  /** An invisible moved under a new section (lines 251-254). */
  function Reparented(a: Activity, parent: int): Activity
  {
    a.(parentId := Some(parent), updatedAt := Now, modifiedAt := Now, deletedAt := Unset)
  }

  /** A retired container or section (lines 288-298). */
  function Tombstone(a: Activity): Activity
  {
    a.(detached := true, deletedAt := Now, modifiedAt := Now, updatedAt := Now)
  }

  /** The fields the engine never writes on an existing node. */
  predicate SameIdentity(a: Activity, b: Activity)
  {
    a.id == b.id && a.uid == b.uid && a.kind == b.kind && a.title == b.title && a.repositoryId == b.repositoryId
  }

  /** `section_per_te`: one new SECTION per invisible, in sorted order, each
      at the invisible's position, and the invisible moved into it. */
  function SectionPerTe(store: seq<Activity>, order: seq<nat>, containerId: int, drawn: nat, repo: int)
    : (r: (seq<Activity>, nat))
    requires InRange(store, order)
    ensures r.1 == drawn + |order|
    ensures |r.0| == |store| + |order|
    decreases |order|
  {
    if |order| == 0 then (store, drawn)
    else
      var i := order[0];
      var section := NewNode(drawn, repo, containerId, SectionKind, store[i].position, Some(""));
      SectionPerTe((store + [section])[i := Reparented(store[i], Seed + drawn)], order[1..], containerId, drawn + 1, repo)
  }

  /** The j-th new section of `section_per_te` takes the j-th invisible's
      position. */
  lemma {:induction false} SectionPerTeSections(store: seq<Activity>, order: seq<nat>, containerId: int,
                                                drawn: nat, repo: int)
    requires InRange(store, order) && Distinct(order)
    ensures var t := SectionPerTe(store, order, containerId, drawn, repo).0;
            forall j | 0 <= j < |order| ::
              t[|store| + j] == NewNode(drawn + j, repo, containerId, SectionKind, store[order[j]].position, Some(""))
    decreases |order|
  {
    if |order| > 0 {
      var i := order[0];
      var section := NewNode(drawn, repo, containerId, SectionKind, store[i].position, Some(""));
      var store1 := (store + [section])[i := Reparented(store[i], Seed + drawn)];
      var rest := order[1..];
      assert Distinct(rest);
      SectionPerTeSections(store1, rest, containerId, drawn + 1, repo);
      SectionPerTeFrame(store1, rest, containerId, drawn + 1, repo);
      var t := SectionPerTe(store1, rest, containerId, drawn + 1, repo).0;
      assert t[|store|] == section;
      forall j | 1 <= j < |order|
        ensures t[|store| + j] == NewNode(drawn + j, repo, containerId, SectionKind, store[order[j]].position, Some(""))
      {
        assert order[j] == rest[j - 1] && order[j] != i;
        assert t[|store1| + (j - 1)] == t[|store| + j];
      }
    }
  }

  /** The j-th invisible of `section_per_te` moves into the j-th new section. */
  lemma {:induction false} SectionPerTeMoves(store: seq<Activity>, order: seq<nat>, containerId: int,
                                             drawn: nat, repo: int)
    requires InRange(store, order) && Distinct(order)
    ensures var t := SectionPerTe(store, order, containerId, drawn, repo).0;
            forall j | 0 <= j < |order| :: t[order[j]] == Reparented(store[order[j]], Seed + drawn + j)
    decreases |order|
  {
    if |order| > 0 {
      var i := order[0];
      var section := NewNode(drawn, repo, containerId, SectionKind, store[i].position, Some(""));
      var store1 := (store + [section])[i := Reparented(store[i], Seed + drawn)];
      var rest := order[1..];
      assert Distinct(rest);
      SectionPerTeMoves(store1, rest, containerId, drawn + 1, repo);
      SectionPerTeFrame(store1, rest, containerId, drawn + 1, repo);
      var t := SectionPerTe(store1, rest, containerId, drawn + 1, repo).0;
      assert i !in rest;
      forall j | 1 <= j < |order| ensures t[order[j]] == Reparented(store[order[j]], Seed + drawn + j) {
        assert order[j] == rest[j - 1] && order[j] != i;
      }
    }
  }

  /** `section_per_te` touches no node outside `order`. */
  lemma {:induction false} SectionPerTeFrame(store: seq<Activity>, order: seq<nat>, containerId: int,
                                             drawn: nat, repo: int)
    requires InRange(store, order)
    ensures var t := SectionPerTe(store, order, containerId, drawn, repo).0;
            forall k | 0 <= k < |store| && k !in order :: t[k] == store[k]
    decreases |order|
  {
    if |order| > 0 {
      var i := order[0];
      var section := NewNode(drawn, repo, containerId, SectionKind, store[i].position, Some(""));
      var store1 := (store + [section])[i := Reparented(store[i], Seed + drawn)];
      SectionPerTeFrame(store1, order[1..], containerId, drawn + 1, repo);
      forall k | 0 <= k < |store| && k !in order ensures k !in order[1..] && k != i {
        assert order == [i] + order[1..];
      }
    }
  }

  /** `section_per_page`: every invisible moved into the one new section
      (no timestamps are touched on this path). */
  function SectionPerPage(store: seq<Activity>, order: seq<nat>, sectionId: int): (r: seq<Activity>)
    requires InRange(store, order)
    ensures |r| == |store|
    ensures forall j | 0 <= j < |order| :: r[order[j]] == store[order[j]].(parentId := Some(sectionId))
    ensures forall k | 0 <= k < |store| && k !in order :: r[k] == store[k]
    decreases |order|
  {
    if |order| == 0 then store
    else
      var store1 := store[order[0] := store[order[0]].(parentId := Some(sectionId))];
      assert order == [order[0]] + order[1..];
      SectionPerPage(store1, order[1..], sectionId)
  }

  /** Tombstones the nodes at `idx`. */
  function Detach(store: seq<Activity>, idx: seq<nat>): (r: seq<Activity>)
    requires InRange(store, idx)
    ensures |r| == |store|
    ensures forall k | 0 <= k < |store| :: r[k] == if k in idx then Tombstone(store[k]) else store[k]
    decreases |idx|
  {
    if |idx| == 0 then store
    else
      assert idx == [idx[0]] + idx[1..];
      Detach(store[idx[0] := Tombstone(store[idx[0]])], idx[1..])
  }

  /** The scope step: the store with its new sections and the counter after them. */
  function ApplyScope(store: seq<Activity>, order: seq<nat>, scope: string, containerId: int,
                      drawn: nat, repo: int, title: Option<string>): (r: (seq<Activity>, nat))
    requires InRange(store, order) && Distinct(order)
    ensures |r.0| == |store| + (r.1 - drawn)
    ensures r.1 == drawn + (if scope == PerTe then |order| else if scope == PerPage then 1 else 0)
  {
    if scope == PerTe then
      SectionPerTe(store, order, containerId, drawn, repo)
    else if scope == PerPage then
      (SectionPerPage(store, order, Seed + drawn) + [NewNode(drawn, repo, containerId, SectionKind, 1, title)], drawn + 1)
    else
      (store, drawn)
  }

  /** Lines 203-285: renumber the invisibles in `order`, create the page's
      container, apply the scope. */
  function Sectioned(store: seq<Activity>, order: seq<nat>, page: Activity, drawn: nat, scope: string, repo: int)
    : (r: (seq<Activity>, nat))
    requires InRange(store, order) && Distinct(order)
    ensures |r.0| == |store| + (r.1 - drawn)
    ensures r.1 > drawn
  {
    var renumbered := RenumberFrom(store, order, 1);
    var withContainer := renumbered + [NewNode(drawn, repo, page.id, ContainerKind, 1, None)];
    ApplyScope(withContainer, order, scope, Seed + drawn, drawn + 1, repo, page.title)
  }

  /** Writes one page's plan: the scope step, then the tombstones. */
  function ApplyPlan(store: seq<Activity>, plan: PagePlan, page: Activity, drawn: nat, scope: string, repo: int)
    : (r: (seq<Activity>, nat))
    requires PlanFits(store, plan)
    ensures r.1 > drawn
    ensures |r.0| == |store| + (r.1 - drawn)
  {
    var (sectioned, next) := Sectioned(store, plan.order, page, drawn, scope, repo);
    (Detach(Detach(sectioned, plan.sortedContainers), plan.sections), next)
  }

  /** One iteration of `pages.forEach` (lines 160-299); returns the store and
      the number of nodes created so far. */
  function SectionPage(store: seq<Activity>, pi: nat, drawn: nat, scope: string, repo: int)
    : (r: (seq<Activity>, nat))
    requires pi < |store|
    ensures r.1 > drawn
    ensures |r.0| == |store| + (r.1 - drawn)
  {
    ApplyPlan(store, PlanPage(store, pi), store[pi], drawn, scope, repo)
  }

  /** The page loop over the live pages found before it starts. */
  function SectionPages(store: seq<Activity>, pages: seq<nat>, drawn: nat, scope: string, repo: int)
    : (r: (seq<Activity>, nat))
    requires InRange(store, pages)
    ensures |r.0| == |store| + (r.1 - drawn)
    ensures r.1 >= drawn + |pages|
    decreases |pages|
  {
    if |pages| == 0 then (store, drawn)
    else
      var (t, d) := SectionPage(store, pages[0], drawn, scope, repo);
      SectionPages(t, pages[1..], d, scope, repo)
  }

  /** Lines 312-325: drop the INVISIBLE_CONTAINERs no element names (by id). */
  function PruneEmptyInvisibles(acts: seq<Activity>, elements: seq<Element>): seq<Activity>
  {
    Cleaning.WithoutIds(acts, Cleaning.EmptyInvisibleIds(acts, Cleaning.ElementParents(elements)))
  }

  function LivePages(acts: seq<Activity>): seq<nat>
  {
    Indices(acts, IsLivePage)
  }

  /** The activities after the page loop and the pruning, before cleaning. */
  function Restructured(c: Course, scope: string): seq<Activity>
    requires |c.activities| > 0
  {
    var acts := c.activities;
    var t := SectionPages(acts, LivePages(acts), 0, scope, acts[0].repositoryId).0;
    PruneEmptyInvisibles(t, c.elements)
  }

  /** Why `sectionCourse` aborts: it reads `repository_id` off the first
      activity, which throws when there is none. */
  datatype SectionFault = NoActivities

  /** `sectionCourse(json_files, section_scope)`: it fails exactly when the
      course has no activities. Otherwise the elements kept are the input's
      minus the broken ones, every surviving INVISIBLE_CONTAINER is named by a
      kept element, and the activities are the page loop's store with some
      nodes removed and the rest in order. */
  function SectionCourse(c: Course, scope: string): (r: Result<Course, SectionFault>)
    ensures r.Fail? <==> |c.activities| == 0
    ensures r.Ok? ==> r.value.elements == Filter(c.elements, Cleaning.KeepElement)
    ensures r.Ok? ==> forall a | a in r.value.activities && a.kind == InvisibleKind ::
              exists e :: e in r.value.elements && e.activityId == a.id
    ensures r.Ok? ==>
              var acts := c.activities;
              Subsequence(r.value.activities, SectionPages(acts, LivePages(acts), 0, scope, acts[0].repositoryId).0)
  {
    if |c.activities| == 0 then Fail(NoActivities)
    else
      var acts := c.activities;
      var t := SectionPages(acts, LivePages(acts), 0, scope, acts[0].repositoryId).0;
      var pruned := Course(Restructured(c, scope), c.elements);
      Cleaning.CleanElementsSpec(pruned);
      Cleaning.CleanInvisiblesHaveElements(pruned);
      Cleaning.CleanKeepsOrder(pruned);
      PruneKeepsOrder(t, c.elements);
      SubsequenceTrans(Cleaning.CleanCourse(pruned).activities, pruned.activities, t);
      Ok(Cleaning.CleanCourse(pruned))
  }

  // ---------------------------------------------------------------------
  // One page
  // ---------------------------------------------------------------------

  /** What a page collects: every node whose parent is the page (live or not)
      as a container; the live nodes whose parent is one of those as sections;
      the live nodes whose parent is one of the sections as invisibles. */
  lemma PlanCollects(store: seq<Activity>, pi: nat)
    requires pi < |store|
    ensures var plan := PlanPage(store, pi);
            var pid := store[pi].id;
            && (forall k | 0 <= k < |store| :: k in plan.containers <==> store[k].parentId == Some(pid))
            && (forall k :: k in plan.sortedContainers <==> k in plan.containers)
            && (forall k | 0 <= k < |store| ::
                  k in plan.sections <==> Live(store[k]) && ChildOfAny(store[k], IdsAt(store, plan.containers)))
            && (forall k | 0 <= k < |store| ::
                  k in plan.invisibles <==> Live(store[k]) && ChildOfAny(store[k], IdsAt(store, plan.sections)))
  {
    var pid := store[pi].id;
    var containers := PageContainers(store, pid);
    forall k | 0 <= k < |store| ensures k in containers <==> store[k].parentId == Some(pid) {
      if k in containers {
        var j :| 0 <= j < |containers| && containers[j] == k;
      }
    }
    var sorted := SortedContainers(store, containers);
    SameIds(store, sorted, containers);
  }

  /** The invisibles are rearranged, not lost or duplicated, into
      composite-key order. */
  lemma PlanOrder(store: seq<Activity>, pi: nat)
    requires pi < |store|
    ensures var plan := PlanPage(store, pi);
            && multiset(plan.order) == multiset(plan.invisibles)
            && (forall a, b | 0 <= a < b < |plan.order| ::
                  KeyLe(InvisibleKey(store, plan.sortedContainers, plan.sections, plan.order[a]),
                        InvisibleKey(store, plan.sortedContainers, plan.sections, plan.order[b])))
  {
    var plan := PlanPage(store, pi);
    var keyed := Keyed(store, plan.sortedContainers, plan.sections, plan.invisibles);
    var sorted := Sort(keyed);
    assert plan.order == Indexes(sorted);
    forall a | 0 <= a < |sorted|
      ensures sorted[a].key == InvisibleKey(store, plan.sortedContainers, plan.sections, sorted[a].index)
    {
      assert sorted[a] in multiset(keyed);
      var j :| 0 <= j < |keyed| && keyed[j] == sorted[a];
    }
    assert Sorted(sorted);
  }

  /** Ties of the composite key keep store order: two invisibles with equal
      keys appear in the order of their store positions. */
  lemma PlanStable(store: seq<Activity>, pi: nat)
    requires pi < |store|
    ensures var plan := PlanPage(store, pi);
            forall a, b | 0 <= a < b < |plan.order| &&
                          InvisibleKey(store, plan.sortedContainers, plan.sections, plan.order[a]) ==
                          InvisibleKey(store, plan.sortedContainers, plan.sections, plan.order[b]) ::
              plan.order[a] < plan.order[b]
  {
    var plan := PlanPage(store, pi);
    assert Increasing(plan.invisibles) && Distinct(plan.invisibles);
    OrderStable(store, plan.sortedContainers, plan.sections, plan.invisibles);
  }

  lemma OrderStable(store: seq<Activity>, containers: seq<nat>, sections: seq<nat>, invisibles: seq<nat>)
    requires InRange(store, containers) && InRange(store, sections) && InRange(store, invisibles)
    requires forall s | s in sections :: s < |store| && ChildOfAny(store[s], IdsAt(store, containers))
    requires forall i | i in invisibles :: ChildOfAny(store[i], IdsAt(store, sections))
    requires Increasing(invisibles) && Distinct(invisibles)
    ensures var order := DocumentOrder(store, containers, sections, invisibles);
            forall a, b | 0 <= a < b < |order| &&
                          InvisibleKey(store, containers, sections, order[a]) ==
                          InvisibleKey(store, containers, sections, order[b]) ::
              order[a] < order[b]
  {
    var keyed := Keyed(store, containers, sections, invisibles);
    var sorted := Sort(keyed);
    var order := DocumentOrder(store, containers, sections, invisibles);
    assert order == Indexes(sorted);
    SortTiesByIndex(keyed);
    forall a, b | 0 <= a < b < |order| &&
                  InvisibleKey(store, containers, sections, order[a]) ==
                  InvisibleKey(store, containers, sections, order[b])
      ensures order[a] < order[b]
    {
      SortedKey(store, containers, sections, invisibles, a);
      SortedKey(store, containers, sections, invisibles, b);
    }
  }

  /** Every sorted entry still carries its own invisible's key. */
  lemma SortedKey(store: seq<Activity>, containers: seq<nat>, sections: seq<nat>, invisibles: seq<nat>, a: nat)
    requires InRange(store, containers) && InRange(store, sections) && InRange(store, invisibles)
    requires forall s | s in sections :: s < |store| && ChildOfAny(store[s], IdsAt(store, containers))
    requires forall i | i in invisibles :: ChildOfAny(store[i], IdsAt(store, sections))
    requires a < |invisibles|
    ensures var sorted := Sort(Keyed(store, containers, sections, invisibles));
            && sorted[a].index in invisibles
            && sorted[a].key == InvisibleKey(store, containers, sections, sorted[a].index)
  {
    var keyed := Keyed(store, containers, sections, invisibles);
    var sorted := Sort(keyed);
    assert sorted[a] in multiset(keyed);
    var j :| 0 <= j < |keyed| && keyed[j] == sorted[a];
  }

  /** The scope step keeps every node it was not given, and appends only
      sections of the new container, with consecutive fresh ids and tokens. */
  lemma ApplyScopeShape(w: seq<Activity>, order: seq<nat>, scope: string, containerId: int,
                        drawn: nat, repo: int, title: Option<string>)
    requires InRange(w, order) && Distinct(order)
    ensures var res := ApplyScope(w, order, scope, containerId, drawn, repo, title);
            var s, d := res.0, res.1;
            && (forall k | 0 <= k < |w| && k !in order :: s[k] == w[k])
            && (forall k | |w| <= k < |s| ::
                  && s[k].id == Seed + drawn + (k - |w|) && s[k].uid == Minted(drawn + (k - |w|))
                  && s[k].kind == SectionKind && s[k].parentId == Some(containerId) && !s[k].detached)
  {
    if scope == PerTe {
      SectionPerTeFrame(w, order, containerId, drawn, repo);
      SectionPerTeSections(w, order, containerId, drawn, repo);
      var (s, d) := SectionPerTe(w, order, containerId, drawn, repo);
      forall k | |w| <= k < |s|
        ensures && s[k].id == Seed + drawn + (k - |w|) && s[k].uid == Minted(drawn + (k - |w|))
                && s[k].kind == SectionKind && s[k].parentId == Some(containerId) && !s[k].detached
      {
        var j := k - |w|;
        assert s[|w| + j] == NewNode(drawn + j, repo, containerId, SectionKind, w[order[j]].position, Some(""));
      }
    }
  }

  /** The scope step on the given invisibles, per scope. */
  lemma ApplyScopeMoves(w: seq<Activity>, order: seq<nat>, scope: string, containerId: int,
                        drawn: nat, repo: int, title: Option<string>, j: nat)
    requires InRange(w, order) && Distinct(order) && j < |order|
    ensures var res := ApplyScope(w, order, scope, containerId, drawn, repo, title);
            var s, d := res.0, res.1;
            && (scope == PerTe ==>
                  && s[order[j]] == Reparented(w[order[j]], Seed + drawn + j)
                  && s[|w| + j] == NewNode(drawn + j, repo, containerId, SectionKind, w[order[j]].position, Some("")))
            && (scope == PerPage ==>
                  && s[order[j]] == w[order[j]].(parentId := Some(Seed + drawn))
                  && s[|w|] == NewNode(drawn, repo, containerId, SectionKind, 1, title))
            && (scope != PerTe && scope != PerPage ==> s[order[j]] == w[order[j]])
  {
    if scope == PerTe {
      SectionPerTeSections(w, order, containerId, drawn, repo);
      SectionPerTeMoves(w, order, containerId, drawn, repo);
    }
  }

  /** The page's scope step: the new container sits right after the old store
      and every other new node is one of its sections. */
  lemma SectionedShape(store: seq<Activity>, order: seq<nat>, page: Activity, drawn: nat, scope: string, repo: int)
    requires InRange(store, order) && Distinct(order)
    ensures var res := Sectioned(store, order, page, drawn, scope, repo);
            var s, d := res.0, res.1;
            && d == drawn + 1 + (if scope == PerTe then |order| else if scope == PerPage then 1 else 0)
            && s[|store|] == NewNode(drawn, repo, page.id, ContainerKind, 1, None)
            && (forall k | 0 <= k < |store| && k !in order :: s[k] == store[k])
            && (forall k | 0 <= k < |store| :: SameIdentity(s[k], store[k]))
            && (forall k | |store| < k < |s| ::
                  && s[k].id == Seed + drawn + (k - |store|) && s[k].uid == Minted(drawn + (k - |store|))
                  && s[k].kind == SectionKind && s[k].parentId == Some(Seed + drawn) && !s[k].detached)
  {
    var renumbered := RenumberFrom(store, order, 1);
    var w := renumbered + [NewNode(drawn, repo, page.id, ContainerKind, 1, None)];
    ApplyScopeShape(w, order, scope, Seed + drawn, drawn + 1, repo, page.title);
    assert |store| !in order;
    var s := Sectioned(store, order, page, drawn, scope, repo).0;
    forall k | 0 <= k < |store| ensures SameIdentity(s[k], store[k]) {
      if k in order {
        var j :| 0 <= j < |order| && order[j] == k;
        SectionedInvisibles(store, order, page, drawn, scope, repo, j);
      }
    }
  }

  /** The page's scope step on its j-th invisible in document order. */
  lemma SectionedInvisibles(store: seq<Activity>, order: seq<nat>, page: Activity, drawn: nat, scope: string,
                            repo: int, j: nat)
    requires InRange(store, order) && Distinct(order) && j < |order|
    ensures var res := Sectioned(store, order, page, drawn, scope, repo);
            var s, d := res.0, res.1;
            var i := order[j];
            && (scope == PerTe ==>
                  && s[i] == Reparented(store[i].(position := j + 1), Seed + drawn + 1 + j)
                  && s[|store| + 1 + j] == NewNode(drawn + 1 + j, repo, Seed + drawn, SectionKind, j + 1, Some("")))
            && (scope == PerPage ==>
                  && s[i] == store[i].(position := j + 1, parentId := Some(Seed + drawn + 1))
                  && s[|store| + 1] == NewNode(drawn + 1, repo, Seed + drawn, SectionKind, 1, page.title))
            && (scope != PerTe && scope != PerPage ==> s[i] == store[i].(position := j + 1))
  {
    var renumbered := RenumberFrom(store, order, 1);
    var w := renumbered + [NewNode(drawn, repo, page.id, ContainerKind, 1, None)];
    assert w[order[j]] == store[order[j]].(position := j + 1);
    ApplyScopeMoves(w, order, scope, Seed + drawn, drawn + 1, repo, page.title, j);
  }

  lemma BeyondRange(store: seq<Activity>, idx: seq<nat>, k: nat)
    requires InRange(store, idx) && k >= |store|
    ensures k !in idx
  {
  }

  /** Writing a plan: existing nodes keep their identity, the new container
      comes first and then its sections, with consecutive ids from
      `Seed + drawn` and matching tokens. */
  lemma ApplyAllocation(store: seq<Activity>, plan: PagePlan, page: Activity, drawn: nat, scope: string, repo: int)
    requires PlanFits(store, plan)
    ensures var res := ApplyPlan(store, plan, page, drawn, scope, repo);
            var t, d := res.0, res.1;
            && d == drawn + 1 + (if scope == PerTe then |plan.order| else if scope == PerPage then 1 else 0)
            && (forall k | 0 <= k < |store| :: SameIdentity(t[k], store[k]))
            && t[|store|] == NewNode(drawn, repo, page.id, ContainerKind, 1, None)
            && (forall k | |store| < k < |t| ::
                  && t[k].id == Seed + drawn + (k - |store|) && t[k].uid == Minted(drawn + (k - |store|))
                  && t[k].kind == SectionKind && t[k].parentId == Some(Seed + drawn) && !t[k].detached)
  {
    var (s, d) := Sectioned(store, plan.order, page, drawn, scope, repo);
    SectionedShape(store, plan.order, page, drawn, scope, repo);
    var t := Detach(Detach(s, plan.sortedContainers), plan.sections);
    forall k | |store| <= k < |t| ensures t[k] == s[k] {
      BeyondRange(store, plan.sortedContainers, k);
      BeyondRange(store, plan.sections, k);
    }
  }

  /** Writing a plan moves the j-th invisible of its order to position j + 1
      and, by scope, into its own new section, into the page's one new
      section, or nowhere. */
  lemma ApplyInvisible(store: seq<Activity>, plan: PagePlan, page: Activity, drawn: nat, scope: string, repo: int,
                       j: nat)
    requires PlanFits(store, plan) && j < |plan.order|
    ensures var res := ApplyPlan(store, plan, page, drawn, scope, repo);
            var t, d := res.0, res.1;
            var i := plan.order[j];
            var moved := if scope == PerTe then Reparented(store[i].(position := j + 1), Seed + drawn + 1 + j)
                         else if scope == PerPage then store[i].(position := j + 1, parentId := Some(Seed + drawn + 1))
                         else store[i].(position := j + 1);
            && t[i].position == j + 1 && t[i].parentId == moved.parentId
            && (i !in plan.sortedContainers && i !in plan.sections ==> t[i] == moved)
            && (scope == PerTe ==>
                  t[|store| + 1 + j] == NewNode(drawn + 1 + j, repo, Seed + drawn, SectionKind, j + 1, Some("")))
            && (scope == PerPage ==>
                  t[|store| + 1] == NewNode(drawn + 1, repo, Seed + drawn, SectionKind, 1, page.title))
  {
    var (s, d) := Sectioned(store, plan.order, page, drawn, scope, repo);
    SectionedInvisibles(store, plan.order, page, drawn, scope, repo, j);
    if scope == PerTe {
      BeyondRange(store, plan.sortedContainers, |store| + 1 + j);
      BeyondRange(store, plan.sections, |store| + 1 + j);
    }
    if scope == PerPage {
      BeyondRange(store, plan.sortedContainers, |store| + 1);
      BeyondRange(store, plan.sections, |store| + 1);
    }
  }

  /** Writing a plan tombstones every container and section it lists. */
  lemma ApplyTombstones(store: seq<Activity>, plan: PagePlan, page: Activity, drawn: nat, scope: string, repo: int)
    requires PlanFits(store, plan)
    ensures var t := ApplyPlan(store, plan, page, drawn, scope, repo).0;
            forall k | 0 <= k < |store| && (k in plan.sortedContainers || k in plan.sections) ::
              t[k].detached && t[k].deletedAt == Now && t[k].modifiedAt == Now && t[k].updatedAt == Now
  {
  }

  /** Writing a plan changes no existing node the plan does not list. */
  lemma ApplyFrame(store: seq<Activity>, plan: PagePlan, page: Activity, drawn: nat, scope: string, repo: int)
    requires PlanFits(store, plan)
    ensures var t := ApplyPlan(store, plan, page, drawn, scope, repo).0;
            forall k | 0 <= k < |store| && k !in plan.sortedContainers && k !in plan.sections && k !in plan.invisibles ::
              t[k] == store[k]
  {
    SectionedShape(store, plan.order, page, drawn, scope, repo);
  }

  /** Writing a plan never clears a tombstone. */
  lemma ApplyKeepsDetached(store: seq<Activity>, plan: PagePlan, page: Activity, drawn: nat, scope: string, repo: int)
    requires PlanFits(store, plan)
    ensures var t := ApplyPlan(store, plan, page, drawn, scope, repo).0;
            forall k | 0 <= k < |store| && store[k].detached :: t[k].detached
  {
    var s := Sectioned(store, plan.order, page, drawn, scope, repo).0;
    SectionedShape(store, plan.order, page, drawn, scope, repo);
    forall k | 0 <= k < |store| && store[k].detached ensures s[k].detached {
      if k in plan.order {
        var j :| 0 <= j < |plan.order| && plan.order[j] == k;
        SectionedInvisibles(store, plan.order, page, drawn, scope, repo, j);
      }
    }
  }

  // ---------------------------------------------------------------------
  // The page loop
  // ---------------------------------------------------------------------

  predicate IsContainer(a: Activity)
  {
    a.kind == ContainerKind
  }

  /** `t` extends `store`: every existing node keeps its identity and no
      tombstone is cleared. */
  predicate Keeps(store: seq<Activity>, t: seq<Activity>)
  {
    && |store| <= |t|
    && (forall k | 0 <= k < |store| :: SameIdentity(t[k], store[k]))
    && (forall k | 0 <= k < |store| && store[k].detached :: t[k].detached)
  }

  /** The nodes of `t` from `from` on carry consecutive ids and tokens drawn
      from the counter value `drawn`. */
  predicate Numbered(t: seq<Activity>, from: nat, drawn: nat)
  {
    forall k | from <= k < |t| :: t[k].id == Seed + drawn + (k - from) && t[k].uid == Minted(drawn + (k - from))
  }

  /** Exactly `n` of the nodes of `t` from `from` on are SECTION_CONTAINERs. */
  predicate CreatesContainers(t: seq<Activity>, from: nat, n: nat)
  {
    from <= |t| && |Filter(t[from..], IsContainer)| == n
  }

  lemma CreatedContainers(store: seq<Activity>, t: seq<Activity>)
    requires |t| > |store| && t[|store|].kind == ContainerKind
    requires forall k | |store| < k < |t| :: t[k].kind == SectionKind
    ensures CreatesContainers(t, |store|, 1)
  {
    var created := t[|store|..];
    assert created == [t[|store|]] + created[1..];
    assert Filter([t[|store|]], IsContainer) == [t[|store|]] by {
      assert [t[|store|]][..0] == [];
    }
    FilterNone(created[1..], IsContainer);
    FilterConcat([t[|store|]], created[1..], IsContainer);
  }

  /** Writing a plan, in the terms the page loop chains. */
  lemma ApplyShape(store: seq<Activity>, plan: PagePlan, page: Activity, drawn: nat, scope: string, repo: int)
    requires PlanFits(store, plan)
    ensures var t := ApplyPlan(store, plan, page, drawn, scope, repo).0;
            Keeps(store, t) && Numbered(t, |store|, drawn) && CreatesContainers(t, |store|, 1)
  {
    var t := ApplyPlan(store, plan, page, drawn, scope, repo).0;
    ApplyAllocation(store, plan, page, drawn, scope, repo);
    ApplyKeepsDetached(store, plan, page, drawn, scope, repo);
    CreatedContainers(store, t);
  }

  /** One page: existing nodes keep their identity and their tombstones, the
      new nodes take consecutive ids and tokens from the counter, and exactly
      one of them is a SECTION_CONTAINER. */
  lemma PageAllocation(store: seq<Activity>, pi: nat, drawn: nat, scope: string, repo: int)
    requires pi < |store|
    ensures var t := SectionPage(store, pi, drawn, scope, repo).0;
            Keeps(store, t) && Numbered(t, |store|, drawn) && CreatesContainers(t, |store|, 1)
  {
    ApplyShape(store, PlanPage(store, pi), store[pi], drawn, scope, repo);
  }

  lemma KeepsDetached(a: seq<Activity>, b: seq<Activity>, k: nat)
    requires Keeps(a, b) && k < |a| && a[k].detached
    ensures k < |b| && b[k].detached
  {
  }

  lemma KeepsTrans(a: seq<Activity>, b: seq<Activity>, c: seq<Activity>)
    requires Keeps(a, b) && Keeps(b, c)
    ensures Keeps(a, c)
  {
  }

  /** Ids drawn in two consecutive runs of the counter stay consecutive. */
  lemma ChainIds(store: seq<Activity>, t1: seq<Activity>, t: seq<Activity>, drawn: nat, d1: nat)
    requires |t1| == |store| + (d1 - drawn)
    requires Numbered(t1, |store|, drawn) && Keeps(t1, t) && Numbered(t, |t1|, d1)
    ensures Numbered(t, |store|, drawn)
  {
    forall k | |store| <= k < |t|
      ensures t[k].id == Seed + drawn + (k - |store|) && t[k].uid == Minted(drawn + (k - |store|))
    {
      if k < |t1| {
        assert SameIdentity(t[k], t1[k]);
      }
    }
  }

  /** Counting containers over two consecutive runs adds up. */
  lemma ChainContainers(store: seq<Activity>, t1: seq<Activity>, t: seq<Activity>, n: nat)
    requires |store| <= |t1|
    requires Keeps(t1, t) && CreatesContainers(t1, |store|, 1) && CreatesContainers(t, |t1|, n)
    ensures CreatesContainers(t, |store|, n + 1)
  {
    FilterLengthAgree(t[|store|..|t1|], t1[|store|..], IsContainer);
    assert t[|store|..] == t[|store|..|t1|] + t[|t1|..];
    FilterConcat(t[|store|..|t1|], t[|t1|..], IsContainer);
  }

  /** Across the page loop, existing nodes keep their identity and their
      tombstones. */
  lemma {:induction false} PagesKeep(store: seq<Activity>, pages: seq<nat>, drawn: nat, scope: string, repo: int)
    requires InRange(store, pages)
    ensures Keeps(store, SectionPages(store, pages, drawn, scope, repo).0)
    decreases |pages|
  {
    if |pages| > 0 {
      var r1 := SectionPage(store, pages[0], drawn, scope, repo);
      PageAllocation(store, pages[0], drawn, scope, repo);
      PagesKeep(r1.0, pages[1..], r1.1, scope, repo);
      KeepsTrans(store, r1.0, SectionPages(r1.0, pages[1..], r1.1, scope, repo).0);
    }
  }

  /** Across the page loop, the new nodes take consecutive ids and tokens from
      the counter. */
  lemma {:induction false} PagesIds(store: seq<Activity>, pages: seq<nat>, drawn: nat, scope: string, repo: int)
    requires InRange(store, pages)
    ensures Numbered(SectionPages(store, pages, drawn, scope, repo).0, |store|, drawn)
    decreases |pages|
  {
    if |pages| > 0 {
      var r1 := SectionPage(store, pages[0], drawn, scope, repo);
      PageAllocation(store, pages[0], drawn, scope, repo);
      PagesIds(r1.0, pages[1..], r1.1, scope, repo);
      PagesKeep(r1.0, pages[1..], r1.1, scope, repo);
      ChainIds(store, r1.0, SectionPages(r1.0, pages[1..], r1.1, scope, repo).0, drawn, r1.1);
    }
  }

  /** The page loop creates exactly one SECTION_CONTAINER per page. */
  lemma {:induction false} PagesContainers(store: seq<Activity>, pages: seq<nat>, drawn: nat, scope: string, repo: int)
    requires InRange(store, pages)
    ensures CreatesContainers(SectionPages(store, pages, drawn, scope, repo).0, |store|, |pages|)
    decreases |pages|
  {
    if |pages| > 0 {
      var r1 := SectionPage(store, pages[0], drawn, scope, repo);
      PageAllocation(store, pages[0], drawn, scope, repo);
      PagesContainers(r1.0, pages[1..], r1.1, scope, repo);
      PagesKeep(r1.0, pages[1..], r1.1, scope, repo);
      ChainContainers(store, r1.0, SectionPages(r1.0, pages[1..], r1.1, scope, repo).0, |pages| - 1);
    } else {
      assert SectionPages(store, pages, drawn, scope, repo).0[|store|..] == [];
    }
  }

  /** New ids never collide with existing ones that lie below the seed, so a
      store with unique ids keeps them. */
  lemma PagesUniqueIds(store: seq<Activity>, pages: seq<nat>, drawn: nat, scope: string, repo: int)
    requires InRange(store, pages)
    requires forall k | 0 <= k < |store| :: store[k].id < Seed
    requires UniqueIds(store)
    ensures UniqueIds(SectionPages(store, pages, drawn, scope, repo).0)
  {
    var t := SectionPages(store, pages, drawn, scope, repo).0;
    PagesKeep(store, pages, drawn, scope, repo);
    PagesIds(store, pages, drawn, scope, repo);
    forall i, j | 0 <= i < |t| && 0 <= j < |t| && t[i].id == t[j].id ensures i == j {
      if i < |store| && j < |store| {
        assert SameIdentity(t[i], store[i]) && SameIdentity(t[j], store[j]);
      } else if i < |store| || j < |store| {
        // a kept id lies below the seed, a drawn one at or above it
        assert false;
      }
    }
  }

  /** The counter does not look at existing ids: an existing node holding the
      next id to be drawn ends up sharing it with the page's new container. */
  lemma PageIdCollision(store: seq<Activity>, pi: nat, drawn: nat, scope: string, repo: int, k: nat)
    requires pi < |store| && k < |store| && store[k].id == Seed + drawn
    ensures !UniqueIds(SectionPage(store, pi, drawn, scope, repo).0)
  {
    PageAllocation(store, pi, drawn, scope, repo);
    var t := SectionPage(store, pi, drawn, scope, repo).0;
    assert SameIdentity(t[k], store[k]);
    assert t[k].id == t[|store|].id;
  }

  /** The store when the j-th page of the loop begins, and the counter then. */
  function Before(store: seq<Activity>, pages: seq<nat>, j: nat, drawn: nat, scope: string, repo: int)
    : (r: (seq<Activity>, nat))
    requires InRange(store, pages) && j <= |pages|
    ensures |r.0| >= |store|
  {
    SectionPages(store, pages[..j], drawn, scope, repo)
  }

  lemma {:induction false} PagesSplit(store: seq<Activity>, pages: seq<nat>, j: nat, drawn: nat, scope: string, repo: int)
    requires InRange(store, pages) && j <= |pages|
    ensures var b := Before(store, pages, j, drawn, scope, repo);
            SectionPages(store, pages, drawn, scope, repo) == SectionPages(b.0, pages[j..], b.1, scope, repo)
    decreases j, 1
  {
    if j == 0 {
      assert pages[..0] == [] && pages[0..] == pages;
    } else {
      PagesSplitStep(store, pages, j, drawn, scope, repo);
    }
  }

  /** The inductive step of the split: peel off the first page. */
  lemma {:induction false} PagesSplitStep(store: seq<Activity>, pages: seq<nat>, j: nat, drawn: nat, scope: string, repo: int)
    requires InRange(store, pages) && 0 < j <= |pages|
    ensures var b := Before(store, pages, j, drawn, scope, repo);
            SectionPages(store, pages, drawn, scope, repo) == SectionPages(b.0, pages[j..], b.1, scope, repo)
    decreases j, 0
  {
    var r1 := SectionPage(store, pages[0], drawn, scope, repo);
    var rest := pages[1..];
    BeforeStep(store, pages, j, drawn, scope, repo);
    PagesSplit(r1.0, rest, j - 1, r1.1, scope, repo);
    assert rest[j - 1..] == pages[j..];
  }

  /** The loop from page j on is page j followed by the loop from page j + 1. */
  lemma PagesTail(store: seq<Activity>, pages: seq<nat>, j: nat, drawn: nat, scope: string, repo: int)
    requires InRange(store, pages) && j < |pages|
    ensures var b := Before(store, pages, j, drawn, scope, repo);
            var r1 := SectionPage(b.0, pages[j], b.1, scope, repo);
            SectionPages(store, pages, drawn, scope, repo).0 == SectionPages(r1.0, pages[j + 1..], r1.1, scope, repo).0
  {
    PagesSplit(store, pages, j, drawn, scope, repo);
    assert pages[j..][1..] == pages[j + 1..];
  }

  /** A page tombstones every container and section it collects. */
  lemma PageTombstones(store: seq<Activity>, pi: nat, drawn: nat, scope: string, repo: int, k: nat)
    requires pi < |store| && k < |store| && Retired(store, store[pi].id, k)
    ensures SectionPage(store, pi, drawn, scope, repo).0[k].detached
  {
    var plan := PlanPage(store, pi);
    PlanCollects(store, pi);
    assert IdsAt(store, plan.containers) == ContainerIds(store, store[pi].id);
    assert k in plan.containers || k in plan.sections;
    ApplyTombstones(store, plan, store[pi], drawn, scope, repo);
  }

  /** The store before page j + 1 is the store before page j of the loop
      that starts after the first page. */
  lemma BeforeStep(store: seq<Activity>, pages: seq<nat>, j: nat, drawn: nat, scope: string, repo: int)
    requires InRange(store, pages) && 0 < j <= |pages|
    ensures var r1 := SectionPage(store, pages[0], drawn, scope, repo);
            Before(store, pages, j, drawn, scope, repo) == Before(r1.0, pages[1..], j - 1, r1.1, scope, repo)
  {
    var head := pages[..j];
    assert head[0] == pages[0];
    assert head[1..] == pages[1..][..j - 1];
  }

  /** Every node the first page retires is still tombstoned when the loop ends. */
  lemma FirstPageTombstones(store: seq<Activity>, pages: seq<nat>, drawn: nat, scope: string, repo: int, k: nat)
    requires InRange(store, pages) && 0 < |pages|
    requires k < |store| && Retired(store, store[pages[0]].id, k)
    ensures var t := SectionPages(store, pages, drawn, scope, repo).0;
            k < |t| && t[k].detached
  {
    var r1 := SectionPage(store, pages[0], drawn, scope, repo);
    PageTombstones(store, pages[0], drawn, scope, repo, k);
    PagesKeep(r1.0, pages[1..], r1.1, scope, repo);
    KeepsDetached(r1.0, SectionPages(r1.0, pages[1..], r1.1, scope, repo).0, k);
  }

  /** Every node the j-th page retires is still tombstoned when the loop ends. */
  lemma {:induction false} PagesTombstones(store: seq<Activity>, pages: seq<nat>, j: nat, drawn: nat, scope: string, repo: int, k: nat)
    requires InRange(store, pages) && j < |pages|
    requires var b := Before(store, pages, j, drawn, scope, repo).0;
             k < |b| && Retired(b, b[pages[j]].id, k)
    ensures var t := SectionPages(store, pages, drawn, scope, repo).0;
            k < |t| && t[k].detached
    decreases j, 1
  {
    if j == 0 {
      assert pages[..0] == [];
      FirstPageTombstones(store, pages, drawn, scope, repo, k);
    } else {
      LaterPageTombstones(store, pages, j, drawn, scope, repo, k);
    }
  }

  /** The inductive step: page j of the loop is page j - 1 of the loop that
      starts after the first page. */
  lemma {:induction false} LaterPageTombstones(store: seq<Activity>, pages: seq<nat>, j: nat, drawn: nat, scope: string, repo: int, k: nat)
    requires InRange(store, pages) && 0 < j < |pages|
    requires var b := Before(store, pages, j, drawn, scope, repo).0;
             k < |b| && Retired(b, b[pages[j]].id, k)
    ensures var t := SectionPages(store, pages, drawn, scope, repo).0;
            k < |t| && t[k].detached
    decreases j, 0
  {
    var r1 := SectionPage(store, pages[0], drawn, scope, repo);
    BeforeStep(store, pages, j, drawn, scope, repo);
    PagesTombstones(r1.0, pages[1..], j - 1, r1.1, scope, repo, k);
  }

  // ---------------------------------------------------------------------
  // One page, stated on the page's own plan
  // ---------------------------------------------------------------------

  /** The page's new SECTION_CONTAINER sits right after the old store, under
      the page at position 1; every later new node is a SECTION of it; one
      section is drawn per invisible under `section_per_te`, one in all under
      `section_per_page`, none otherwise. */
  lemma PageCreates(store: seq<Activity>, pi: nat, drawn: nat, scope: string, repo: int)
    requires pi < |store|
    ensures var plan := PlanPage(store, pi);
            var res := SectionPage(store, pi, drawn, scope, repo);
            var t, d := res.0, res.1;
            && d == drawn + 1 + (if scope == PerTe then |plan.invisibles| else if scope == PerPage then 1 else 0)
            && t[|store|] == NewNode(drawn, repo, store[pi].id, ContainerKind, 1, None)
            && (forall k | |store| < k < |t| ::
                  t[k].kind == SectionKind && t[k].parentId == Some(Seed + drawn) && !t[k].detached)
  {
    var plan := PlanPage(store, pi);
    ApplyAllocation(store, plan, store[pi], drawn, scope, repo);
    assert |plan.order| == |multiset(plan.order)| == |multiset(plan.invisibles)| == |plan.invisibles|;
  }

  /** Lines 203-205: the page's invisibles end numbered 1..N in document
      order (the order `PlanOrder` describes). */
  lemma PageRenumbers(store: seq<Activity>, pi: nat, drawn: nat, scope: string, repo: int)
    requires pi < |store|
    ensures var order := PlanPage(store, pi).order;
            var t := SectionPage(store, pi, drawn, scope, repo).0;
            forall j | 0 <= j < |order| :: t[order[j]].position == j + 1
  {
    var plan := PlanPage(store, pi);
    forall j | 0 <= j < |plan.order|
      ensures SectionPage(store, pi, drawn, scope, repo).0[plan.order[j]].position == j + 1
    {
      ApplyInvisible(store, plan, store[pi], drawn, scope, repo, j);
    }
  }

  /** Lines 228-283: where the j-th invisible of the page goes, by scope, and
      the section drawn for it. */
  lemma PageScope(store: seq<Activity>, pi: nat, drawn: nat, scope: string, repo: int, j: nat)
    requires pi < |store| && j < |PlanPage(store, pi).order|
    ensures var t := SectionPage(store, pi, drawn, scope, repo).0;
            var i := PlanPage(store, pi).order[j];
            && t[i].parentId == (if scope == PerTe then Some(Seed + drawn + 1 + j)
                                 else if scope == PerPage then Some(Seed + drawn + 1)
                                 else store[i].parentId)
            && (scope == PerTe ==>
                  t[|store| + 1 + j] == NewNode(drawn + 1 + j, repo, Seed + drawn, SectionKind, j + 1, Some("")))
            && (scope == PerPage ==>
                  t[|store| + 1] == NewNode(drawn + 1, repo, Seed + drawn, SectionKind, 1, store[pi].title))
  {
    ApplyInvisible(store, PlanPage(store, pi), store[pi], drawn, scope, repo, j);
  }

  /** A page changes no existing node other than the ones it collects. */
  lemma PageFrame(store: seq<Activity>, pi: nat, drawn: nat, scope: string, repo: int)
    requires pi < |store|
    ensures var plan := PlanPage(store, pi);
            var t := SectionPage(store, pi, drawn, scope, repo).0;
            forall k | 0 <= k < |store| && k !in plan.containers && k !in plan.sections && k !in plan.invisibles ::
              t[k] == store[k]
  {
    PlanCollects(store, pi);
    ApplyFrame(store, PlanPage(store, pi), store[pi], drawn, scope, repo);
  }

  // ---------------------------------------------------------------------
  // After the loop
  // ---------------------------------------------------------------------

  /** Lines 312-325: with unique ids, a node survives the pruning exactly when
      it is not an INVISIBLE_CONTAINER that no element names, and the
      survivors keep their relative order. */
  lemma PruneSpec(acts: seq<Activity>, elements: seq<Element>)
    requires UniqueIds(acts)
    ensures var r := PruneEmptyInvisibles(acts, elements);
            && (forall k | 0 <= k < |acts| ::
                  acts[k] in r <==> !(acts[k].kind == InvisibleKind && forall e | e in elements :: e.activityId != acts[k].id))
            && Subsequence(r, acts)
  {
    var parents := Cleaning.ElementParents(elements);
    var gone := Cleaning.EmptyInvisibleIds(acts, parents);
    var r := PruneEmptyInvisibles(acts, elements);
    PruneKeepsOrder(acts, elements);
    forall k | 0 <= k < |acts|
      ensures acts[k] in r <==> !(acts[k].kind == InvisibleKind && forall e | e in elements :: e.activityId != acts[k].id)
    {
      if acts[k].kind == InvisibleKind && forall e | e in elements :: e.activityId != acts[k].id {
        assert acts[k].id !in parents;
        assert acts[k].id in gone;
      }
    }
  }

  /** The pruning removes nodes and keeps the rest in order. */
  lemma PruneKeepsOrder(acts: seq<Activity>, elements: seq<Element>)
    ensures Subsequence(PruneEmptyInvisibles(acts, elements), acts)
  {
    var gone := Cleaning.EmptyInvisibleIds(acts, Cleaning.ElementParents(elements));
    FilterSubsequence(acts, (a: Activity) => a.id !in gone);
  }

  /** Lines 155-325 together: when the existing ids are unique and below the
      seed, a node of the page loop's store is removed before cleaning exactly
      when it is an INVISIBLE_CONTAINER that no element names. */
  lemma RestructuredSpec(c: Course, scope: string)
    requires |c.activities| > 0
    requires forall k | 0 <= k < |c.activities| :: c.activities[k].id < Seed
    requires UniqueIds(c.activities)
    ensures var acts := c.activities;
            var t := SectionPages(acts, LivePages(acts), 0, scope, acts[0].repositoryId).0;
            var r := Restructured(c, scope);
            && (forall k | 0 <= k < |t| ::
                  t[k] in r <==> !(t[k].kind == InvisibleKind && forall e | e in c.elements :: e.activityId != t[k].id))
            && Subsequence(r, t)
  {
    var acts := c.activities;
    var pages := LivePages(acts);
    var t := SectionPages(acts, pages, 0, scope, acts[0].repositoryId).0;
    PagesUniqueIds(acts, pages, 0, scope, acts[0].repositoryId);
    assert Restructured(c, scope) == PruneEmptyInvisibles(t, c.elements);
    PruneSpec(t, c.elements);
  }
}
