/**
 `cleanCourse`: drops elements that are output-only and detached or that
 carry a non-empty `refs.linked`, then removes by id the INVISIBLE_CONTAINERs
 no surviving element names and the SECTIONs no qualifying node of the
 INPUT activities names as its parent. Every filter keeps input order.
 */
module Cleaning {
  import opened Store
  import opened Seqs

  /** `e.data.inputOutputType === "OUTPUT_ONLY" && e.detached` */
  predicate OutputOnlyDetached(e: Element)
  {
    e.ioType == Some("OUTPUT_ONLY") && e.detached
  }

  /** `e.refs.linked.length > 0`, where a missing `refs.linked` throws and the
      exception keeps the element, and a value without `length` compares false. */
  predicate HasLinks(e: Element)
  {
    match e.linked
    case List(ids) => |ids| > 0
    case Text(chars) => |chars| > 0
    case _ => false
  }

  predicate KeepElement(e: Element)
  {
    !OutputOnlyDetached(e) && !HasLinks(e)
  }

  /** The two element filters, applied one after the other as in the source. */
  function CleanElements(es: seq<Element>): seq<Element>
  {
    Filter(Filter(es, (e: Element) => !OutputOnlyDetached(e)), (e: Element) => !HasLinks(e))
  }

  /** `all_element_parents` */
  function ElementParents(es: seq<Element>): set<int>
  {
    set e | e in es :: e.activityId
  }

  /** `empty_invisible_ids`: ids of INVISIBLE_CONTAINERs no element names. */
  function EmptyInvisibleIds(acts: seq<Activity>, parents: set<int>): set<int>
  {
    set a | a in acts && a.kind == InvisibleKind && a.id !in parents :: a.id
  }

  /** Nodes whose parent makes a SECTION count as having children. */
  predicate Qualifying(a: Activity)
  {
    a.kind == InvisibleKind || a.kind == QuestionSetKind || a.kind == ExpandKind
  }

  /** `sections_with_children` */
  function SectionsWithChildren(acts: seq<Activity>): set<int>
  {
    set a | a in acts && Qualifying(a) && a.parentId.Some? :: a.parentId.value
  }

  /** `empty_section_ids` */
  function EmptySectionIds(acts: seq<Activity>): set<int>
  {
    set a | a in acts && a.kind == SectionKind && a.id !in SectionsWithChildren(acts) :: a.id
  }

  /** Removes every node whose id is in `ids` (`filter(a => !ids.includes(a.id))`). */
  function WithoutIds(acts: seq<Activity>, ids: set<int>): seq<Activity>
  {
    Filter(acts, (a: Activity) => a.id !in ids)
  }

  function CleanCourse(c: Course): Course
  {
    var es := CleanElements(c.elements);
    var emptyInvisibles := EmptyInvisibleIds(c.activities, ElementParents(es));
    var nonEmpty := WithoutIds(c.activities, emptyInvisibles);
    // the empty sections are computed from the input activities, not `nonEmpty`
    Course(WithoutIds(nonEmpty, EmptySectionIds(c.activities)), es)
  }

  /** The elements kept are exactly the input elements, in input order, that are
      neither output-only-and-detached nor carrying a non-empty link list. */
  lemma CleanElementsSpec(c: Course)
    ensures CleanCourse(c).elements == Filter(c.elements, KeepElement)
    ensures forall e :: e in CleanCourse(c).elements <==> e in c.elements && KeepElement(e)
  {
    FilterCompose(c.elements, (e: Element) => !OutputOnlyDetached(e), (e: Element) => !HasLinks(e), KeepElement);
    FilterIsPick(c.elements, KeepElement);
  }

  /** Which activities survive: those whose id is neither the id of an
      INVISIBLE_CONTAINER named by no surviving element nor the id of a SECTION
      named as parent by no qualifying node of the input; input order is kept. */
  lemma CleanActivitiesSpec(c: Course)
    ensures var r := CleanCourse(c);
            var gone := EmptyInvisibleIds(c.activities, ElementParents(r.elements))
                        + EmptySectionIds(c.activities);
            && r.activities == Filter(c.activities, (a: Activity) => a.id !in gone)
            && (forall a :: a in r.activities <==> a in c.activities && a.id !in gone)
  {
    var r := CleanCourse(c);
    var inv := EmptyInvisibleIds(c.activities, ElementParents(r.elements));
    var sec := EmptySectionIds(c.activities);
    var gone := inv + sec;
    FilterCompose(c.activities, (a: Activity) => a.id !in inv, (a: Activity) => a.id !in sec, (a: Activity) => a.id !in gone);
    FilterIsPick(c.activities, (a: Activity) => a.id !in gone);
  }

  /** Relative order survives cleaning: the kept activities are the input read
      at strictly increasing positions. */
  lemma CleanKeepsOrder(c: Course)
    ensures Subsequence(CleanCourse(c).activities, c.activities)
  {
    var r := CleanCourse(c);
    var gone := EmptyInvisibleIds(c.activities, ElementParents(r.elements))
                + EmptySectionIds(c.activities);
    CleanActivitiesSpec(c);
    FilterSubsequence(c.activities, (a: Activity) => a.id !in gone);
  }

  /** Every INVISIBLE_CONTAINER that survives is named by a surviving element. */
  lemma CleanInvisiblesHaveElements(c: Course)
    ensures var r := CleanCourse(c);
            forall a | a in r.activities && a.kind == InvisibleKind ::
              exists e :: e in r.elements && e.activityId == a.id
  {
    var r := CleanCourse(c);
    CleanActivitiesSpec(c);
    forall a | a in r.activities && a.kind == InvisibleKind
      ensures exists e :: e in r.elements && e.activityId == a.id
    {
      assert a in c.activities;
      assert a.id !in EmptyInvisibleIds(c.activities, ElementParents(r.elements));
    }
  }

  /** With unique ids, a removed node is itself an INVISIBLE_CONTAINER that no
      surviving element names, or a SECTION that no qualifying input node names. */
  lemma CleanRemovesOnlyEmpty(c: Course, a: Activity)
    requires UniqueIds(c.activities)
    requires a in c.activities && a !in CleanCourse(c).activities
    ensures var r := CleanCourse(c);
            || (a.kind == InvisibleKind && forall e | e in r.elements :: e.activityId != a.id)
            || (a.kind == SectionKind && a.id !in SectionsWithChildren(c.activities))
  {
    var r := CleanCourse(c);
    CleanActivitiesSpec(c);
    var i :| 0 <= i < |c.activities| && c.activities[i] == a;
    if a.id in EmptyInvisibleIds(c.activities, ElementParents(r.elements)) {
      var b :| b in c.activities && b.kind == InvisibleKind && b.id !in ElementParents(r.elements) && b.id == a.id;
      var j :| 0 <= j < |c.activities| && c.activities[j] == b;
      assert i == j;
    } else {
      var b :| b in c.activities && b.kind == SectionKind && b.id !in SectionsWithChildren(c.activities) && b.id == a.id;
      var j :| 0 <= j < |c.activities| && c.activities[j] == b;
      assert i == j;
    }
  }

  /** A SECTION whose qualifying children are all pruned in the same pass is
      still kept, because `sections_with_children` is read off the input. */
  lemma CleanKeepsSectionOfPrunedChild(c: Course, s: Activity, child: Activity)
    requires s in c.activities && s.kind == SectionKind
    requires child in c.activities && Qualifying(child) && child.parentId == Some(s.id)
    requires s.id !in EmptyInvisibleIds(c.activities, ElementParents(CleanCourse(c).elements))
    ensures s in CleanCourse(c).activities
  {
    CleanActivitiesSpec(c);
    assert s.id in SectionsWithChildren(c.activities);
  }

  /** A second pass removes no further INVISIBLE_CONTAINER and no element: it can
      only remove nodes sharing an id with a SECTION left empty by the first. */
  lemma CleanTwice(c: Course)
    ensures var once := CleanCourse(c);
            var twice := CleanCourse(once);
            && twice.elements == once.elements
            && twice.activities == WithoutIds(once.activities, EmptySectionIds(once.activities))
  {
    var once := CleanCourse(c);
    var twice := CleanCourse(once);
    CleanElementsSpec(c);
    CleanElementsSpec(once);
    CleanActivitiesSpec(c);
    // filtering by KeepElement twice is filtering once
    FilterKeepsAll(once.elements, KeepElement);
    assert twice.elements == once.elements;
    var parents := ElementParents(once.elements);
    assert EmptyInvisibleIds(once.activities, parents) == {} by {
      forall a | a in once.activities && a.kind == InvisibleKind
        ensures a.id in parents
      {
        assert a in c.activities;
      }
    }
    FilterKeepsAll(once.activities, (a: Activity) => a.id !in EmptyInvisibleIds(once.activities, parents));
  }

  /** The specimen the idempotence of cleaning fails on: one SECTION whose only
      child is an INVISIBLE_CONTAINER holding no element. */
  function EmptyChainCourse(): Course
  {
    var section := Activity(1, 0, None, Existing("s"), SectionKind, 1, None, false,
                            Unset, Unset, Unset, Unset, Unset);
    var invisible := Activity(2, 0, Some(1), Existing("i"), InvisibleKind, 1, None, false,
                              Unset, Unset, Unset, Unset, Unset);
    Course([section, invisible], [])
  }

  /** Cleaning is not idempotent: the first pass removes only the empty
      INVISIBLE_CONTAINER and keeps its SECTION; the second removes the SECTION. */
  lemma CleanNotIdempotent()
    ensures var c := EmptyChainCourse();
            && CleanCourse(c).activities == [c.activities[0]]
            && CleanCourse(CleanCourse(c)).activities == []
  {
    var c := EmptyChainCourse();
    CleanFirstPass(c);
    CleanSecondPass(CleanCourse(c));
  }

  /** First pass over a SECTION whose only child is an empty INVISIBLE_CONTAINER. */
  lemma CleanFirstPass(c: Course)
    requires c.elements == [] && |c.activities| == 2
    requires c.activities[0].kind == SectionKind && c.activities[1].kind == InvisibleKind
    requires c.activities[1].parentId == Some(c.activities[0].id)
    requires c.activities[0].id != c.activities[1].id
    ensures CleanCourse(c).activities == [c.activities[0]]
    ensures CleanCourse(c).elements == []
  {
    var s := c.activities[0];
    var i := c.activities[1];
    var once := CleanCourse(c);
    assert once.elements == [] by {
      CleanElementsSpec(c);
    }
    assert ElementParents(once.elements) == {};
    var inv := EmptyInvisibleIds(c.activities, {});
    assert inv == {i.id} by {
      assert i in c.activities;
      forall a | a in c.activities ensures a == s || a == i {
      }
    }
    assert SectionsWithChildren(c.activities) == {s.id} by {
      assert i in c.activities && Qualifying(i);
      forall a | a in c.activities ensures a == s || a == i {
      }
    }
    assert EmptySectionIds(c.activities) == {} by {
      forall a | a in c.activities ensures a == s || a == i {
      }
    }
    CleanActivitiesSpec(c);
    assert s in once.activities;
    assert i !in once.activities;
    assert |once.activities| <= 2;
    FilterIsPick(c.activities, (a: Activity) => a.id !in inv + {});
    var idx := Indices(c.activities, (a: Activity) => a.id !in inv + {});
    assert 1 !in idx;
    assert 0 in idx;
    assert idx == [0];
  }

  /** The second pass of the specimen: a lone SECTION with no child. */
  lemma CleanSecondPass(c: Course)
    requires c.elements == [] && |c.activities| == 1
    requires c.activities[0].kind == SectionKind
    ensures CleanCourse(c).activities == []
  {
    var s := c.activities[0];
    CleanElementsSpec(c);
    assert SectionsWithChildren(c.activities) == {} by {
      forall a | a in c.activities ensures a == s {
      }
    }
    assert s.id in EmptySectionIds(c.activities);
    CleanActivitiesSpec(c);
    assert s !in CleanCourse(c).activities;
  }
}
