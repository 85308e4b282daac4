/**
 `heuristicSectioning`: walks the nested view section container by section
 container and, around a section holding a single video, moves the intro HTML
 invisible of the previous section and/or the credits EXPAND_CONTAINER of the
 next section into the video's section, writing `parent_id`/`position` back
 into the store by id. The view is scratch state: it is edited as the walk
 goes (donor sections emptied, moved entries added), and those edits steer the
 guards of later sections.
 */
module Heuristic {
  import opened Store
  import opened Nesting

  /** The two ways the walk throws in the source. */
  datatype Fault =
    | EmptyInvisible(id: int)     // `previous_invis.contents[0]` of an invisible with no element
    | MissingActivity(id: int)    // `activities.find` finds no node with a view entry's id

  /** A single invisible holding a single teaching element whose type contains "VIDEO". */
  predicate IsVideoSection(s: SectionView)
  {
    && |s.contents| == 1
    && |s.contents[0].tes| == 1
    && Includes(s.contents[0].tes[0].Kind(), "VIDEO")
  }

  /** The previous section passes the shape checks before its first element is read. */
  predicate IntroShape(s: SectionView)
  {
    |s.contents| == 1 && s.contents[0].item.Kind() == InvisibleKind
  }

  /** The previous section passes the shape checks but its invisible holds no
      element, so reading its first element throws. */
  predicate IntroThrows(s: SectionView)
  {
    IntroShape(s) && |s.contents[0].tes| == 0
  }

  /** The previous section can be pulled in as the intro. */
  predicate IntroDonor(s: SectionView)
  {
    && IntroShape(s)
    && |s.contents[0].tes| > 0
    && Includes(s.contents[0].tes[0].Kind(), "HTML")
  }

  /** The next section can be pulled in as the credits. */
  predicate CreditsDonor(s: SectionView)
  {
    |s.contents| == 1 && s.contents[0].item.Kind() == ExpandKind
  }

  /** Index of the first node with the given id (`activities.find`). */
  function FindById(store: seq<Activity>, id: int): (r: Option<nat>)
    ensures r.Some? ==> r.value < |store| && store[r.value].id == id
                        && forall k | 0 <= k < r.value :: store[k].id != id
    ensures r.None? ==> forall k | 0 <= k < |store| :: store[k].id != id
  {
    if |store| == 0 then None
    else if store[0].id == id then Some(0)
    else match FindById(store[1..], id)
      case None => None
      case Some(k) => Some(k + 1)
  }

  /** `b` is `a`, or `a`, whose id is one of `ids`, moved under a section
      whose id is one of `parents`, at position 1 or 3. */
  predicate MovedOrSame(a: Activity, b: Activity, ids: set<int>, parents: set<int>)
  {
    || b == a
    || (&& a.id in ids
        && b == a.(parentId := b.parentId, position := b.position)
        && b.parentId.Some? && b.parentId.value in parents
        && (b.position == 1 || b.position == 3))
  }

  /** Only nodes with an id in `ids` changed, and only their `parent_id`
      (now one of `parents`) and their `position` (now 1 or 3). */
  predicate OnlyMoved(s: seq<Activity>, t: seq<Activity>, ids: set<int>, parents: set<int>)
  {
    |s| == |t| && forall k | 0 <= k < |s| :: MovedOrSame(s[k], t[k], ids, parents)
  }

  lemma OnlyMovedTrans(s: seq<Activity>, t: seq<Activity>, u: seq<Activity>,
                       ids: set<int>, parents: set<int>, ids': set<int>, parents': set<int>)
    requires OnlyMoved(s, t, ids, parents) && OnlyMoved(t, u, ids', parents')
    ensures OnlyMoved(s, u, ids + ids', parents + parents')
  {
    forall k | 0 <= k < |s| ensures MovedOrSame(s[k], u[k], ids + ids', parents + parents') {
      assert MovedOrSame(s[k], t[k], ids, parents) && MovedOrSame(t[k], u[k], ids', parents');
    }
  }

  lemma OnlyMovedWeaken(s: seq<Activity>, t: seq<Activity>,
                        ids: set<int>, parents: set<int>, ids': set<int>, parents': set<int>)
    requires OnlyMoved(s, t, ids, parents) && ids <= ids' && parents <= parents'
    ensures OnlyMoved(s, t, ids', parents')
  {
    forall k | 0 <= k < |s| ensures MovedOrSame(s[k], t[k], ids', parents') {
      assert MovedOrSame(s[k], t[k], ids, parents);
    }
  }

  /** Reparents the first node with id `id` under `sectionId` at `position`. */
  function Move(store: seq<Activity>, id: int, sectionId: int, position: int): (r: Result<seq<Activity>, Fault>)
    requires position == 1 || position == 3
    ensures r.Fail? <==> forall k | 0 <= k < |store| :: store[k].id != id
    ensures r.Fail? ==> r.error == MissingActivity(id)
    ensures r.Ok? ==> OnlyMoved(store, r.value, {id}, {sectionId})
    ensures r.Ok? ==> exists k :: && 0 <= k < |store| && store[k].id == id
                                  && (forall j | 0 <= j < k :: store[j].id != id)
                                  && r.value == store[k := store[k].(parentId := Some(sectionId), position := position)]
  {
    match FindById(store, id)
    case None => Fail(MissingActivity(id))
    case Some(k) =>
      var t := store[k := store[k].(parentId := Some(sectionId), position := position)];
      assert forall j | 0 <= j < |store| :: MovedOrSame(store[j], t[j], {id}, {sectionId});
      Ok(t)
  }

  /** `local_invisibles[0].position = 2`, written to the view only. */
  function AtPosition2(it: Item): (r: Item)
    ensures r.Id() == it.Id() && r.Kind() == it.Kind()
  {
    match it
    case Act(a) => Act(a.(position := 2))
    case Te(e) => Te(e)
  }

  /** The intro the iteration at `j` pulls in, when asked to: the sole entry
      of section `j - 1`, if that section passes the intro guards. */
  function IntroMover(secs: seq<SectionView>, j: nat, intro: bool): set<int>
    requires j < |secs|
  {
    if intro && j > 0 && IntroDonor(secs[j - 1]) then {secs[j - 1].contents[0].item.Id()} else {}
  }

  /** The credits the iteration at `j` pulls in, when asked to: the sole
      entry of section `j + 1`, if that section passes the credits guards. */
  function CreditsMover(secs: seq<SectionView>, j: nat, credits: bool): set<int>
    requires j < |secs|
  {
    if credits && j + 1 < |secs| && CreditsDonor(secs[j + 1]) then {secs[j + 1].contents[0].item.Id()} else {}
  }

  /** The ids the iteration at `j` may move: none away from a single-video
      section, none when a requested intro fails its guards (the iteration
      ends there), otherwise the intro and the credits whose guards pass. */
  function DonorIds(secs: seq<SectionView>, j: nat, credits: bool, intro: bool): set<int>
    requires j < |secs|
  {
    if !IsVideoSection(secs[j]) then {}
    else if intro && !(j > 0 && IntroDonor(secs[j - 1])) then {}
    else IntroMover(secs, j, intro) + CreditsMover(secs, j, credits)
  }

  /** The credits step for the video section `i` (lines 419-441). */
  function Credits(store: seq<Activity>, secs: seq<SectionView>, i: nat, credits: bool)
    : (r: Result<(seq<Activity>, seq<SectionView>), Fault>)
    requires i < |secs|
    ensures r.Ok? ==> OnlyMoved(store, r.value.0, CreditsMover(secs, i, credits), {secs[i].item.Id()})
    ensures r.Ok? ==> && |r.value.1| == |secs|
                      && forall j | 0 <= j < |secs| :: && r.value.1[j].item == secs[j].item
                                                        && (j != i && j != i + 1 ==> r.value.1[j] == secs[j])
    ensures !(credits && i + 1 < |secs| && CreditsDonor(secs[i + 1])) ==> r == Ok((store, secs))
    ensures credits && i + 1 < |secs| && CreditsDonor(secs[i + 1]) ==>
              var donor := secs[i + 1].contents[0];
              && (r.Fail? <==> forall k | 0 <= k < |store| :: store[k].id != donor.item.Id())
              && (r.Ok? ==> r.value.0 == Move(store, donor.item.Id(), secs[i].item.Id(), 3).value
                            && r.value.1[i + 1].contents == []
                            && r.value.1[i].contents == secs[i].contents + [donor])
  {
    if !credits then Ok((store, secs))
    else if i == |secs| - 1 then Ok((store, secs))
    else
      var next := secs[i + 1];
      if |next.contents| != 1 then Ok((store, secs))
      else
        var donor := next.contents[0];
        if donor.item.Kind() != ExpandKind then Ok((store, secs))
        else
          match Move(store, donor.item.Id(), secs[i].item.Id(), 3)
          case Fail(f) => Fail(f)
          case Ok(moved) =>
            var secs1 := secs[i + 1 := next.(contents := [])];
            Ok((moved, secs1[i := secs[i].(contents := secs[i].contents + [donor])]))
  }

  /** One iteration of the section loop (lines 376-441). */
  function Visit(store: seq<Activity>, secs: seq<SectionView>, i: nat, credits: bool, intro: bool)
    : (r: Result<(seq<Activity>, seq<SectionView>), Fault>)
    requires i < |secs|
    // only the donors whose flag is set and whose guards pass move, and only into section i
    ensures r.Ok? ==> OnlyMoved(store, r.value.0, DonorIds(secs, i, credits, intro), {secs[i].item.Id()})
    // a relocation happens only around a video section
    ensures !IsVideoSection(secs[i]) ==> r == Ok((store, secs))
    // a requested intro whose guard fails ends the iteration: no credits move
    ensures IsVideoSection(secs[i]) && intro && (i == 0 || (!IntroDonor(secs[i - 1]) && !IntroThrows(secs[i - 1]))) ==>
              r.Ok? && r.value.0 == store
    // reading the first element of an empty intro invisible throws
    ensures IsVideoSection(secs[i]) && intro && i > 0 && IntroThrows(secs[i - 1]) ==>
              r == Fail(EmptyInvisible(secs[i - 1].contents[0].item.Id()))
  {
    var invs := secs[i].contents;
    if |invs| != 1 then Ok((store, secs))
    else if |invs[0].tes| != 1 then Ok((store, secs))
    else if !Includes(invs[0].tes[0].Kind(), "VIDEO") then Ok((store, secs))
    else
      var secs1 := VideoMarked(secs, i);
      if intro then
        if i == 0 then Ok((store, secs1))
        else
          var prev := secs1[i - 1];
          if |prev.contents| != 1 then Ok((store, secs1))
          else
            var donor := prev.contents[0];
            if donor.item.Kind() != InvisibleKind then Ok((store, secs1))
            else if |donor.tes| == 0 then Fail(EmptyInvisible(donor.item.Id()))
            else if !Includes(donor.tes[0].Kind(), "HTML") then Ok((store, secs1))
            else
              match Move(store, donor.item.Id(), secs1[i].item.Id(), 1)
              case Fail(f) => Fail(f)
              case Ok(moved) =>
                var secs2 := IntroMoved(secs1, i);
                assert secs2[i] == secs[i].(contents := secs2[i].contents);
                assert i + 1 < |secs| ==> secs2[i + 1] == secs[i + 1];
                var r := Credits(moved, secs2, i, credits);
                if r.Ok? then
                  OnlyMovedTrans(store, moved, r.value.0, {donor.item.Id()}, {secs[i].item.Id()},
                                 CreditsMover(secs, i, credits), {secs[i].item.Id()});
                  r
                else r
      else
        assert i + 1 < |secs| ==> secs1[i + 1] == secs[i + 1];
        Credits(store, secs1, i, credits)
  }

  /** The video section's sole entry renumbered to 2 in the view. */
  function VideoMarked(secs: seq<SectionView>, i: nat): seq<SectionView>
    requires i < |secs| && |secs[i].contents| == 1
  {
    var invs := secs[i].contents;
    secs[i := secs[i].(contents := [invs[0].(item := AtPosition2(invs[0].item))])]
  }

  /** The view after the intro moved: section `i - 1` emptied, its entry
      put in front of section `i`. */
  function IntroMoved(secs: seq<SectionView>, i: nat): seq<SectionView>
    requires 0 < i < |secs| && |secs[i - 1].contents| == 1
  {
    var prev := secs[i - 1];
    secs[i - 1 := prev.(contents := [])][i := secs[i].(contents := [prev.contents[0]] + secs[i].contents)]
  }

  /** Two view entries the guards cannot tell apart. */
  predicate SameEntry(x: InvisibleView, y: InvisibleView)
  {
    x.item.Id() == y.item.Id() && x.item.Kind() == y.item.Kind() && x.tes == y.tes
  }

  /** The view after the iteration at `i`: the same sections; those other
      than `i - 1`, `i` and `i + 1` untouched; section `i + 1` untouched or
      emptied; and a section `i` left with one entry keeps that entry as far
      as the guards can see. */
  predicate ViewAfterVisit(secs: seq<SectionView>, v: seq<SectionView>, i: nat)
    requires i < |secs|
  {
    && |v| == |secs|
    && (forall j | 0 <= j < |secs| :: v[j].item == secs[j].item)
    && (forall j | 0 <= j < |secs| && j + 1 != i && j != i && j != i + 1 :: v[j] == secs[j])
    && (i + 1 < |secs| ==> v[i + 1] == secs[i + 1] || v[i + 1].contents == [])
    && (|v[i].contents| == 1 ==> |secs[i].contents| == 1 && SameEntry(v[i].contents[0], secs[i].contents[0]))
  }

  lemma VisitView(store: seq<Activity>, secs: seq<SectionView>, i: nat, credits: bool, intro: bool)
    requires i < |secs| && Visit(store, secs, i, credits, intro).Ok?
    ensures ViewAfterVisit(secs, Visit(store, secs, i, credits, intro).value.1, i)
  {
    if IsVideoSection(secs[i]) {
      var secs1 := VideoMarked(secs, i);
      if !intro {
        assert Visit(store, secs, i, credits, intro) == Credits(store, secs1, i, credits);
        CreditsAfterMark(store, secs, i, credits);
      } else if i > 0 && IntroDonor(secs[i - 1]) {
        var moved := Move(store, secs[i - 1].contents[0].item.Id(), secs[i].item.Id(), 1).value;
        assert Visit(store, secs, i, credits, intro) == Credits(moved, IntroMoved(secs1, i), i, credits);
        CreditsAfterIntro(moved, secs, i, credits);
      }
    }
  }

  lemma CreditsAfterMark(store: seq<Activity>, secs: seq<SectionView>, i: nat, credits: bool)
    requires i < |secs| && |secs[i].contents| == 1
    requires Credits(store, VideoMarked(secs, i), i, credits).Ok?
    ensures ViewAfterVisit(secs, Credits(store, VideoMarked(secs, i), i, credits).value.1, i)
  {
    var secs1 := VideoMarked(secs, i);
    var v := Credits(store, secs1, i, credits).value.1;
    if v != secs1 {
      assert |v[i].contents| == 2;
    }
  }

  lemma CreditsAfterIntro(store: seq<Activity>, secs: seq<SectionView>, i: nat, credits: bool)
    requires 0 < i < |secs| && |secs[i].contents| == 1 && |secs[i - 1].contents| == 1
    requires Credits(store, IntroMoved(VideoMarked(secs, i), i), i, credits).Ok?
    ensures ViewAfterVisit(secs, Credits(store, IntroMoved(VideoMarked(secs, i), i), i, credits).value.1, i)
  {
    var secs2 := IntroMoved(VideoMarked(secs, i), i);
    var v := Credits(store, secs2, i, credits).value.1;
    assert |secs2[i].contents| == 2;
    assert |v[i].contents| >= 2;
  }

  /** Nothing the iteration at `i` does to the view lets a later iteration
      move more than it could have in the view before. */
  lemma DonorIdsShrink(secs: seq<SectionView>, v: seq<SectionView>, i: nat, j: nat, credits: bool, intro: bool)
    requires i < j < |secs| && ViewAfterVisit(secs, v, i)
    ensures DonorIds(v, j, credits, intro) <= DonorIds(secs, j, credits, intro)
  {
    assert j + 1 < |secs| ==> v[j + 1] == secs[j + 1];
    if j == i + 1 {
      assert IntroDonor(v[i]) ==> IntroDonor(secs[i]);
    } else {
      assert v[j] == secs[j];
    }
  }

  /** After the intro move and the credits step, the intro's first node is
      in the video's section, still at position 1 unless credits moved it. */
  lemma IntroThenCredits(store: seq<Activity>, moved: seq<Activity>, t: seq<Activity>,
                         introId: int, videoId: int, creditsIds: set<int>)
    requires Move(store, introId, videoId, 1).Ok? && moved == Move(store, introId, videoId, 1).value
    requires OnlyMoved(moved, t, creditsIds, {videoId})
    ensures FindById(store, introId).Some?
    ensures var k := FindById(store, introId).value;
            && t[k].parentId == Some(videoId)
            && (introId !in creditsIds ==> t[k].position == 1)
  {
    var k :| && 0 <= k < |store| && store[k].id == introId
             && (forall j | 0 <= j < k :: store[j].id != introId)
             && moved == store[k := store[k].(parentId := Some(videoId), position := 1)];
    assert FindById(store, introId) == Some(k);
    assert MovedOrSame(moved[k], t[k], creditsIds, {videoId});
  }

  /** Moving keeps every id, so `find` by id answers the same afterwards. */
  lemma {:induction false} FindByIdMoved(s: seq<Activity>, t: seq<Activity>, ids: set<int>, parents: set<int>, id: int)
    requires OnlyMoved(s, t, ids, parents)
    ensures FindById(s, id) == FindById(t, id)
    decreases |s|
  {
    if |s| > 0 {
      assert MovedOrSame(s[0], t[0], ids, parents);
      assert OnlyMoved(s[1..], t[1..], ids, parents) by {
        forall k | 0 <= k < |s[1..]| ensures MovedOrSame(s[1..][k], t[1..][k], ids, parents) {
          assert MovedOrSame(s[k + 1], t[k + 1], ids, parents);
        }
      }
      FindByIdMoved(s[1..], t[1..], ids, parents, id);
    }
  }

  /** A successful move puts the first node with the id where it was sent. */
  lemma MovePlaces(store: seq<Activity>, id: int, sectionId: int, position: int)
    requires position == 1 || position == 3
    requires Move(store, id, sectionId, position).Ok?
    ensures FindById(store, id).Some?
    ensures var t, k := Move(store, id, sectionId, position).value, FindById(store, id).value;
            t[k].parentId == Some(sectionId) && t[k].position == position
  {
    var k :| && 0 <= k < |store| && store[k].id == id
             && (forall j | 0 <= j < k :: store[j].id != id)
             && Move(store, id, sectionId, position).value == store[k := store[k].(parentId := Some(sectionId), position := position)];
    assert FindById(store, id) == Some(k);
  }

  /** A matched intro (lines 393-416): the first node with the intro's id
      lands in the video's section, at position 1 unless the credits step
      moves that same node; no such node makes the step fail. */
  lemma VisitIntro(store: seq<Activity>, secs: seq<SectionView>, i: nat, credits: bool)
    requires i < |secs| && IsVideoSection(secs[i]) && i > 0 && IntroDonor(secs[i - 1])
    ensures var r := Visit(store, secs, i, credits, true);
            var introId := secs[i - 1].contents[0].item.Id();
            var k := FindById(store, introId);
            && (k.None? ==> r == Fail(MissingActivity(introId)))
            && (r.Ok? ==> && k.Some?
                          && r.value.0[k.value].parentId == Some(secs[i].item.Id())
                          && (introId !in CreditsMover(secs, i, credits) ==> r.value.0[k.value].position == 1))
  {
    var r := Visit(store, secs, i, credits, true);
    var secs1 := VideoMarked(secs, i);
    var prev := secs1[i - 1];
    var donor := prev.contents[0];
    var video := secs[i].item.Id();
    var m := Move(store, donor.item.Id(), video, 1);
    if m.Ok? {
      var secs2 := IntroMoved(secs1, i);
      assert i + 1 < |secs| ==> secs2[i + 1] == secs[i + 1];
      assert r == Credits(m.value, secs2, i, credits);
      if r.Ok? {
        IntroThenCredits(store, m.value, r.value.0, donor.item.Id(), video, CreditsMover(secs, i, credits));
      }
    }
  }

  /** The credits step (lines 419-441) runs unless a requested intro was
      skipped; then the first node with the credits entry's id lands in the
      video's section at position 3, and no such node makes the step fail. */
  lemma VisitCredits(store: seq<Activity>, secs: seq<SectionView>, i: nat, intro: bool)
    requires i + 1 < |secs| && IsVideoSection(secs[i]) && CreditsDonor(secs[i + 1])
    requires !intro || (i > 0 && IntroDonor(secs[i - 1]))
    ensures var r := Visit(store, secs, i, true, intro);
            var k := FindById(store, secs[i + 1].contents[0].item.Id());
            && (k.None? ==> r.Fail?)
            && (r.Ok? ==> && k.Some?
                          && r.value.0[k.value].parentId == Some(secs[i].item.Id())
                          && r.value.0[k.value].position == 3)
  {
    var r := Visit(store, secs, i, true, intro);
    var secs1 := VideoMarked(secs, i);
    var video := secs[i].item.Id();
    var cid := secs[i + 1].contents[0].item.Id();
    if !intro {
      assert r == Credits(store, secs1, i, true);
      if r.Ok? {
        MovePlaces(store, cid, video, 3);
      }
    } else {
      var prev := secs1[i - 1];
      var donor := prev.contents[0];
      var m := Move(store, donor.item.Id(), video, 1);
      if m.Ok? {
        var secs2 := IntroMoved(secs1, i);
        assert r == Credits(m.value, secs2, i, true);
        FindByIdMoved(store, m.value, {donor.item.Id()}, {video}, cid);
        if r.Ok? {
          MovePlaces(m.value, cid, video, 3);
        }
      } else {
        assert r.Fail?;
      }
    }
  }

  /** `b` is `a` moved as the iteration at some section `j >= lo` of `secs`
      may move it: `a`'s id is one of that iteration's donors and `b` is
      under section `j` at position 1 or 3. */
  predicate MovedBy(a: Activity, b: Activity, secs: seq<SectionView>, lo: nat, credits: bool, intro: bool)
  {
    exists j | lo <= j < |secs| :: MovedOrSame(a, b, DonorIds(secs, j, credits, intro), {secs[j].item.Id()})
  }

  /** Every node of `t` is the node of `s`, or that node moved by one of the
      iterations from section `lo` on, judged on the view `secs`. */
  predicate WalkMoved(s: seq<Activity>, t: seq<Activity>, secs: seq<SectionView>, lo: nat, credits: bool, intro: bool)
  {
    |s| == |t| && forall k | 0 <= k < |s| :: t[k] == s[k] || MovedBy(s[k], t[k], secs, lo, credits, intro)
  }

  /** A move after a move is one move of the same node. */
  lemma MovedTwice(a: Activity, b: Activity, c: Activity, ids: set<int>, parents: set<int>, ids': set<int>, parents': set<int>)
    requires MovedOrSame(a, b, ids, parents) && MovedOrSame(b, c, ids', parents') && c != b
    ensures MovedOrSame(a, c, ids', parents')
  {
  }

  /** Later iterations judged on the view they saw are judged as well on the
      view before the iteration at `i`. */
  lemma WalkShrink(s: seq<Activity>, t: seq<Activity>, secs: seq<SectionView>, v: seq<SectionView>,
                   i: nat, credits: bool, intro: bool)
    requires i < |secs| && ViewAfterVisit(secs, v, i)
    requires WalkMoved(s, t, v, i + 1, credits, intro)
    ensures WalkMoved(s, t, secs, i + 1, credits, intro)
  {
    forall k | 0 <= k < |s| && t[k] != s[k] ensures MovedBy(s[k], t[k], secs, i + 1, credits, intro) {
      var j :| i + 1 <= j < |v| && MovedOrSame(s[k], t[k], DonorIds(v, j, credits, intro), {v[j].item.Id()});
      DonorIdsShrink(secs, v, i, j, credits, intro);
      assert MovedOrSame(s[k], t[k], DonorIds(secs, j, credits, intro), {secs[j].item.Id()});
    }
  }

  lemma WalkStep(s: seq<Activity>, t: seq<Activity>, u: seq<Activity>, secs: seq<SectionView>,
                 i: nat, credits: bool, intro: bool)
    requires i < |secs| && OnlyMoved(s, t, DonorIds(secs, i, credits, intro), {secs[i].item.Id()})
    requires WalkMoved(t, u, secs, i + 1, credits, intro)
    ensures WalkMoved(s, u, secs, i, credits, intro)
  {
    forall k | 0 <= k < |s| && u[k] != s[k] ensures MovedBy(s[k], u[k], secs, i, credits, intro) {
      var ids, parents := DonorIds(secs, i, credits, intro), {secs[i].item.Id()};
      assert MovedOrSame(s[k], t[k], ids, parents);
      if u[k] == t[k] {
        assert MovedOrSame(s[k], u[k], ids, parents);
      } else {
        var j :| i + 1 <= j < |secs| && MovedOrSame(t[k], u[k], DonorIds(secs, j, credits, intro), {secs[j].item.Id()});
        MovedTwice(s[k], t[k], u[k], ids, parents, DonorIds(secs, j, credits, intro), {secs[j].item.Id()});
      }
    }
  }

  /** The section loop of one section container, from section `i` on: a
      node changes only as one of the iterations from `i` on may move it,
      judged on the view as the loop starts. */
  function VisitFrom(store: seq<Activity>, secs: seq<SectionView>, i: nat, credits: bool, intro: bool)
    : (r: Result<seq<Activity>, Fault>)
    requires i <= |secs|
    ensures r.Ok? ==> WalkMoved(store, r.value, secs, i, credits, intro)
    decreases |secs| - i
  {
    if i == |secs| then Ok(store)
    else
      match Visit(store, secs, i, credits, intro)
      case Fail(f) => Fail(f)
      case Ok(step) =>
        var r := VisitFrom(step.0, step.1, i + 1, credits, intro);
        if r.Ok? then
          VisitView(store, secs, i, credits, intro);
          WalkShrink(step.0, r.value, secs, step.1, i, credits, intro);
          WalkStep(store, step.0, r.value, secs, i, credits, intro);
          r
        else r
  }

  /** `b` is `a`, or `a` moved by the walk of some container `p >= q`. */
  predicate MovedInOutline(a: Activity, b: Activity, outline: seq<ContainerView>, q: nat, credits: bool, intro: bool)
  {
    || b == a
    || exists p | q <= p < |outline| :: MovedBy(a, b, outline[p].sections, 0, credits, intro)
  }

  predicate OnlyMovedInOutline(s: seq<Activity>, t: seq<Activity>, outline: seq<ContainerView>, q: nat, credits: bool, intro: bool)
  {
    |s| == |t| && forall k | 0 <= k < |s| :: MovedInOutline(s[k], t[k], outline, q, credits, intro)
  }

  lemma OutlineStep(s: seq<Activity>, t: seq<Activity>, u: seq<Activity>, outline: seq<ContainerView>, q: nat,
                    credits: bool, intro: bool)
    requires q < |outline|
    requires WalkMoved(s, t, outline[q].sections, 0, credits, intro)
    requires OnlyMovedInOutline(t, u, outline, q + 1, credits, intro)
    ensures OnlyMovedInOutline(s, u, outline, q, credits, intro)
  {
    forall k | 0 <= k < |s| && u[k] != s[k] ensures MovedInOutline(s[k], u[k], outline, q, credits, intro) {
      if u[k] == t[k] {
        assert MovedBy(s[k], t[k], outline[q].sections, 0, credits, intro);
      } else {
        var p :| q + 1 <= p < |outline| && MovedBy(t[k], u[k], outline[p].sections, 0, credits, intro);
        var secs := outline[p].sections;
        var j :| 0 <= j < |secs| && MovedOrSame(t[k], u[k], DonorIds(secs, j, credits, intro), {secs[j].item.Id()});
        if t[k] == s[k] {
          assert MovedBy(s[k], u[k], secs, 0, credits, intro);
        } else {
          var secs' := outline[q].sections;
          var j' :| 0 <= j' < |secs'| && MovedOrSame(s[k], t[k], DonorIds(secs', j', credits, intro), {secs'[j'].item.Id()});
          MovedTwice(s[k], t[k], u[k], DonorIds(secs', j', credits, intro), {secs'[j'].item.Id()},
                     DonorIds(secs, j, credits, intro), {secs[j].item.Id()});
          assert MovedBy(s[k], u[k], secs, 0, credits, intro);
        }
      }
    }
  }

  /** The outer loop over section containers, from container `q` on. */
  function VisitContainers(store: seq<Activity>, outline: seq<ContainerView>, q: nat, credits: bool, intro: bool)
    : (r: Result<seq<Activity>, Fault>)
    requires q <= |outline|
    ensures r.Ok? ==> OnlyMovedInOutline(store, r.value, outline, q, credits, intro)
    decreases |outline| - q
  {
    if q == |outline| then Ok(store)
    else
      match VisitFrom(store, outline[q].sections, 0, credits, intro)
      case Fail(f) => Fail(f)
      case Ok(store1) =>
        var r := VisitContainers(store1, outline, q + 1, credits, intro);
        if r.Ok? then OutlineStep(store, store1, r.value, outline, q, credits, intro); r else r
  }

  /** `heuristicSectioning(json_files, video_credits, video_intro)`, with the
      result of the course-order helper given as `ordered`. */
  function HeuristicSectioning(c: Course, credits: bool, intro: bool, ordered: seq<Item>)
    : (r: Result<Course, Fault>)
    ensures r.Ok? ==> r.value.elements == c.elements
    ensures r.Ok? ==> OnlyMovedInOutline(c.activities, r.value.activities, Nested(ordered), 0, credits, intro)
    ensures !credits && !intro ==> r == Ok(c)
  {
    if credits || intro then
      match VisitContainers(c.activities, Nested(ordered), 0, credits, intro)
      case Fail(f) => Fail(f)
      case Ok(acts) => Ok(Course(acts, c.elements))
    else Ok(c)
  }

  /** A walk over sections none of which is a video section changes nothing. */
  lemma {:induction false} VisitFromNoVideo(store: seq<Activity>, secs: seq<SectionView>, i: nat, credits: bool, intro: bool)
    requires i <= |secs|
    requires forall j | i <= j < |secs| :: !IsVideoSection(secs[j])
    ensures VisitFrom(store, secs, i, credits, intro) == Ok(store)
    decreases |secs| - i
  {
    if i < |secs| {
      VisitFromNoVideo(store, secs, i + 1, credits, intro);
    }
  }

  lemma {:induction false} VisitContainersNoVideo(store: seq<Activity>, outline: seq<ContainerView>, q: nat, credits: bool, intro: bool)
    requires q <= |outline|
    requires forall p, j | q <= p < |outline| && 0 <= j < |outline[p].sections| :: !IsVideoSection(outline[p].sections[j])
    ensures VisitContainers(store, outline, q, credits, intro) == Ok(store)
    decreases |outline| - q
  {
    if q < |outline| {
      VisitFromNoVideo(store, outline[q].sections, 0, credits, intro);
      VisitContainersNoVideo(store, outline, q + 1, credits, intro);
    }
  }

  /** Without a single-video section in the view, the store is returned as is. */
  lemma HeuristicNeedsVideo(c: Course, credits: bool, intro: bool, ordered: seq<Item>)
    requires forall p, j | 0 <= p < |Nested(ordered)| && 0 <= j < |Nested(ordered)[p].sections| ::
               !IsVideoSection(Nested(ordered)[p].sections[j])
    ensures HeuristicSectioning(c, credits, intro, ordered) == Ok(c)
  {
    VisitContainersNoVideo(c.activities, Nested(ordered), 0, credits, intro);
  }
}
