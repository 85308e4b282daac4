/**
 The flat course dump the restructuring engine works on: hierarchy nodes
 ("activities": pages, section containers, sections, invisible-level
 containers) linked by `parentId`/`position`, and content elements
 ("teaching elements") attached to an invisible-level node by `activityId`.
 */
module Store {

  datatype Option<+T> = None | Some(value: T)

  /** Outcome of an operation that the source can abort with an exception. */
  datatype Result<+T, +E> = Ok(value: T) | Fail(error: E)

  /** A timestamp field. Timestamps are opaque: `Given` is one read from the
      dump, `Now` one taken by the engine while it runs. */
  datatype Stamp = Unset | Given(text: string) | Now

  /** JavaScript truthiness of a timestamp field (`!a.deleted_at`): null and
      the empty string are falsy. */
  predicate IsSet(s: Stamp)
  {
    match s
    case Unset => false
    case Given(t) => t != ""
    case Now => true
  }

  /** The opaque external identifier of a node. A node created by the engine
      carries the `draw`-th freshly generated token of the run; nothing is
      assumed about the token's text. */
  datatype Uid = Existing(text: string) | Minted(draw: nat)

  /** A hierarchy node. `title` stands for `data.title`; the other payload and
      `refs` fields are passed through untouched and are not represented. */
  datatype Activity = Activity(
    id: int,
    repositoryId: int,
    parentId: Option<int>,
    uid: Uid,
    kind: string,
    position: int,
    title: Option<string>,
    detached: bool,
    publishedAt: Stamp,
    createdAt: Stamp,
    updatedAt: Stamp,
    deletedAt: Stamp,
    modifiedAt: Stamp)

  /** The value found at `refs.linked` of an element. */
  datatype Linked =
    | Absent                 // `refs` or `refs.linked` missing
    | Null                   // `refs.linked === null`
    | List(ids: seq<int>)    // an array of element ids
    | Text(chars: string)    // a string (it has a length)
    | Scalar                 // a number, boolean or object without `length`

  /** A content element. `ioType` stands for `data.inputOutputType`. */
  datatype Element = Element(
    id: int,
    activityId: int,
    kind: string,
    ioType: Option<string>,
    detached: bool,
    linked: Linked)

  /** The two partitions of the dump the engine reads and writes. */
  datatype Course = Course(activities: seq<Activity>, elements: seq<Element>)

  const PageKind := "LONG_HLXP_SCHEMA/PAGE"
  const ContainerKind := "SECTION_CONTAINER"
  const SectionKind := "SECTION"
  const InvisibleKind := "INVISIBLE_CONTAINER"
  const ExpandKind := "EXPAND_CONTAINER"
  const QuestionSetKind := "CEK_QUESTION_SET"

  /** The first id handed out to a node created by the engine. */
  const Seed: int := 1000000000000000

  /** Neither detached nor soft-deleted. */
  predicate Live(a: Activity)
  {
    !a.detached && !IsSet(a.deletedAt)
  }

  predicate IsLivePage(a: Activity)
  {
    a.kind == PageKind && Live(a)
  }

  predicate StartsWith(s: string, prefix: string)
  {
    |prefix| <= |s| && s[..|prefix|] == prefix
  }

  /** `s.includes(sub)` */
  predicate Includes(s: string, sub: string)
    decreases |s|
  {
    StartsWith(s, sub) || (|s| > 0 && Includes(s[1..], sub))
  }

  /** `sub` occurs in `s` starting at offset `i`. */
  predicate OccursAt(s: string, sub: string, i: int)
  {
    0 <= i && i + |sub| <= |s| && s[i..i + |sub|] == sub
  }

  /** Includes agrees with the usual definition: `sub` occurs at some offset. */
  lemma {:induction false} IncludesOccurs(s: string, sub: string)
    ensures Includes(s, sub) <==> exists i :: OccursAt(s, sub, i)
    decreases |s|
  {
    if StartsWith(s, sub) {
      assert OccursAt(s, sub, 0);
    }
    if |s| > 0 {
      IncludesOccurs(s[1..], sub);
      if Includes(s[1..], sub) {
        var i :| OccursAt(s[1..], sub, i);
        assert s[i + 1..i + 1 + |sub|] == s[1..][i..i + |sub|];
        assert OccursAt(s, sub, i + 1);
      }
      if exists i :: OccursAt(s, sub, i) {
        var i :| OccursAt(s, sub, i);
        if i > 0 {
          assert s[1..][i - 1..i - 1 + |sub|] == s[i..i + |sub|];
          assert OccursAt(s[1..], sub, i - 1);
        }
      }
    } else if exists i :: OccursAt(s, sub, i) {
      var i :| OccursAt(s, sub, i);
      assert |sub| == 0 && i == 0;
    }
  }

  /** Every two positions of the store hold nodes with different ids. */
  ghost predicate UniqueIds(acts: seq<Activity>)
  {
    forall i, j | 0 <= i < |acts| && 0 <= j < |acts| && acts[i].id == acts[j].id :: i == j
  }
}
