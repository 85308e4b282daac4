# Course restructuring engine — a Dafny model

This project models the restructuring engine of `src/js/batch_ops.ts`. The engine rewrites
the page → section container → section → invisible-level container → teaching element (TE)
hierarchy of a flat course dump. It has four parts:

- `sectionCourse`. For every live page it does the following:
  - collects the page's section containers, their live sections and those sections' live
    invisible-level nodes;
  - sorts the invisibles by the composite key (own position, section position, section
    container position) and renumbers them 1..N;
  - appends one new `SECTION_CONTAINER`;
  - depending on the scope, appends new `SECTION`s and moves the invisibles into them;
  - tombstones the old containers and sections.

  It then drops the `INVISIBLE_CONTAINER`s that no element names and cleans the course.
- `getNestedStructure`: a projection of an ordered flat list into nested copies.
- `heuristicSectioning`: pulls the intro HTML invisible and the credits `EXPAND_CONTAINER`
  around a single-video section into that section.
- `cleanCourse`: order-preserving filters over elements and activities.

Modules, one file each:

- `Store` (`store.dfy`): the records. `Activity` models a node and `Element` a teaching
  element. Ids are integers. `Stamp` models timestamps: `Unset`, `Given`, or `Now` for
  "stamped by this run". `Uid` models external tokens: a pre-existing one, or the n-th token
  this run minted. `Seed` is the first id the engine hands out, 1000000000000000.
- `Seqs` (`seqs.dfy`): `Filter` (the model of `Array.prototype.filter`), positions, and
  subsequences.
- `Ordering` (`ordering.dfy`): the lexicographic key and a stable insertion sort. The sort
  is proved sorted, a permutation and stable.
- `Cleaning` (`cleaning.dfy`): `cleanCourse`.
- `Nesting` (`nesting.dfy`): `getNestedStructure`. A reference definition `Nested` is
  built from filters. The source's nested loops are methods, proved equal to it.
- `Heuristic` (`heuristic.dfy`): `heuristicSectioning`. It returns a `Result`, because the
  source can throw.
- `Sectioning` (`sectioning.dfy`): `sectionCourse`.
  - The store is a `seq<Activity>`. The source mutates objects it holds references to; the
    model writes at store positions instead. Nodes the engine creates are appended.
  - A page is split in two phases. `PlanPage` collects: containers, sorted containers,
    sections, invisibles, document order. `ApplyPlan` writes.
  - The page loop `SectionPages` threads the store and the count of nodes created so far.
    The n-th created node gets id `Seed + n` and token `Minted(n)`.

## Model

| member | source | states |
|---|---|---|
| Ordering.KeyLeTotalOrder | src/js/batch_ops.ts:194-200 | the comparator (own position, then section position, then container position) is a total order on keys |
| Ordering.Insert | src/js/batch_ops.ts:194-200 | inserting into a sorted list keeps it sorted and adds exactly the one element |
| Ordering.Sort | src/js/batch_ops.ts:194-200 | the sorted list is ordered by key and is a permutation of the input |
| Ordering.SortStable | src/js/batch_ops.ts:194-200 | sorting is stable: for every key, the elements carrying it keep their input order |
| Ordering.SortIndexes | src/js/batch_ops.ts:194-200 | the store positions carried through the sort are a permutation of the input's |
| Ordering.SortTiesByIndex | src/js/batch_ops.ts:194-200 | when the input's store indices increase, elements with equal keys leave the sort with increasing store indices |
| Sectioning.SortedContainers | src/js/batch_ops.ts:161-164 | a page's section containers, sorted by position: the same containers, each once, with positions non-decreasing; containers of equal position keep store order |
| Sectioning.LiveChildren | src/js/batch_ops.ts:168-174 | the result is exactly the live nodes whose parent is one of the given containers, each once, in store order |
| Sectioning.FirstWithId | src/js/batch_ops.ts:177-179 | `find` by id gives a listed node with that id, and finds nothing exactly when no listed node has it |
| Sectioning.FirstWithIdIsFirst | src/js/batch_ops.ts:177-179 | the node `find` returns is the first listed one with the id: it is listed no later than any position holding the id |
| Sectioning.DocumentOrder | src/js/batch_ops.ts:185-200 | the sorted invisibles are a permutation of the collected invisibles, each once |
| Sectioning.PlanCollects | src/js/batch_ops.ts:160-187 | containers are all nodes whose parent is the page, with no liveness filter. Sections are the live children of containers. Invisibles are the live children of sections |
| Sectioning.PlanOrder | src/js/batch_ops.ts:185-200 | the page's order is a permutation of its live invisibles, sorted by the composite key |
| Sectioning.PlanStable | src/js/batch_ops.ts:194-200 | two invisibles of a page with equal composite keys end up in the order of their store positions |
| Sectioning.RenumberFrom | src/js/batch_ops.ts:203-205 | the j-th node of the order gets position first + j; no other node changes |
| Sectioning.SectionPerTeSections | src/js/batch_ops.ts:228-257 | under `section_per_te`, the j-th new node is a fresh SECTION under the new container, at the j-th invisible's position |
| Sectioning.SectionPerTeMoves | src/js/batch_ops.ts:231-256 | under `section_per_te`, the j-th invisible is reparented to the j-th new section, with timestamps renewed and deletion cleared |
| Sectioning.SectionPerTeFrame | src/js/batch_ops.ts:228-257 | `section_per_te` changes no existing node outside the order |
| Sectioning.SectionPerPage | src/js/batch_ops.ts:258-283 | under `section_per_page`, every invisible gets the one new section as parent, and nothing else changes |
| Sectioning.Detach | src/js/batch_ops.ts:287-298 | the listed nodes become tombstones (detached, with deleted, modified and updated stamped); the rest are unchanged |
| Sectioning.ApplyScope | src/js/batch_ops.ts:228-283 | the counter advances by one per invisible, by one, or by zero, according to the scope |
| Sectioning.ApplyScopeShape | src/js/batch_ops.ts:228-283 | the scope step keeps every node it is not given; it appends only live SECTIONs of the new container, with consecutive fresh ids and tokens |
| Sectioning.ApplyScopeMoves | src/js/batch_ops.ts:228-283 | where each invisible goes under each scope, and what section is drawn for it; an unknown scope moves nothing |
| Sectioning.SectionedShape | src/js/batch_ops.ts:203-285 | the new container is under the page at position 1 and sits right after the old store; existing nodes keep id, token, type, title and repository |
| Sectioning.SectionedInvisibles | src/js/batch_ops.ts:203-283 | the j-th invisible in order ends at position j + 1, in the section its scope gives |
| Sectioning.ApplyAllocation | src/js/batch_ops.ts:207-283 | a page draws one id for its container plus one per section. The ids run consecutively from the counter, and every later new node is a section of the new container |
| Sectioning.ApplyInvisible | src/js/batch_ops.ts:203-283 | a page's write step on its j-th invisible: position j + 1 and the scope's parent |
| Sectioning.ApplyTombstones | src/js/batch_ops.ts:287-298 | every collected container and section is detached, with deleted, modified and updated stamped |
| Sectioning.ApplyFrame | src/js/batch_ops.ts:159-300 | existing nodes outside the page's containers, sections and invisibles are untouched |
| Sectioning.ApplyKeepsDetached | src/js/batch_ops.ts:159-300 | a page never clears a tombstone |
| Sectioning.PageAllocation | src/js/batch_ops.ts:207-283 | per page: existing nodes keep their identity and tombstones, new nodes take consecutive ids and tokens, and exactly one of them is a SECTION_CONTAINER |
| Sectioning.PageCreates | src/js/batch_ops.ts:207-283 | per page: one container under the page at position 1, then its sections. There is one section per invisible, one in all, or none, by scope |
| Sectioning.PageRenumbers | src/js/batch_ops.ts:203-205 | per page: the invisibles end numbered 1..N in composite-key order |
| Sectioning.PageScope | src/js/batch_ops.ts:228-283 | per page: the j-th invisible's new parent under each scope, and the section drawn for it (position j + 1, empty title; or position 1 and the page title) |
| Sectioning.PageFrame | src/js/batch_ops.ts:159-300 | per page: no existing node other than the collected ones changes |
| Sectioning.PageTombstones | src/js/batch_ops.ts:287-298 | per page: every container of the page, and every live child of one, is detached |
| Sectioning.PagesKeep | src/js/batch_ops.ts:159-300 | across the page loop, existing nodes keep their identity and their tombstones |
| Sectioning.PagesIds | src/js/batch_ops.ts:153 | across the page loop, the created nodes carry ids Seed, Seed + 1, ... and matching tokens, in creation order |
| Sectioning.PagesContainers | src/js/batch_ops.ts:207-226 | the page loop creates exactly one SECTION_CONTAINER per page |
| Sectioning.PagesUniqueIds | src/js/batch_ops.ts:153 | if the existing ids are unique and below the seed, every id in the result is unique |
| Sectioning.PageIdCollision | src/js/batch_ops.ts:153 | the counter ignores existing ids: an existing node holding the next id ends up sharing it with the page's new container |
| Sectioning.PagesSplit | src/js/batch_ops.ts:159 | the loop over the pages is the loop over the first j pages followed by the loop over the rest |
| Sectioning.PagesTail | src/js/batch_ops.ts:159 | the loop from page j on is page j followed by the loop from page j + 1 |
| Sectioning.PagesTombstones | src/js/batch_ops.ts:287-300 | every node that page j retires is still detached when the loop ends |
| Sectioning.PruneSpec | src/js/batch_ops.ts:312-325 | with unique ids, a node survives the pruning exactly when it is not an INVISIBLE_CONTAINER that no element names; survivors keep their order |
| Sectioning.PruneKeepsOrder | src/js/batch_ops.ts:322-325 | the pruning keeps the surviving nodes in their relative order |
| Sectioning.RestructuredSpec | src/js/batch_ops.ts:153-325 | with unique existing ids below the seed, a node of the loop's result is removed before cleaning exactly when it is an INVISIBLE_CONTAINER that no element names; the rest stay in order |
| Sectioning.SectionCourse | src/js/batch_ops.ts:135-337 | it fails exactly when there are no activities (line 152 reads the first one). Otherwise the output elements are the input's minus the broken ones. Every surviving INVISIBLE_CONTAINER is named by an output element. The activities are a subsequence of the page loop's result |
| Cleaning.CleanElementsSpec | src/js/batch_ops.ts:577-592 | the kept elements are exactly the input elements, in order, that are neither output-only-and-detached nor carrying a non-empty link list |
| Cleaning.CleanActivitiesSpec | src/js/batch_ops.ts:594-625 | a node is kept exactly when its id is neither an empty invisible's id nor an empty section's id; order is kept |
| Cleaning.CleanKeepsOrder | src/js/batch_ops.ts:604-625 | the kept activities are a subsequence of the input activities |
| Cleaning.CleanInvisiblesHaveElements | src/js/batch_ops.ts:594-606 | every surviving INVISIBLE_CONTAINER is named by a surviving element |
| Cleaning.CleanRemovesOnlyEmpty | src/js/batch_ops.ts:594-625 | with unique ids, a removed node is an INVISIBLE_CONTAINER no surviving element names, or a SECTION no qualifying input node names as parent |
| Cleaning.CleanKeepsSectionOfPrunedChild | src/js/batch_ops.ts:609-625 | a SECTION whose qualifying child is pruned in the same pass is kept, because emptiness is judged on the input activities |
| Cleaning.CleanTwice | src/js/batch_ops.ts:594-625 | a second pass drops no element and no further invisible; it only drops nodes whose ids are SECTIONs left empty by the first pass |
| Cleaning.CleanNotIdempotent | src/js/batch_ops.ts:609-625 | for a SECTION whose only child is an empty invisible, the first pass keeps the SECTION and the second removes it |
| Nesting.CollectChildren | src/js/batch_ops.ts:483-487 | the inner loop collects exactly the candidates whose parent is the given id, in order |
| Nesting.CollectTes | src/js/batch_ops.ts:502-507 | the innermost loop collects exactly the TEs whose activity id is the given id, in order |
| Nesting.BuildSection | src/js/batch_ops.ts:491-510 | one section's view equals the reference projection of that section |
| Nesting.BuildContainer | src/js/batch_ops.ts:480-511 | one container's view equals the reference projection of that container |
| Nesting.GetNestedStructure | src/js/batch_ops.ts:456-514 | the nested loops produce the reference projection `Nested` of the input |
| Nesting.NestedContainers | src/js/batch_ops.ts:459-489 | entry i is the i-th SECTION_CONTAINER of the input, so there is one entry per container, in input order. Each entry holds exactly the SECTIONs whose parent is that container, in input order |
| Nesting.NestedSectionContents | src/js/batch_ops.ts:463-499 | each section holds exactly the input entries whose parent is that section, in input order |
| Nesting.NestedTes | src/js/batch_ops.ts:471-509 | each invisible holds exactly the TEs whose activity id is that invisible, in input order |
| Heuristic.FindById | src/js/batch_ops.ts:413 | `find` by id returns the first node with that id, or nothing exactly when none has it |
| Heuristic.Move | src/js/batch_ops.ts:413-415 | moving fails exactly when no node has the id. Otherwise the first node with the id, and only it, gets the new parent and position |
| Heuristic.Credits | src/js/batch_ops.ts:419-441 | the next section's sole EXPAND_CONTAINER moves to position 3 of the video's section, only when the credits flag is set and its guards pass; then the move fails exactly when no node has its id. Only that node changes. In the view the next section is emptied and the entry appended to the video's section, and no other section changes |
| Heuristic.Visit | src/js/batch_ops.ts:376-441 | only the donors whose flag is set and whose guards pass move, and only into the video's section: the previous section's sole HTML invisible and the next section's sole EXPAND_CONTAINER. No move happens away from a single-video section. A failed intro guard ends the iteration, so no credits move, and an empty intro invisible throws |
| Heuristic.VisitView | src/js/batch_ops.ts:390-440 | an iteration edits the view only around its section: sections other than the previous, current and next one are kept; the next one is kept or emptied; a current section left with one entry keeps an entry the guards cannot tell from the old one |
| Heuristic.DonorIdsShrink | src/js/batch_ops.ts:374-440 | the view edits of iteration i never let a later iteration move a node it could not have moved on the view before iteration i |
| Heuristic.VisitIntro | src/js/batch_ops.ts:393-417 | a matched intro's first node lands in the video's section, at position 1 unless the credits step moves the same node; if no node has the id, the step fails |
| Heuristic.VisitCredits | src/js/batch_ops.ts:419-441 | when the credits step runs, the credits entry's first node lands in the video's section at position 3; if no node has the id, the step fails |
| Heuristic.VisitFrom | src/js/batch_ops.ts:374-442 | walking a container's sections from section i changes a node only as one iteration j >= i may move it, judged on the view as the walk starts: the node is one of iteration j's donors (its flag set and its guards passing), now under section j at position 1 or 3. Nothing else about the node changes |
| Heuristic.VisitContainers | src/js/batch_ops.ts:372-443 | walking all containers changes a node only as one iteration of one container's walk may move it: one of that iteration's donors, moved under that iteration's video section at position 1 or 3 |
| Heuristic.HeuristicSectioning | src/js/batch_ops.ts:348-447 | the elements are untouched. A changed node is a donor of some video section of the nested view whose flag is set and whose guards pass, moved under that video section at position 1 or 3. With both flags off, the course is returned as is |
| Heuristic.HeuristicNeedsVideo | src/js/batch_ops.ts:376-390 | without a single-video section in the view, the course is returned unchanged |
| Store.IncludesOccurs | src/js/batch_ops.ts:388 | `String.prototype.includes` holds exactly when the text occurs at some offset |

## Properties the code does not have

- **Cleaning is not idempotent.** `cleanCourse` computes `sections_with_children` (lines
  609-617) from its input activities, before the empty invisibles are removed (lines 594-606).
  A SECTION whose only qualifying child is an empty INVISIBLE_CONTAINER therefore survives the
  first pass and is removed by a second. `Cleaning.CleanNotIdempotent` exhibits such a course.
  `Cleaning.CleanTwice` says exactly what a second pass can still remove.
- **New ids can collide with existing ones.** The counter starts at the constant
  1000000000000000 (line 153), whatever ids the course already holds. Ids stay unique when every
  existing id is below that constant (`Sectioning.PagesUniqueIds`). An existing node holding the
  next id shares it with the new container (`Sectioning.PageIdCollision`).
- **Retired sections are not all kept.** The page loop detaches the old containers and sections
  but keeps them in the list (`Sectioning.PagesTombstones`). `sectionCourse` then ends with
  `cleanCourse` (line 334). It removes every SECTION that no INVISIBLE_CONTAINER,
  CEK_QUESTION_SET or EXPAND_CONTAINER names as parent, live or not (lines 609-625). A retired
  section whose invisibles all moved away is in that state, unless a detached child of one of
  those kinds still names it. `Sectioning.SectionCourse` therefore promises only a subsequence of
  the loop's store.

## Left out

- `processSections` (lines 15-60): the bulk lock/required flag writes, and the dispatch to the two
  operations modelled here.
- `processQuestionSets` and `disableVideoScrubbing`: plain field writes outside the
  restructuring engine.
- `updateStatus` and `console.*` calls, and the `async`/`await` plumbing: progress reporting with
  no effect on the data.
- `getCoursewareInOrder` is not part of this model. `Heuristic.HeuristicSectioning` takes its
  result as the parameter `ordered`.
- `makeUUID` and `new Date().toISOString()`: modelled as opaque tokens (`Minted(n)`) and as the
  marker `Now`. Nothing is claimed about their contents.
- Partition lookup by file name and its `[0]` indexing: the course is a record with two
  sequences. The crash of `activities[0]["repository_id"]` on an empty activity list is
  modelled: `Sectioning.SectionCourse` returns `Fail(NoActivities)`.
- Fields the engine never reads, such as `refs` apart from `refs.linked`, and `data` apart from
  the title and the input/output type. They are not modelled. `published_at` is modelled only
  because the new nodes write it as null (lines 218, 242, 271). An element whose
  `data` is missing, where the source's filter would throw, is not modelled either.
- The temporary `sc_position`/`section_position` properties are not stored on the nodes. Each
  page computes them from the store as it stands when the page begins. The two agree unless a
  node is both a section and an invisible of the same page. That needs a node that is its own
  grandparent's child, or duplicate ids. Their deletion at lines 302-310 and 565-573 is therefore
  a no-op here.
- JavaScript loose equality (`==` at lines 161 and 178): ids are integers throughout. A missing
  `parent_id` never equals an id.
- Sectioning.SectionPage, Sectioning.SectionPages: the contracts on the functions only bound
  the counter and the store length. What a page does is stated by the `Page*` lemmas, and what
  the loop does by the `Pages*` lemmas.
- Sectioning.SectionCourse: does not state which activities survive the final clean. That set is
  `Cleaning.CleanActivitiesSpec` applied to the pruned store.
