# HobbyList core, modelled in Dafny

HobbyList is a hobby-tracking web application. This project models the three
pieces of it that hold sequential logic of their own and proves properties of
them:

- **Verification-token issuance** (backend `VerificationService.sendVerificationEmail`):
  a token is saved for a user and a purpose string, then a message with a link
  to the frontend is composed and handed to the mail client, whose failure is
  swallowed. The service is the class `Verification.VerificationService`. Its
  token repository and its outbox are fields. A ghost field holds the ordered
  log of calls on its two collaborators; it has no counterpart in the Java
  class. `Valid()` ties them together. It says the log is a
  sequence of whole issuances, each a save followed by the send attempt of the
  message for that record. The link, the subject and the HTML body are pure
  string functions. The link is `frontendUrl + "verification?token=" + token`
  or `frontendUrl + "reset-password?token=" + token`, with no separator added.
  So the configured base must end in `/`, as the test's `http://localhost:3000/` does.
- **Milestone tree flattening** (frontend `MilestoneTreePage`): the start
  milestones are those without a parent id, or all milestones when none
  qualifies. Each start milestone is traversed recursively. Each visit pushes
  one node, and one edge from the parent when the visit has a parent. The
  nodes are then laid out. `TreeVisits`/`ForestVisits` give the sequence of
  `traverse` calls. `NodesOf`/`EdgesOf` give what those calls push. The
  recursive method `FlowBuilder.Traverse` pushes into the builder's two
  sequences and is proved to push exactly that. `BuildTree` is the page's
  flattening step as a whole.
- **Photo tag extraction and filtering** (frontend `PhotoSection`): the tag
  list is the photos' topics without repetition, in first-occurrence order
  (`Array.from(new Set(...))`). The shown photos are all photos for the tag
  `"All"`, and otherwise the photos of the selected topic, in their original
  order. Photos passed in as props take precedence over the shared ones.

Inputs the code gets from outside are parameters of the model:
- The fresh UUID string is the `token` argument.
- The mail client's success or failure is the `sendSucceeds` argument.
- The layout engine's node positions are the `placement` argument.
- The shared photo store's fetch result is a `FetchOutcome` value.
- JavaScript `null`/`undefined` is `Option.None`.

## Model

| member | source | states |
|---|---|---|
| Verification.CompositeUrl | backend/src/main/java/HobbyList/example/HobbyList/service/VerificationService.java:34-40 | email verification links to `frontendUrl + "verification?token=" + token`, password reset to `frontendUrl + "reset-password?token=" + token`, any other purpose gives `""`; for a known purpose the link ends with the token |
| Verification.TokenRoundTrip | backend/src/main/java/HobbyList/example/HobbyList/service/VerificationService.java:30-39 | reading the token back out of the composed link gives exactly the issued token |
| Verification.CompositeUrlInjective | backend/src/main/java/HobbyList/example/HobbyList/service/VerificationService.java:36-40 | two tokens of the same purpose give the same link only if they are the same token |
| Verification.Subject | backend/src/main/java/HobbyList/example/HobbyList/service/VerificationService.java:42-53 | subject "Verify your email" for email verification, "Reset your password" for password reset, empty otherwise |
| Verification.HtmlContent | backend/src/main/java/HobbyList/example/HobbyList/service/VerificationService.java:43-53 | for a known purpose the body is exactly the purpose's lead sentence, the anchor for the link (as `href` target and as text) and the closing `</p>`; for any other purpose the body is empty |
| Verification.HtmlCarriesUrlTwice | backend/src/main/java/HobbyList/example/HobbyList/service/VerificationService.java:47-52 | the link occurs in the body twice, as the `href` target and as the link text, at stated positions |
| Verification.Compose | backend/src/main/java/HobbyList/example/HobbyList/service/VerificationService.java:55-60 | sender and recipient are the fixed addresses whatever the user; the subject is the purpose's subject and the body is the purpose's body for the purpose's link; an unknown purpose gives empty subject and body |
| Verification.LocalResetLink | backend/src/test/java/HobbyList/example/HobbyList/service/VerificationServiceTest.java:38 | with the test's base `http://localhost:3000/` a reset link is `http://localhost:3000/reset-password?token=` followed by the token |
| Verification.AppendIssuance | backend/src/main/java/HobbyList/example/HobbyList/service/VerificationService.java:33-66 | appending one issuance keeps the log well formed, adds exactly one saved record and adds the message to the outbox exactly when the send succeeded |
| Verification.IssuanceCounts | backend/src/main/java/HobbyList/example/HobbyList/service/VerificationService.java:33-66 | in any log of issuances there are as many saved records as send attempts, and no more delivered messages than saved records |
| Verification.DeliveredWereSaved | backend/src/main/java/HobbyList/example/HobbyList/service/VerificationService.java:33-63 | every delivered message is the message composed for some saved record, so its link carries a saved token |
| Verification.VerificationService.constructor | backend/src/main/java/HobbyList/example/HobbyList/service/VerificationService.java:23-26 | a new service has an empty repository, outbox and log, and is valid |
| Verification.VerificationService.SendVerificationEmail | backend/src/main/java/HobbyList/example/HobbyList/service/VerificationService.java:28-67 | saves exactly one record with the given token, user and purpose string (for every purpose); logs the save strictly before the send attempt of the composed message; a failed send returns normally, the saved record stays and the outbox is unchanged; the service stays valid |
| Decimal.NatToString | frontend/src/pages/MilestoneTreePage.tsx:150 | the decimal numeral is non-empty, all digits, without a leading zero |
| Decimal.IntToString | frontend/src/pages/MilestoneTreePage.tsx:150 | the id string is non-empty and starts with `-` exactly for negative ids |
| Decimal.IntToStringRoundTrip | frontend/src/pages/MilestoneTreePage.tsx:150 | parsing the node id gives back the milestone id |
| Decimal.IntToStringInjective | frontend/src/pages/MilestoneTreePage.tsx:150 | distinct milestone ids give distinct node ids |
| MilestoneTree.Rate | frontend/src/pages/MilestoneTreePage.tsx:152-154 | the rate is the recorded completion rate times 100 when one is recorded; otherwise 100 for a completed milestone and 0 for an open one |
| MilestoneTree.TreeVisits | frontend/src/pages/MilestoneTreePage.tsx:149-181 | the first call of `traverse(m, parentId)` is the one for `m` with the given parent id; every later call, for a sub-milestone, gets a truthy parent id |
| MilestoneTree.ForestVisits | frontend/src/pages/MilestoneTreePage.tsx:179-198 | traversing each milestone of a list makes at least one call per listed milestone; every call gets the given parent id or a truthy one |
| MilestoneTree.NodeId | frontend/src/pages/MilestoneTreePage.tsx:150 | a node id is never empty, so every child visit passes a truthy parent id |
| MilestoneTree.MakeNode | frontend/src/pages/MilestoneTreePage.tsx:150-162 | a node carries the milestone's id string, task and rate, and has no handles before layout |
| MilestoneTree.MakeEdge | frontend/src/pages/MilestoneTreePage.tsx:164-177 | an edge runs from the parent id to the child's id, has id `"e" + source + "-" + target`, and is animated exactly when the child's rate is below 100 |
| MilestoneTree.NodesOf | frontend/src/pages/MilestoneTreePage.tsx:156-162 | one node per visit, the i-th node made from the i-th visited milestone |
| MilestoneTree.EdgesOf | frontend/src/pages/MilestoneTreePage.tsx:164-177 | no more edges than visits |
| MilestoneTree.EdgesPerChildVisit | frontend/src/pages/MilestoneTreePage.tsx:164-177 | there is exactly one edge per visit with a truthy parent id, in visiting order: the i-th edge runs from the i-th such visit's parent id to its milestone |
| MilestoneTree.EdgesOfVisits | frontend/src/pages/MilestoneTreePage.tsx:164-177 | every edge is the edge from some visit's truthy parent id to its milestone, and every visit with a truthy parent id yields its edge |
| MilestoneTree.TreeVisitCount | frontend/src/pages/MilestoneTreePage.tsx:149-181 | traversing a milestone makes `Size(m)` calls, and the multiset of visited milestones is exactly the subtree's milestones, each counted once per place it is listed |
| MilestoneTree.ForestVisitCount | frontend/src/pages/MilestoneTreePage.tsx:179-198 | traversing a list of milestones makes as many calls as their subtrees hold milestones, and visits exactly those milestones, each once per place it is listed |
| MilestoneTree.TreeEdgeCount | frontend/src/pages/MilestoneTreePage.tsx:164-181 | a subtree traversed under a parent yields as many edges as nodes; traversed without one, one edge fewer |
| MilestoneTree.ForestEdgeCount | frontend/src/pages/MilestoneTreePage.tsx:164-181 | traversing a list of milestones without a parent yields #edges = #nodes - #milestones in the list |
| MilestoneTree.TreeParentsFirst | frontend/src/pages/MilestoneTreePage.tsx:149-181 | the root's visit comes first, and every other visit in a subtree's visits follows the visit of the milestone that contains it and names it as parent (sibling order and subtree contiguity are those of `TreeVisits` itself) |
| MilestoneTree.ForestParentsFirst | frontend/src/pages/MilestoneTreePage.tsx:179-198 | across a list of milestones, every visit is of a listed milestone under the given parent id or follows its containing milestone's visit |
| MilestoneTree.StartNodes | frontend/src/pages/MilestoneTreePage.tsx:192-196 | the start nodes are a subsequence of the input; when some milestone has no parent id they are exactly the parentless ones, each as often as it is listed; when none has, they are all of them; a non-empty input gives non-empty start nodes |
| MilestoneTree.NoDeduplication | frontend/src/pages/MilestoneTreePage.tsx:192-198 | for any list in which every milestone has a parent id, a milestone listed both at top level and as a sub-milestone of a listed milestone is visited at least twice |
| MilestoneTree.Handles | frontend/src/pages/MilestoneTreePage.tsx:40-41 | direction `'TB'` gives target Top and source Bottom; any other direction gives Left and Right |
| MilestoneTree.LayoutElements | frontend/src/pages/MilestoneTreePage.tsx:38-53 | the edges come back unchanged; the nodes keep their order, count, ids, tasks and rates, and get the direction's handles and the engine's position for their id |
| MilestoneTree.LayoutIdempotent | frontend/src/pages/MilestoneTreePage.tsx:38-53 | laying out a laid-out graph again changes nothing |
| MilestoneTree.FlowBuilder.constructor | frontend/src/pages/MilestoneTreePage.tsx:145-146 | the node and edge arrays start empty |
| MilestoneTree.FlowBuilder.Traverse | frontend/src/pages/MilestoneTreePage.tsx:149-182 | appends to the node array exactly the nodes of the subtree's visits in preorder, and to the edge array exactly their edges |
| MilestoneTree.BuildTree | frontend/src/pages/MilestoneTreePage.tsx:138-207 | empty input gives no nodes and no edges; otherwise the result is the top-to-bottom layout of the start nodes' traversal, with #edges + #start nodes = #nodes |
| Seqs.Filter | frontend/src/components/PhotoSection.tsx:66 | the kept elements satisfy the test; each element that passes occurs as often as in the input; the result is a subsequence of the input |
| PhotoSection.Topics | frontend/src/components/PhotoSection.tsx:39 | one topic per photo, in photo order |
| PhotoSection.Distinct | frontend/src/components/PhotoSection.tsx:39 | the deduplicated list has no duplicates and holds exactly the input's elements |
| PhotoSection.DistinctKeepsFirstOccurrenceOrder | frontend/src/components/PhotoSection.tsx:39 | the deduplicated elements are ordered by their first occurrence in the input |
| PhotoSection.UniqueTags | frontend/src/components/PhotoSection.tsx:39 | the tag list has no duplicates and contains a string exactly when some photo has it as topic |
| PhotoSection.UniqueTagsOrder | frontend/src/components/PhotoSection.tsx:49 | the tags are ordered by the first photo carrying each |
| PhotoSection.FilterPhotos | frontend/src/components/PhotoSection.tsx:62-68 | tag "All" shows the whole list; any other tag shows, in original order, exactly the photos of that topic; a missing list counts as empty |
| PhotoSection.OfferedTagShowsPhotos | frontend/src/components/PhotoSection.tsx:39-66 | selecting any offered tag shows at least one photo |
| PhotoSection.FilteredTags | frontend/src/components/PhotoSection.tsx:39-66 | for any tag other than "All", the tags of the photos shown for it are just that tag, or none when no photo carries it |
| PhotoSection.FilterIdempotent | frontend/src/components/PhotoSection.tsx:62-68 | filtering the shown photos again by the same tag changes nothing |
| PhotoSection.EffectivePhotos | frontend/src/components/PhotoSection.tsx:26 | photos passed in (even an empty list) win over the shared ones; without them the shared list is used; the result is missing only when both are |
| PhotoSection.PropsTakePrecedence | frontend/src/components/PhotoSection.tsx:26 | with photos passed in, the shown photos do not depend on the shared ones |
| PhotoSection.EffectiveMilestones | frontend/src/components/PhotoSection.tsx:27 | milestones come from props, else from the shared store, else are empty |
| PhotoSection.FetchPhotos | frontend/src/components/PhotoSection.tsx:36-55 | with props the list and its tags come from them; otherwise a returned list is stored with its tags, and a missing list or a failure leaves the state unchanged; the stored tags are duplicate-free and exactly the stored photos' topics |
| PhotoSection.PropsSkipFetch | frontend/src/components/PhotoSection.tsx:37-41 | with photos passed in, the fetch outcome plays no part |

## Left out

- UUID generation: the token is a parameter. The code makes no uniqueness promise and neither does the model.
- The mail provider client, its configuration and bean wiring (`ResendConfig.java`, `TestBeansConfig.java`). The send call is a boolean outcome, and the printed stack trace of a failed send is not modelled.
- Verification.VerificationService.SendVerificationEmail: the purpose is a non-null string. A `null` purpose string would throw on the first `equals` after the save; that path is not modelled.
- Verification.VerificationService.constructor: the token repository is injected in Java and may already hold records, and the redemption path deletes from it. The model starts it empty and has no outside saves or deletes, so it holds exactly the records this service saved.
- Persistence failures of `save`, which would propagate, are not modelled: the repository is a sequence that always accepts the record.
- Redeeming a token and activating the user: that controller is not part of this model. `AuthControllerTest.java` only checks mocked interactions of it.
- The dagre layout and the centre-to-top-left shift: the final position of each node is the `placement` parameter.
- MilestoneTree.LayoutElements: the source mutates each node object inside `map` and returns the same objects. The model builds new node values. No other reference to these nodes exists in the page, so nothing observable is lost.
- MilestoneTree.Rate: the rate is computed in exact real arithmetic, not IEEE doubles. `Math.round` in the label, `getProgressColor` and `getNodeStyle` are styling and are not modelled.
- Decimal.IntToString: milestone ids are unbounded integers. JavaScript numbers are doubles, so ids from 10^21 up render in exponent form (`"1e+21"`) and ids above 2^53 arrive rounded, which can give distinct backend ids one node id. Neither is modelled.
- An absent `subMilestones` list is modelled as an empty list: `traverse` treats both alike.
- React state, effect scheduling, rendering, event handlers and the async profile fetch that picks the milestone list (`MilestoneTreePage.tsx` lines 118-136). The choice among self, context and fetched milestones is not modelled.
- `frontend/src/services/userService.ts`, a one-line HTTP wrapper.
