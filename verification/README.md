# Verification of the key tree, public trees, bridges, codecs and mailbox

A model in Dafny 4.11 of the logic of this repository that decides whether secrets survive and
stores agree: the recursive Shamir key tree and its live edits, the public tree and its relay,
the private sign bridges over many stores, the byte formats they exchange, and the paged mailbox.
`dafny verify dfyconfig.toml` checks everything.

Where the source changes rows, fields, buffers or cursors in loops, the model has a class or a
method with the same loops, proved equal to a function of the old state; the theorems are then
proved about that function. Where the source is expressions and recursion, the model is functions.

## How the files fit together

- **Shares**: `Field`, `Gf256` (bytes form a field of characteristic 2), `Polynomials` (root bound,
  interpolation), `Shamir`, `Pss` (proactive refresh), `Secrecy` (what too few shares say: nothing).
- **Key tree**: `KeyTree` (the arena: reconstruction, climbing, lowest common ancestors), `KeyStore`
  (rows and edits as functions), `KeyTable` (the class that edits the rows), `KeyRuns` (the share
  invariant over whole runs), `KeyExact` (when each edit succeeds and what exactly it changes),
  `KeySplit` and `SplitExact` (splitting a specification, exporting it back), `KeySecrecy` (entries
  determine the secret exactly if they make a quorum).
- **Public tree**: `PublicTrees`, `OrgTree` (validator), `TreeMerge`, `Visibility` and `VisibleExact`,
  `TreeSlices`, `RelayStore` (module `RelayTrees`), `ApplyTree`, `ApplySchedule`, `ApplyRows`,
  `ApplyExact`, `ApplyExport`, `ApplyRound`, `ApplyRuns`, `ApplyStore` (which tree, when, and whole
  stores), `RelayRound` (slice, store and back).
- **Bridges**: `Bridges` (the operations as functions), `BridgeTable` (the class over the tables),
  `BridgeNet` (stores, envelopes, plans, invariant), `BridgeRuns` (runs, agreement, signing),
  `BridgeRosters` (who is addressed, who stays on the roster), `BridgeExact` (when each operation
  succeeds and what exactly it stores), `BridgeDelivery` (what the envelopes a store sends do
  where they arrive).
- **Codecs**: `Codec` (buffer and cursor), `Utf8`, `RosterCodec`, `PackageCodec`, `PackageExact`
  (exactly which bytes decode), `SignatureCodec`, `Layouts` (the formats byte by byte).
- **Mailbox**: `Mailbox` (module `MailboxRelay`).
- **Common**: `Errors`, `Lists`, `Strings`.

## What is ideal, and what is a parameter

- The bytes are a field through the record `Gf` and its predicate `Lawful`; `Gf256.Gf256IsLawful`
  shows that GF(256) is one. Recovery is Lagrange interpolation at zero through all shares given,
  after the checks for equal length and enough distinct points; the Shamir library itself is not
  part of this model.
- Random coefficients, salts, keys and uids are parameters (`Tape`, `Draws`), so every theorem holds
  for all of them. Bridge keys and uids drawn in a run are fresh: that is the guard of a planning step.
- Sealed boxes open with the matching secret key and with no other; a signature verifies exactly under
  the key and message it was made for; the hash of the authentication preimage and the content hash are
  free of collisions. In `PackageCodec` the sealing, signing and hashing functions are arbitrary, and
  the round trip asks only that unsealing inverts sealing for the recipient's key.
- What a signature covers is a record in `Bridges`. For update signatures the hashed bytes determine
  that record (`PackageCodec.PreimageInjective`). For bridge signatures they do so only among statements
  whose uids are equally long and whose signer labels are equally long (`SignatureCodec.ToldApartIff`),
  so the signing theorems of `BridgeRuns` speak of the statement and not of its bytes.
- Only envelopes that some store sent are imported in `BridgeNet`; they may be lost, duplicated,
  reordered and delivered to anyone. Plans may be committed late, twice or never.
- A transaction that fails leaves the state as it was (`src/db/mod.rs:52-73`). Tables are sequences in
  id order, maps or sets; the schema's checks, primary keys and cascades are written out where they
  matter. A threshold of zero is excluded by a schema check (`src/db/schema.sql:44`).

## Where the code and its description differ

- `visible_labels` promises all descendants of the seeds (`src/key_tree.rs:1292-1296`), but
  `add_descendants` does not go on below a child that is visible already (`src/key_tree.rs:1423`).
  `VisibleExact.LeastClosedIff` says exactly when the promise holds whatever the links are;
  `Visibility.LateAncestorMissesDescendant` is a case where it fails. When it fails, links may still
  bring the missing labels back. Seeds that are leaves always meet the condition.
- The schema says that members' direct parents are always on the roster
  (`src/db/schema.sql:232-234`). Creation and removal keep that; `drop_member_on_coordinator` keeps it
  exactly when no other member's parent is dropped (`BridgeRosters.DropKeepsParentsIff`), and a run
  that breaks it is given (`BridgeRosters.DropMayOrphan`).
- A whitelist row that names a peer outside the tree survives an apply (`src/key_tree.rs:1564-1569`);
  `ApplyExact.ApplyIsExact` states the whitelist with that exception.
- `find_lowest_common_ancestor_of` returns a single index without checking that it is in the arena.
- Two members may plan rotations from the same generation; both sets of envelopes are valid, and
  stores may then differ at equal generation. Agreement is therefore stated per public key, and per
  generation only with at most one rotation drawn for each.
- `add_leaf_and_reshare` says that mixed old and new shares do not reconstruct
  (`src/key_tree.rs:821-822`). They do when the two dealings happen to agree there; `KeyRuns.MixedQuorum`
  gives the exact condition, for every draw.

## Model

| member | source | states |
|---|---|---|
| `Gf256.Gf256IsLawful` | src/pss.rs:57-65 | the bytes with XOR as addition and carry-less multiplication modulo x^8 + x^4 + x^3 + x^2 + 1 satisfy every field law the share lemmas assume |
| `Shamir.RecoverGenuine` | src/key_tree.rs:579-581 | any t or more shares at distinct points of one family of polynomials of degree below t recover the dealt secret |
| `Shamir.RecoverIff` | src/key_tree.rs:918-928 | shares give something back exactly if there are any, they are equally long and lie at t different points or more, a repeated point counting once; otherwise `QuorumNotMet` |
| `Secrecy.AnySharesFit` | src/key_tree.rs:862-874 | fewer than t shares at distinct non-zero points, whatever bytes they hold, are shares of some dealing of any secret of that length |
| `Secrecy.FitIsUnique` | src/key_tree.rs:862-874 | given a secret and t - 1 of its shares, all coefficients of the dealing are determined, so below the threshold every secret of that length has equally many dealings |
| `Secrecy.SharesHideSecret` | src/key_tree.rs:862-874 | fewer than t shares of one secret are the shares, at the same points, of a dealing of any other secret of that length |
| `Pss.AddSharesIsAddPolys` | src/pss.rs:57-65 | adding two shares at one point gives the share of the summed polynomials at that point |
| `Pss.AddSharesUndo` | src/pss.rs:57-65 | two shares are added exactly if they are equally long, hold a value and lie at one point, and adding the same share again gives the first one back |
| `Pss.RequireDistinctNonzeroXs` | src/pss.rs:113-121 | accepts exactly the point lists without a zero and without a repeat |
| `Pss.GenerateZeroDeltas` | src/pss.rs:21-49 | succeeds exactly for a threshold of at least 2, a non-empty secret and distinct non-zero points, and then holds the share of one blinding polynomial per byte at every wanted point, holes in the points included |
| `Pss.Accumulate` | src/pss.rs:98-103 | one dealer's deltas added into the running totals turn shares of p into shares of p + q at every point, in whatever order the map is walked |
| `Pss.SummedDeltas` | src/pss.rs:70-103 | fails exactly on the shapes that are not refreshable; otherwise the totals are the shares of the sum of all survivors' blinding polynomials |
| `Pss.RefreshAmong` | src/pss.rs:69-111 | refuses exactly the unrefreshable shapes and then changes nothing; otherwise every share in the array has absorbed the sum of all blinding polynomials at its own point |
| `Pss.BlindingSumDealsZero` | src/pss.rs:90-103 | the summed blinding polynomials have degree below t and constant term zero |
| `Pss.RefreshAddsPolynomials` | src/pss.rs:105-109 | refreshed shares of P are shares of P plus the blinding sum, at the same points and of the same length |
| `Pss.RefreshKeepsSecret` | src/pss.rs:1-7 | any t refreshed shares at distinct points recover the secret dealt before the refresh |
| `Pss.StaleShare` | src/pss.rs:1-7 | t - 1 refreshed shares and one stale share at another point recover a secret byte if and only if that byte's blinding sum vanishes at the stale point |
| `Pss.MixedShare` | src/key_tree.rs:818-822 | t - 1 shares of one dealing and one share, at another point, of an earlier dealing of the same secret recover a byte if and only if the two polynomials dealt for it agree at that point |
| `Pss.MixedShares` | src/key_tree.rs:818-822 | any mixture of old and new shares of two dealings gives a byte right if and only if the differences of the old shares from the new ones interpolate to zero |
| `Secrecy.RefreshHidesShares` | src/pss.rs:1-7 | after a refresh any fewer than t new shares can be any bytes whatever: for each survivor, with everything dealt before and drawn by the others fixed, some draw of its own leads to them |
| `KeyTree.ReconstructNode` | src/key_tree.rs:544-582 | the recursive loop computes the specified answer for every node, `NodeNotFound` for an index outside the arena |
| `KeyTree.GatherExact` | src/key_tree.rs:556-573 | the greedy loop over the children gathers genuine shares at distinct points, as many as the recursive quorum predicate counts but no more than the threshold |
| `KeyTree.AnswerExact` | src/key_tree.rs:544-582 | when every presented entry is genuine or does not parse, a split answers its dealt value if the recursive quorum predicate holds and `QuorumNotMet` otherwise |
| `KeyTree.ReconstructUpToRoot` | src/key_tree.rs:506-542 | the climbing loop computes the specified result, siblings gathered around the value in hand |
| `KeyTree.UpToRootExact` | src/key_tree.rs:506-542 | with all splits active and genuine entries, the climb from any node succeeds if and only if that node answers and all its proper ancestors meet the quorum predicate, and then equals `reconstruct` and the dealt secret |
| `KeyTree.FindLca` | src/key_tree.rs:458-486 | the node returned is above both and below every node that is above both; an index outside the arena is `NodeNotFound` |
| `KeyTree.FindLcaOf` | src/key_tree.rs:488-492 | the deepest common ancestor of the whole list on any rooted arena, with the error cases; a single index is returned unchecked |
| `KeyTree.MeetingPointIsLca` | src/key_tree.rs:477-485 | the last node two upward paths share, counted from the root, is their lowest common ancestor |
| `KeySecrecy.NoQuorumNoSecret` | src/key_tree.rs:544-582 | if the presented entries do not meet the recursive quorum predicate, then for every secret of that length there are values for the whole tree, genuine at every split, that fit the same entries and have that secret at the root |
| `KeySecrecy.SecretIffQuorum` | src/key_tree.rs:544-582 | the presented entries determine the value at the root if and only if they meet the recursive quorum predicate |
| `KeyTable.LoadArena` | src/key_tree.rs:360-442 | the three loading loops build the arena the rows describe, or the source's error for no rows, a repeated label, a missing parent or no root |
| `KeyTable.LinkNodes` | src/key_tree.rs:406-413 | parents and child lists by index mirror the parent ids, children in id order; fails exactly when some parent id is missing |
| `KeyExact.LoadExact` | src/key_tree.rs:360-442 | loading succeeds exactly if there are rows, labels differ, every parent id is a row and some row has none; each node then has its row's columns, its parent and its children in id order by index, and its whitelist, and the root is the first row without a parent |
| `KeyTable.KeyTable.RebindLeaf` | src/key_tree.rs:791-816 | the row of that label keeps its share and gets the new key, or the store is unchanged and the first failing check is reported; which row and when is `KeyExact.RebindExact` |
| `KeyExact.RebindExact` | src/key_tree.rs:791-816 | succeeds if and only if an active leaf has that label, the secret belongs to its present key and the new key is a registered, unrevoked encryption key; then only that row changes, to the same share under the new key, which the new key's secret opens and no other |
| `KeyExact.UnwrapExact` | src/key_tree.rs:1066-1091 | a leaf gives this share exactly if it is bound to a registered key, the secret is that key's, and the share is what is sealed to it |
| `KeyExact.ReboundUnwraps` | src/key_tree.rs:1066-1091 | after a rebind the new holder unwraps what the old one did before it |
| `KeyTable.KeyTable.AddLeafAndReshare` | src/key_tree.rs:823-905 | the parent's value is recovered and dealt afresh to the active leaves and one leaf more, all other rows untouched; on an error nothing changes |
| `KeyExact.AddLeafSucceedsIff` | src/key_tree.rs:823-905 | given genuine entries, succeeds if and only if the label is a split with fewer than 255 active children, all of them leaves with usable keys, a threshold of which present their shares, the new label is new and non-empty and the new key is usable |
| `KeyExact.AddedExact` | src/key_tree.rs:874-905 | one active leaf more, with the new label and key, as last child; it and the active leaves hold fresh shares of the split's value at the points 1 to n, dealt with the given draw and each sealed to its owner's key; nothing else changes |
| `KeyTable.KeyTable.EvictAndRefresh` | src/key_tree.rs:989-1063 | the evicted leaf is inactive and unbound and every survivor's share is the refreshed one; on an error nothing changes |
| `KeyExact.EvictSucceedsIff` | src/key_tree.rs:989-1063 | given genuine entries, succeeds if and only if the id is an active leaf whose parent has a threshold of at least 2 that its other active children meet, all of them leaves with usable keys and presented shares |
| `KeyExact.EvictedExact` | src/key_tree.rs:1044-1063 | that leaf alone is switched off and its links and whitelist entries go; each active sibling holds the share presented for it plus the sum of all survivors' blinding polynomials, sealed to its own key; nothing else changes |
| `KeyTable.RefreshSurvivors` | src/key_tree.rs:1031-1044 | refreshing the survivors' shares gives each the sum of all blinding polynomials, and fails exactly on unrefreshable shapes |
| `KeyTable.KeyTable.SplitNode` | src/key_tree.rs:242-300 | the recursive insertion appends exactly the rows and whitelist rows of the specification, and fails exactly when a node repeats a whitelist entry |
| `KeyTable.KeyTable.Split` | src/key_tree.rs:218-240 | validation, then the whole block of rows, or nothing at all |
| `KeySplit.ValidateNodeExact` | src/key_tree.rs:177-210 | validation passes exactly when every leaf has an active encryption key and every split has 1 to 255 children and a threshold between 1 and their number |
| `SplitExact.SplitSucceedsIff` | src/key_tree.rs:139-240 | a specification is split exactly if every node has a label of its own, a usable key or a threshold between 1 and its 1 to 255 children, and bridges that name other nodes, each once |
| `KeySplit.SplitFamily` | src/key_tree.rs:280-296 | at every split of a fresh tree the children's values are the shares of that split's value |
| `KeySplit.SplitSound` | src/key_tree.rs:242-300 | a successful split leaves a store in which, at every split, the active children's shares lie at distinct non-zero points on polynomials of degree below the threshold whose constant terms are the parent's value, dealt with the draw for that split, with at least a threshold of children; the root's value is the secret |
| `KeyRuns.SoundLoads` | src/key_tree.rs:360-442 | such a store loads to a rooted arena whose root is its first row |
| `KeyRuns.SoundIsGenuine` | src/key_tree.rs:544-582 | the loaded arena carries the dealt values, all splits active, only splits as parents |
| `KeyRuns.HolderUnwraps` | src/key_tree.rs:1066-1091 | each leaf's holder unwraps exactly that leaf's current share |
| `KeyRuns.RecoverSecretGenuine` | src/key_tree.rs:918-928 | recovering from genuine current shares of a split's active leaves gives that split's value |
| `KeyRuns.ResharedSound` | src/key_tree.rs:874-901 | adding a leaf and resharing keeps the share invariant at every split |
| `KeyRuns.OldQuorumRecovers` | src/key_tree.rs:818-822 | after a leaf is added, a threshold of shares from before it, at distinct points, still recovers the split's value |
| `KeyRuns.MixedQuorum` | src/key_tree.rs:818-822 | shares of that split from before and after, mixed, recover a byte of the value if and only if the differences between the two generations' polynomials at the old shares' points interpolate to zero |
| `KeyRuns.EvictedSound` | src/key_tree.rs:1044-1059 | evicting a leaf and refreshing keeps the share invariant at every split |
| `KeyRuns.RewrappedFamilies` | src/key_tree.rs:804-811 | resealing a leaf to another key keeps every split's shares |
| `KeyRuns.EditSound` | src/key_tree.rs:791-1063 | every edit given genuine current shares, successful or rolled back, keeps the share invariant and the root |
| `KeyRuns.EvictUnbinds` | src/key_tree.rs:965-1050 | after an eviction the leaf is off, no other row changes but for its sealed share, and exactly the links and whitelist entries that named the leaf are gone |
| `KeyRuns.WholeRunReconstructs` | src/key_tree.rs:322-336 | after any sequence of edits given genuine current shares, a presentation of genuine or unparsable entries reconstructs the value dealt to the root if it meets the recursive quorum predicate, and fails with `QuorumNotMet` otherwise |
| `KeySplit.SplitRunReconstructs` | src/key_tree.rs:218-336 | the same from the very split on: whatever edits follow, what a quorum reconstructs is the secret that was split |
| `KeySecrecy.SplitRunSettlesIff` | src/key_tree.rs:218-336 | from the split through any run of genuine edits: what is presented determines the secret that was split if and only if it meets the quorum predicate of the tree as it then is |
| `KeySplit.ExportBlock` | src/key_tree.rs:938-963 | every placed block of rows exports to its specification with sorted whitelists |
| `KeySplit.ExportSplit` | src/key_tree.rs:933-963 | splitting a specification, loading the rows and exporting gives the specification back, whitelists sorted and children in order |
| `Visibility.WalkAncestors` | src/key_tree.rs:1392-1410 | adds exactly the start and its ancestors, ends on a cycle of parents, and reports whether anything was new |
| `Visibility.AddDescendants` | src/key_tree.rs:1412-1428 | the stack loop ends and adds exactly what a descent through labels not visible before enters |
| `Visibility.CloseUnderLinks` | src/key_tree.rs:1374-1388 | the passes over the links end in the least set above the start in which a linked peer brings itself and its ancestors |
| `Visibility.VisibleFromMaps` | src/key_tree.rs:1353-1390 | terminates with the least link-closed set that holds what the seeds add, for any parent map |
| `Visibility.VisibleClosedUp` | src/key_tree.rs:1353-1410 | whatever is visible has its ancestors visible, and every known seed is visible |
| `Visibility.VisibleWithinClosed` | src/key_tree.rs:1292-1296 | never more than the least set of ancestors, descendants, siblings and linked peers with their ancestors, for any parents and seeds |
| `Visibility.VisibleIsLeastClosed` | src/key_tree.rs:1292-1296 | for acyclic parents and seeds none of which is listed after a proper descendant of its own, the visible set is exactly that least closed set |
| `Visibility.LateAncestorMissesDescendant` | src/key_tree.rs:1423-1425 | a tree and two seeds, the ancestor listed last, for which a descendant stays hidden |
| `Visibility.ChildlessSeedsOrdered` | src/relay/org_tree.rs:152-158 | seeds without children, such as leaves, meet the order condition however they are listed |
| `VisibleExact.SeedsShowExactly` | src/key_tree.rs:1359-1373 | for acyclic parents, the seeds make visible exactly their ancestors, their siblings and the descendants with nothing strictly between that lies above, at or beside an earlier seed |
| `VisibleExact.LeastClosedIff` | src/key_tree.rs:1412-1428 | the claim that all descendants are visible holds, whatever the links, if and only if every descendant of a seed is shown by some seed in that sense |
| `OrgTree.VerdictExact` | src/relay/org_tree.rs:176-256 | validation accepts exactly the trees with one root, distinct non-empty labels, well-shaped nodes, listed parents, listed and distinct edges, whitelisted links, and every node below the root |
| `OrgTree.ReachesRoot` | src/relay/org_tree.rs:258-271 | the climbing loop with its seen-set answers whether the root is an ancestor, cycles included |
| `OrgTree.CheckNodes` | src/relay/org_tree.rs:180-206 | the node loop reports the first offending node's error, or the number of roots |
| `OrgTree.CheckLinks` | src/relay/org_tree.rs:228-240 | links pass exactly when they are distinct and each is whitelisted in one direction or the other |
| `OrgTree.ValidatePublicTree` | src/relay/org_tree.rs:176-256 | the loops return the specified verdict with the source's error precedence, and accept exactly the valid trees |
| `TreeMerge.MergeIntoExisting` | src/relay/org_tree.rs:37-82 | the loops build the merged document and return it exactly when it is valid |
| `TreeMerge.MergeKeeps` | src/relay/org_tree.rs:20-24 | the merge holds all incoming nodes and edges, every unmentioned node, and every existing edge with an unmentioned endpoint, and nothing else |
| `TreeMerge.MergeExact` | src/relay/org_tree.rs:37-82 | merging two valid trees succeeds if and only if the existing root's label is among the incoming labels |
| `TreeMerge.MergeErrorIsTwoRoots` | src/relay/org_tree.rs:204-206 | when it fails, the merged document has exactly two roots, its nodes and edges are in order, every parent is listed and the parents have no cycle |
| `TreeSlices.VisibleInPublicTree` | src/key_tree.rs:1333-1351 | the maps built from a document mirror its parents, and the result is the visible set of the seeds |
| `TreeSlices.SliceForFingerprint` | src/relay/org_tree.rs:152-164 | nothing if no node carries the fingerprint, otherwise the document restricted to what its bearers see |
| `TreeSlices.SliceIsValid` | src/relay/org_tree.rs:152-164 | the slice of a valid document is valid, has the same root and holds the ancestors of all it holds |
| `TreeSlices.SliceMergesBack` | src/relay/org_tree.rs:20-24 | merging a slice back succeeds and gives the document's nodes, whitelist and links again, up to order |
| `RelayTrees.RelayStore.PutPublicTree` | src/relay/org_tree.rs:15-18 | stores exactly the valid snapshots, at the next generation, and otherwise changes nothing |
| `RelayTrees.PushExact` | src/relay/org_tree.rs:84-105 | a push touches its own label only; a valid replacement, or first push of a label, stores just the nodes, whitelist and links it brings, generation one up (1 at first, no higher than the column and the document hold); an invalid snapshot changes nothing |
| `RelayTrees.RelayStore.MergePublicTree` | src/relay/org_tree.rs:25-35 | succeeds exactly when the snapshot and the merge are valid; otherwise the documents are unchanged |
| `RelayTrees.RelayStore.ContextForFingerprint` | src/relay/org_tree.rs:143-150 | unknown label, unknown fingerprint, or the slice of the stored document |
| `RelayTrees.RunStoresValid` | src/relay/org_tree.rs:84-105 | over any run of replacements and merges every stored document is valid and stored under its own label |
| `RelayTrees.MergesLoseNothing` | src/relay/org_tree.rs:20-24 | over any run of merges no label of a stored document is lost and its generation never falls |
| `RelayTrees.PullThenPush` | src/relay/org_tree.rs:142-164 | pulling the slice of a fingerprint and pushing it back leaves the document as it was up to order, one generation later |
| `ApplyTree.ApplyPending` | src/key_tree.rs:1526-1549 | the pass loop over pending nodes applies them in the specified schedule or stops at the first error |
| `ApplyTree.PersonalStore.ApplyPublicTree` | src/key_tree.rs:1467-1587 | the whole apply in one transaction: the specified new store and key, or an error and the store as it was; which tree that is and what it becomes is `ApplyStore.HeldIsUpdated` and `ApplyStore.UnheldIsAdded` |
| `ApplyStore.HeldIsUpdated` | src/key_tree.rs:1483-1515 | a snapshot whose label the store holds is applied to the first tree of that label, or to the one named by key: that tree becomes exactly the snapshot, no tree is added and no other changes |
| `ApplyStore.UnheldIsAdded` | src/key_tree.rs:1496-1514 | a snapshot of a new label adds exactly one tree, behind the others, which is exactly the snapshot |
| `ApplyStore.AppliedIff` | src/key_tree.rs:1478-1587 | a valid snapshot is applied if and only if its tree is held, is no newer, every leaf's key goes with its fingerprint and is not held for signing, and no split lands on a row with a sealed share; or the label is new, the generation at least 1 and the keys fit |
| `ApplyStore.RefusalsSay` | src/key_tree.rs:1467-1529 | no nodes or another label than the named tree's is `InvalidTreeSpec`, an unknown key `TreeNotFound`, an older generation `StalePublicTree`, a repeated label `DuplicateNodeLabel`, and each leaves the store as it was |
| `ApplyStore.StoreSaysLast` | src/key_tree.rs:1467-1587 | after any run of pulls, applied or refused, no two trees share a label, and of every label the store says what the last applied snapshot of it says, or what it said before if none was applied |
| `ApplyStore.PullRegisters` | src/key_tree.rs:1603-1618 | an apply adds only encryption keys that nodes of the snapshot name, each once and unrevoked, and changes no known key |
| `ApplyStore.PullTies` | src/key_tree.rs:1551-1580 | over a pull no whitelist row or link outlives the nodes it belongs to |
| `ApplyStore.AppliedEdges` | src/key_tree.rs:607-671 | an applied snapshot's whitelist rows and links join different labels of it, and each link is whitelisted at one of its ends |
| `ApplySchedule.StuckIffCycle` | src/key_tree.rs:1530-1549 | the pass loop gets stuck if and only if the snapshot's parents have a cycle |
| `ApplyRows.ApplyNodeFacts` | src/key_tree.rs:1589-1653 | one applied node touches no other row, puts this one in place, and keeps a sealed share unless the hardware key changes |
| `ApplyRows.DropRowsFacts` | src/key_tree.rs:1551-1562 | deleting the labels not in the snapshot, with the cascade to their children, loses no row of the snapshot |
| `ApplyExact.ApplyIsExact` | src/key_tree.rs:1478-1653 | after a successful apply labels, parents, thresholds, active flags, keys and links are the snapshot's; ids are kept, shares of retained leaves are kept unless the key changed, and the generation does not fall |
| `ApplyExact.ApplyRefuses` | src/key_tree.rs:1522-1549 | an older generation is `StalePublicTree`, and a cycle of parents is always refused |
| `ApplyRound.FreshApplyIff` | src/key_tree.rs:1478-1587 | a valid document applies to an empty tree if and only if its generation is at least 1 and every node's key can be registered: hexadecimal in any spelling, matching its fingerprint, and not held for signing; a fingerprint alone must be held already |
| `ApplyRound.ApplyIff` | src/key_tree.rs:1478-1587 | a valid document applies to a tree with rows of its own if and only if it is no older, every leaf's key fits and no split lands on a row with a sealed share |
| `ApplyExport.ExportPublicTree` | src/key_tree.rs:1241-1290 | nodes in row order; whitelist and links as the rows say, each once and ordered by label |
| `ApplyRound.ApplyThenExport` | src/key_tree.rs:1241-1290 | exporting right after a document was applied to an empty tree gives it back, up to the order and direction of links and the spelling of keys |
| `ApplyRound.SlicesApply` | src/key_tree.rs:1465-1476 | a slice of a valid document whose keys can be registered meets the conditions under which it applies to an empty tree |
| `ApplyRuns.GenerationsNeverFall` | src/key_tree.rs:1517-1524 | over any run of applies the store stays well formed and no tree's generation falls |
| `RelayRound.ExportGoesBack` | src/relay/org_tree.rs:20-24 | what a personal store exports of an applied slice is valid, and merging it into the full document gives that document's nodes, whitelist and links again, up to order, direction and the spelling of keys |
| `RelayRound.RelayRoundTrip` | src/relay/org_tree.rs:142-164 | relay, slice, personal store and back: pulling the slice of a fingerprint into an empty store succeeds if and only if its keys can be registered, and pushing the export of that store leaves the stored document the same, one generation later |
| `BridgeTable.FillImpliedSupervisors` | src/private_bridge.rs:1019-1035 | fails exactly when some member's parent is on neither list, and drops supervisors who are members |
| `BridgeTable.SupervisorPubsFor` | src/private_bridge.rs:1037-1056 | exactly the previous parties who are the parent of a remaining member and not a member themselves |
| `BridgeExact.ParentLabelIs` | src/private_bridge.rs:91-93 | the parent of a label is what stands before its last dot, and a label without a dot has none |
| `BridgeTable.PackagesForRoster` | src/private_bridge.rs:1197-1262 | one encoded package per member and then per supervisor, in label order, or the first encoding error |
| `BridgeTable.DestroyNotices` | src/private_bridge.rs:650-668 | one destroy notice, signed under the old key, per old party not on the new roster |
| `BridgeTable.PlanNewBridge` | src/private_bridge.rs:259-314 | the planned creation and its packages, or the first failing check |
| `BridgeTable.BridgeStore.CommitPlannedCreation` | src/private_bridge.rs:319-349 | inserts the bridge with its roster and the local member's sealed secret, or changes nothing |
| `BridgeExact.CreationExact` | src/private_bridge.rs:259-283 | a creation is planned exactly from two or more members with distinct non-empty labels and good keys, supervisors likewise, every member's parent on one of the lists and the local label on the roster; its roster is then those members with their keys, and those supervisors who are not members |
| `BridgeExact.CreationSucceedsIff` | src/private_bridge.rs:259-314 | the packages add no further condition |
| `BridgeExact.CommitCreationExact` | src/private_bridge.rs:319-349 | a creation commits exactly for a new uid, lists without a common label and a local key that can be sealed to; the stored bridge is live at generation 1 with the planned roster, and the secret sealed to the local member alone |
| `BridgeTable.BridgeStore.ImportPackage` | src/private_bridge.rs:351-372 | dispatch on kind and recipient; success shows the new bridge, an error leaves the table as it was; what is stored is `BridgeExact.ImportExact` |
| `BridgeExact.ImportSucceedsIff` | src/private_bridge.rs:351-372 | an import succeeds if and only if the envelope is for this key and: an opening one finds its uid unknown; a rotating one a live bridge exactly one generation below whose key signed it; a destroy notice a bridge that is destroyed or whose key signed it; and its roster can be stored |
| `BridgeExact.ImportExact` | src/private_bridge.rs:1470-1635 | after an import the bridge holds the envelope's key, salt, generation and roster, the recipient's row marked as the local one; the secret it brought, sealed to the recipient's key, is the only sealed row, and there is none if it brought none; a notice destroys, and no other bridge changes |
| `BridgeDelivery.ImportGivesSecret` | src/private_bridge.rs:1571-1586 | whoever imports a sent invitation or rotation for a member then holds that member's sealed secret, and only that one, and it opens to the bridge's secret key |
| `BridgeDelivery.ImporterSigns` | src/private_bridge.rs:833-916 | end to end: that importer can sign with its own keys, and every live store with the same bridge key whose roster has that signer accepts the message |
| `BridgeDelivery.SentOpens` | src/private_bridge.rs:1470-1502 | a sent opening envelope is imported exactly where its uid is unknown and the key is the recipient's |
| `BridgeDelivery.SentRotates` | src/private_bridge.rs:1504-1552 | a sent rotating envelope is imported exactly where the key is the recipient's and the bridge is live and holds the key the new one was derived from, which is one generation below |
| `BridgeDelivery.SentNotices` | src/private_bridge.rs:1610-1635 | a sent notice is imported exactly at a bridge that is destroyed already or still holds the key it was signed under |
| `BridgeDelivery.CreationReaches` | src/private_bridge.rs:244-372 | every member given to a creation is sent an envelope that any store without that uid accepts under the member's key, and then opens the bridge secret, with exactly the given members on the roster |
| `BridgeTable.BridgeStore.RotateBridge` | src/private_bridge.rs:1504-1552 | applies a rotation only one generation up, signed under the stored key and addressed to a roster label; replaces roster and secret |
| `BridgeTable.BridgeStore.DestroyBridge` | src/private_bridge.rs:1610-1635 | marks the bridge destroyed and deletes its sealed secrets if the notice is signed under the stored key |
| `BridgeTable.BridgeStore.PlanRemoveMember` | src/private_bridge.rs:539-692 | the rotation or destruction planned for a removal, without touching the table; whom it keeps is `BridgeExact.RemovalPlanned` |
| `BridgeExact.RemovalSucceedsIff` | src/private_bridge.rs:539-583 | a removal is planned if and only if the bridge is live, the remover is another member whose sealed secret opens with its key, the label is a member, and every envelope can be encoded |
| `BridgeExact.RemovalPlanned` | src/private_bridge.rs:584-692 | it is a rotation if and only if two members other than the removed one remain; the new roster is exactly those, with their keys, and the old parties who are the parent of one of them and not a member; the generation is one up |
| `BridgeExact.RemovalDelivered` | src/private_bridge.rs:610-668 | every package goes to an old party under its key, signed by the old bridge key: the new secret to remaining members, the new roster without it to their parents, a destroy notice for the old generation to everyone else; the removed label never gets the secret |
| `BridgeDelivery.RotationReaches` | src/private_bridge.rs:1504-1588 | every member that remains is sent an envelope that its store, live under the old key, accepts, and then opens the new secret, one generation on, on a roster whose members are exactly those that remain |
| `BridgeDelivery.RemovedIsCutOff` | src/private_bridge.rs:643-668 | the removed member's store, if it still holds the old key, accepts the envelope sent to it and is left without any sealed secret: destroyed, or watching as the parent of a member and no member itself |
| `BridgeTable.BridgeStore.CommitPlannedRemoval` | src/private_bridge.rs:697-782 | commits only onto a live bridge at the plan's generation, otherwise `BridgeGenerationMismatch` and no change |
| `BridgeExact.CommitRemovalExact` | src/private_bridge.rs:697-782 | exactly when a removal commits, and what it leaves: the planned roster, key, salt and generation with the new secret sealed to the local member alone, or a destroyed bridge without seals; no other bridge changes |
| `BridgeTable.BridgeStore.DropMemberOnCoordinator` | src/private_bridge.rs:1653-1721 | removes the label and its sealed row, destroying the bridge when fewer than two members remain |
| `BridgeExact.DropExact` | src/private_bridge.rs:1653-1721 | an unknown uid is an error and a destroyed bridge is left alone; otherwise the label alone leaves roster and seals, and the bridge ends, without seals, exactly if fewer than two other members remain |
| `BridgeNet.ImportKeeps` | src/private_bridge.rs:351-372 | importing any envelope ever sent, at any time, keeps the network invariant and moves at most that bridge, by one rotation |
| `BridgeNet.CommitRemoveKeeps` | src/private_bridge.rs:1092-1131 | committing a removal planned at any earlier time keeps the invariant |
| `BridgeRuns.StepKeeps` | src/private_bridge.rs:351-782 | every step of any store keeps the network invariant |
| `BridgeRuns.ReachableInv` | src/private_bridge.rs:244-782 | the invariant holds after every run, with envelopes lost, duplicated and reordered |
| `BridgeRuns.ReachableSealed` | src/private_bridge.rs:1175-1194 | in every reachable store each bridge has at most one sealed secret, none once destroyed, and it is the secret of the stored public key |
| `BridgeRuns.StepMoves` | src/private_bridge.rs:1504-1552 | a step leaves a stored bridge's key and generation, or raises the generation by exactly one to a key drawn from the old one, or destroys it |
| `BridgeRuns.HistoryIsMonotone` | src/private_bridge.rs:697-782 | over any run a store's generation never falls, the same generation means the same key, and a destroyed bridge never changes again |
| `BridgeRuns.SameKeyAgrees` | src/private_bridge.rs:1554-1588 | two stores holding the same bridge public key hold the same uid, generation, salt and roster, up to local coordinator drops |
| `BridgeRuns.SameGenerationAgrees` | src/private_bridge.rs:1504-1552 | with at most one rotation drawn per generation, stores at equal generation agree on key, salt and roster |
| `BridgeRuns.KeysFollowSigned` | src/private_bridge.rs:1637-1651 | a store's key is reached from the first generation's key by a chain of keys, every envelope that announces one being signed under the one before |
| `BridgeRuns.ImportTwice` | src/private_bridge.rs:1510-1512 | once a store has accepted an envelope, then after any run of any stores importing it there again, under whatever key, fails, or changes nothing if it is a destroy notice |
| `BridgeRuns.StalePlansFail` | src/private_bridge.rs:705-717 | a planned removal commits only at its generation, and after it did, committing it again fails with `BridgeGenerationMismatch` however the network went on |
| `BridgeRuns.OvertakenPlansFail` | src/private_bridge.rs:1105-1118 | once a bridge has moved on or is destroyed, no run makes an older plan commit |
| `BridgeRuns.DestroyNeedsKey` | src/private_bridge.rs:1610-1635 | a destroy notice has an effect only at a live store still holding the key it was signed under, and then only destroys |
| `BridgeRuns.SignedIsAccepted` | src/private_bridge.rs:833-916 | what a member signs is accepted by every live store with the same bridge key whose roster has signer and verifier as members and whose registry does not conflict |
| `BridgeExact.VerifyExact` | src/private_bridge.rs:880-916 | an artifact is accepted if and only if the bridge is live, uid, generation and salt match, signer and verifier are members, the registry does not contradict the roster, the artifact names the roster's signing key, and both signatures, under the bridge key and that key, cover this very statement |
| `BridgeExact.TamperedIsRefused` | src/signing.rs:105-125 | two accepted artifacts that share one of their signatures are for the same message and the same uid and agree in every signed field, so with another message, label or salt a signature is never accepted again |
| `BridgeExact.SignExact` | src/private_bridge.rs:833-878 | signing succeeds exactly for a member of a live bridge with its own keys, an unlocked seal and no contradicting registry entry, and yields an artifact of this bridge and both signatures over the statement |
| `BridgeRuns.HolderSigns` | src/private_bridge.rs:833-878 | whoever holds a store's sealed secret and the matching keys can sign |
| `BridgeRosters.CreationAddressesEveryone` | src/private_bridge.rs:284-297 | the labels of a creation's packages are exactly the roster's labels, each once |
| `BridgeRosters.CreationSendsRight` | src/private_bridge.rs:1211-1260 | each member gets the roster with the new secret under its own key, each supervisor the roster without it |
| `BridgeRosters.RemovalAddressesEveryone` | src/private_bridge.rs:584-668 | the labels of a removal's packages are exactly the old roster's labels, each once |
| `BridgeRosters.RemovalSendsRight` | src/private_bridge.rs:640-668 | remaining members get a rotation with the new secret, needed parents a supervisor package without it, everyone else a destroy notice under the old key |
| `BridgeRosters.CreationIsSound` | src/private_bridge.rs:259-277 | a planned creation has at least two members and every member's parent on the roster |
| `BridgeRosters.RemovalIsSound` | src/private_bridge.rs:1037-1056 | a planned rotation keeps every member's parent on the roster, with at least two members |
| `BridgeRosters.RunStaysSound` | src/private_bridge.rs:244-782 | over every run without coordinator drops every stored roster stays closed under parents with at least two members |
| `BridgeRosters.DropKeepsParentsIff` | src/private_bridge.rs:1681-1685 | a coordinator drop that leaves the bridge live keeps the roster closed under parents if and only if no other member's parent is dropped |
| `BridgeRosters.DropMayOrphan` | src/private_bridge.rs:1681-1685 | a run from the empty network, a creation planned, committed and then a drop, after which a member of the live bridge has no parent on the roster, where it had one before |
| `Utf8.ValidIff` | src/private_bridge.rs:2010-2012 | the bytes accepted as text are exactly the encodings of sequences of Unicode scalar values |
| `RosterCodec.TakeRoster` | src/private_bridge.rs:1980-2008 | the row loop reads what the specification reads, later values replacing earlier ones under the same label |
| `RosterCodec.TakeFrontRoster` | src/private_bridge.rs:1933-2008 | a roster written in key order and read back is the same roster, the rest of the bytes untouched |
| `RosterCodec.StripRoster` | src/private_bridge.rs:1815-1831 | two hashed rosters followed by anything are equal only if the rosters and what follows are |
| `PackageCodec.EncodePackage` | src/private_bridge.rs:1339-1389 | the buffer holds the specified bytes, or the source's error: weak recipient key, a field too large, a label empty in a signed roster |
| `Layouts.LetterLayout` | src/private_bridge.rs:1343-1375 | the letter byte by byte: which field stands where, lengths and counts in two bytes, the generation in four, a flag byte before the secret and before the signature |
| `Layouts.EnvelopeLayout` | src/private_bridge.rs:1377-1389 | the envelope byte by byte: "KQPB", version 2, kind, recipient key, length in four bytes, sealed letter |
| `PackageCodec.DecodePackage` | src/private_bridge.rs:1417-1468 | the cursor decoder returns what the specification reads and refuses trailing bytes |
| `PackageCodec.PackageRoundTrip` | src/private_bridge.rs:1339-1468 | decoding an encoded package with the recipient's key gives every field back |
| `PackageCodec.RoutingPublicKey` | src/private_bridge.rs:1394-1415 | the outer header alone yields the recipient key, or `InvalidBridgePackage` |
| `PackageCodec.OuterRoundTrip` | src/private_bridge.rs:1381-1415 | the outer header written and parsed gives the same kind, recipient and sealed bytes |
| `PackageCodec.RoutesToRecipient` | src/private_bridge.rs:1391-1397 | an encoded package is routed to the key it was sealed to |
| `PackageExact.RoutesExactly` | src/private_bridge.rs:1394-1415 | the recipient key is had from exactly the bytes of a well-formed envelope, nothing missing and nothing left over |
| `PackageExact.LetterIff` | src/private_bridge.rs:1417-1468 | a letter is read exactly from its own bytes, where rosters may be written as rows in any order and repeated, and any non-zero byte is a flag |
| `PackageExact.FiledIs` | src/private_bridge.rs:1980-2008 | rows make the map that holds the last row of each label, in label order |
| `PackageExact.OpenedIff` | src/private_bridge.rs:1417-1468 | a package opens exactly if it is an envelope whose sealed bytes unseal under the key to a letter's bytes, and gives that kind, recipient and letter |
| `PackageCodec.UpdateAuthPreimage` | src/private_bridge.rs:1795-1833 | the bytes fed to the hash are the specified ones, or the error for a long field or an empty label |
| `Layouts.UpdateLayout` | src/private_bridge.rs:1795-1833 | what is hashed, byte by byte: the domain, then each field in its place, labels and rosters behind their lengths |
| `PackageCodec.PreimageInjective` | src/private_bridge.rs:1806-1832 | equal hash inputs mean equal updates in every field, both rosters included |
| `SignatureCodec.Encode` | src/signing.rs:127-140 | the buffer holds the specified image; only an over-long uid or label is refused |
| `Layouts.ArtifactLayout` | src/signing.rs:127-140 | the file byte by byte: "KQBS", version 1, then each field in its place |
| `SignatureCodec.Decode` | src/signing.rs:142-175 | the cursor decoder returns what the specification reads and refuses trailing bytes |
| `SignatureCodec.DecodeOfEncode` | src/signing.rs:127-175 | decoding an encoded artifact gives it back |
| `SignatureCodec.EncodeOfDecode` | src/signing.rs:142-175 | whatever decodes encodes to the very same bytes |
| `SignatureCodec.AcceptsExactlyImages` | src/signing.rs:142-175 | the decoder accepts exactly the images of the encoder |
| `SignatureCodec.BridgeSignPreimage` | src/signing.rs:52-70 | the bytes fed to the hash are the domain and the fields end to end, none with its length |
| `Layouts.StatementLayout` | src/signing.rs:52-70 | what is hashed, byte by byte: the domain, then each field in its place without a length |
| `SignatureCodec.ToldApartIff` | src/signing.rs:52-70 | between two pairs of lengths of uid and signer label, the hashed bytes determine the whole statement if and only if the two pairs are the same; for any other two pairs there are two statements with the same bytes |
| `MailboxRelay.Mailbox.Store` | src/relay/mailbox.rs:28-50 | a malformed header is refused and changes nothing; an envelope already stored for its recipient changes nothing and gives back its id; a new one is appended with the next id |
| `MailboxRelay.DepositedMeans` | src/relay/mailbox.rs:28-50 | the receipt names the one row with the envelope's bytes, and says duplicate exactly if that row was there before; a new row has the next id; no other row comes or goes |
| `MailboxRelay.StoreIsIdempotent` | src/relay/mailbox.rs:33-49 | storing an envelope again after any later deposits and reads changes nothing and names the same row |
| `MailboxRelay.Mailbox.ListAfter` | src/relay/mailbox.rs:52-90 | the page of the recipient's envelopes above the cursor, with a next cursor exactly when more remain; illegal sizes are refused |
| `MailboxRelay.PageExact` | src/relay/mailbox.rs:58-90 | a request is refused exactly if it asks for less than 1 or more than 500 (100 if it asks for no number); a page holds no more than that, wanted rows only and in id order; it has a next cursor if and only if some wanted row is missing, is then full, and what is missing lies above the cursor |
| `MailboxRelay.AsksReachEnd` | src/relay/mailbox.rs:52-90 | while nothing arrives, a reader that asks more often than it has envelopes to come reaches the last page |
| `MailboxRelay.PagesAreOneRead` | src/relay/mailbox.rs:52-90 | in every run of deposits and page requests from an empty mailbox, the pages a reader got and what lies above its cursor are together one full read above its start |
| `MailboxRelay.PagesAreComplete` | src/relay/mailbox.rs:52-90 | at a page without a next cursor, a reader that started at the beginning has every envelope of its recipient stored so far, exactly once and in id order |
| `MailboxRelay.DepositsAreRead` | src/relay/mailbox.rs:28-90 | such a reader has an envelope if and only if it was deposited in the run and its header names the reader's key |

## Left out

- Events, timestamps, notices (KQBN), listing and describing, `on_leaf_removed` and `on_member_revoked`: they record or repeat operations that are modelled (the drop each of them performs is `DropMemberOnCoordinator`).
- Command line, HTTP server and client, vault, export bundles, PIN lockout, share links, API keys, key-file parsing, schema migration: input, output and short row updates that would only add easy members.
- Probability: draws are parameters, so secrecy is stated as what too few shares leave possible, with as many dealings for each secret; that random draws rarely let a stale share through is not stated.
- JSON: a stored document is the tree itself; writing and parsing it as JSON is not modelled.
- `add_bridge`, `remove_bridge`, `allow_bridge`, `deny_bridge` and the pairing helpers as commands of their own: adding appears inside the apply.
- KeySplit.SplitRunReconstructs: needs a non-empty secret, as the byte-wise dealing of an empty one yields shares that do not parse.
- KeyTable.KeyTable.EvictAndRefresh: the private-bridge drops that `on_leaf_removed` performs in the same transaction are not part of it; each is a `BridgeTable.BridgeStore.DropMemberOnCoordinator`.
- KeyRuns.EditSound: the shares presented to an edit are assumed to be current ones; what a false share does to the rows is not characterised beyond what the edit functions compute.
- Visibility.AddDescendants: asks that the child map mirrors the parent map, as both callers build them from one list of distinct labels.
- Visibility.VisibleFromMaps: the same.
- TreeSlices.VisibleInPublicTree: asks for distinct labels, which every stored document has (`RelayTrees.RunStoresValid`); with a repeated label the child lists and the parent map of the source disagree.
- TreeSlices.SliceForFingerprint: distinct labels, for the same reason.
- VisibleExact.LeastClosedIff: for acyclic parents, and for all links at once; for one given set of links the seeds' part is exact (`VisibleExact.SeedsShowExactly`) and the links add the least closure of it (`Visibility.VisibleFromMaps`).
- Visibility.VisibleIsLeastClosed: one direction only, since a simple condition on the order of the seeds is not necessary; the exact condition is in `VisibleExact.LeastClosedIff`.
- ApplyExact.ApplyIsExact: asks that the snapshot lists every parent it names, as validated documents and their slices do; rows of the store itself may be parents otherwise. The deletions of labels not in the snapshot are modelled as one cascade instead of one statement per label.
- BridgeNet.ImportKeeps: generations are unbounded naturals there, 32-bit in the source; field-size errors of the encoder do not occur there and are covered in `PackageCodec.EncodePackage`.
- BridgeTable.PackagesForRoster: packages are records; their bytes are the subject of `PackageCodec`. Salts drawn for wrapping are a function of the recipient's label.
- PackageCodec.PackageRoundTrip: wrapping salt and secret are both present or both absent, as every caller has it, and rosters are ordered by label as the source's maps are. The decoder accepts any non-zero flag byte and rosters in any order, so it is no inverse on all bytes it accepts; `PackageExact.LetterIff` says which those are.
- RelayRound.RelayRoundTrip: starts from an empty personal tree; applying onto a tree with rows of its own is covered by `ApplyStore.AppliedIff` and `ApplyStore.HeldIsUpdated`.
- MailboxRelay.PagesAreOneRead: one reader at a time, since reading changes nothing; ids are unbounded integers there and 64-bit in the source.
- KeySecrecy.NoQuorumNoSecret: asks for a split root and active splits, which every split and edit keeps (`KeyRuns.SoundIsGenuine`); entries that parse but are false are not covered, as in `KeyTree.AnswerExact`.
- ApplyStore.AppliedIff: for valid snapshots, as the relay stores and slices them; of others it is stated what is refused (`ApplyStore.RefusalsSay`, `ApplySchedule.StuckIffCycle`) and what a success leaves.
- KeyExact.AddLeafSucceedsIff: for genuine entries, as in `KeyRuns.EditSound`.
- KeyExact.EvictSucceedsIff: the same.
