# Limestone: proofs about the store behind the WebDAV server

Limestone keeps a WebDAV tree in relational tables and runs graph, tree and counting
algorithms over them in C and SQL.  This project models those algorithms in Dafny and proves
what they are for.  A table is a field holding a `set`, `map` or `seq`; a statement reads it
and writes it in one step; sessions are serializable, so a request or a turn of the garbage
collector is one step of a transition system.

| module | what it covers |
|---|---|
| `Groups`, `GroupRuns`, `GroupsAsWritten` | `group_members` and the path counts cached in `transitive_group_members`: the statements, runs of requests, the statements as SQL scopes them |
| `BindGraph` | walks in the bind graph, shared by the modules below |
| `UriText` | the text of URIs: children, parents, last segments |
| `ShortestPath`, `Lookup` | the backward breadth-first search, URI lookup and its inverse |
| `Collector` | unbind, bind, create, MOVE, the cleanup queue, the collector, the synchronous unbind loop |
| `Listing`, `Copy` | depth-infinity listing and depth-infinity copy |
| `AclPaths` | materialised ACL paths, as lists of ids and as the text the column holds |
| `NestedSet` | the lft/rgt numbering of privileges and the migration from it to paths |
| `AclDecision` | first-match evaluation (section 6 of RFC 3744), the listed ACL, the decision cache |
| `LastModified` | the recursive query behind last-modified propagation |
| `Search`, `SearchText` | the where-clause compiler (section 5.5 of RFC 5323): the conditions as tokens and trees, and as the text that is built and read |
| `Versions` | version-control, checkout, checkin, uncheckout (sections 4.3 to 4.5 of RFC 3253), commits |
| `Quota` | quota rules, resource deletion, the check before a commit |

Where the source mutates state, a class holds the tables and its methods follow the C
functions; each is proved equal to a function of the old state, and the lemmas beside it say
what that function keeps over every run.  A row set is read in an order the model leaves open,
unless the query has an ORDER BY.

## Where code and intention differ

The model follows the code.  Each of these is stated with the exact condition under which the
intended property holds; the inputs named with some of them show that the condition can fail.

- `limestone/principal.c:66` passes its two ids to `dbms_is_prin_in_grp` the wrong way round.
  The test then never refuses anything the loop check accepts (`GroupRuns.SwappedTestIsIdle`), so a
  membership can be recorded twice (`GroupRuns.SeedMemberAddedTwice`); one removal deletes both
  rows but takes one path off the count (`GroupRuns.AddTwiceRemoveOnce`).
- `sabridge_rem_prin_frm_grp` does not look whether the membership is there;
  `Groups.RemovalRightIff` says when the counts stay right.
- When a principal is deleted, the foreign keys take the rows that mention it out of both group tables, and
  nothing takes the paths through it off the other counts.  They stay right exactly when the principal is
  not both a cached member and a cached group (`Groups.DeletionRightIff`); two steps from the seed they do
  not (`GroupRuns.SeedGroupDeleted`).
- In the UPDATEs at `limestone/dbms_principal.c:529-540` and `640-653` the unqualified columns
  belong to the subqueries' own table.  `Groups.Updated` follows the comments beside them;
  `GroupsAsWritten.WrittenFormRightIff` says when the statement as written does the same,
  `GroupsAsWritten.AddedAsWrittenIff` and `GroupsAsWritten.RemovedAsWrittenIff` when a whole addition or removal is
  right, and `GroupsAsWritten.RunAsWrittenIff` when a run is.  `GroupsAsWritten.WrittenFormRefuses` is an addition
  that fails, one step from the seed.
- `limestone/dbms_bind.c:205-217` walks the excluded binds to their end in the first round, so the
  later rounds exclude nothing.  `ShortestPath.ExclusionExactIff` says for which tables the answer is
  still the one its callers mean, from every start, which is all that the one caller with an exclusion
  looks at.  `ShortestPath.FindShortestPathExclBinds` adds that the walk is never more than one bind too
  long, and a condition under which it avoids the excluded binds; this one is sufficient only.
  `ShortestPath.ExclusionForgotten` is a table for which it is wrong;
  `ShortestPath.FindShortestPathWithout` is the search its callers mean.
- A MOVE into what only the moved bind keeps reachable cuts both off (`Collector.MoveKeepsIff`), as
  when a new collection is moved below itself, whatever the tables were (`Collector.MovedIntoItself`,
  and from the seed `Collector.SeedMoveLoses`).
- Names of binds may be empty or contain slashes as far as the schema goes.
  - The text of a path is cut into its names again, and looked up in every table to where the path ends,
    exactly when no name on it is empty or has a slash (`Lookup.RenderBackIff`, `Lookup.FoundAgainIff`).
  - A listing gives every bind its own URI when no name has a slash (`Listing.UrisUnique`); any name with one
    can clash (`Listing.SlashClash`).
  - A depth-infinity copy finds parents under the text of their URIs and takes names from that text.  It is
    done and mirrors its source exactly when no listed name has a slash and nothing is listed below a
    collection that was met first under an empty name (`Copy.MirrorsIff`, `Copy.Tree.DepthInfCopy`).  Where no
    copy is found under the parent's URI the C code follows a null pointer; the model then stops undone.
- `replace` in `limestone/dbms_acl.c:851-861` works on text and also hits later occurrences:
  moving 8 from 2 to 9 turns "2,8,12,85" into "2,9,8,12,9,85" (`AclPaths.InnerMatch`,
  `AclPaths.UpdateRightIff`).  Moving a resource below itself is accepted
  (`AclPaths.MoveIff`).
- The comment in `dbms_is_allow` puts a resource's own ACEs before protected ones, and the one in
  `dbms_get_acl` puts the farthest parent first; both ORDER BYs put protected ACEs first and then
  the nearest resource (`AclDecision.NearestFirst`), and so does the model.
- An `is-defined` for a property without a column ends its text at the opening parenthesis,
  because the null name ends the list of strings.  A literal is put between apostrophes as it is
  (`limestone/search.c:771-773`), so an apostrophe in it ends it early.  The text is read as the
  condition asked for exactly when neither happens (`SearchText.ReadsBackIff`,
  `SearchText.NamedOBrien`).
- The row of an auto-created resource names the resource itself as its checked version.  The
  deferred foreign keys then refuse the commit unless a checkout and, after it, a checkin of the
  resource follow in the same transaction (`Versions.CommitsIff`, on the list of requests); with the
  "checkout" kind of automatic versioning no checkin follows.
- The hook that sets a transaction's mode leaves the field that the check before the commit looks
  at as it was, so the limits hold even when errors are to be ignored (`Quota.RunIgnoringErrors`).
- Nothing stops the deletion of a principal that still owns something but the deferred key on owners, which
  refuses the commit and undoes the transaction, also a turn of the collector (`Quota.DeletionDanglesIff`).
- Copying a resource onto another name of itself deletes its body first and copies nothing
  (`Quota.CopyBodiedIff`), after which deleting it fails (`Quota.DeletedFailsIff`).

## Model

| member | source | states |
|---|---|---|
| Groups.LoopCheckExact | limestone/dbms_principal.c:470-501 | with right counts, the loop check accepts a row iff recording it leaves the memberships acyclic |
| Groups.AddCountsAt | limestone/dbms_principal.c:503-595 | UPDATE then INSERT equal one simultaneous update: every pair gains the product of the old factors, rows appear exactly where a path appears |
| Groups.AddKeepsExact | limestone/dbms_principal.c:503-595 | after an addition every count is again the number of membership paths |
| Groups.RemKeepsExact | limestone/dbms_principal.c:619-700 | after the removal of a recorded row every count is again the number of paths, and pairs without a path have no row |
| Groups.RemovalRightIff | limestone/dbms_principal.c:597-700 | a removal leaves the counts right iff one row records the membership, or none does and no cached pair goes through it |
| Groups.DeletionRightIff | limestone/create_postgres_full.sql:534-580 | the cascade from a deleted principal leaves the counts right iff nothing is cached through it; cycles never arise |
| Groups.ExactTableUnique | limestone/dbms_principal.c:503-508 | a membership table has one right table of counts |
| GroupRuns.SwappedTestIsIdle | limestone/principal.c:57-79 | an addition is refused iff it would make a cycle; the test with swapped ids adds nothing |
| GroupRuns.ApplySoundIff | limestone/principal.c:57-95 | one request, or the deletion of a principal, leaves counts exact and memberships acyclic iff it is safe as above |
| GroupRuns.RunSoundIff | limestone/principal.c:57-95 | over every run of additions, removals and deletions of principals: counts are path counts and there is no cycle in every state, iff every step is safe |
| GroupRuns.IntendedRunSound | limestone/principal.c:57-95 | runs that add only new memberships, remove only recorded ones and delete no principal with both groups and members keep counts exact, no cycle, and each membership recorded once |
| GroupRuns.CountsAreExactInEveryRun | limestone/create_postgres_full.sql:348-350 | the same from the tables the schema creates |
| GroupRuns.RemoveUndoesAdd | limestone/dbms_principal.c:503-700 | removing right after an accepted addition restores both tables |
| GroupRuns.AddTwiceRemoveOnce | limestone/principal.c:65-68 | a recorded membership, added again and removed, leaves a count with no path |
| GroupRuns.SeedMemberAddedTwice | limestone/principal.c:65-68 | in the seed, adding a member of group 3 again is accepted |
| GroupsAsWritten.WrittenFormRightIff | limestone/dbms_principal.c:529-540 | the UPDATE with its columns scoped as SQL does equals the intended one iff nothing is touched, or each side has one row at most and its count fits |
| GroupsAsWritten.AddedAsWrittenIff | limestone/dbms_principal.c:503-595 | an accepted addition with its UPDATE as written succeeds and leaves the counts right iff that condition holds |
| GroupsAsWritten.RemovedAsWrittenIff | limestone/dbms_principal.c:619-700 | a removal as written, of whatever membership, leaves the counts right iff the removal is safe and that condition holds |
| GroupsAsWritten.AllRowsLess | limestone/dbms_principal.c:619-700 | without the n rows that record a membership each pair has n times its product less |
| GroupsAsWritten.RunAsWrittenIff | limestone/principal.c:57-95 | a run with the statements as written has right tables throughout iff every step is safe and safe as written; it is then the intended run |
| GroupsAsWritten.WrittenFormRefuses | limestone/dbms_principal.c:529-540 | from the seed, one addition later, a harmless addition for which the UPDATE as written fails |
| GroupRuns.GroupTables.WillLoopPrinAddGrp | limestone/dbms_principal.c:470-501 | the answer, and that it means a cycle |
| GroupRuns.SeedGroupDeleted | limestone/create_postgres_full.sql:534-580 | from the seed: once 3 is in 10, deleting 3 leaves counts without paths |
| GroupRuns.GroupTables.IsPrinInGrp | limestone/dbms_principal.c:446-467 | true iff a row records the membership |
| GroupRuns.GroupTables.AddPrinToGrpXitively | limestone/dbms_principal.c:503-595 | the two statements, as the new table of counts |
| GroupRuns.GroupTables.RemPrinFrmGrpXitively | limestone/dbms_principal.c:619-700 | the two statements, as the new table of counts |
| GroupRuns.GroupTables.AddPrinToGrp | limestone/principal.c:57-79 | the new tables; done iff no cycle arises; on conflict nothing changes |
| GroupRuns.GroupTables.RemPrinFrmGrp | limestone/principal.c:81-95 | the new tables; right iff the removal condition held |
| GroupRuns.GroupTables.CascadePrincipal | limestone/create_postgres_full.sql:534-580 | exactly the rows that mention the principal go from both tables; right iff the condition held |
| UriText.ChompSlash | limestone/util.c:135-142 | the loop takes exactly the trailing slashes off |
| UriText.GetParentUri | limestone/util.c:226-231 | what is before the last slash, without slashes at its end |
| UriText.ChildParts | limestone/dbms.c:927-935 | a child URI taken apart gives the name and the parent's URI, slashes at its end aside, when the name has no slash |
| ShortestPath.Round | limestone/dbms_bind.c:200-262 | one round adds exactly the collections of the binds read, each with a walk one bind longer |
| ShortestPath.FindShortestPathExclBinds | limestone/dbms_bind.c:165-267 | ends on cyclic graphs; a path is found iff the target is reachable and the first round has a bind to follow; the text renders a walk at most one bind longer than a shortest; minimal without exclusions; minimal and free of excluded binds when the first round meets all their collections |
| ShortestPath.FindShortestPathWithout | limestone/dbms_bind.c:165-267 | with the exclusion in every round: a path iff one avoids the excluded binds, and minimal among those |
| ShortestPath.NothingMissed | limestone/dbms_bind.c:205-217 | what is reachable without the excluded binds is found |
| ShortestPath.ExclusionExactIff | limestone/dbms_bind.c:205-217 | for given tables, target and exclusions: from every start a path is found iff one avoids the excluded binds, iff the first round has nothing to follow or every excluded bind that leads to the target can be gone around |
| ShortestPath.ExclusionForgotten | limestone/dbms_bind.c:205-217 | a graph where a path is found and none avoids the excluded bind |
| Lookup.CompactUri | limestone/util.c:209-224 | no double slash remains and the segments are the same |
| Lookup.CutBeforeSlash | limestone/dbms_bind.c:107-120 | cuts before the n-th slash, or not at all when there are fewer |
| Lookup.CutSegments | limestone/dbms_bind.c:107-120 | the cut leaves whole segments, one more than slashes passed if the text starts without one |
| Lookup.RenderOfSegments | limestone/util.c:209-224 | a compact URI with a slash in front and none behind is the text of its segments |
| Lookup.JoinRow | limestone/dbms_bind.c:49-78 | column k of the joined row is the resource the first k names resolve to, null iff none |
| Lookup.LookupUri | limestone/dbms_bind.c:24-130 | the resource iff the URI resolves; else, when the first name resolves, the longest resolvable prefix, its resource and its text |
| Lookup.RenderBackIff | limestone/dbms_bind.c:39-41 | the text of a list of names is cut into them again iff no name is empty or has a slash |
| Lookup.LookupUndoesReverse | limestone/bridge.c:876-894 | whatever lookup gives for the text of a walk from the root is the end of the walk, when the names on it are plain |
| Lookup.FoundAgainIff | limestone/bridge.c:876-894 | the text of a walk with these names is looked up to the end of the walk, in every table, iff no name is empty or has a slash |
| Lookup.SlashInName | limestone/dbms_bind.c:39-41 | a bind whose name has a slash, which lookup does not find under its text |
| Lookup.ReverseLookup | limestone/bridge.c:876-894 | the URI of a shortest walk from the root, and none iff the root does not reach the resource |
| Lookup.ReverseThenLookup | limestone/bridge.c:876-894 | for every resource the root reaches, looking up its reverse lookup gives it again, if names are plain |
| Collector.UnbindKeeps | limestone/bridge.c:926-940 | unbinding into the queue loses nothing |
| Collector.BindKeeps | limestone/bind.c:49-71 | a new bind, also to a new resource, loses nothing |
| Collector.MoveKeepsIff | limestone/bind.c:73-122 | a MOVE loses nothing iff its destination stays covered without the moved bind |
| Collector.MovedIntoItself | limestone/bind.c:73-122 | in every state, creating a collection and one below it and moving the first into the second loses both |
| Collector.SeedMoveLoses | limestone/create_postgres_full.sql:318-323 | such a run, in any state with an empty home collection, of which the seed is one |
| Collector.CollectKeeps | limestone/gc.c:75-122 | a turn of the collector loses nothing, though deletion cascades into the queue |
| Collector.NextKeeps | limestone/gc.c:75-122 | every step keeps the tables consistent and every live, unpinned resource reachable from the root or the queue |
| Collector.RunKeeps | limestone/gc.c:75-122 | the same over every interleaving of requests and collector turns |
| Collector.SeedKeeps | limestone/create_postgres_full.sql:318-323 | it holds in the seed |
| Collector.EmptyQueueNoGarbage | limestone/gc.c:75-122 | from the seed, an empty queue means only root-reachable and pinned resources are left |
| Collector.TrimmedReach | limestone/bridge.c:896-914 | deletions by the collector never change what the root reaches |
| Collector.BindTables.DeleteIfOrphaned | limestone/bridge.c:896-914 | deletes iff the root does not reach the resource, with the cascades |
| Collector.BindTables.CollectOne | limestone/gc.c:75-122 | one turn, as a step of the transition system and on the rows: what goes, and what is queued |
| Collector.BindTables.Drain | limestone/gc.c:75-122 | the queue empties; nothing root-reachable is lost; if nothing was lost before, exactly the root-reachable and pinned resources and their binds remain |
| Collector.BindTables.UnbindQueued | limestone/bridge.c:926-940 | exactly the bind of that collection, name and resource goes, and the resource is queued |
| Collector.BindTables.BindResource | limestone/bind.c:49-71 | this bind and no other is added, unless the collection has its name already |
| Collector.BindTables.RebindResource | limestone/bind.c:73-122 | the bind moved keeps its id and resource, the one overwritten goes and its resource is queued, a taken name changes nothing; and exactly when a MOVE loses nothing |
| Collector.BindTables.Visit | limestone/bridge.c:941-979 | one entry of the synchronous loop: the bind it was listed under, its deletion, its children |
| Collector.BindTables.UnbindNow | limestone/bridge.c:916-979 | the loop ends on cyclic graphs; of the tables without the bind addressed, all that the root reaches stays, and only that if nothing was lost before |
| Collector.BothWaysAgree | limestone/bridge.c:916-979 | with nothing lost and nothing queued, unbinding at once and queueing then draining leave the same: what the root reaches without the bind addressed |
| Listing.GetCollectionResource | limestone/dbms.c:778-1022 | every listable bind under the collections of a level, once, with the URI of its parent extended |
| Listing.LinkLevel | limestone/bridge.c:396-423 | links of a level: unset on a first meeting, else to the last entry of the resource; unlinked collections make the next level |
| Listing.ListOne | limestone/bridge.c:386-423 | the depth-1 listing: every visible bind of the collection once, with right links |
| Listing.ListInfinity | limestone/bridge.c:370-431 | ends on cyclic graphs; every bind under a collection, to a resource that may be seen, whose collection is reached by such binds is listed exactly once, with right links and URIs |
| Listing.HeldIffMet | limestone/bridge.c:400-423 | listed are the listable binds of the collection itself and of what is listed, and no others |
| Listing.OneUnlinked | limestone/bridge.c:396-423 | exactly one entry of each listed resource other than the start has no link |
| Listing.UriWalk | limestone/dbms.c:927-935 | each URI is the text of a walk from the start that ends in the entry's bind, if nothing is listed below a bare slash |
| Listing.NoSlashUri | limestone/dbms.c:927-935 | nothing is listed below a bare slash unless the root is listed and a name is empty |
| Listing.UrisUnique | limestone/dbms.c:927-935 | no two entries share the text of their URI when no listed name has a slash |
| Listing.SlashClash | limestone/dbms.c:927-935 | for any two names a and b, a table where a bind named a/b shares its URI with another |
| Copy.ParentKey | limestone/bridge.c:694-695 | the parent's URI, computed from the text, is that of the entry's collection, or of a named ancestor when collections without a name come between |
| Copy.InsertedDistinct | limestone/bridge.c:741-748 | whatever the names, an INSERT that is accepted means that no two entries shared a URI |
| Copy.CopyOfEntry | limestone/bridge.c:698-732 | with distinct URIs the map gives each entry the copy of its resource |
| Copy.RowOf | limestone/bridge.c:734-739 | without slashes each row binds the right copy under the right name in the copy of that ancestor |
| Copy.MirrorsIff | limestone/bridge.c:669-748 | once the rows are in, some map of copies makes the destination look like the source iff no listed name has a slash and nothing is listed below a collection met first under an empty name |
| Copy.CopyHasShape | limestone/bridge.c:669-748 | the rows collected make the copy look like the source |
| Copy.CopyResolves | limestone/bridge.c:669-748 | names that lead from c to r lead from the copy of c to the copy of r |
| Copy.CopyResolvesOnly | limestone/bridge.c:669-748 | and names below a copy lead to nothing else |
| Copy.Tree.CreateCopy | limestone/bridge.c:826-874 | a new resource of the same kind |
| Copy.NamesStayUnique | limestone/bridge.c:741-748 | the rows inserted meet the unique key on collection and name |
| Copy.Tree.InsertBindList | limestone/dbms_bind.c:393-443 | exactly one new bind for each row, with consecutive ids; refused as a whole iff a name would be taken twice |
| Copy.Tree.CopyEntry | limestone/bridge.c:692-738 | one turn on the map keyed by text: the copy, the row, and the next map; stops only if a name has a slash |
| Copy.Tree.DepthInfCopy | limestone/bridge.c:669-748 | done with a destination that mirrors the readable source iff the names permit it; then an injective map f, defined exactly on the source and what is listed below it, to new resources of the same kinds, with a bind (c,n,r) in the source iff (f(c),n,f(r)) in the copy; nothing old changes and the tables stay valid |
| AclPaths.MoveIff | limestone/dbms_acl.c:810-868 | moving r under p keeps the paths those of a tree iff p is outside the subtree of r; other paths are unchanged |
| AclPaths.AddKeepsTree | limestone/dbms_acl.c:661-713 | adding a resource under p keeps the paths those of one tree |
| AclPaths.ChainUnique | limestone/dbms_acl.c:810-868 | a resource has one root-to-resource chain |
| AclPaths.PathOfAncestor | limestone/dbms_acl.c:810-868 | a prefix of a stored path is the stored path of that ancestor |
| AclPaths.SelectedIffPrefix | limestone/dbms_acl.c:851-861 | the text condition selects exactly the paths that start with the moved one |
| AclPaths.ReplaceFixes | limestone/dbms_acl.c:851-861 | replacing leaves a text alone iff the two texts are equal or the first does not occur |
| AclPaths.UpdateRightIff | limestone/dbms_acl.c:851-861 | the statement replaces prefixes iff the path does not change or its text does not occur again further on |
| AclPaths.InnerMatch | limestone/dbms_acl.c:851-861 | a path the statement gets wrong |
| AclPaths.IdsOfText | limestone/dbms_acl.c:511-520 | the stored text, cut at commas and cast to integers, is the path it was made of |
| AclPaths.AclInheritance.InheritParentAces | limestone/dbms_acl.c:661-713 | the new row makes the paths of the larger tree; nothing happens for a known resource or unknown parent |
| AclPaths.AclInheritance.ChangeAclParent | limestone/dbms_acl.c:810-868 | the error case, the new row, or the moved subtree, right iff no path repeats the moved text |
| NestedSet.ContainsIffAbove | limestone/dbms_acl.c:500-508 | for depth-first numbers, interval containment iff ancestor-or-self |
| NestedSet.InsertLeafNumbers | limestone/database/insert_priv_bind_collection.rb:13-18 | shifting and inserting gives the depth-first numbers of the tree with a new last child |
| NestedSet.AddLeafAbove | limestone/database/insert_priv_bind_collection.rb:13-18 | the leaf lies below its parent and what is above it; nothing else changes |
| NestedSet.PrivilegeTable.InsertPrivBindCollection | limestone/database/insert_priv_bind_collection.rb:13-18 | the constants of the script are those of a new last child of bind in the privilege tree |
| NestedSet.MigratedIsChain | limestone/database/nested_set_to_materialized_path.rb:10 | the rows containing r, by lft, are the chain from the root to r |
| NestedSet.MigratedIsTree | limestone/database/nested_set_to_materialized_path.rb:10 | the migrated paths are the paths of one tree, as the later statements need |
| AclDecision.NearestFirst | limestone/dbms_acl.c:522-527 | of ACEs equally protected, the one set on the nearer resource comes first: longer path text means nearer |
| AclDecision.GrantedIffAllowed | limestone/dbms_acl.c:478-530 | the query decides as the trees of privileges and resources say: the ACE for the principal or a group of it, on a privilege at or above the one asked for, set at or above the resource, that goes before all others such: protected first, then lower down, then older |
| AclDecision.OneAce | limestone/dbms_acl.c:500-508 | a single ACE on the resource allows exactly the privileges it grants and those below them |
| AclDecision.ProtectedDecides | limestone/dbms_acl.c:522-527 | a protected ACE from farther up decides against an unprotected one on the resource |
| AclDecision.FirstExists | limestone/dbms_acl.c:478-530 | relevant ACEs have a first |
| AclDecision.ListingDecides | limestone/dbms_acl.c:305-435 | walking down the listed ACL and asking for the first relevant ACE decide alike, for every principal and privilege |
| AclDecision.TakeRow | limestone/dbms_acl.c:382-424 | one row: the pending ACE grows, or is listed and replaced |
| AclDecision.GetAcl | limestone/dbms_acl.c:305-435 | the list built from sorted rows has each ACE once, in order, with all its fields and privileges, and walking down it decides as the trees say |
| AclDecision.AnswerAt | limestone/dbms_acl.c:537-569 | the kept row answers for its place in the chain and for no other |
| AclDecision.AclResource.SelectAnswers | limestone/dbms_acl.c:471-533 | a row for each principal with a relevant ACE, in order, that grants exactly if the trees allow it |
| AclDecision.AclResource.GetPrivileges | limestone/dbms_acl.c:582-652 | exactly the privileges the trees allow; for one granted privilege, it and what is below it |
| AclDecision.AclResource.IsAllow | limestone/dbms_acl.c:454-573 | yes exactly if the trees allow it to the first principal, the super user aside; the cache always holds what the tables say; dbms_get_privileges agrees |
| LastModified.NextRoundIs | limestone/dbms.c:193-204 | round k of the recursive query holds exactly the repeat-free ways of k+1 resources |
| LastModified.SimpleWayExists | limestone/dbms.c:193-204 | whatever reaches r does so without repeats, so the visited list loses nothing |
| LastModified.Ancestors | limestone/dbms.c:193-204 | ends on cyclic graphs and selects exactly what reaches r through collections above the home collection |
| LastModified.Resources.NotifyResourceUpdated | limestone/dbms.c:183-216 | exactly what reaches the resource through binds of collections above the home collection gets the new time |
| Search.ReadPrimary | limestone/search.c:677-878 | the tokens for an accepted element are read back as one operand, its tree, whatever follows |
| Search.OpenLeft | limestone/search.c:854-878 | no parenthesis is left open iff every is-defined compiled names a property with a column |
| Search.TokensReadBackIff | limestone/search.c:677-878 | as tokens, the condition is one condition iff every is-defined compiled names a property with a column |
| SearchText.LexWritten | limestone/search.c:715-878 | without apostrophes in its literals, the text appended for an accepted element is read as its tokens |
| SearchText.LexWeight | limestone/search.c:771-773 | the literals read from any text take no more apostrophes than it has |
| SearchText.WrittenCount | limestone/search.c:771-773 | the text has fewer apostrophes than writing its tree takes, by those in the literals |
| SearchText.ReadsBackIff | limestone/search.c:677-878 | the text is read as the condition asked for iff no literal compiled contains an apostrophe; without them it is a condition at all iff every is-defined compiled names a property with a column |
| SearchText.NamedOBrien | limestone/search.c:771-773 | a comparison with O'Brien is not read as one |
| Search.TreeMeans | limestone/search.c:779-818 | the tree is true, or false, by the rules of SQL exactly when the request is by those of DAV:where, for every value, order and pattern match |
| SearchText.CompiledMeans | limestone/search.c:677-878 | with columns and without apostrophes, the text in front of any other is read as one operand that is true, or false, exactly when the request is |
| SearchText.SearchContext.ParseWhere | limestone/search.c:677-692 | accepted iff all operators and compared properties are known; the condition grows by exactly the text of the element, also when refused on the way |
| SearchText.SearchContext.ParseCompOps | limestone/search.c:715-777 | the text of one comparison with its literal unchanged, or an error and nothing written |
| SearchText.SearchContext.ParseLogOps | limestone/search.c:779-818 | "not" compiles its first operand, "and" and "or" all, up to the first refused |
| SearchText.SearchContext.ParseOperands | limestone/search.c:804-814 | the loop over the further operands |
| Versions.UnversionedIsSound | limestone/create_postgres_full.sql:419-427 | it holds where nothing is under version control, as in the seed |
| Versions.VersionControlIs | limestone/dbms_deltav.c:528-536 | the resource is checked in at version 1, which holds what it holds; a checkout is then accepted |
| Versions.AutoCreateIs | limestone/deltav_bridge.c:55-74 | an auto-created resource is checked in, holds what was sent, and has no version |
| Versions.WriteIs | limestone/dbms.c:486-516 | a write replaces the content of what is not a version, not a history and not checked in, and does nothing else |
| Versions.CheckoutIs | limestone/version.c:203-254 | checked out at the same version, nothing else changed |
| Versions.RefusedIs | limestone/version.c:162-366 | a request that does not apply changes nothing |
| Versions.UncheckoutIs | limestone/version.c:256-296 | checked in again at its newest version, with the content of that |
| Versions.CheckinIs | limestone/version.c:298-366 | checked in at a new version, numbered one higher, with the content the resource has |
| Versions.DoLeaves | limestone/version.c:162-366 | no request changes the content, row or version of anything it does not name |
| Versions.DoKeeps | limestone/version.c:162-366 | each request keeps versions numbered 1 to n, the checked version, the root version and equality when checked in, and no old version changes |
| Versions.RunKeeps | limestone/version.c:162-366 | the same over every run |
| Versions.NumberedGrows | limestone/deltav_bridge.c:202-240 | a row numbered n+1 makes 1..n into 1..n+1 and touches no other resource |
| Versions.CheckedInKeeps | limestone/version.c:298-366 | checkin adds exactly one version; the first one becomes the root version of an auto-created resource |
| Versions.UncheckoutUndoes | limestone/version.c:256-296 | checkout, any writes, uncheckout: the same state as before |
| Versions.CheckinRecords | limestone/version.c:298-366 | checkout, writes, checkin: version n+1 holds what was written last, versions 1 to n are kept |
| Versions.CommitsIff | limestone/create_postgres_full.sql:585-601 | a transaction meets the deferred constraints, and has an effect, iff every resource it auto-creates is checked out and later checked in by the requests after |
| Versions.RunPhase | limestone/version.c:203-366 | an auto-created resource has a version after a list of requests iff they check it out and later in |
| Versions.LeftOutIsLost | limestone/deltav_bridge.c:55-74 | whatever the tables were, a transaction that auto-creates a resource without a checkout and a later checkin of it is undone |
| Versions.CommittedKeeps | limestone/version.c:162-366 | in every committed state: versions 1 to n with n at least 1, checked in or out at n, equal to it when checked in |
| Versions.Repository.GetVcrProps | limestone/dbms_deltav.c:94-178 | what a request learns of its resource agrees with the tables; fails iff the checked id is no version |
| Versions.Repository.GetVersionId | limestone/dbms_deltav.c:190-223 | a version with this number and resource, or none exists |
| Versions.Repository.SetCheckinOut | limestone/dbms_deltav.c:383-424 | the new row and the fields of the request's resource, looked up only when the number changes |
| Versions.Repository.VersionControl | limestone/deltav_bridge.c:31-124 | history, root, first version and row, with and without auto_version: checked in, at version 1 with the resource's content unless auto-created; no change if already controlled |
| Versions.Repository.Checkout | limestone/version.c:203-254 | the state and the error case |
| Versions.Repository.Uncheckout | limestone/version.c:256-296 | the content of the checked version is copied back; the error cases |
| Versions.Repository.Checkin | limestone/version.c:298-366 | the new version, root and row; the error cases |
| Quota.InsertedKeeps | limestone/create_postgres_full.sql:603-604 | inserting a first body keeps every account equal to the sizes its principal owns |
| Quota.UpdatedKeeps | limestone/create_postgres_full.sql:606-607 | so does changing a size, and the account never becomes negative |
| Quota.CopiedKeeps | limestone/dbms.c:1036-1076 | so does a copy; the destination has the size of the source, or no body when they are one resource |
| Quota.DeletedKeeps | limestone/dbms.c:546-592 | so does deleting a resource, whose cascade fires no rule |
| Quota.DeletedExactIff | limestone/dbms.c:553-578 | a deletion keeps the accounts right iff its type has a body, or there is no body, size or account, or the account goes with it |
| Quota.DeletedFailsIff | limestone/dbms.c:553-578 | it fails iff the body is missing and the owner has an account |
| Quota.DeletionDanglesIff | limestone/create_postgres_full.sql:558-571 | deleting a principal leaves a resource without owner, which cannot be committed, iff it owns something else |
| Quota.CopyBodiedIff | limestone/dbms.c:1036-1076 | a copy keeps a body behind every resource iff source and destination differ |
| Quota.DoKeeps | limestone/bridge.c:197-285 | every request keeps accounts exact and bodies single |
| Quota.PutIs | limestone/dbms.c:486-516 | a PUT leaves the size sent, as the body of a resource that has or gets one, and no other size changes |
| Quota.CopyIs | limestone/dbms.c:1036-1076 | a copy leaves the size of the source, or none onto itself, and no other size changes |
| Quota.CreateIs | limestone/bridge.c:197-285 | a new resource has the owner, type and size asked for, a user an account of its own, and nothing else changes |
| Quota.DeletedIs | limestone/dbms.c:546-592 | the resource, its body and its account go, and no other |
| Quota.CommittedWithin | limestone/dbms_transaction.c:113-149 | in every committed state each account belongs to a principal that is there and is the sum of the bodies owned, nobody with a limit owns more, and every owner is there |
| Quota.DeletionsLower | limestone/gc.c:83-119 | the collector commits without the check and cannot break a limit |
| Quota.SeedSound | limestone/create_postgres_full.sql:359-377 | the seed has exact accounts, single bodies and nobody over a limit |
| Quota.RunSession | limestone/transaction.c:12-77 | statements and end of a request through the transaction leave exactly what the run theorem commits, and report an error iff nothing is committed |
| Quota.RunIgnoringErrors | limestone/transaction.c:32-36 | after the hook has set errors to be ignored, failing requests are skipped and the limits are still checked |
| Quota.AfterIgnoringKeeps | limestone/transaction.c:41-60 | so accounts stay exact and nobody is over a limit then either |
| Quota.Tables.InsertMedia | limestone/dbms.c:218-248 | the row, then its rule: the size stored is the size inserted and the owner's account grows by it |
| Quota.Tables.UpdateMediaProps | limestone/dbms.c:486-516 | the rule, then the rows: the size stored is the new size and the owner's account grows by the difference |
| Quota.Tables.CopyMediaProps | limestone/dbms.c:1036-1076 | deletion with its rule, then insertion with its rule: the destination has the size of the source |
| Quota.Tables.DeleteResource | limestone/dbms.c:546-592 | the account by hand, then the cascade, also to the account of a principal |
| Quota.Transaction.PreCommitChecks | limestone/transaction.c:41-60 | an error iff somebody is over the limit, or a statement failed, and errors are not ignored; the transaction then rolls back |
| Quota.Transaction.End | limestone/transaction.c:62-77 | what is left; nobody is over the limit after a commit, and no owner is missing in any mode |

## Left out

- Apache hooks, request records, live properties, reports and XML bodies: plumbing.
- SQL text, escaping, drivers and database errors other than constraint violations; MySQL branches.
- Files on disk, hashes, MIME types, timestamps (`greatest(...)` in lookup, `updated_at` columns), users, passwords, redirects.
- Locks, and lock-null resources except where they gain a body.
- Resource types other than resources and collections in the bind graph; principals 3 to 5 are a fixed pinned set there.
- Copy onto an existing destination (reuse of its children, `sabridge_clear_unused`), versions of copied collections.
- Collection versions, deletion of version histories, the collections that hold version resources; automatic versioning of existing resources is a sequence of the requests modelled.
- The `is-bit` element (the text of `is-collection`, and a flag), bitmarks and typed literals in SEARCH, and everything of SEARCH outside the where clause.
- SQL as read in `SearchText` has the words, literals and line comments of the standard; block comments, backslashes in literals (with `standard_conforming_strings` off) and keywords in mixed case are not part of it.
- `basename` and `ap_make_dirstr_parent` are not in the repository: `UriText.BaseName` is that of the GNU C library, what follows the last slash, and `UriText.Dir` is up to and with that slash.
- Creators of resources, who cannot be deleted before these either.
- The `fserrno` field of a transaction, which nothing sets.
- Groups.Updated: is the intended reading of the UPDATEs; the reading as written is `GroupsAsWritten.UpdatedAsWritten`.
- GroupRuns.CountsAreExactInEveryRun: supposes callers that remove only recorded memberships, add only new ones, and delete no principal with both groups and members, since the code does not see to it.
- Lookup.LookupUri: needs no requirement on the URI, but the text of an unresolved prefix is exact only as the code cuts it, one segment longer when the URI starts without a slash.
- Lookup.ReverseLookup: gives no URI for a resource that the root does not reach; the C code compares a null path then, which has no defined outcome.
- Collector.BothWaysAgree: compares resources and binds, not the order of deletions.
- Versions.Repository.Uncheckout: version 0 has no resource; the C code goes on with an empty record, which the model reports as an error without a change. It finds the version by number and resource, where the code resolves the version's URI.
- Versions.RunKeeps: a resource is written only while it is checked out or not under version control; that is seen to by mod_dav.
- Quota.Tables.UpdateMediaProps: a second row for one resource, which the schema permits and no caller creates, would be charged once for both.
