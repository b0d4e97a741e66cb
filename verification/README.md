# liboffkv: a verified model of the three clients

liboffkv offers one hierarchical, versioned key-value interface and implements it on etcd, ZooKeeper and
Consul by compiling each call into that service's own instructions. This project models the compilation and
proves what a caller gets back.

* **The specification** (`Tree.dfy`): a map from keys to value, version and lease, the single operations on
  it, and a transaction as the in-order fold of its checks and operations. The services differ in three
  points, held in a `Rules` value: how versions are numbered, whether a leased key may have children
  (ZooKeeper refuses), and whether a transactional `set` detaches the key from its lease (etcd does).
* **Paths** (`Keys.dfy`, `Encoding.dfy`): the path strings, their segment lists, and the names under which
  each client stores a key, with the byte ranges built on them. Strings are compared byte by byte.
* **The services** (`ConsulStore.dfy`, `ZkStore.dfy`, `EtcdStore.dfy`): a small store each.
  * Consul runs the operations of a transaction in order on the evolving store and undoes all of them if one
    fails. `Get`, `CheckIndex`, `CheckNotExists`, `CompareSet`, `CompareErase` and `Lock` can fail; deletes and
    `CheckNotExists` yield no result.
  * A ZooKeeper multi-operation is all-or-nothing and in order. `create` needs the node absent and the parent
    present and not ephemeral; `erase` needs the node present and childless; versions start at zero.
  * An etcd transaction evaluates all compares on the store as it was, then runs one branch in order. A missing
    key has version, create revision and lease zero. A put that keeps the lease of a missing key is refused as
    an invalid argument, and so is a branch that puts a key twice or puts a key inside one of its delete ranges.
* **The clients**: Consul in `ConsulPlan.dfy`, `ConsulChildren.dfy`, `ConsulClient.dfy`; ZooKeeper in
  `ZkErase.dfy`, `ZkCommit.dfy`, `ZkQuiet.dfy`, `ZkSingle.dfy`, `ZkSet.dfy`; etcd in `EtcdPlan.dfy`,
  `EtcdAssembly.dfy`, `EtcdFailure.dfy`, `EtcdClient.dfy`, `EtcdSet.dfy`, `EtcdWatch.dfy`. The loops that build,
  search and merge are methods, proved against functions about which the theorems are proved.
* **The protocols**: `WatchCreator.dfy` is the watch multiplexer with every interleaving of its threads,
  `PingSender.dfy` the ownership of ping control blocks with every interleaving of senders and ping threads.
* **Across services** (`Backends.dfy`): the three services agree, and every run of a client keeps the tree
  closed under parents.

The main claims are `ConsulPlan.CommitExact`, `ZkCommit.AttemptSound`, `ZkCommit.ThrowsExactly`,
`ZkQuiet.QuietAgrees`, `ZkSet.SetLinearizes`, `EtcdClient.SuccessSound`, `EtcdAssembly.ReadableExactly`,
`EtcdSet.AttemptIs`, `EtcdWatch.ChildrenWatchFires`, `WatchCreator.RunIsSafe`, `PingSender.RunIsSafe` and
`Backends.BackendIndependence`.

## Interference

Another client may act between any two requests. A ZooKeeper scan is recorded as the tree of answers its reads
got (`Scan`); nothing ties two of its answers to one store, so every interference is covered. A retry loop
takes what its successive rounds meet as a parameter, and the theorems hold for every such sequence. Session
and lease identifiers are parameters: the identifier the service would hand out.

## Where the code and its description differ

The code was followed, and what it does was characterised exactly.

* etcd `commit` compares a check's version with the stored one even when it is zero, so a check for version zero
  asks for absence (`etcd_client.hpp:831`), whereas the description says existence (`README.md:166-167`).
  `EtcdPlan.SuccessIsFold` shows that, besides nested erases, this is the only case in which a succeeded
  transaction is not the fold, and `EtcdFailure.BlameIsFirstFailure` that it is the only case in which the wrong
  step is blamed.
* etcd `commit` counts one response per erase although an erase has two (`etcd_client.hpp:874-880`). The versions
  are read off the right responses if no `set` follows an erase (`EtcdAssembly.AnswersRead`); otherwise a response is
  read that is no look-up (`EtcdAssembly.ReadableExactly`). The model calls that outcome `Undefined`.
* etcd compares everything on the store as it was, so creating a key and its child in one transaction is
  refused although the description allows it (`EtcdFailure.ParentAndChildRefused`).
* ZooKeeper `commit` agrees with the fold in one undisturbed pass exactly when no erase finds the nodes below its
  target changed by earlier steps of the same transaction (`ZkQuiet.QuietAgrees`). Otherwise, with nobody else
  writing, it retries forever exactly when some erase is reached and earlier steps have taken a node from below its
  target, or given a new child to one (`ZkQuiet.QuietRetries`), and throws exactly as `ZkQuiet.QuietThrows` says.
  Three two-step instances:
  * a present key erased, then one of its ancestors: it retries forever although the fold commits
    (`ZkQuiet.NestedErasesRetry`);
  * a key erased, then the same key or one below it that had something below: it retries forever although the fold
    fails and the caller should see the index (`ZkQuiet.RepeatedErasesRetry`);
  * a key created, then an ancestor erased: it throws or retries forever although the fold commits
    (`ZkQuiet.CreateThenEraseFails`).
* ZooKeeper `commit` throws at an erase when the target has got a child that the scan had not seen, although the
  fold commits: the failed operation is the erase's last (`ZkCommit.ThrowsExactly`, `ZkCommit.StaleScanThrows`).
* ZooKeeper `set` is linearizable, as its comment hopes (`zk_client.hpp:191-193`), exactly when the key is still there
  at the second call or some step in between covers a set made just before it: an erase at or above the key that
  succeeds and is not of the key itself by version, or a transaction with such an erase that has at most looked
  whether the key is there before (`ZkSet.SetLinearizes`). So it is linearizable if nobody removes the key by version
  (`ZkSet.UnversionedRemovals`). If the key vanishes, the version returned is 2^62.
* ZooKeeper clients create the nodes of their prefix once. When a client with a shorter prefix has erased them, a
  top-level create is refused (`ZkSingle.PrefixErased`).
* etcd `get_children` leaves through std::out_of_range if another program has stored a name with the mark that ends in
  a slash (`etcd_client.hpp:528`).
* Of the transactions the fold commits, etcd refuses those that check for version zero or create a key below one they
  create, and those whose writes and erases overlap (`EtcdFailure.RefusedExactly`, `EtcdPlan.OverlapMeans`).
* The transactional erase carries no version in the code (`client.hpp:83-90`), unlike `README.md:152-159`.
* The etcd resolver thread waits for the current write before it cancels a watch, but only it can finish that
  write. `WatchCreator.WaitingIsReachable` shows that it gets there, `WatchCreator.WaitingIsForever` that it
  never leaves. Only safety is claimed of the multiplexer.

## Model

| member | source | states |
|---|---|---|
| Keys.Segments | liboffkv/key.hpp:28-45 | the splitting loop returns the segments of any string and refuses exactly the non-empty strings that do not start with a slash |
| Keys.SplitJoin | liboffkv/key.hpp:28-45 | splitting the joined string gives back every list of slash-free segments |
| Keys.JoinSplit | liboffkv/key.hpp:28-45 | joining what a split gave restores the string |
| Keys.ValidateSegment | liboffkv/key.hpp:13-22 | the character loop accepts exactly the non-empty segments of bytes strictly between 0x1F and 0x7F that are not reserved |
| Keys.MakePath | liboffkv/key.hpp:47-54 | the constructor accepts a string iff it is the string form of a valid path, and yields that path |
| Keys.MakeKey | liboffkv/key.hpp:67-77 | the same for keys, with the root refused |
| Keys.ParseExactly | liboffkv/key.hpp:28-54 | accepted strings and valid paths correspond one to one |
| Keys.JoinInjective | liboffkv/key.hpp:62 | two paths with the same string are the same path |
| Keys.ParentOfString | liboffkv/key.hpp:56 | cutting at the last slash drops the last segment and stays valid |
| Keys.ConcatOfStrings | liboffkv/key.hpp:60 | concatenating the strings appends the segment lists and stays valid |
| Encoding.ConsulPathString | liboffkv/consul_client.hpp:41-50 | the loop builds prefix and path joined with slashes and without a leading one |
| Encoding.ConsulNameIs | liboffkv/consul_client.hpp:41-50 | the name with a slash in front is the client prefix followed by the key |
| Encoding.ConsulNameDetermines | liboffkv/consul_client.hpp:41-50 | for any two prefixes: names are equal iff prefix and key together are |
| Encoding.ConsulInjective | liboffkv/consul_client.hpp:41-50 | different keys have different Consul names |
| Encoding.ConsulSubtree | liboffkv/consul_client.hpp:307 | the names that start with "name/" are those of the strict descendants |
| Encoding.EtcdPathString | liboffkv/etcd_client.hpp:482-496 | the loop builds the name with a zero byte before the last segment |
| Encoding.EtcdNameIs | liboffkv/etcd_client.hpp:478-496 | the name is the client prefix, the parent's path, a slash, a zero byte and the last segment |
| Encoding.EtcdNameDetermines | liboffkv/etcd_client.hpp:478-496 | for any two prefixes: names are equal iff prefix and key together are |
| Encoding.EtcdInjective | liboffkv/etcd_client.hpp:478-496 | the name determines the key, whatever the prefix |
| Encoding.JoinPrefix | liboffkv/etcd_client.hpp:498-508 | one path's string followed by a slash starts another's iff the path lies strictly below |
| Encoding.RangeIsPrefix | liboffkv/etcd_client.hpp:503-507 | in byte order, a range ending at the successor of its last byte is a prefix scan |
| Encoding.EtcdSubtree | liboffkv/etcd_client.hpp:498-508 | a stored name lies in the subtree range iff its key is a strict descendant of the root |
| Encoding.EtcdChildren | liboffkv/etcd_client.hpp:510-522 | a stored name lies in the children range iff its key's parent is the root |
| Encoding.UnwrapName | liboffkv/etcd_client.hpp:524-529 | unwrapping a stored name gives the string form of its key |
| Encoding.UnwrapsToKey | liboffkv/etcd_client.hpp:524-529 | of any name in the children range that does not end in a slash, unwrapping leaves a key string iff the name is that of a child key |
| Tree.FailsFirstAt | README.md:117-170 | a transaction fails at a step iff all earlier steps are accepted in turn and this one is not |
| Tree.FoldKeepsClosed | README.md:117-170 | a committed transaction keeps every parent present |
| Tree.AncestorsPresent | README.md:28-33 | in a closed tree every ancestor of a present key is present |
| Tree.CallKeepsClosed | README.md:13-115 | so does every single call |
| Tree.FoldValues | README.md:117-170 | the values a committed transaction leaves do not depend on how a service numbers versions or treats leases |
| Boundaries.Search | liboffkv/zk_client.hpp:337-338 | binary search on increasing positions finds the first one not below the index |
| Boundaries.LowerBoundAppend | liboffkv/consul_client.hpp:429-431 | what a further boundary changes about the search |
| ConsulPlan.CommitExact | liboffkv/consul_client.hpp:323-437 | for every transaction and store: the compiled list commits iff the fold does, with its tree and answers, and otherwise the searched index is the fold's first failing step |
| ConsulPlan.BoundsIncrease | liboffkv/consul_client.hpp:348-401 | boundaries increase strictly, one per step, and end at the last raw operation |
| ConsulPlan.CreateRuns | liboffkv/consul_client.hpp:356-377 | where exactly a compiled create stops: at the parent's look-up iff the parent is missing, at the absence check iff the key is there |
| ConsulPlan.CreateExact | liboffkv/consul_client.hpp:130-164 | `create` has the specified effect and the position of the failure tells the right error |
| ConsulPlan.SetExact | liboffkv/consul_client.hpp:221-240 | `set` has the specified effect and fails exactly when the parent is missing |
| ConsulPlan.CasExact | liboffkv/consul_client.hpp:272-284 | `cas` with a version has the specified effect; a missing key and a version mismatch are told apart |
| ConsulPlan.EraseExact | liboffkv/consul_client.hpp:291-321 | `erase` removes the subtree iff the key is there with the version; a mismatch changes nothing and is silent |
| ConsulPlan.CommitFrame | liboffkv/consul_client.hpp:336-405 | a committed transaction changes only names that are written, or at or below an erase target |
| ConsulPlan.CommitSessions | liboffkv/consul_client.hpp:367-376 | in a committed transaction, a key created and not erased later is stored with the session if it is leased, and with none otherwise |
| ConsulStore.RunConcat | liboffkv/consul_client.hpp:404-405 | a list runs as its two halves one after the other, positions counted on |
| ConsulStore.ViewErase | liboffkv/consul_client.hpp:389-396 | erasing a name and all names below it prunes the tree at the key |
| ConsulClient.Client.Commit | liboffkv/consul_client.hpp:323-437 | the fold on the store: its answers and tree, or its failing index with the store unchanged; only names the steps reach change; keys created leased to stay are locked with the session the client keeps, other created keys with none |
| ConsulClient.Client.CompileTransaction | liboffkv/consul_client.hpp:332-402 | the loops emit the compiled list, its boundaries and its result kinds, with one session throughout |
| ConsulClient.Client.CompileOp | liboffkv/consul_client.hpp:352-399 | the guards and effects of one operation, a kind for each result it will yield, and a session kept only if it needs one |
| ConsulClient.Client.CollectAnswers | liboffkv/consul_client.hpp:406-425 | the loop over raw results picks the creates and sets by kind, in order |
| ConsulClient.Client.CreateKey | liboffkv/consul_client.hpp:130-164 | the specified new tree and reply, no other name changed, and a leased key locked with the session the client keeps |
| ConsulClient.Client.SetKey | liboffkv/consul_client.hpp:221-240 | the specified new tree and reply, and no other name changed |
| ConsulClient.Client.CasKey | liboffkv/consul_client.hpp:263-289 | the specified new tree and reply, including version zero, and no other name changed |
| ConsulClient.Client.EraseKey | liboffkv/consul_client.hpp:291-321 | the specified new tree and reply, and no name changed but the key's and those below it |
| ConsulClient.Client.GetChildren | liboffkv/consul_client.hpp:183-215 | NoEntry iff the key is missing; otherwise exactly what stripping leaves of the stored names directly below it, each once: the strings of exactly the child keys, and no others if only key names are stored there |
| ConsulChildren.ChildName | liboffkv/consul_client.hpp:195-199 | a name below "name/" without a further slash is that of a direct child, and conversely |
| ConsulChildren.StripName | liboffkv/consul_client.hpp:196-203 | stripping the client prefix gives the key's string, for the empty prefix too |
| ConsulChildren.ChildrenExact | liboffkv/consul_client.hpp:193-205 | the collected strings are those left of the names directly below, each once; among them the key strings are those of the children |
| ZkErase.MakeRecursiveEraseQuery | liboffkv/zk_client.hpp:40-59 | the recursion appends the erases of what was scanned, children first, for each way of treating a missing entry |
| ZkErase.EraseGroup | liboffkv/zk_client.hpp:40-59 | whatever was scanned, a list that goes through removed exactly the subtree present when it ran |
| ZkErase.ErasedExactly | liboffkv/zk_client.hpp:40-59 | a list that goes through has no duplicates and removes its members only |
| ZkErase.QueryRootLast | liboffkv/zk_client.hpp:52-58 | only the last path listed is the target, all others lie strictly below |
| ZkErase.QueryLists | liboffkv/zk_client.hpp:40-59 | on a quiet store the list is a duplicate-free post-order listing of the subtree |
| ZkErase.ScanExists | liboffkv/zk_client.hpp:40-59 | every store has a scan that mirrors it |
| ZkErase.PostOrderErases | liboffkv/zk_client.hpp:40-59 | in a post-order list that covers the children of its members, each node is present and childless at its turn |
| ZkErase.EraseGoesThrough | liboffkv/zk_client.hpp:40-59 | a list scanned earlier goes through on a later store iff it lists exactly the subtree there |
| ZkErase.StopsAtTargetExactly | liboffkv/zk_client.hpp:40-59 | a list fails at its last operation iff everything listed below the target can be erased and the target is missing or has a child that was not listed |
| ZkErase.QuietBelow | liboffkv/zk_client.hpp:40-59 | what a quiet scan listed below the target can be erased later iff no node there has gone and none has got a new child |
| ZkCommit.BuildMulti | liboffkv/zk_client.hpp:302-329 | the loops build the compiled list and its boundaries |
| ZkCommit.PushOp | liboffkv/zk_client.hpp:311-326 | what one operation contributes |
| ZkCommit.BoundsIncrease | liboffkv/zk_client.hpp:302-329 | boundaries increase strictly, one per step, and end at the last raw operation |
| ZkCommit.CompiledSound | liboffkv/zk_client.hpp:305-342 | for all scans and every store: success is the fold with its answers; failure names the owning step, which all earlier steps reach, and for a check, create or set is the fold's first failure |
| ZkCommit.ThrowsExactly | liboffkv/zk_client.hpp:335-342 | a round throws a step's index iff the steps before it go through and, on the store they leave, a check, create or set is not acceptable, or an erase has its target missing or with a child not listed once all else listed is erased |
| ZkCommit.RetriesExactly | liboffkv/zk_client.hpp:340-342 | a round asks for another one iff the steps before some erase go through and that erase stops below its target |
| ZkCommit.StaleScanThrows | liboffkv/zk_client.hpp:340-342 | for every store with a present key and a child of it: if the scan saw no child, the round throws although the fold commits |
| ZkCommit.AttemptSound | liboffkv/zk_client.hpp:299-370 | a returning round is the fold on the store it met; a throwing round names the fold's first failure, or a reached erase whose present target has a child the scan did not list; a round retries only at an erase strictly below the target of an erase the fold reaches |
| ZkCommit.OwnedOp | liboffkv/zk_client.hpp:335-342 | the index found is always in range, and a raw operation that is not its step's last belongs to an erase |
| ZkCommit.CollectResults | liboffkv/zk_client.hpp:347-366 | the loop keeps one versioned entry per create and set |
| ZkCommit.TryOnce | liboffkv/zk_client.hpp:302-368 | the body of the loop is one attempt |
| ZkCommit.Commit | liboffkv/zk_client.hpp:299-370 | the loop ends at the first round that does not ask for another, with that round's verdict |
| ZkQuiet.QuietExact | liboffkv/zk_client.hpp:299-370 | a quiet round commits iff the fold does and no reached erase finds the nodes below its target changed by earlier steps |
| ZkQuiet.QuietAgrees | liboffkv/zk_client.hpp:299-370 | one quiet pass gives the fold's tree and answers, or its failing index, iff no reached erase finds the nodes below its target changed, for every transaction and every store |
| ZkQuiet.QuietRetries | liboffkv/zk_client.hpp:340-342 | a quiet round asks for another one iff some erase is reached and earlier steps have taken a node from below its target or given a new child to one |
| ZkQuiet.QuietThrows | liboffkv/zk_client.hpp:335-342 | a quiet round throws an index iff that step is reached and is not acceptable, or is an erase whose list stands but whose target is missing or has got a new child |
| ZkQuiet.NodesOfRun | liboffkv/zk_client.hpp:299-334 | which nodes a run leaves, other programs' included |
| ZkQuiet.NodesOfFold | liboffkv/zk_client.hpp:299-334 | as far as keys go these are the fold's |
| ZkQuiet.KeptIsKeysKept | liboffkv/zk_client.hpp:299-370 | if other programs keep out, the condition says: every reached erase finds the keys strictly below its target that were there at the start |
| ZkQuiet.SeparateAgrees | liboffkv/zk_client.hpp:299-370 | so one quiet pass agrees for erase targets unrelated to each other and to earlier creates below them |
| ZkQuiet.RepeatedErasesRetry | liboffkv/zk_client.hpp:340-342 | erasing a key and then it or a key below it, with something below: the fold fails at the second erase, but every quiet round retries |
| ZkQuiet.NestedErasesRetry | liboffkv/zk_client.hpp:340-342 | erasing a present key and then an ancestor retries in every quiet round although the fold commits |
| ZkQuiet.CreateThenEraseFails | liboffkv/zk_client.hpp:340-342 | creating below a later erase target fails or retries, exactly as the depth says, although the fold commits |
| ZkSingle.MakePrefix | liboffkv/zk_client.hpp:109-125 | the constructor's loop creates the missing nodes of the prefix and fails exactly below an ephemeral node |
| ZkSingle.PrefixErased | liboffkv/zk_client.hpp:109-140 | with the prefix node gone nothing is visible, and a top-level create is refused although the tree would accept it |
| ZkSingle.CreateReply | liboffkv/zk_client.hpp:128-140 | when the service accepts a create, and when it reports an existing entry |
| ZkSingle.CreateKey | liboffkv/zk_client.hpp:128-140 | the specified new tree and reply, and no other node changed |
| ZkSingle.CasKey | liboffkv/zk_client.hpp:217-244 | the specified new tree and reply, including version zero, and no other node changed |
| ZkSingle.EraseAtomic | liboffkv/zk_client.hpp:271-296 | every round that ends `erase` is one atomic erase, on the store it met or the one its first read saw, and removes exactly the subtree |
| ZkSingle.EraseQuiet | liboffkv/zk_client.hpp:271-296 | without interference one round ends it |
| ZkSingle.EraseKey | liboffkv/zk_client.hpp:271-296 | the loop ends at the first round that does not ask for another |
| ZkSet.SetKey | liboffkv/zk_client.hpp:194-213 | what the two calls do to the stores they meet; if the key vanished in between, nothing, and 2^62 is returned |
| ZkSet.RemovalHides | liboffkv/zk_client.hpp:191-193 | a set just before a step that covers the key cannot be seen |
| ZkSet.SetLinearizes | liboffkv/zk_client.hpp:191-213 | for every run of calls in between, transactions included: some point explains the final tree and every reply by one atomic set iff the key is still there or some step is an erase, or a transaction with one, that covers a set made just before it |
| ZkSet.StaysApart | liboffkv/zk_client.hpp:191-213 | the difference a set makes survives every step that is answered alike, except one that covers it |
| ZkSet.FoldApart | liboffkv/zk_client.hpp:191-213 | the same inside a transaction: answered alike, it leaves the trees apart or erases the key having at most looked whether it is there |
| ZkSet.FoldFollows | liboffkv/zk_client.hpp:191-213 | a transaction that goes through and has not noticed the set goes through with it, with the same answers |
| ZkSet.UnversionedRemovals | liboffkv/zk_client.hpp:191-213 | so `set` is linearizable if no other client removes the key by version, or in a transaction that does more to it than look whether it is there |
| ZkSet.CallLinearizes | liboffkv/zk_client.hpp:191-213 | the same for the whole call, from the stores the two requests met to the store and reply they left |
| ZkSet.LargeMeansGone | liboffkv/zk_client.hpp:205-208 | while versions are below 2^62 - 1, the reply 2^62 is given exactly if the key was there at the create and gone at the overwrite |
| ZkSet.VersionedEraseBreaksSet | liboffkv/zk_client.hpp:191-213 | if a versioned erase of the key is the only step in between, no point explains the outcome, for every closed tree and key |
| EtcdStore.TransactionBuilder.AddRequest | liboffkv/etcd_client.hpp:391-453 | appends to the selected branch and leaves the other one alone |
| EtcdStore.ViewDelete | liboffkv/etcd_client.hpp:874-876 | deleting the name and the subtree range prunes the tree at the key |
| EtcdPlan.AllCompares | liboffkv/etcd_client.hpp:829-883 | all compares hold iff every step's condition holds on the tree as it was |
| EtcdPlan.OverlapMeans | liboffkv/etcd_client.hpp:835-883 | the service's overlap rule, said about the keys of the transaction, both ways |
| EtcdPlan.OnlyLookups | liboffkv/etcd_client.hpp:829-883 | the failure branch holds look-ups only, and no put insists on a lease |
| EtcdPlan.KeysAfter | liboffkv/etcd_client.hpp:835-885 | which keys a committed transaction without overlaps leaves |
| EtcdPlan.SuccessRunsBlind | liboffkv/etcd_client.hpp:835-883 | what the success branch does to the tree, for every transaction and store, acceptable or not |
| EtcdPlan.SuccessLeases | liboffkv/etcd_client.hpp:841-865 | without overlap, the success branch binds every key created leased to the lease and every other key written to none |
| EtcdPlan.SuccessFrame | liboffkv/etcd_client.hpp:835-883 | it changes only names that are written, or at or in the subtree range of an erase target |
| EtcdPlan.AcceptedIff | liboffkv/etcd_client.hpp:829-885 | with all compares true on the old tree, the next step is acceptable in turn iff it is no check for version zero and no erase inside an earlier one |
| EtcdPlan.SuccessIsFold | liboffkv/etcd_client.hpp:819-885 | a succeeded transaction is the fold, with its tree, iff checks name versions and no erase lies inside an earlier one |
| EtcdAssembly.CounterLags | liboffkv/etcd_client.hpp:825-880 | the counter plus the number of erases so far is the true response position |
| EtcdAssembly.MergePicks | liboffkv/etcd_client.hpp:915-932 | the merge's comparison picks the next create or set in user order |
| EtcdAssembly.MergeAnswers | liboffkv/etcd_client.hpp:913-933 | the merge loop reads the slots in user order |
| EtcdAssembly.ReadableExactly | liboffkv/etcd_client.hpp:874-932 | the answers can be read iff no set follows an erase, for every transaction and store |
| EtcdAssembly.SetAfterEraseFaults | liboffkv/etcd_client.hpp:874-932 | a set after an erase reads a response that is no look-up |
| EtcdAssembly.AnswersRead | liboffkv/etcd_client.hpp:856-933 | without a set after an erase, for every transaction and store: the answers read are one for a create, and for a set one more than the version the earlier steps leave |
| EtcdAssembly.SetAnswersOld | liboffkv/etcd_client.hpp:856-933 | in a transaction without overlap that is one more than the version before the transaction |
| EtcdAssembly.BlindIsFold | liboffkv/etcd_client.hpp:835-933 | where the fold commits, new tree and answers are the fold's |
| EtcdFailure.FailureAt | liboffkv/etcd_client.hpp:829-911 | each step's look-ups stand in the failure branch where the flattened walk expects them |
| EtcdFailure.BlameFailure | liboffkv/etcd_client.hpp:887-911 | the walk throws the least step its look-ups contradict; it runs off its end iff there is none |
| EtcdFailure.SomeStepIsBad | liboffkv/etcd_client.hpp:910 | a failed transaction has such a step, so the final error is unreachable |
| EtcdFailure.BlameIsFirstFailure | liboffkv/etcd_client.hpp:890-908 | the step blamed is the first whose compare failed iff it is not a check for version zero of a missing key |
| EtcdFailure.RefusedExactly | liboffkv/etcd_client.hpp:829-883 | of the transactions without overlap that the fold commits, exactly those are refused that check for version zero or create a key below one they create |
| EtcdFailure.ParentAndChildRefused | liboffkv/etcd_client.hpp:849-854 | creating a key and its child is refused with the child blamed, although the fold commits |
| EtcdClient.ExecuteMeans | liboffkv/etcd_client.hpp:885 | the service refuses, succeeds or fails a compiled transaction exactly according to the keys and the tree |
| EtcdClient.SuccessSound | liboffkv/etcd_client.hpp:819-934 | compile, run and assemble together: for every success the new tree and the answers, or an undefined read exactly if a set follows an erase; and exactly when this is the fold |
| EtcdClient.CreateExact | liboffkv/etcd_client.hpp:593-618 | `create` has the specified effect, binds exactly the given lease, touches no other entry, and tells the two errors apart |
| EtcdClient.CasExact | liboffkv/etcd_client.hpp:745-764 | `cas` with a version has the specified effect, leaves the lease identifier as it was and touches no other entry |
| EtcdClient.EraseExact | liboffkv/etcd_client.hpp:798-816 | `erase` removes the subtree iff the key is there with the version |
| EtcdClient.Client.AddOp | liboffkv/etcd_client.hpp:835-882 | one operation adds its compares, requests and look-ups to the builder, and takes a lease exactly if it needs one |
| EtcdClient.Client.Build | liboffkv/etcd_client.hpp:821-883 | the loops build the compiled transaction, the expected existences and both index lists |
| EtcdClient.Client.Commit | liboffkv/etcd_client.hpp:819-934 | the result and the new tree in every case: refused for overlap, failed with the step blamed, or succeeded; after a success every key created leased is bound to the lease the client keeps, other keys written to none; only names the steps reach change |
| EtcdClient.Client.CreateKey | liboffkv/etcd_client.hpp:593-618 | the specified new tree and reply, the key bound to the lease the client keeps or to none, and no other entry touched |
| EtcdClient.Client.CasKey | liboffkv/etcd_client.hpp:735-765 | the specified new tree and reply, version zero included; a write leaves the lease identifier as it was |
| EtcdClient.Client.EraseKey | liboffkv/etcd_client.hpp:798-816 | the specified new tree and reply, and no name changed but the key's and those in its subtree range |
| EtcdSet.AttemptIs | liboffkv/etcd_client.hpp:696-731 | a round that writes is the specified set, leaves the lease identifier of a present key as it was and gives a new one none; NoEntry only for a parent missing in that round; another round exactly when presence or lease was not as expected |
| EtcdSet.SetKey | liboffkv/etcd_client.hpp:691-732 | the loop alternates its expectation and ends at the first round that does not ask for another |
| EtcdSet.ExpectsAlternate | liboffkv/etcd_client.hpp:693-697 | the first round expects no lease, each further one the opposite of the one before |
| EtcdSet.AgainMeansInterference | liboffkv/etcd_client.hpp:693-728 | each further round needs the key to appear or vanish through others since the last |
| EtcdSet.QuietSetEnds | liboffkv/etcd_client.hpp:693-728 | undisturbed, two rounds are enough |
| EtcdWatch.GetChildren | liboffkv/etcd_client.hpp:655-673 | NoEntry iff the key is missing; otherwise exactly what unwrapping leaves of the names in the range: the strings of exactly the child keys, and if only keys have names there, no others and none twice |
| EtcdWatch.WatchedNames | liboffkv/etcd_client.hpp:668-673 | the names the watch remembers are those of the children |
| EtcdWatch.ChildrenWatchFires | liboffkv/etcd_client.hpp:680-685 | the condition first holds at the first event that changes the set of children |
| EtcdWatch.ExistsWatchFires | liboffkv/etcd_client.hpp:638-645 | the condition first holds at the first event that flips the key's existence |
| EtcdWatch.ProcessEvents | liboffkv/etcd_client.hpp:177-189 | for any handler, the loop stops at the first event for which its condition holds |
| WatchCreator.ETCDWatchCreator.WriteToWatchStream | liboffkv/etcd_client.hpp:199-209 | the fields after a write, and when it must wait |
| WatchCreator.ETCDWatchCreator.EnterCreateWatch | liboffkv/etcd_client.hpp:217-232 | the fields after a thread gets its turn |
| WatchCreator.ETCDWatchCreator.OnInit | liboffkv/etcd_client.hpp:134-139 | the step of the state machine for an initialised stream |
| WatchCreator.ETCDWatchCreator.OnWriteFinished | liboffkv/etcd_client.hpp:141-145 | the step for a finished write |
| WatchCreator.ETCDWatchCreator.OnCreated | liboffkv/etcd_client.hpp:147-163 | the step for a created response |
| WatchCreator.ETCDWatchCreator.ProcessWatchResponse | liboffkv/etcd_client.hpp:177-189 | which handler is resolved and forgotten, and whether the watch is cancelled |
| WatchCreator.ETCDWatchCreator.OnEvents | liboffkv/etcd_client.hpp:147-163 | the step for events, and whether the resolver has to wait |
| WatchCreator.StepKeeps | liboffkv/etcd_client.hpp:75-232 | every step of every thread keeps the invariant |
| WatchCreator.RunIsSafe | liboffkv/etcd_client.hpp:75-232 | in every state of every interleaving: no inconsistent-state error or null use, one write and one read at most, the current write set iff one is in flight, a created watch bound to its own handler exactly until it fires, no promise resolved twice, and a read in flight unless the resolver waits |
| WatchCreator.EventsMean | liboffkv/etcd_client.hpp:156-189 | in every reachable state: an event that satisfies a watch that has not fired resolves exactly its handler and forgets the watch, any other changes neither; a watch that has fired is cancelled, at once or once the current write is over; reading goes on unless the resolver waits |
| WatchCreator.FiringResolves | liboffkv/etcd_client.hpp:177-189 | in every run, after a firing event its handler's promise is resolved once, and no other is touched |
| WatchCreator.WaitingIsReachable | liboffkv/etcd_client.hpp:156-157 | the resolver can come to wait for a write |
| WatchCreator.WaitingIsForever | liboffkv/etcd_client.hpp:199-203 | from then on it waits for that same write in every later state |
| PingSender.PingSender.MoveFrom | liboffkv/ping_sender.hpp:68-72 | the block changes hands and the source is left empty |
| PingSender.PingSender.MoveAssign | liboffkv/ping_sender.hpp:76-82 | the block held before is closed once, the other's changes hands unclosed, self-assignment leaves the sender empty |
| PingSender.PingSender.Destroy | liboffkv/ping_sender.hpp:49 | the block held is closed once |
| PingSender.AssignAlone | liboffkv/ping_sender.hpp:34-82 | uninterrupted, the steps of an assignment amount to what the object's method says |
| PingSender.StepKeeps | liboffkv/ping_sender.hpp:10-91 | every step of every sender and thread keeps the invariant |
| PingSender.RunIsSafe | liboffkv/ping_sender.hpp:10-91 | in every interleaving: no use after delete, at most one holder and one close per block, deletion only after the closer released the lock |
| PingSender.NoLeak | liboffkv/ping_sender.hpp:10-91 | in every interleaving a block without a holder has been closed |
| PingSender.LookDecides | liboffkv/ping_sender.hpp:23-29 | from every reachable state: a look at a closed block ends the loop, one at an open block leads to the callback iff the wait has timed out |
| PingSender.NoPingAfterClose | liboffkv/ping_sender.hpp:57-62 | in every run: once a block is closed, no callback of its thread is started |
| PingSender.ThreadFinishes | liboffkv/ping_sender.hpp:57-62 | from every reachable state, the thread of a closed block can go on by its own steps, with one callback at most, until the block is deleted |
| PingSender.CloserFinishes | liboffkv/ping_sender.hpp:31-49 | from every reachable state, a close in progress can go on by its own steps until the block is closed and the sender gone or holding what it took over |
| PingSender.MoveMeans | liboffkv/ping_sender.hpp:68-72 | moving hands over exactly the block the source holds and touches nothing else |
| PingSender.CreateMeans | liboffkv/ping_sender.hpp:54-66 | a new sender alone holds a new open block whose thread starts by waiting |
| Backends.BackendIndependence | liboffkv/zk_client.hpp:305-334 | for every transaction and all stores of equal values: if all three compiled transactions go through, the three trees hold equal values |
| Backends.ConsulCall | liboffkv/consul_client.hpp:130-437 | every Consul call does to the tree what the specification says |
| Backends.ConsulRunClosed | liboffkv/consul_client.hpp:130-437 | from a closed tree, every Consul run stays closed |
| Backends.CommitKeepsClosed | liboffkv/etcd_client.hpp:835-885 | the blind effect of an accepted etcd transaction keeps the tree closed even where it is not the fold |
| Backends.EtcdRequestKeepsClosed | liboffkv/etcd_client.hpp:593-885 | every etcd request keeps the tree closed and the stored versions genuine |
| Backends.EtcdRunClosed | liboffkv/etcd_client.hpp:593-885 | from a closed tree, every etcd run stays closed |

## Left out

- Transport (gRPC, ppconsul, zkpp), connection set-up, TLS: replaced by the service stores described above.
- Connection loss and other service errors, and the translation of library exceptions into error classes.
- `exists` and `get`, and `get_children` on ZooKeeper: one read each, translated field by field.
- Consul and ZooKeeper watch handles, and the etcd `get` watch, which fires at any event: blocking queries and library futures.
- ConsulClient.Client.GetChildren: the answer to the prefix scan is a parameter, assumed to list each stored name below the prefix once and nothing else; names other programs store there are returned too, as the code does.
- EtcdWatch.GetChildren: the answer to the range request is a parameter, assumed to list what the range holds once each; a listed name that ends in a slash makes the source leave through std::out_of_range and is excluded.
- ZkCommit.CompiledSound: like the other ZooKeeper theorems, for a service that holds the client's prefix as a persistent node; ZkSingle.PrefixErased says what a create does without it.
- ZkCommit.Commit: the store and the scans of each round are parameters; termination is not claimed, since the loop need not terminate.
- ZkSingle.CreateKey: ZooKeeper paths are lists of names; building their strings is the concatenation proved in Keys.ConcatOfStrings. The ZooKeeper store is a value passed in and returned, not an object.
- EtcdSet.SetKey: the store of each round is a parameter; the store the last round leaves is in its result.
- EtcdClient.Client.Commit: an undefined read is reported as the outcome Undefined; what the process then does is not modelled.
- WatchCreator.RunIsSafe: runs up to the first failed completion; what the code does afterwards is not modelled, and neither is progress.
- PingSender.RunIsSafe: senders and threads are values of a state machine whose steps are the critical sections; the classes beside it show one thread at a time. Two operations on one sender at the same time are the caller's error and not considered, and the clean-up when a thread cannot be started is not modelled.
- Expiry of leases and sessions, their renewal and all durations: timing of outside services.
- Version numbers and counters are unbounded integers; overflow and narrowing are not modelled.
- `clib.cpp`, `clib.h`, `open` and URL splitting: marshalling and dispatch.
