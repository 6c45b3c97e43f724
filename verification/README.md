# Verification of the arity tries, arrays and bitmaps

A Dafny model of two linked parts of the repository, with proofs of what their documentation and
design promise. `dafny verify dfyconfig.toml` checks all of it.

**The path-compressed Merkle trie** (`crates/arity-tries`). A node is a partial path, an optional
value and a map from index to edge; an edge is inline, or sealed with a cached hash. `Tries.Trie`
runs insertion, removal, prefix removal, lookup and hashing as the loops they are, over an explicit
path of ancestors, against an edge store (`Stores.Store`) in which every `read` and `materialize`
may fail, by an arbitrary choice per call. The hash scheme is arbitrary too: only the trait's
contract on sibling sensitivity is assumed, and that rewriting a value twice over the same child
hashes is rewriting it once. The main results, in `History`:

- every operation, failed or not, is a step of a plain map from paths to values (`StepSimulates`),
  and it fails exactly when a store call does: every fallible method says how many calls it makes,
  counted on the trie before it alone, and that it gives up at the first that fails
  (`Stores.Calls`, `Stores.Store.Spent`), so what it replies is settled by the trie and the store's
  failures (`CallsSettled`, `SpentSettled`);
- after any run, hashing gives the root hash of a fresh build of the contents, however many stale,
  fresh and missing cached hashes the trie had (`RunHash`, `TwoRuns`), and a failed hash can be
  retried to the same end (`RetryHash`);
- calling the methods of `Tries.Trie` in any order makes such a run (`Sessions.Drive`), and over a
  store that fails no call every reply is determined by the map (`Sessions.DriveSurely`);
- hashing rewrites each value once, by the scheme's hook over the hashes then cached beneath its node,
  and leaves on each edge the scheme's hash of the child that is there (`Hashing.HashedTrie`,
  `Hashing.HashedContents`, `RewrittenValues`);
- a run may change its hasher by turning every edge inline, and each hash is that of the hasher
  then in force;
- path compression is canonical (`Canonical.SameContents`), insertion and both removals change
  exactly the keys they should on any trie, settled or not (`InsertedFind`, `RemovedFind`,
  `CutFind`), and a failed call only loses seals;
- every cached hash a mutation drops has been recorded by the store (`Accounted()` on every
  mutating method of `Trie`);
- the iterator yields exactly the entries at or after its start key in ascending order, and
  validation reports the first violation in pre-order.

**The sparse arrays and their bitmaps** (`crates/arity-arrays`, `crates/arity-bitmap`,
`crates/arity-index`). Words are sequences of bits, least significant first, of any power-of-two
width, so that nothing is settled by enumeration. `Gapped.GappedArray` keeps two bitmaps of equal
count and an element block with holes. The main results:

- every run of operations simulates a plain map (`GappedRuns.Run`) and keeps the representation
  invariant `Gapped.GappedArray.Valid`;
- insertion with spare capacity moves exactly the least number of elements that any layout of the
  same elements in the same number of slots could move (`Cheapest.FewestMoves`,
  `PlaceAbsent`), the hole it fills is settled (`Cheapest.OpenedAt`), and the respread arm of that
  choice is never taken;
- removal moves nothing (`Layouts.RemovalMovesNothing`), respreading is lossless, and a full block
  grows to exactly twice its capacity (`Spreading.FullDoubles`);
- the popcount-guided halving search, the masked nearest-clear searches and the bit tricks of the
  set-bit iterator meet their contracts at every width;
- the borrowing, all-slots and owning iterators of both sparse arrays hand out every entry once
  under any interleaving of front and back draws, and conversions and encodings lose nothing.

The two parts meet in the operation set of `crates/arity-tries/src/children.rs`: the trie model
uses a map from index to edge, and the contracts of `GappedArray` and `PackedArray` say that their
get, insert, remove, only-child and iteration operations are those of a map.

How a method is tied to its specification: the loops of `Tries.Trie` are proved equal to the
recursive functions `Insertion.Inserted`, `Removal.Removed` and `Removal.Cut`, and those are proved
to do what is promised of them; the walk of `HashWalk.Hash` is proved equal to
`Hashing.ScratchHash` and `Hashing.SealAll`, which consult no cached hash, and those are tied by
`Hashing.SealHashes` to what lookup finds in the result; the array methods are proved against a ghost
map and the layouts of `Layouts` and `Placement`, and the compact encoding against the bits of the
buffer (`Encoding.Spells`).

## Where the code and its documentation differ

- The documentation of the gapped `insert` says that without a hole between the neighbours the
  capacity grows or the block is respread. The code respreads only when it grows; with spare
  capacity it slides a run to the nearest hole. The model does what the code does.
- The code keeps a respread arm in `place_absent` as a fallback. `Gapped.PickSlide` shows that no
  input takes it.
- The hash walk materializes a sealed child that has inline children of its own. No operation
  produces one, so under the invariant the operations keep that branch is idle; the walk is proved
  for tries assembled by hand as well, through the `byHand` parameter of `Hashing.Sound`; without it
  `HashWalk.Hash` makes no `materialize` call.

## Model

| member | source | states |
|---|---|---|
| `History.StepSimulates` | crates/arity-tries/src/hash.rs:55-103 | every operation, failed ones included, is a step of a plain map, answers as that map does, and keeps the trie settled with a sound sealed-edge invariant for the hasher in force, for any hashers that meet the trait's contract |
| `Sessions.Perform` | crates/arity-tries/src/ops.rs:1-25 | one call of the trie's own methods is one step of a run and of the map and keeps the trie settled and sound for the hasher in force; the store calls it makes are counted on the trie before it alone, and it replies with an error exactly when one of those is to fail; no cached hash a mutation drops goes unrecorded, and hashing records nothing |
| `Sessions.Drive` | crates/arity-tries/src/ops.rs:1-25 | calling the trie's methods one after another over a store that fails as it likes makes a run; each operation makes the store calls its trie asks for and its reply is an error exactly when one of them fails; as long as none has failed, answers, contents and hasher are those of a deterministic map machine |
| `Sessions.DriveSurely` | crates/arity-tries/src/memory.rs:56-98 | over a store that fails no call every call succeeds: each reply and the final contents are those of the map machine, and each hash is the root hash of the contents, sensitive schemes included |
| `Sessions.SessionReplays` | crates/arity-tries/src/ops.rs:15-25 | when no scheme rewrites values, a session ends holding exactly what its successful mutations say |
| `Sessions.SureStep` | crates/arity-tries/src/ops.rs:15-25 | an operation that does not fail has one possible answer and one possible effect on the map |
| `Stores.Store.NoFailures` | crates/arity-tries/src/memory.rs:56-98 | over a store whose calls never fail the failure count stays zero, so no operation that fails only with the store can fail |
| `Stores.CallsSettled` | crates/arity-tries/src/ops.rs:172-177 | over calls given up at the first that fails, which calls are made and whether they fail is settled by which calls are to fail: an error is returned if and only if one of the calls the operation asks for is to fail |
| `Stores.Store.SpentSettled` | crates/arity-tries/src/hash.rs:221-230 | the same where reads and materializations alternate, as in hashing |
| `Nodes.DescentsPass` | crates/arity-tries/src/ops.rs:155-170 | a lookup follows one edge for each node found strictly within the key through a child the node has |
| `PreOrder.ListingSize` | crates/arity-tries/src/ops.rs:471-497 | the size that counts what materializing a subtree calls for is the number of nodes found in it |
| `Removal.RemovedJoins` | crates/arity-tries/src/ops.rs:293-327 | besides the descent, removal makes one store call if some node that stays comes to have a longer partial path, and none otherwise |
| `Removal.CutJoins` | crates/arity-tries/src/ops.rs:424-457 | besides the descent and what is taken out, prefix removal makes one store call if some node that stays comes to have a longer partial path, and none otherwise |
| `Removal.ReachedFirst` | crates/arity-tries/src/ops.rs:436-449 | the node a prefix removal takes out is found under the prefix and lies over every other node that is |
| `History.RunGood` | crates/arity-tries/src/node.rs:21-45 | every trie reachable by any run of insert, remove, remove_prefix, hash and changes of hasher under any failures is settled, and sound for the hasher then in force |
| `History.RunHash` | crates/arity-tries/src/hash.rs:231-274 | hashing after any run, changes of hasher included, returns the root hash, under the hasher then in force, of a freshly built trie with the same contents, and leaves its values as hashing that fresh build would |
| `History.RunReplays` | crates/arity-tries/src/ops.rs:15-25 | when values are never rewritten, every state of a run holds exactly what its successful mutations build; failed calls and hashing contribute nothing |
| `History.TwoRuns` | crates/arity-tries/src/hash.rs:207-230 | two runs that come to hold the same map hold the same trie up to seals, and under the same hasher return the same root hash and are the same trie, seals and rewritten values included, after it |
| `History.RetryHash` | crates/arity-tries/src/hash.rs:221-230 | after a failed hash any later hash does what it would have done first, so a retry that finishes gives the digest and the trie of an uninterrupted call |
| `History.HashOfContents` | crates/arity-tries/src/hash.rs:82-93 | the from-scratch hash and the fully sealed copy of a settled trie are functions of its contents, also when values are rewritten at hash time |
| `Soundness.InlineSound` | crates/arity-tries/src/hash.rs:3-14 | a trie with every edge inline satisfies the sealed-edge invariant under every scheme |
| `History.SwitchHasher` | crates/arity-tries/src/hash.rs:3-14 | from any settled trie, whatever schemes sealed its edges, materializing the whole of it keeps the contents, and hashing under a new scheme then gives that scheme's root hash of them |
| `Canonical.SameShape` | crates/arity-tries/src/node.rs:21-31 | two settled nodes that find the same keys are identical up to seals |
| `Canonical.SameContents` | crates/arity-tries/src/node.rs:21-31 | path compression is canonical: settled tries with equal contents maps are equal up to seals |
| `Canonical.SettledIsFresh` | crates/arity-tries/src/node.rs:21-31 | a settled trie has the shape of a trie built by inserting its contents in any order |
| `Canonical.FreshBuildHolds` | crates/arity-tries/src/ops.rs:178-235 | inserting every entry of a map into the empty trie, in an arbitrary order, stores exactly that map in a settled trie |
| `Insertion.InsertedFind` | crates/arity-tries/src/ops.rs:178-235 | on any trie, settled or not, insertion changes what is found at one key only, through all four split cases |
| `Insertion.InsertedSettled` | crates/arity-tries/src/ops.rs:178-235 | insertion takes settled tries to settled tries |
| `Insertion.InsertedContents` | crates/arity-tries/src/ops.rs:178-235 | the contents map after insertion is the old one updated at the key |
| `Removal.RemovedFind` | crates/arity-tries/src/ops.rs:359-390 | on any trie removal of a valued key deletes that key and no other, also when a chain of valueless ancestors leaves with it |
| `Removal.CutFind` | crates/arity-tries/src/ops.rs:424-457 | on any trie removing a prefix deletes exactly the keys that start with it, prefixes ending inside a partial path included |
| `Removal.NotReached` | crates/arity-tries/src/ops.rs:436-449 | when the descent meets no node for the prefix, no stored key starts with it |
| `Removal.RemovedSettled` | crates/arity-tries/src/ops.rs:293-327 | removal takes settled tries to settled tries |
| `Removal.CutSettled` | crates/arity-tries/src/ops.rs:293-327 | prefix removal takes settled tries to settled tries |
| `Removal.RemovedContents` | crates/arity-tries/src/ops.rs:359-390 | the contents map after removal is the old one without the key |
| `Removal.CutContents` | crates/arity-tries/src/ops.rs:424-457 | the contents map after prefix removal is the old one restricted to the keys outside the prefix |
| `Tries.Trie.GetNode` | crates/arity-tries/src/ops.rs:66-101 | the lookup loop finds the node whose full path is the key, or none; its value is the one the contents map gives the key. It makes one read for each edge followed, gives up at the first that fails, and fails only then |
| `Tries.Trie.Descend` | crates/arity-tries/src/ops.rs:155-170 | one descent step extends the path by an edge made inline; the store records that edge's cached hash exactly if it had one. It makes one store call and fails exactly when that does |
| `Tries.Trie.Insert` | crates/arity-tries/src/ops.rs:178-235 | success stores the value and returns the displaced one; failure only loses seals; every cached hash is still in the trie or recorded by the store. It materializes one edge for each descent lookup makes, gives up at the first failure, and fails only then |
| `Tries.Trie.Place` | crates/arity-tries/src/ops.rs:196-232 | the four split cases build the inserted node and return the displaced value |
| `Tries.Trie.DescendTo` | crates/arity-tries/src/ops.rs:238-264 | the descent ends on the node with the key's path, or shows there is none, having only unsealed edges on its way. It makes one store call for each edge followed, gives up at the first that fails, and fails only then |
| `Tries.Trie.DescendToPlace` | crates/arity-tries/src/ops.rs:178-235 | the descent of an insertion ends where inserting the rest of the key is inserting the key. It makes one store call for each edge followed, gives up at the first that fails, and fails only then |
| `Tries.Trie.DescendToPrefix` | crates/arity-tries/src/ops.rs:424-457 | the descent of a prefix removal ends at the node whose removal cuts the prefix, or shows that no key has it. It makes one store call for each edge followed, gives up at the first that fails, and fails only then |
| `Tries.Trie.RemoveFound` | crates/arity-tries/src/ops.rs:359-390 | taking the value out of the node found is the recursive removal, whatever its number of children. It makes a store call for a merge and for nothing else, and fails exactly when that does |
| `Tries.Trie.UnwindRemove` | crates/arity-tries/src/ops.rs:293-327 | the unwinding loop equals the recursive repair of every ancestor; its one fallible call precedes any structural change, so a failure puts the path back whole. The call is made for a merge and for nothing else |
| `Tries.Trie.MergeOnlyChild` | crates/arity-tries/src/ops.rs:267-278 | the merged node carries parent path, index and child path, the child's value and the child's children |
| `Tries.Trie.ClearAndMerge` | crates/arity-tries/src/ops.rs:395-410 | clearing the value of a single-child node materializes the child before anything changes. It fails exactly when a store call does |
| `Tries.Trie.Recover` | crates/arity-tries/src/ops.rs:332-346 | the removed value is found inside the detached chain without any store call |
| `Tries.Trie.Remove` | crates/arity-tries/src/ops.rs:359-390 | success removes the key and returns its value; an absent key or a failure only loses seals; no cached hash is lost unrecorded. It makes one store call for each descent and one for a merge, gives up at the first that fails, and fails only then |
| `Tries.Trie.MaterializeSubtree` | crates/arity-tries/src/ops.rs:471-497 | success leaves every edge beneath inline and the store has recorded exactly the lost hashes; a failure only loses seals. It makes one store call for each edge beneath, gives up at the first that fails, and fails only then |
| `Tries.Trie.RemovePrefix` | crates/arity-tries/src/ops.rs:424-457 | success cuts exactly the prefix; any failed call leaves the trie as it was up to seals, however much of the doomed subtree was already materialized. It makes one store call for each descent, each edge taken out, and a merge, gives up at the first that fails, and fails only then |
| `Tries.Trie.MaterializeAll` | crates/arity-tries/src/ops.rs:462-497 | success leaves every edge of the trie inline, so that it may be hashed under another scheme; either way only seals are lost and each is recorded. It makes one store call for each edge, gives up at the first that fails, and fails only then |
| `Tries.Trie.Hash` | crates/arity-tries/src/hash.rs:231-274 | the walk over the live trie leaves every value rewritten once and every edge carrying the scheme's hash of the child that is there, and returns the root's; or fails leaving a sound trie with the same sealed copy. Its store calls are counted on the trie alone, it gives up at the first that fails, and fails only then; without hand-sealed edges it materializes and records nothing, and under a scheme that is never sensitive it calls the store for nothing |
| `Stores.Store.Materialize` | crates/arity-tries/src/store.rs:75-91 | a failed call changes nothing and records nothing; a successful one turns the edge inline and records the hash it replaced |
| `Stores.Store.Read` | crates/arity-tries/src/store.rs:64-69 | reading resolves inline and sealed edges alike and changes neither edge nor record |
| `Frames.PlugUnseal` | crates/arity-tries/src/ops.rs:15-25 | unsealing edges at the end of the path of ancestors unseals edges of the whole trie and changes nothing else of it |
| `Accounting.PlugSeals` | crates/arity-tries/src/store.rs:77-86 | what a change at the end of a path does to the cached hashes is what it does to the whole trie's |
| `Accounting.UnsealSeals` | crates/arity-tries/src/ops.rs:155-170 | making the descended edge inline removes exactly its own cached hash from the trie |
| `Accounting.LastStepSeals` | crates/arity-tries/src/ops.rs:196-232 | none of the split cases drops a cached hash |
| `Hashing.SealIgnoresSeals` | crates/arity-tries/src/hash.rs:207-230 | the from-scratch hash consults no seal: tries of one shape have one fully sealed copy |
| `Hashing.SealHashes` | crates/arity-tries/src/hash.rs:303-329 | in the fully sealed copy the node at every key has its value rewritten once from its children's cached hashes, and each of its edges carries the scheme's hash of slot, path, value, sibling count and child hashes found there |
| `Hashing.SealHashesTrie` | crates/arity-tries/src/hash.rs:231-274 | the same for a whole trie, and the root hash is the scheme's hash of the root that is left |
| `Hashing.HashedContents` | crates/arity-tries/src/hash.rs:82-93 | hashing keeps the keys, and the new value of each is what the value hook makes of the old one, at its node, from the hashes then beneath it |
| `History.RewrittenValues` | crates/arity-tries/src/hash.rs:82-93 | the map after hashing has the same keys, each value rewritten once from the cached hashes of its node's children, and the root hash is that of the root left |
| `Hashing.SealTwice` | crates/arity-tries/src/hash.rs:303-329 | sealing a fully sealed trie changes nothing, because rewriting a value twice over the same child hashes is rewriting it once |
| `Hashing.SealKeepsShape` | crates/arity-tries/src/hash.rs:92-102 | with the default value hook a walk changes nothing but seals |
| `Hashing.SameForm` | crates/arity-tries/src/hash.rs:63-80 | all sibling counts above one give one hash |
| `Hashing.InsensitiveForm` | crates/arity-tries/src/hash.rs:63-80 | a child of an insensitive parent has one hash whatever its siblings |
| `Hashing.SameSealSameHash` | crates/arity-tries/src/hash.rs:127-139 | a node's hash is a function of its fully sealed copy alone |
| `Soundness.InsertedSound` | crates/arity-tries/src/node.rs:33-45 | insertion keeps the sealed-edge invariant, the forms of sealed siblings included |
| `Soundness.RemovedSound` | crates/arity-tries/src/node.rs:33-45 | removal keeps the sealed-edge invariant: merging moves only an edge that has been made inline |
| `Soundness.CutSound` | crates/arity-tries/src/node.rs:33-45 | prefix removal keeps the sealed-edge invariant |
| `Soundness.UnsealedSound` | crates/arity-tries/src/ops.rs:15-25 | losing seals along the way, as every failed call does, keeps the sealed-edge invariant |
| `Soundness.DoneSound` | crates/arity-tries/src/node.rs:33-45 | a fully sealed trie satisfies the sealed-edge invariant |
| `HashWalk.HashSealedIsScratch` | crates/arity-tries/src/hash.rs:354-380 | over a finished node the hash computed from cached child hashes is the from-scratch hash, for every sibling count |
| `HashWalk.PeersExact` | crates/arity-tries/src/hash.rs:173-179 | two or more sealed children of one parent need no rehash |
| `HashWalk.InsensitiveExact` | crates/arity-tries/src/hash.rs:173-179 | nor does a lone sealed child of an insensitive parent |
| `HashWalk.RehashExact` | crates/arity-tries/src/hash.rs:180-192 | the rehash of a lone sealed child gives the hash its current siblings demand |
| `HashWalk.UnhashableSound` | crates/arity-tries/src/hash.rs:197-202 | a sealed edge over inline children is one sealed by hand, so under the invariant the operations keep none is ever materialized by the walk |
| `HashWalk.RehashLone` | crates/arity-tries/src/hash.rs:173-203 | the lone sealed child of a sensitive parent ends up exact or pending. It reads that child, materializes it exactly if it was sealed by hand, and fails exactly when one of these calls does |
| `HashWalk.Scan` | crates/arity-tries/src/hash.rs:158-172 | the one scan finds the inline children, the number of sealed ones, and the sealed one when it is alone |
| `HashWalk.Prepare` | crates/arity-tries/src/hash.rs:145-205 | after preparation every child is pending and inline, or sealed with exactly the hash its parent needs; the pending ones are the inline ones and one sealed by hand. It fails exactly when a store call does; an insensitive parent makes none, and only an edge sealed by hand is materialized |
| `HashWalk.FinishNode` | crates/arity-tries/src/hash.rs:303-329 | a node whose children are all exact has its value, if it has one, rewritten from their cached hashes and nothing else changed; the digest is the scheme's hash of the node so left; this is its fully sealed copy and its from-scratch hash |
| `HashWalk.PushPendingChild` | crates/arity-tries/src/hash.rs:278-299 | pushing a prepared child keeps the walk standing for the same trie; a failure leaves the walk where it was. It fails exactly when a store call does |
| `HashWalk.Pop` | crates/arity-tries/src/hash.rs:332-344 | sealing a finished child in its parent keeps the walk standing for the same trie |
| `HashWalk.WalkingSound` | crates/arity-tries/src/hash.rs:221-230 | at every point of the walk the whole trie satisfies the sealed-edge invariant |
| `HashWalk.Hash` | crates/arity-tries/src/hash.rs:231-274 | the post-order loop rewrites every value once, seals every edge with the hash of the child that is there, and returns the from-scratch hash of the trie it began with, whatever mixture of seals it met, hand-sealed edges included, and terminates. It reads once for each node entered that has a lone sealed child under a sensitive scheme, materializes only what was sealed by hand, gives up at the first call that fails, and fails only then |
| `HashWalk.SoundUnseals` | crates/arity-tries/src/hash.rs:197-202 | on a trie with no edge sealed by hand the count of materializations is zero |
| `HashWalk.NeverCosts` | crates/arity-tries/src/hash.rs:63-80 | under a scheme that is never sensitive both counts are zero |
| `PreOrder.ListingAscends` | crates/arity-tries/src/iter.rs:1-30 | pre-order lists full paths in strictly ascending lexicographic order |
| `PreOrder.ListingFinds` | crates/arity-tries/src/iter.rs:1-30 | the pre-order listing holds a node at a path exactly when lookup finds it there |
| `Iteration.Walk.Enter` | crates/arity-tries/src/iter.rs:143-171 | entering a child takes exactly that child's visit off the front of what is still to come; the buffer is its full path; it makes one read and fails exactly when that does |
| `Iteration.Walk.Step` | crates/arity-tries/src/iter.rs:143-171 | each step takes the front visit off the pre-order of what is still to come with one read, or shows nothing is left with none; it fails exactly when the read does |
| `Iteration.Walk.PruneTop` | crates/arity-tries/src/iter.rs:195-201 | the children dropped from the top node lie wholly before the start key |
| `Iteration.Walk.Seek` | crates/arity-tries/src/iter.rs:180-223 | seeking leaves exactly the visits at or after the start key and returns the first; it reads one node for each descent towards the key and one more if it has to step on, gives up at the first read that fails, and fails only then |
| `Iteration.Walk.Advance` | crates/arity-tries/src/iter.rs:92-135 | successive calls yield exactly the visits from the start key on, in order, each making a count of reads settled by the trie and the start key; a call fails exactly when one of them does, and then the walk has ended |
| `Iteration.Iter.Next` | crates/arity-tries/src/iter.rs:268-281 | each call takes the front pair off the valued visits to come, and reads no further; an error is yielded exactly when one of those reads fails, and ends the iteration |
| `Iteration.VisitEach` | crates/arity-tries/src/iter.rs:335-354 | the callback sees exactly the valued visits in order up to the first it stops at, nothing is read beyond that, and the result says whether it stopped; it fails exactly when one of the reads does |
| `Iteration.UntilMeans` | crates/arity-tries/src/iter.rs:322-334 | the visits shown are the first valued ones of the iteration; the callback stops at none of them but the last, and if it stops at none at all every pair is shown |
| `Iteration.ThroughFirst` | crates/arity-tries/src/iter.rs:335-354 | the count of visits made is up to and including the first the caller stops at |
| `Iteration.IterationIsContents` | crates/arity-tries/src/iter.rs:225-247 | iteration from any start key yields exactly the stored entries at or after it, strictly ascending, so each once |
| `Iteration.FromStart` | crates/arity-tries/src/iter.rs:60-81 | starting from the empty path leaves nothing out |
| `Validation.Validate` | crates/arity-tries/src/validate.rs:128-157 | a verdict is clean exactly on settled tries; otherwise the node at the path named has no value and no child, or one child, as the kind says, and every node before it has a value or two children; nothing is read beyond that node, and a store failure is reported exactly when a read fails |
| `Validation.VerdictMeans` | crates/arity-tries/src/validate.rs:140-157 | a violation, in terms of lookup: what is found at its path, of which kind, and that nothing before it in path order is at fault |
| `Validation.ListingSettled` | crates/arity-tries/src/validate.rs:116-127 | a trie is settled exactly when no node of its listing breaks the invariant |
| `Paths.SharedIsLongest` | crates/arity-tries/src/path.rs:164-171 | the split is at the longest common prefix |
| `Paths.LessTransitive` | crates/arity-tries/src/path.rs:107-112 | the path order is transitive |
| `Paths.LessTotal` | crates/arity-tries/src/path.rs:107-112 | the path order is total and strict: exactly one of before, equal, after |
| `Paths.PrefixLess` | crates/arity-tries/src/iter.rs:1-30 | a path sorts before all that extend it |
| `Paths.SiblingsLess` | crates/arity-tries/src/path.rs:107-112 | everything beneath one child sorts before everything beneath a later sibling |
| `Teardown.DropSubtree` | crates/arity-tries/src/node.rs:179-195 | the worklist takes apart, exactly once each, the nodes reachable through edges that yield their node, and none behind an edge that does not |
| `Teardown.OwnedNodes` | crates/arity-tries/src/node.rs:179-195 | what goes with a node is what lookup finds at the paths whose every edge yields its node, each once |
| `Bitmaps.RawSelect` | crates/arity-bitmap/src/native.rs:109-134 | for every power-of-two width the halving loop returns the position of the n-th set bit, and none from the popcount on |
| `Bitmaps.Pos` | crates/arity-bitmap/src/lib.rs:219-239 | the position of a rank is a set bit with that rank |
| `Bitmaps.PosRank` | crates/arity-bitmap/src/lib.rs:219-239 | selecting the rank of a set bit gives the bit back |
| `Bitmaps.PosAscends` | crates/arity-bitmap/src/lib.rs:219-239 | positions ascend with ranks by at least the difference of the ranks |
| `Bitmaps.RankUpdate` | crates/arity-bitmap/src/lib.rs:205-217 | what setting or clearing one bit does to every rank |
| `Bitmaps.RankOf` | crates/arity-bitmap/src/native.rs:207-210 | masking and counting gives the number of set bits below the index |
| `Bitmaps.ClearLowest` | crates/arity-bitmap/src/native.rs:95-97 | and-ing with the predecessor clears exactly the lowest set bit and leaves a zero word alone |
| `Bitmaps.ClearHighest` | crates/arity-bitmap/src/native.rs:100-106 | masking out the highest set bit clears exactly that bit and leaves a zero word alone |
| `Bitmaps.DecrementLowest` | crates/arity-bitmap/src/native.rs:95-97 | the borrow of a decrement stops at the lowest set bit |
| `Bitmaps.LowMask` | crates/arity-bitmap/src/native.rs:137-147 | the low mask is right also at the full width, where the shift would overflow |
| `Bitmaps.NearestClearAtOrBelow` | crates/arity-bitmap/src/lib.rs:139-148 | the greatest clear bit at or below the start, and none exactly when all are set |
| `Bitmaps.NearestClearIn` | crates/arity-bitmap/src/lib.rs:150-158 | the least clear bit of the range, and none exactly when all are set |
| `Bitmaps.RawNearestClearAtOrBelow` | crates/arity-bitmap/src/native.rs:137-153 | the masked word finds the true nearest clear bit below |
| `Bitmaps.RawNearestClearIn` | crates/arity-bitmap/src/native.rs:156-178 | the masked word finds the true nearest clear bit of the range |
| `Cursors.PositionsClearLowest` | crates/arity-bitmap/src/iter.rs:31-39 | clearing the lowest bit takes the first position out and keeps the others in order |
| `Cursors.PositionsClearHighest` | crates/arity-bitmap/src/iter.rs:71-78 | clearing the highest bit takes the last position out and keeps the others in order |
| `Cursors.BitIter.Next` | crates/arity-bitmap/src/iter.rs:31-39 | a front draw takes the first pending position; positions pending are drawn once each |
| `Cursors.BitIter.NextBack` | crates/arity-bitmap/src/iter.rs:71-78 | a back draw takes the last pending position |
| `Cursors.BitIter.Fold` | crates/arity-bitmap/src/iter.rs:52-66 | the fold loop equals reading the pending positions left to right |
| `Cursors.BitIter.FoldBack` | crates/arity-bitmap/src/iter.rs:83-97 | the reverse fold loop equals reading them right to left |
| `Cursors.FoldLeftSnoc` | crates/arity-bitmap/src/iter.rs:52-66 | a left fold starts from the initial value and applies the function to the elements in order |
| `Cursors.FoldRightReversed` | crates/arity-bitmap/src/iter.rs:83-97 | a right fold is the left fold of the elements in reverse |
| `Cursors.BitIter.Len` | crates/arity-bitmap/src/iter.rs:102-104 | the popcount is the number of positions still to be drawn |
| `Cursors.RangeInclusive.Next` | crates/arity-index/src/range.rs:128-140 | a front draw takes the first index of the closed range, without stepping past the last index of the domain |
| `Cursors.RangeInclusive.NextBack` | crates/arity-index/src/range.rs:149-161 | a back draw takes the last index of the closed range, without stepping below zero |
| `Cursors.DropLive` | crates/arity-arrays/src/gapped.rs:1119-1147 | the drop loop drops the element of each live slot exactly once, in slot order, and leaves every slot empty |
| `Layouts.SlotHolds` | crates/arity-arrays/src/gapped.rs:127-133 | the slot at select(live, rank(occupancy, i)) holds the element of i |
| `Layouts.RemovalMovesNothing` | crates/arity-arrays/src/gapped.rs:419-444 | after a removal the rank of every other present index selects, in the shrunken bitmaps, the slot it had before |
| `Layouts.FilledHolds` | crates/arity-arrays/src/gapped.rs:883-898 | writing a new element into a hole of its rank stores it and keeps all others |
| `Layouts.EmptiedHolds` | crates/arity-arrays/src/gapped.rs:419-444 | clearing one present slot and its index removes that index and keeps all others |
| `Placement.SlideDownMoves` | crates/arity-arrays/src/gapped.rs:787-813 | sliding the run above a hole down and writing behind it stores the new element and moves exactly the run |
| `Placement.SlideUpMoves` | crates/arity-arrays/src/gapped.rs:822-842 | sliding the run below a hole up and writing before it stores the new element and moves exactly the run |
| `Placement.Neighbors` | crates/arity-arrays/src/gapped.rs:849-875 | the neighbour slots bracket the index's rank and nothing between them is live |
| `Cheapest.SpareCapacity` | crates/arity-arrays/src/gapped.rs:726-735 | with spare capacity some hole exists and the cheapest way to open a slot moves no more elements than are stored |
| `Cheapest.NearestHoleLeft` | crates/arity-arrays/src/gapped.rs:760-765 | the hole found is the nearest at or below and the run between is full; none means no hole |
| `Cheapest.NearestHoleRight` | crates/arity-arrays/src/gapped.rs:774-777 | the hole found is the nearest at or above and the run between is full; none means no hole |
| `Cheapest.FewestMoves` | crates/arity-arrays/src/gapped.rs:709-752 | no layout of the old elements and the new one in the same number of slots moves fewer elements than the insertion's cost |
| `Cheapest.NothingCheaper` | crates/arity-arrays/src/gapped.rs:709-752 | a placement that moves as many elements as its cost moves no more than any other layout would |
| `Spreading.Pow2CapFor` | crates/arity-arrays/src/gapped.rs:179-187 | the capacity for n elements is none for none, and otherwise a power of two that holds them, capped at the arity |
| `Spreading.CapIsLeast` | crates/arity-arrays/src/gapped.rs:174-187 | no smaller power of two holds the elements |
| `Spreading.FullDoubles` | crates/arity-arrays/src/gapped.rs:692-699 | a full block below the arity grows to exactly twice its capacity and never past the arity |
| `Spreading.SpreadAscends` | crates/arity-arrays/src/gapped.rs:200-206 | spread positions are strictly increasing in the rank |
| `Spreading.SpreadBelow` | crates/arity-arrays/src/gapped.rs:200-206 | every spread position is below the capacity |
| `Spreading.SpreadLive` | crates/arity-arrays/src/gapped.rs:529-534 | the rebuilt live bitmap has exactly as many bits as elements, and for each rank r the r-th bit p is the one with p * count <= r * cap < (p + 1) * count |
| `Respreading.Refill` | crates/arity-arrays/src/gapped.rs:553-561 | zipping the two bitmaps moves the r-th element to the r-th new slot and fills no other slot |
| `Respreading.RefillWith` | crates/arity-arrays/src/gapped.rs:610-640 | the inserted rank takes the new value and every other rank the next old element |
| `Respreading.RespreadHolds` | crates/arity-arrays/src/gapped.rs:510-571 | refilling rank by rank keeps the map |
| `Respreading.InsertedHolds` | crates/arity-arrays/src/gapped.rs:573-649 | refilling with the new element at its rank stores it and keeps the rest |
| `Gapped.GappedArray.Get` | crates/arity-arrays/src/gapped.rs:333-350 | lookup agrees with the plain map |
| `Gapped.GappedArray.Insert` | crates/arity-arrays/src/gapped.rs:665-703 | insertion is a map update and returns the displaced value; it overwrites in place, doubles a full block with each rank in the last slot at or below its proportional place, and otherwise opens the nearest hole, the lower on a tie, at the least cost and without reallocating |
| `Gapped.GappedArray.PlaceAbsent` | crates/arity-arrays/src/gapped.rs:709-752 | with spare capacity the new element is placed without reallocating and at exactly the least cost, filling the lowest hole between the neighbours, else the nearest one, the lower on a tie; the respread arm is never taken |
| `Cheapest.LayoutSettled` | crates/arity-arrays/src/gapped.rs:82-105 | a block's layout is settled by its two bitmaps and the map it stores |
| `Gapped.PickSlide` | crates/arity-arrays/src/gapped.rs:730-751 | the slide picked leads to the nearest hole, the left one on a tie, and the respread arm cannot be reached |
| `Gapped.NeighborBounds` | crates/arity-arrays/src/gapped.rs:849-875 | the bounds are the slots of the elements at the ranks before and at the index, with sentinels past either end |
| `Gapped.GappedArray.ShiftLeftAndWrite` | crates/arity-arrays/src/gapped.rs:787-813 | the overlapping copy and the write give exactly the slid layout, moving as many elements as the run is long |
| `Gapped.GappedArray.ShiftRightAndWrite` | crates/arity-arrays/src/gapped.rs:822-842 | the overlapping copy and the write give exactly the slid layout, moving as many elements as the run is long |
| `Gapped.GappedArray.WriteIntoHole` | crates/arity-arrays/src/gapped.rs:883-898 | filling a hole of the right rank stores the element and moves none |
| `Gapped.GappedArray.Remove` | crates/arity-arrays/src/gapped.rs:419-444 | removal deletes one index, returns its element, reallocates nothing and moves nothing |
| `Gapped.GappedArray.TakeOnlyChild` | crates/arity-arrays/src/gapped.rs:397-404 | exactly when one element is present it is returned with its index and the array is left empty |
| `Gapped.GappedArray.RebuildTo` | crates/arity-arrays/src/gapped.rs:518-571 | the rebuilt block holds the same map in exactly the new capacity, evenly spread: each rank in the last slot at or below its proportional place |
| `Gapped.GappedArray.RebuildWithInsert` | crates/arity-arrays/src/gapped.rs:585-649 | the rebuilt block holds the map with the new element in exactly the new capacity, evenly spread: each rank in the last slot at or below its proportional place |
| `Gapped.GappedArray.Reserve` | crates/arity-arrays/src/gapped.rs:928-938 | the capacity becomes the larger of the old one and the one for count plus n, saturation included; a growth spreads the elements evenly, anything else leaves the array untouched, and the contents stay |
| `Gapped.GappedArray.ShrinkToFit` | crates/arity-arrays/src/gapped.rs:942-953 | the capacity becomes the least power of two that holds the elements, none when there are none; a shrink spreads the elements evenly, and the contents stay |
| `Gapped.GappedArray.Clear` | crates/arity-arrays/src/gapped.rs:957-974 | the array is empty, the block is kept, and every element has been dropped exactly once |
| `Gapped.GappedArray.WithCapacity` | crates/arity-arrays/src/gapped.rs:909-919 | the empty array has the capacity for n elements |
| `Gapped.CountIsSize` | crates/arity-arrays/src/gapped.rs:95-105 | the popcounts of both bitmaps are the number of entries |
| `GappedRuns.Run` | crates/arity-arrays/src/gapped.rs:127-133 | every run of put, take, look, reserve, shrink and clear answers as a plain map does and ends holding what it holds |
| `GappedRuns.CapacityBounds` | crates/arity-arrays/src/gapped.rs:92-105 | in every valid state the capacity is a power of two between the count and the arity |
| `Draining.ListingIsMap` | crates/arity-arrays/src/gapped.rs:1366-1375 | the listing an iterator drains names every key once, strictly ascending, with its own value |
| `Interleaving.DrawsSplit` | crates/arity-bitmap/src/iter.rs:8-31 | for any order of ends, the front draws, what is left, and the back draws reversed are the sequence: nothing is drawn twice or missed, and as many are drawn from each end as asked for |
| `Draining.DrawsOfListing` | crates/arity-arrays/src/gapped.rs:1546-1556 | for any order of ends the indices drawn from the front ascend, those drawn from the back descend, and after as many draws as entries everything has been drawn |
| `Draining.PresentIter.DrawEach` | crates/arity-arrays/src/gapped.rs:1402-1451 | any list of front and back draws takes what drawing from the two ends of the listing takes |
| `Draining.IntoIter.DrawEach` | crates/arity-arrays/src/gapped.rs:1736-1776 | any list of front and back draws moves out what drawing from the two ends of the listing takes |
| `Draining.AllIter.DrawEach` | crates/arity-arrays/src/gapped.rs:1578-1609 | any list of front and back draws yields what drawing from the two ends of all indices yields |
| `Draining.PresentIter.Next` | crates/arity-arrays/src/gapped.rs:1404-1416 | a front draw takes the first pending pair, and the two bitmaps stay in step |
| `Draining.PresentIter.NextBack` | crates/arity-arrays/src/gapped.rs:1446-1451 | a back draw takes the last pending pair, under any interleaving with front draws |
| `Draining.IntoIter.Next` | crates/arity-arrays/src/gapped.rs:1739-1753 | a front draw moves the first pending pair out; the slots recorded as live are exactly those that still hold an element |
| `Draining.IntoIter.NextBack` | crates/arity-arrays/src/gapped.rs:1761-1775 | a back draw moves the last pending pair out; the slots recorded as live are exactly those that still hold an element |
| `Draining.IntoIter.Drop` | crates/arity-arrays/src/gapped.rs:1786-1816 | dropping the iterator at any point drops exactly the elements not drawn, each once |
| `Draining.AllIter.Next` | crates/arity-arrays/src/gapped.rs:1580-1591 | a front draw takes the next index of the arity with its own element if it is present |
| `Draining.AllIter.NextBack` | crates/arity-arrays/src/gapped.rs:1598-1609 | a back draw takes the last index not drawn with its own element if it is present |
| `Packed.DenseInsert` | crates/arity-arrays/src/packed.rs:390-455 | inserting an index splices one element in at its rank and keeps the order of the rest |
| `Packed.DenseRemove` | crates/arity-arrays/src/packed.rs:479-539 | removing an index splices one element out at its rank and keeps the order of the rest |
| `Packed.PackedArray.Get` | crates/arity-arrays/src/packed.rs:230-242 | lookup agrees with the plain map |
| `Packed.PackedArray.Insert` | crates/arity-arrays/src/packed.rs:390-455 | insertion is a map update and returns the displaced value; the block stays exactly as large as the count |
| `Packed.PackedArray.Remove` | crates/arity-arrays/src/packed.rs:479-539 | removal deletes one index and returns its element; the block stays exactly as large as the count and goes with the last element |
| `Packed.PackedArray.TakeOnlyChild` | crates/arity-arrays/src/packed.rs:466-473 | exactly when one element is present it is returned with its index and the array is left empty |
| `PackedDraining.PackedIter.Next` | crates/arity-arrays/src/packed.rs:802-809 | the front rank counter names the element of the first pending index |
| `PackedDraining.PackedIter.NextBack` | crates/arity-arrays/src/packed.rs:821-828 | the back counter names the element of the last pending index, under any interleaving |
| `PackedDraining.PackedAll.Next` | crates/arity-arrays/src/packed.rs:890-901 | crossing an index from the front yields its own element if it is present, without a rank query |
| `PackedDraining.PackedAll.NextBack` | crates/arity-arrays/src/packed.rs:908-920 | crossing an index from the back yields its own element if it is present, without a rank query |
| `PackedDraining.PackedInto.Next` | crates/arity-arrays/src/packed.rs:1117-1130 | the elements not yet moved out are exactly the stretch between the two counters, and the front one belongs to the first pending index |
| `PackedDraining.PackedInto.NextBack` | crates/arity-arrays/src/packed.rs:1138-1150 | the same from the back |
| `PackedDraining.PackedInto.Drop` | crates/arity-arrays/src/packed.rs:1161-1200 | dropping the iterator at any point drops exactly the elements not drawn, each once |
| `PackedDraining.PackedIter.DrawEach` | crates/arity-arrays/src/packed.rs:800-829 | any list of front and back draws takes what drawing from the two ends of the listing takes |
| `PackedDraining.PackedInto.DrawEach` | crates/arity-arrays/src/packed.rs:1114-1151 | any list of front and back draws moves out what drawing from the two ends of the listing takes |
| `PackedDraining.PackedAll.DrawEach` | crates/arity-arrays/src/packed.rs:888-921 | any list of front and back draws yields what drawing from the two ends of all indices yields |
| `Conversions.GappedFromFixed` | crates/arity-arrays/src/gapped.rs:1066-1106 | the gapped array holds the fixed array's map in the least fitting capacity, evenly spread: each rank in the last slot at or below its proportional place |
| `Conversions.FixedFromGapped` | crates/arity-arrays/src/gapped.rs:1293-1316 | every present element lands in the slot of its index and all other slots are empty |
| `Conversions.PackedFromFixed` | crates/arity-arrays/src/packed.rs:615-648 | the packed array holds the fixed array's map |
| `Conversions.FixedFromPacked` | crates/arity-arrays/src/packed.rs:693-717 | every present element lands in the slot of its index and all other slots are empty |
| `Conversions.GappedFromPacked` | crates/arity-arrays/src/gapped.rs:1333-1338 | the chain through the fixed form preserves the map, in the least fitting capacity, evenly spread |
| `Conversions.PackedFromGapped` | crates/arity-arrays/src/gapped.rs:1353-1356 | the chain through the fixed form preserves the map |
| `Conversions.FixedRoundTrips` | crates/arity-arrays/src/gapped.rs:1060-1064 | a map and its fixed array determine each other |
| `Encoding.EqualityIsLogical` | crates/arity-arrays/src/macros.rs:75-84 | comparing bitmaps and values in order decides equality of the maps, whatever the capacities and holes |
| `Encoding.BytesRoundTrip` | crates/arity-bitmap/src/native.rs:220-227 | reading back the little-endian bytes of a bitmap gives the bitmap |
| `Encoding.TryFromBytes` | crates/arity-bitmap/src/lib.rs:285-292 | exactly the buffers of the bitmap's length decode, and bit i of the word is bit i % 8 of byte i / 8 |
| `Encoding.DecodeCompact` | crates/arity-arrays/src/macros.rs:182-198 | the compact decoder's fixed form: wrong length, then a count of set bits that is not the number of values, are the errors; else index i is a member exactly if bit i % 8 of byte i / 8 is set, with the value that stands by the number of smaller members |
| `Encoding.CompactRoundTrip` | crates/arity-arrays/src/macros.rs:168-199 | the compact form of a map decodes to the map's fixed form |
| `Encoding.SpellsOnce` | crates/arity-arrays/src/macros.rs:168-199 | a map has one compact form and a compact form has one map, so encoding what was decoded gives the input back |
| `Encoding.CompactInverts` | crates/arity-arrays/src/macros.rs:168-199 | the only verdict on the compact form of a map is that map |
| `Encoding.DecodePairs` | crates/arity-arrays/src/macros.rs:247-265 | the pair decoder's fixed form: it accepts exactly the strictly ascending sequences and yields their map |
| `Encoding.PairsDecoded` | crates/arity-arrays/src/macros.rs:213-265 | the pair form of a map decodes to the map's fixed form |
| `Encoding.PairsRoundTrip` | crates/arity-arrays/src/macros.rs:213-265 | re-encoding what the pair decoder accepted gives the sequence back |
| `Encoding.CompactOfGapped` | crates/arity-arrays/src/macros.rs:168-180 | bit i % 8 of byte i / 8 says whether i is a member, and the values stand in index order |
| `Encoding.CompactOfPacked` | crates/arity-arrays/src/macros.rs:168-180 | bit i % 8 of byte i / 8 says whether i is a member, and the values stand in index order |
| `Encoding.PairsOfGapped` | crates/arity-arrays/src/macros.rs:203-217 | the pair form written for a gapped array lists its entries, ascending |
| `Encoding.PairsOfPacked` | crates/arity-arrays/src/macros.rs:203-217 | the pair form written for a packed array lists its entries, ascending |
| `Encoding.GappedFromCompact` | crates/arity-arrays/src/macros.rs:182-198 | the compact decoder builds a gapped array whose members are the bits set in the buffer, with the values in index order, or names the error, which depends on length and popcount alone |
| `Encoding.PackedFromCompact` | crates/arity-arrays/src/macros.rs:182-198 | the compact decoder builds a packed array whose members are the bits set in the buffer, with the values in index order, or names the error, which depends on length and popcount alone |
| `Encoding.GappedFromPairs` | crates/arity-arrays/src/macros.rs:244-266 | the pair decoder builds a gapped array of the pairs' map exactly when the indices strictly ascend |
| `Encoding.PackedFromPairs` | crates/arity-arrays/src/macros.rs:244-266 | the pair decoder builds a packed array of the pairs' map exactly when the indices strictly ascend |
| `Encoding.GappedRoundTrip` | crates/arity-arrays/src/macros.rs:168-266 | a gapped array encoded and decoded in either form is an array with the same map |
| `Encoding.PackedRoundTrip` | crates/arity-arrays/src/macros.rs:168-266 | a packed array encoded and decoded in either form is an array with the same map |

## Left out

- Raw pointers in the trie: the path of ancestors is a zipper, a sequence of nodes with the index
  each was left by, and nodes are values. Update in place through `&mut`, the pointer discipline of
  `frames.rs`, the handle chain of `chain.rs` and the order in which handles are released are not
  captured.
- The trie's index type is any natural number, so the arity does not bound a node's fanout.
- The trie's children map is a mathematical map rather than one of the arrays; `ChildMap` is met by
  the array contracts, not by a shared type.
- Concrete stores: `InMemory` is the store that never fails, and stores on disk are covered only as
  far as the `EdgeStore` contract goes. Store errors carry no payload.
- Concrete hash functions and collision resistance: a scheme is an arbitrary function.
- `get` (a lookup that clones), `materialize_child`, and the `Debug`, `Display`, `Hash` and
  conversion impls of paths and nodes; `key.rs`.
- `u256.rs`: the same contract as the native words at one more width; the model is proved once for
  every power-of-two width, as one word rather than two limbs.
- Raw memory in the arrays: allocation, layouts, `ManuallyDrop` and pointer offsets. A slot is an
  optional value, so reading an uninitialised one is what the proofs exclude. Capacity is the
  length of the block rather than a stored exponent, and the overlapping copies are parallel
  assignments.
- Panics: unwinding, the drop guards, and capacity overflow near `isize::MAX`.
- Mutable iterators, `get_mut`, `Index`, `Clone`, `Extend`, `FromIterator`, `fold` on the arrays'
  own iterators, and the conversions by reference, which clone what the owning ones move.
- The serde framework and real wire formats: the encodings are bytes with values, and pairs.
- Heap usage and running time.
- `niche.rs`, the half-open index range, benches, fuzzing harnesses and the `xtask` tools.
