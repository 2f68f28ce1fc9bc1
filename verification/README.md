# Keystore operation registry and vold disk classification, in Dafny

This project models two small pieces of Android's system security code and
proves properties about them.

**Keystore `OperationMap`** (`keystore/operation.h`). Keystore hands each
application an opaque binder token for every keymaster operation the
application has in flight. The registry holds three collections, modelled as
one immutable value `Operations.OperationMap`:

- the map from token to operation;
- an LRU list of the operations that may be pruned when keymaster runs out of
  operation slots, oldest first;
- an index from each client binder to the tokens of its operations, so that
  a dying client's operations can be found.

Every call is a pure function from the old registry to a result and the new
registry. The predicate `Operations.Valid` ties the three collections
together:

- the LRU lists distinct live tokens;
- every client list is non-empty, distinct, and holds live operations of that
  client;
- every live operation is listed under its client;
- every live token was allocated.

Allocating a fresh binder token is modelled by a counter that only grows.
`OperationHistory` gives the LRU an independent meaning: it replays any
sequence of calls with a clock and last-use stamps. It proves that the LRU
always lists the live pruneable operations by last use, so the oldest
pruneable operation is the least recently used one.

**vold `DiskSource` and `mkdirs`** (`VolumeManager.h`). A `DiskSource` is an
immutable rule `(pattern, nickname, flags)`. It classifies block devices whose
sysfs path matches the pattern under `fnmatch(pattern, path, 0)`. `FnMatch`
models that matcher following IEEE Std 1003.1-2017 (`fnmatch()`, and the
pattern notation of XCU sections 2.13.1 and 2.13.2) with flags 0:

- `*`, `?`, bracket expressions with ranges and `!` or `^` negation, and backslash escapes;
- `*` and `?` match `/` and a leading `.`.

`GlobSemantics` reads a pattern as atoms with a declarative language. It
proves that the matcher decides exactly that language. `DiskSources.CString`
models `c_str()`: C sees the text only up to the first NUL.

`mkdirs` ensures that every directory along a path exists. It is modelled by
three pieces:

- `Mkdirs.Plan` validates the path and lists the directories to ensure, from
  the root down.
- The path must be absolute and free of `.` and `..` segments, and it must lie
  on a managed volume. Managed volumes are a set of root paths.
- `Mkdirs.Ensure` applies the plan to a set of existing directories.

`Paths` supplies splitting on `/` and joining back, with their round-trip
lemmas.

## Model

| member | source | states |
|---|---|---|
| Operations.Create | keystore/operation.h:63 | a new registry is valid, holds no operations and has nothing to prune |
| Operations.AddOperation | keystore/operation.h:64-66 | the returned token is fresh, and the registry stays valid. The map grows by exactly the new operation, with no auth token; older operations are unchanged and the count rises by one. The token joins the back of the LRU exactly when `pruneable`. It is appended to its client's list, and other clients' lists are unchanged |
| Operations.GetOperation | keystore/operation.h:67 | a lookup succeeds exactly for live tokens and yields the stored operation. An unknown token changes nothing. A hit keeps the map, the client index and the LRU contents. It moves a pruneable operation's token to the most-recent end of the LRU and keeps the other tokens in their order; a hit on an operation that is not pruneable changes nothing |
| Operations.UpdateLru | keystore/operation.h:77 | the LRU keeps the same tokens. A listed token ends up last, and an unlisted one leaves the LRU unchanged |
| Operations.RemoveOperation | keystore/operation.h:68 | removal of a live token returns its operation and deletes exactly that key. The count falls by one, and the token is taken out of the LRU by first-occurrence removal. Other clients' lists are untouched, and an unknown token yields nothing and changes nothing |
| Operations.RemoveOperationTracking | keystore/operation.h:78 | only the owning client's list changes: it loses the token, and the client entry disappears when its list becomes empty. An unknown client is left alone |
| Operations.HasPruneableOperation | keystore/operation.h:69 | true exactly when the pruneable count is positive |
| Operations.GetOperationCount | keystore/operation.h:70 | on a valid registry the count equals the number of distinct tokens in the client index; it is zero exactly when no operation is in flight |
| Operations.IndexListsExactlyOperations | keystore/operation.h:79-81 | on a valid registry the map and the client index hold the same tokens |
| Operations.GetPruneableOperationCount | keystore/operation.h:71 | on a valid registry, the pruneable count never exceeds the operation count |
| Operations.SetOperationAuthToken | keystore/operation.h:72 | succeeds exactly for a live token, and then stores the auth token in that operation and changes nothing else. Otherwise the registry is unchanged |
| Operations.GetOldestPruneableOperation | keystore/operation.h:73 | absent exactly when nothing is pruneable; otherwise a live token listed in the LRU |
| Operations.GetOperationsForTokenExact | keystore/operation.h:74 | a client's list holds exactly the live operations that client started, each once |
| Operations.LruBoundedByOperations | keystore/operation.h:79-80 | the LRU of a valid registry is no longer than the map |
| OperationProps.GetOperationPreservesValid | keystore/operation.h:67 | a lookup keeps the registry valid |
| OperationProps.RemoveOperationErasesEverywhere | keystore/operation.h:68 | after a removal the registry is valid, and the token is in neither the map, the LRU nor any client's list |
| OperationProps.SetOperationAuthTokenPreservesValid | keystore/operation.h:72 | attaching an auth token keeps the registry valid |
| OperationProps.AddedOperationIsRetrievable | keystore/operation.h:64-67 | an added operation can be looked up under its token, has no auth token, and adds one to the pruneable count exactly when pruneable |
| OperationProps.OperationListedOnce | keystore/operation.h:81 | a live operation is listed under exactly one client, its own, and exactly once there |
| OperationProps.PruneableCountBounds | keystore/operation.h:69-71 | the pruneable count is at most the operation count. Something is pruneable exactly when that count is positive, and then there is an operation |
| OperationProps.HasAuthTokenAfterSet | keystore/operation.h:52 | after an auth token is attached, `Operation.HasAuthToken` (`hasAuthToken`) reports whether its MAC is non-empty, and every other live operation's flag is unchanged. The only requirement is that the token is live |
| OperationProps.RemoveThenGet | keystore/operation.h:67-68 | after a removal the token is no longer found, and a second removal is a no-op |
| OperationHistory.ApplyKeepsConsistent | keystore/operation.h:64-73 | every registry call keeps the LRU equal to the live pruneable tokens, ordered by last use |
| OperationHistory.Replay | keystore/operation.h:36-41 | from a fresh registry, any sequence of calls leaves the history consistent, with one clock tick per call |
| OperationHistory.OldestIsLeastRecentlyUsed | keystore/operation.h:73 | after any history, the oldest pruneable operation is absent exactly when no live operation is pruneable. Otherwise it is the live pruneable operation with the earliest last use |
| OperationHistory.TouchMakesMostRecent | keystore/operation.h:67 | looking up a live pruneable operation makes it the most recently used. It is then not the oldest, unless it is the only pruneable one |
| Seqs.RemoveFirst | keystore/operation.h:80 | removing the first occurrence takes exactly one copy of the element out of the multiset, and nothing when it is absent |
| Seqs.RemoveFirstDistinct | keystore/operation.h:80 | on a duplicate-free LRU, removal keeps it duplicate-free and drops exactly that token |
| FnMatch.LiteralPatternMatchesOnlyItself | VolumeManager.h:67-69 | a pattern without special characters matches exactly the identical string |
| FnMatch.StarMatchesEverything | VolumeManager.h:67-69 | `*` matches every string, slashes and leading dots included |
| FnMatch.QuestionMatchesAnyCharacter | VolumeManager.h:67-69 | `?` matches any one character and not the empty string |
| FnMatch.ListedCharactersBracket | VolumeManager.h:68 | a bracket of plain members matches one character exactly when it is listed |
| FnMatch.UnlistedCharactersBracket | VolumeManager.h:68 | a bracket of plain members opened by `[!` or `[^` matches one character exactly when it is not listed |
| FnMatch.LeadingBracketIsMember | VolumeManager.h:68 | a `]` right after `[` is a member: `[]...]` matches `]` and the listed characters, nothing else |
| FnMatch.RangeBracket | VolumeManager.h:68 | `[lo-hi]` matches one character exactly when it lies between `lo` and `hi` inclusive |
| FnMatch.UnclosedBracketIsLiteral | VolumeManager.h:68 | a `[` that no `]` follows matches a literal `[` and the rest of the pattern then matches as usual |
| GlobSemantics.MatchIffDenotes | VolumeManager.h:67-69 | `FnMatch.Match`, the `fnmatch` call, accepts a string exactly when the string splits into consecutive pieces, one per pattern atom, each allowed by its atom |
| DiskSources.CString | VolumeManager.h:68 | `c_str()` yields the longest NUL-free prefix of the string |
| DiskSources.MatchesIffPathInPatternLanguage | VolumeManager.h:67-69 | for NUL-free strings, `DiskSource.Matches` holds, so a rule matches a path exactly when the path is in the pattern's language |
| DiskSources.LiteralSourceMatchesOnlyItself | VolumeManager.h:64-69 | a rule with a plain pattern classifies only the identical path |
| DiskSources.MatchingStopsAtNul | VolumeManager.h:67-69 | text after a NUL in the path does not affect matching |
| DiskSources.StarLiteralRuleMatchesSuffix | VolumeManager.h:67-69 | a rule `*` followed by plain text matches exactly the paths ending with that text |
| DiskSources.SourceIsImmutable | VolumeManager.h:64-72 | `getNickname` and `getFlags` return what the constructor was given, and whether a rule matches depends on its pattern alone |
| DiskSources.SdcardRuleExample | VolumeManager.h:64-71 | the rule `*/block/sda` classifies `/devices/soc/block/sda` and not `/devices/soc/block/sdb`, and reports its nickname |
| Paths.JoinSplit | VolumeManager.h:125-130 | joining the segments of a path gives the path back |
| Paths.SplitJoin | VolumeManager.h:125-130 | splitting joined slash-free segments gives the segments back |
| Paths.SplitAppend | VolumeManager.h:125-130 | splitting at a slash splits the two sides independently |
| Paths.SegmentAtIsSplitSegment | VolumeManager.h:127-129 | a whole segment found in the text is a segment of the split, and it is the last one exactly when it ends the text |
| Paths.SplitSegmentIsSegmentAt | VolumeManager.h:127-129 | every segment of the split stands whole in the text, and it reaches the end exactly when it is the last one |
| Mkdirs.Plan | VolumeManager.h:125-132 | rejects a path that is not absolute, then one with a `.` or `..` segment, then one with an empty segment, then one on no managed volume (`NotManaged`). A path is accepted exactly when it is absolute, has no `.`, `..` or empty segment, and lies on a managed volume |
| Mkdirs.SegmentIffComponent | VolumeManager.h:128-129 | a path has a given segment exactly when that text stands between a slash and the next slash or the end |
| Mkdirs.EmptySegmentIffEmptyComponent | VolumeManager.h:128-129 | a path has an empty segment before its last one exactly when it contains two slashes in a row |
| Mkdirs.PlanIsAncestorsInOrder | VolumeManager.h:125-130 | the planned directories are exactly the prefixes of the path that end just before one of its slashes (other than the leading one), shortest first. Each is a proper prefix of the next, and the path itself is never among them |
| Mkdirs.LastSegmentOnlyWithTrailingSlash | VolumeManager.h:129-130 | a directory for the last segment is planned exactly when the path ends with a slash |
| Mkdirs.PlannedDirectoriesAreClean | VolumeManager.h:127-129 | every planned directory is absolute and free of `.`, `..` and empty segments |
| Mkdirs.Ensure | VolumeManager.h:125-132 | a rejected path leaves the directories unchanged and reports the rejection. An accepted one makes every planned directory exist and adds nothing else |
| Mkdirs.EnsureIsIdempotent | VolumeManager.h:125-126 | running `mkdirs` again on its own result gives the same outcome and changes nothing |
| Mkdirs.EnsureOnExistingChangesNothing | VolumeManager.h:125-126 | when every planned directory already exists, `mkdirs` succeeds and changes nothing |

## Left out

- The bodies of the registry calls are not part of the headers, which declare the calls and the collections only. The model assumes the following, which the header does not state:
  - lookups refresh the LRU through the private `updateLru`;
  - removal erases the first occurrence from the LRU and the client list;
  - a client entry goes when its list empties;
  - the oldest pruneable operation is the head of the LRU.
- Binder plumbing is not modelled: the death recipient, linking to client death, and `sp<>` reference counting (keystore/operation.h:63, 82). They concern object lifetime, not the registry's contents.
- The keymaster device, key characteristics and the fields of a hardware auth token are opaque values. Only the auth token's MAC length matters to the registry.
- Binder token identity is modelled by a counter. The reuse of a freed binder's address is not modelled, because the registry never compares a new token with a dead one.
- Mutexes and concurrent callers are not modelled; every call is atomic here.
- Operations.GetOperationsForToken: its contract only covers an unknown client. The full characterisation needs the invariant and is stated by Operations.GetOperationsForTokenExact.
- Operations.GetPruneableOperationCount: its bound holds only on a valid registry. Without the invariant the LRU could list dead tokens.
- Character classes, collating symbols and equivalence classes in bracket expressions are left out, because they depend on the locale. A `[:` is read as ordinary bracket members.
- The matcher's treatment of a trailing backslash (it matches a backslash) follows the BSD implementation, because POSIX leaves it undefined.
- A `^` right after `[` negates the bracket expression like `!`. POSIX leaves a leading `^` unspecified; the BSD and glibc implementations treat it as negation.
- The matcher works on characters, while `fnmatch` in the C locale works on bytes. `?` and bracket expressions therefore differ on a path with multi-byte UTF-8 characters. Sysfs device paths are ASCII, where the two agree.
- `addDiskSource` and the first-match classification loop live outside the modelled class. They are not part of this model.
- DiskSources.SourceIsImmutable restates the constructor. It documents that the rule never changes.
- Symlink checks in `mkdirs` need a real file system and are left out. So are the creation of directories, permissions, and failures such as a path component that is a file.
- How "managed volume" is decided is left abstract: a path belongs to a volume when one of the given roots is its prefix and ends at a segment boundary.
- The numeric status `mkdirs` returns is not modelled, because the header gives no error codes. The model reports which check rejected the path.
- The order of validation and the empty-segment rule are chosen where the header is silent:
  - an empty segment before the last (`//`) is rejected rather than collapsed;
  - a `.` or `..` last segment is rejected, although the last segment is otherwise ignored as a file name, because the header asks for no `.` or `..` anywhere in the path;
  - the whole path is validated before any directory is created;
  - validation goes absolute, then `.`/`..`, then empty segment, then managed volume.
- KeyUtil.h and the rest of VolumeManager.h (mounting, netlink events, users, OBBs, stub volumes) are not part of this model.
