# Netdisk, modelled and proved in Dafny

Netdisk is a network drive: clients log in, move through a private directory tree kept in three
database tables, and upload and download files. This project models the parts of the server (and of
the client's transfer loop) whose correctness rests on an invariant, and proves what each part is
for. `dafny verify dfyconfig.toml` checks everything.

* **Paths** (`Paths`, `PathBuffers`): normalisation of paths as a fold over components, and the
  in-place buffer with a rewinding index that computes it.
* **Namespace tables** (`Tables`, `PathScan`, `TableSteps`, `TableEffects`, `TableRuns`, `Database`,
  `Sessions`, `Commands`): the user, file and user_file tables, the commands as steps on them, and `query_cd`,
  which resolves a path in one pass over rows sorted by file id. Proved: exactly when that pass equals
  the level-by-level walk, exactly which steps keep the rows a tree and keep them in order, and what
  each step does to the map from paths to files.
* **bcrypt** (`Radix64`, `Radix64Loops`, `KeySetup`, `Blowfish`, `Eksblowfish`, `Bcrypt`,
  `BcryptLoops`): the base-64 codec, the branch-free key set-up, the cipher, and the key schedule of
  "A Future-Adaptable Password Scheme" (USENIX 1999), in the order of the code: key, then salt. The
  initial tables are arbitrary.
* **Task queue and workers** (`TaskOrder`, `TaskQueue`, `WorkerPool`): the two-class linked queue on
  the heap, and the event loop with its workers as a state machine.
* **Transfers** (`Transfer`, `TransferLoops`): resumable upload and download for any sizes of reads.
* **Connection pool** (`PoolRuns`, `ConnectionPool`): counted slots shared by the workers.

In each component functions say what is meant, methods and classes have the shape of the C code and
are proved to compute those functions, and lemmas state the properties.

## Where the code and its evident meaning differ

The model follows the code. Each point is a proved statement with the exact condition.

* `query_cd` relies on every row having a larger file id than its parent. An upload of content that
  is stored already (deal_sql.c:279-285) attaches the older file id. `TableEffects.StepKeepsCdIff`:
  afterwards `query_cd` is still right on every path exactly when the shared id is above the target
  directory's; `TableRuns.SharingRunLosesRoot` is a run in which a user's own root is rejected.
* `query_cd` starts from the parent of the user's first row (85), whatever row that is, and
  `change_dir` trusts its answer. `Sessions.SessionStaysInsideIff`: all sessions keep the working path
  inside the user's own root exactly when, in every answer, each row with that parent whose name a
  canonical path can begin with bears the user's name. `Sessions.SharingRunEscapes`: in the run above
  `cd ../b.txt` moves the working path from `/bob` to `/b.txt`. That the path stays canonical needs no
  condition.
* `query_cd` does not look at the type of a row (94-100), so mkdir and puts can insert below a file.
  `TableSteps.StepKeepsTreeIff`: this, and only this, breaks the tree; `TableRuns.MkdirBelowFileRun` is
  a run that does, by `mkdir a.txt/d`.
* `query_remove` selects by `LIKE` over all rows bound to a file of the directory (358-361), not over
  the rows of the directory, and `_` and `%` in a name are wildcards. `TableEffects.RemoveHitsNamedIff`:
  it does what it means exactly when every row it selects is bound to the named entry's file (or both
  are directories with entries, which it refuses alike) and an existing entry is selected at all.
  `TableRuns.WildcardRun`: `rm a_b` removes `axb`; `TableRuns.NamesakeRun`: `rm d/x` removes `d/y`. For
  an illegal path it returns 0, which its comment reserves for success.
* `query_gets` returns -1 for a server error and 0 for an illegal path; its comment says -2 and -1.
* mkdir and rm take the directory from the normalised path and the name from the raw argument
  (file_change.c:211-219, 250-258). `Paths.RawNameAgrees`: the two agree exactly when the argument's
  last component is a proper name; `mkdir docs/` creates a directory with an empty name. A path of depth
  one has no parent to cut off: from `/bob`, `mkdir ../bob` creates `bob` inside it.
  `Commands.KeyIsWholeIff`: the command works on the path the argument resolves to exactly when the
  name is proper and that path is below the root.
* `dequeue` (taskQueue.c:77-81) unlinks a match behind a dummy node and never copies the dummy's
  successor to `head`. `TaskQueue.Queue.Dequeue` takes a parameter that says whether that assignment
  is made. Without it the list stays usable exactly when the match is not the first of several nodes.
  The worker-pool model has it made.
* `recv_file` enlarges the file before data arrives (file_change.c:83), so a later session resumes
  behind zero bytes. `Transfer.InterruptedUploadIff`: an upload that was interrupted and then marked
  complete holds the source exactly when the source is zero there.
* `recv_file` maps the file at the current offset (file_change.c:97), which fails off a page boundary.
  `Transfer.CompletesIff`: a session completes the file exactly when some number of reads covers what
  is missing and each of them starts on a page boundary and delivers something.
* `release_connection` increments the counter without looking at the flag.
  `PoolRuns.ReleaseKeepsCountedIff`: the counter stays true exactly when the slot was in use.

## Model

| member | source | states |
|---|---|---|
| Paths.SimplifyCanonical | server/tool.c:59-139 | the normal form is canonical: names only, no empty, "." or ".." component, no trailing slash except for the root |
| Paths.SimplifyFixesCanonical | server/tool.c:59-139 | a path is its own normal form if and only if it is canonical |
| Paths.SimplifyIdempotent | server/tool.c:59-139 | normalising twice is normalising once |
| Paths.SimplifyComposes | server/tool.c:59-139 | normalising a prefix first changes nothing, for all prefixes and suffixes |
| Paths.RelativeCdsCompose | server/tool.c:262-288 | two relative cds resolve to what one joined cd resolves to |
| Paths.ResolveKeepsCanonical | server/tool.c:262-288 | from a canonical working path every argument resolves to a canonical path |
| Paths.UpIsParent | server/tool.c:105-117 | from every canonical path of depth two or more, ".." resolves to the path cut at its last slash |
| Paths.InAndOut | server/tool.c:105-117 | a name followed by "/.." resolves to where it started, from every canonical path |
| Paths.HereIsNothing | server/tool.c:89-99 | "." and a leading "./" make no difference |
| Paths.DownAppends | server/tool.c:262-288 | a name goes one level down, and ".." at depth one ends at the top |
| Paths.ComponentsOfCanon | server/tool.c:207-242 | splitting inverts joining on canonical paths |
| Paths.StripRebuilds | server/file_change.c:135-143 | below the root, stripped parent and last component rebuild the path, and are its parent and name |
| Paths.StripKeepsRoots | server/file_change.c:135-143 | a path of depth one is left as it is |
| Paths.RawNameAgrees | server/file_change.c:211-219 | the raw argument's last component is that of the resolved path if and only if it is a proper name |
| Paths.TrailingSlashGivesEmptyName | server/file_change.c:250-258 | with a trailing slash the name is empty while the path is that of the argument without it |
| PathBuffers.SimplifyPath | server/tool.c:59-139 | the buffer ends up holding the normal form (whose meaning for names, "." and ".." UpIsParent, InAndOut, HereIsNothing and DownAppends state) and a terminator, all accesses in bounds, for every non-empty path |
| PathBuffers.CloseComponent | server/tool.c:70-133 | at a slash or the end, buffer, index list and position go from standing for a stack to standing for the stack after that component |
| PathBuffers.Rewind | server/tool.c:70-133 | each branch (empty, ".", "..", a name) leaves buffer and list as the rendering of the new stack |
| PathBuffers.SplitFileName | server/tool.c:207-242 | the two-pointer pass yields the components |
| PathBuffers.ReverseString | server/tool.c:172-182 | the first characters are reversed and the rest untouched |
| PathBuffers.GetFileName | server/tool.c:244-261 | backward copy and reversal give what follows the last slash |
| PathBuffers.StripParent | server/file_change.c:136-143 | the buffer is cut at its last slash that is not its first character |
| PathBuffers.GetUserPath | server/tool.c:262-288 | the path a command works on is the resolved one |
| Tables.PathOfResolves | server/deal_sql.c:182-199 | in a tree, following parents from any row reaches the root and spells a path that walks back to the row |
| Tables.DirPathUnique | server/deal_sql.c:182-199 | a directory is named by exactly one path |
| Tables.ResolvedPathStartsAtRoot | server/deal_sql.c:50-53 | every path that resolves begins with the user's own name |
| PathScan.ScanFollowsWalk | server/deal_sql.c:85-104 | from any point of the pass at which no wanted row was passed, the rest of the pass is the rest of the walk |
| PathScan.CdIsWalk | server/deal_sql.c:62-114 | with ordered rows the pass gives the walk's answer on every path |
| PathScan.ScanEndsAt | server/deal_sql.c:85-104 | without any order assumption, a completed pass ended at a row that the walk from the same start reaches |
| PathScan.DisorderHidesRow | server/deal_sql.c:85-104 | a row not above its parent resolves by the walk but is rejected by the pass |
| PathScan.DisorderHidesRoot | server/deal_sql.c:85 | if the smallest file id is not the root's, the user's root itself is answered wrongly |
| PathScan.CdAgreesIff | server/deal_sql.c:62-114 | pass and walk agree on all paths if and only if every row of the user is above its parent |
| PathScan.CdIsAWalk | server/deal_sql.c:85-113 | whatever the order, a positive answer is what the walk from the first row's parent reaches |
| PathScan.CdPositiveIff | server/deal_sql.c:85-113 | every positive answer is what the path resolves to if and only if the first row is the root |
| PathScan.AnswerExists | server/deal_sql.c:71-74 | the rows of every user can be listed by file id |
| TableSteps.RegisterKeepsTree | server/deal_sql.c:25-58 | registration keeps every user's rows a tree and adds a new root |
| TableSteps.CandidateIsEntry | server/deal_sql.c:358-361 | the row rm chooses is a file, or is itself the user's directory entry; it is never a root |
| TableSteps.RemoveKeepsTree | server/deal_sql.c:349-408 | rm keeps the tree, whichever matching row the database returns first |
| TableSteps.InsertUnderFileBreaksTree | server/deal_sql.c:94-100 | an insertion under anything but a directory leaves a row whose parent is no live directory |
| TableSteps.InsertsIffGrows | server/deal_sql.c:184-199 | a mkdir or puts adds rows if and only if, before it, its path is accepted and the name is free in the directory |
| TableSteps.StepKeepsTreeIff | server/deal_sql.c:172-288 | from a tree, every register, mkdir, puts, update and rm leads to a tree if and only if, in case it is going to insert, its target is a directory |
| TableSteps.InsertForm | server/deal_sql.c:195-199 | a mkdir or puts that inserts adds one row, under the id query_cd answered, with a new or the shared file id |
| TableSteps.StepKeepsFiles | server/deal_sql.c:25-408 | every step keeps all file rows with kind and hash; completeness changes only by an update with the hash, and new content starts incomplete |
| TableSteps.StepKeepsRows | server/deal_sql.c:25-408 | only register adds a user, with the given name, password and a new id; only rm deletes entries, and only of its user; added entries have new ids |
| TableEffects.InsertWalk | server/deal_sql.c:195-199 | adding one leaf row adds one key to one user's walk and changes no other walk |
| TableEffects.UnlinkWalk | server/deal_sql.c:382-403 | deleting a user's rows of a childless file removes exactly that user's walks to it |
| TableEffects.InsertEffect | server/deal_sql.c:172-288 | a successful mkdir or puts adds exactly one key, free before; all other paths of all users resolve as before |
| TableEffects.RemoveEffect | server/deal_sql.c:349-408 | a successful rm removes exactly the user's keys bound to one file, one of whose rows bears a matching name, for a directory exactly one key; all other paths resolve as before |
| TableEffects.RegisterEffect | server/deal_sql.c:25-58 | a registration gives the new user one key and changes nobody else's |
| TableEffects.StepKeepsOrderIff | server/deal_sql.c:257-287 | a step keeps a user's rows in order if and only if it is not that user's upload sharing a file that is not above the target |
| TableEffects.StepKeepsCdIff | server/deal_sql.c:257-287 | after such a step query_cd is right on every path under the same condition, and only then |
| TableEffects.SharingBelowRootHidesAll | server/deal_sql.c:279-285 | sharing content older than the user's root makes query_cd wrong on that root |
| TableEffects.LikeLiteral | server/deal_sql.c:359 | a pattern without wildcards matches only itself |
| TableEffects.LikePercentIff | server/deal_sql.c:359 | "%" matches any beginning |
| TableEffects.LikeOneIff | server/deal_sql.c:359 | "_" matches any one character |
| TableEffects.LikeEscapedIff | server/deal_sql.c:359 | a backslash makes the next character stand for itself |
| TableEffects.LikeCharIff | server/deal_sql.c:359 | every other character matches itself only |
| TableEffects.RemoveHitsNamedIff | server/deal_sql.c:349-408 | for every name, rm does what it means whichever row comes first if and only if each selected row is bound to the named entry's file, or both are directories with entries, and an existing entry is selected |
| TableEffects.LiteralSelectsIff | server/deal_sql.c:358-361 | for a name without wildcards that is the case if and only if no other file of the directory bears the name elsewhere |
| TableEffects.RemoveMayHitAnotherName | server/deal_sql.c:358-369 | a row anywhere that gives a file of the directory a name the pattern matches makes its entry, of any name, a possible victim |
| TableEffects.RunIsTreeIff | server/deal_sql.c:25-408 | all users' rows form a tree at every point of a run if and only if rows are inserted only below directories |
| TableEffects.RunCdIsWalkIff | server/deal_sql.c:25-408 | in such a run query_cd is the walk at every point, for every user, path and answer of the database, if and only if no upload shares an older file |
| TableEffects.CompleteIffUpdated | server/deal_sql.c:332-342 | at every point of every run, stored content is complete if and only if an update with its hash came after it was stored |
| TableRuns.SharingRunLosesRoot | server/deal_sql.c:279-285 | four steps from empty tables after which a user's root exists but is rejected |
| TableRuns.MkdirBelowFileRun | server/deal_sql.c:94-100 | three steps from empty tables, the last a mkdir below a file, after which the rows are no tree |
| TableRuns.WildcardRun | server/deal_sql.c:358-361 | three steps from empty tables, the last `rm a_b`, which removes axb |
| TableRuns.NamesakeRun | server/deal_sql.c:358-383 | five steps from empty tables, the last `rm d/x`, which removes d/y and x while d has no x |
| Database.Store.Connect | server/deal_sql.c:180 | a query takes a connection only while it holds none: the pool is as at its start |
| Database.Store.Disconnect | server/deal_sql.c:202 | and returns the one it took, after which the pool is as at its start again |
| Database.Store.QueryCd | server/deal_sql.c:62-114 | the loop computes the pass; in an ordered tree its result is the walk's; the pool is as before |
| Database.Store.UserRegister | server/deal_sql.c:25-58 | performs the register step: three rows, or 0 and no change for a taken name; on every path the pool is as before |
| Database.Store.QueryMkdir | server/deal_sql.c:172-204 | performs the mkdir step with its four answers; on every path the pool is as before |
| Database.Store.QueryPuts | server/deal_sql.c:216-288 | performs the puts step with its five answers; on every path the pool is as before |
| Database.Store.QueryGets | server/deal_sql.c:294-329 | in an ordered tree it yields the hash if and only if the path names a complete regular file; on every path the pool is as before |
| Database.Store.QueryUpdate | server/deal_sql.c:332-342 | exactly the content with the hash becomes complete; keys, kinds and hashes of all file rows stay, no path changes its meaning, and the pool is as before |
| Database.UpdateHandsIff | server/deal_sql.c:316-339 | after an update exactly those paths are handed out that were before, or name content with its hash; other unfinished content stays refused |
| Database.Store.QueryRemove | server/deal_sql.c:349-408 | performs the rm step, with 0 for an illegal path; on every path the pool is as before |
| Database.GettableIsEntry | server/deal_sql.c:310-313 | the rows query_gets selects are the one regular file the path resolves to, or none |
| Sessions.Token.ChangeDir | server/file_no_change.c:11-35 | the working path becomes the resolved path if query_cd accepts it and is unchanged otherwise |
| Sessions.LoginInside | server/login.c:45-70 | after login the working path is inside the user's own root |
| Sessions.CdLeadsToEntry | server/file_no_change.c:11-35 | an accepted cd leads to an entry reached from the first row's parent, whatever the order of the rows; with the root first it is the one the path names |
| Sessions.SessionCanonical | server/file_no_change.c:11-35 | in every session, over any tables and answers, the working path stays canonical |
| Sessions.CdStaysInsideIff | server/file_no_change.c:11-35 | all arguments of one cd keep the working path inside the user's root if and only if every row the pass can begin with, and a canonical path can name, bears the user's name |
| Sessions.SessionStaysInsideIff | server/file_no_change.c:11-35 | all sessions over a series of answers stay inside if and only if each answer is of that kind |
| Sessions.OrderedBegins | server/deal_sql.c:85 | answers from a tree with ordered rows are of that kind |
| Sessions.RootFirstBegins | server/deal_sql.c:85 | so are all answers from a tree whose first row is the root |
| Sessions.SharingRunEscapes | server/deal_sql.c:85 | in a reachable tree the answer is not, and one cd takes the working path out of the user's root |
| Sessions.TwoCdsAreOne | server/file_no_change.c:11-35 | two relative cds leave the working path of one joined cd |
| Sessions.AbsoluteIsFromRoot | server/tool.c:272-275 | an absolute argument resolves alike from every working path inside the user's root |
| Commands.KeyIsWholeIff | server/file_change.c:248-262 | directory and name together are the path the argument resolves to if and only if the name is proper and the path is below the root |
| Commands.OwnRootIsMissed | server/file_change.c:252-259 | from a user's root, "../" and its name resolves to the root, but the commands work on that name inside it |
| Commands.MkdirAdds | server/file_change.c:244-262 | mkdir adds exactly one path, directory and name, for every argument; the argument resolves to the new directory if and only if it is proper |
| Commands.MkdirThenCdIff | server/file_change.c:244-262 | after a successful mkdir, cd with the same argument enters the new directory if and only if the argument is proper; before it such an argument was rejected |
| Commands.MkdirThenRemoveIff | server/file_change.c:200-262 | rm with the same argument undoes mkdir, for all answers: it succeeds and every path of every user is as before, if and only if all it selects is the new directory |
| Commands.PutsThenGets | server/deal_sql.c:216-342 | after puts and update the path names a complete file with the uploaded hash; ordered rows stay ordered if and only if no older file was shared |
| Commands.MkdirAnswers | server/deal_sql.c:170-204 | the answer is 0 exactly when the directory's path does not resolve, 1 exactly when the entry's path already did, else 2 |
| Commands.PutsAnswers | server/deal_sql.c:207-288 | -1 exactly when the directory's path does not resolve; otherwise the path names an entry afterwards and the answer tells whether it is other content, or the same content complete or incomplete |
| Commands.RemoveAnswers | server/deal_sql.c:347-408 | as long as rm selects what is named: 2 exactly for a directory with entries, 1 exactly when the directory resolves and the entry does not, else 0 |
| Radix64.EncodeDigits | server/bcrypt/crypt_blowfish.c:409-439 | only characters of the alphabet are produced |
| Radix64.DigitsAreAlphabet | server/bcrypt/crypt_blowfish.c:364-365 | the 64 digits by value are the alphabet, character by character |
| Radix64.EncodeIsSextets | server/bcrypt/crypt_blowfish.c:409-439 | the digits of a text are the sextets of its bytes, group by group, with zero bits after the last |
| Radix64.GroupIsNumber | server/bcrypt/crypt_blowfish.c:418-437 | a group's sextets in base 64 are its bytes in base 256, most significant first |
| Radix64.OneIsNumber | server/bcrypt/crypt_blowfish.c:419-425 | a last byte alone becomes two digits, filled up with four zero bits |
| Radix64.TwoAreNumber | server/bcrypt/crypt_blowfish.c:427-432 | two last bytes become three digits, filled up with two zero bits |
| Radix64.DecodeEncode | server/bcrypt/crypt_blowfish.c:385-439 | decoding an encoding gives the bytes back, for every length and partial group, anywhere in a string |
| Radix64.EncodeDecode | server/bcrypt/crypt_blowfish.c:385-439 | encoding a decoding gives the text with only the unused bits of its last character cleared |
| Radix64.DecodeIgnoresUnusedBits | server/bcrypt/crypt_blowfish.c:385-407 | the cleared text decodes to the same bytes |
| Radix64Loops.BFEncode | server/bcrypt/crypt_blowfish.c:409-439 | the loop writes the encoding at its place and nothing else |
| Radix64Loops.BFDecode | server/bcrypt/crypt_blowfish.c:385-407 | the loop fails if and only if the text does not decode, and otherwise writes its bytes and nothing else |
| KeySetup.ExpandWord | server/bcrypt/crypt_blowfish.c:592-613 | one word in both forms, the cyclic position of the pointer, and the sign flag set by a high byte that is not the first |
| KeySetup.CorrectIsBigEndian | server/bcrypt/crypt_blowfish.c:595-597 | word i is the big-endian word of bytes 4i to 4i+3 of the key and its terminator, repeated |
| KeySetup.WordsAgreeIff | server/bcrypt/crypt_blowfish.c:595-607 | the two forms of a word agree if and only if every byte before the last high byte that is not the first is 0xFF |
| KeySetup.AsciiNeverDeviates | server/bcrypt/crypt_blowfish.c:592-642 | for seven-bit keys both forms agree and the safety measure never acts |
| KeySetup.DeviatesIff | server/bcrypt/crypt_blowfish.c:619-642 | the safety measure acts exactly on the keys whose words are all benign and one of which is sign-extended beyond its first byte, when the flag asks for it |
| KeySetup.SafetySeparates | server/bcrypt/crypt_blowfish.c:619-642 | a key on which the measure acts shares its two key arrays with no key set up without the flag |
| KeySetup.SafetyMask | server/bcrypt/crypt_blowfish.c:626-630 | the branch-free arithmetic yields bit 16 exactly in that case and zero otherwise |
| KeySetup.KeyArraysIff | server/bcrypt/crypt_blowfish.c:585-642 | the key arrays are the only ones whose words are of the form the flag selects, the initial ones mixed into P and bit 16 of the first flipped when the measure acts |
| KeySetup.BFSetKey | server/bcrypt/crypt_blowfish.c:543-643 | the loops produce these two arrays, for keys of any length |
| Blowfish.ScaledIsUnscaled | server/bcrypt/crypt_blowfish.c:455-493 | the two forms of the round compute the same function |
| Blowfish.RoundsMeet | server/bcrypt/crypt_blowfish.c:498-518 | rounds with P reversed retrace the forward rounds step by step |
| Blowfish.DecryptInverts | server/bcrypt/crypt_blowfish.c:498-518 | the rounds with P reversed invert the cipher, for all tables |
| Blowfish.EncryptIsPermutation | server/bcrypt/crypt_blowfish.c:498-518 | the cipher is injective and onto |
| Blowfish.MixSpelled | server/bcrypt/crypt_blowfish.c:467-471 | the four box words are added, xored and added |
| Blowfish.EnciphersIff | server/bcrypt/crypt_blowfish.c:498-518 | the cipher's output is the one block reached by sixteen rounds, each spelled out on the words of P and S, with P[0] before and P[17] after |
| Blowfish.Ctx.BFRound | server/bcrypt/crypt_blowfish.c:457-471 | the statements of the macro make the new half from the old one, the next P word and the four box words that the bytes of the other half select, spelled out in shifts, additions and exclusive-ors |
| Blowfish.Ctx.EncryptBlock | server/bcrypt/crypt_blowfish.c:498-518 | the unrolled statements lead from the input to the output by such a history of sixteen rounds |
| Eksblowfish.ChainPrefix | server/bcrypt/crypt_blowfish.c:524-540 | a word once written is never changed again within an expansion |
| Eksblowfish.ExpansionIsChained | server/bcrypt/crypt_blowfish.c:702-726 | every block of an expansion is the encryption of the one before, mixed with the salt, under tables of which exactly the earlier blocks are new |
| Eksblowfish.ZeroSaltIsNone | server/bcrypt/crypt_blowfish.c:524-540 | the unsalted expansion is the salted one with a zero salt |
| Eksblowfish.ExpandsIff | server/bcrypt/crypt_blowfish.c:702-726 | the expansion is the one table whose 521 blocks are each enciphered from the one before, with the salt pairs in turn, under tables of which exactly the earlier blocks are new |
| Eksblowfish.KeyMixedIff | server/bcrypt/crypt_blowfish.c:731-734 | mixing the key changes exactly the 18 words of P, each by its key word |
| Eksblowfish.SaltMixedIff | server/bcrypt/crypt_blowfish.c:743-753 | mixing the salt changes exactly the 18 words of P, each by the salt word at its index modulo 4 |
| Eksblowfish.SetsUpIff | server/bcrypt/crypt_blowfish.c:688-753 | the set-up is the one table reached by a history of 2 * 2^cost + 1 tables: the salted expansion, then in turn an unsalted expansion after mixing the key and one after mixing the salt |
| Eksblowfish.Body | server/bcrypt/crypt_blowfish.c:524-540 | the two in-place loops perform one unsalted expansion in this sense |
| Eksblowfish.SaltedExpansion | server/bcrypt/crypt_blowfish.c:702-726 | the two in-place loops perform one salted expansion in this sense |
| Eksblowfish.MixKey | server/bcrypt/crypt_blowfish.c:731-734 | the key is mixed into P word by word and S is untouched |
| Eksblowfish.MixSalt | server/bcrypt/crypt_blowfish.c:743-753 | the salt is mixed into P in turn and S is untouched |
| Eksblowfish.OneRound | server/bcrypt/crypt_blowfish.c:728-752 | one turn mixes the key and expands, then mixes the salt and expands |
| Eksblowfish.RunRounds | server/bcrypt/crypt_blowfish.c:728-753 | the loop runs exactly 2^cost times, its 32-bit counter never wrapping |
| Eksblowfish.RunSchedule | server/bcrypt/crypt_blowfish.c:688-753 | the loops lead from the tables to the new ones by such a history, key before salt in each of exactly 2^cost rounds |
| Eksblowfish.Pow2Fits | server/bcrypt/crypt_blowfish.c:688 | 2^cost fits the counter for every accepted cost |
| Eksblowfish.RepeatsIff | server/bcrypt/crypt_blowfish.c:755-763 | the output block is the last of 65, each enciphered from the one before |
| Eksblowfish.MagicOutput | server/bcrypt/crypt_blowfish.c:755-766 | each of the three magic blocks, in order, is enciphered 64 times in this sense |
| Bcrypt.SwapReadsBigEndian | server/bcrypt/crypt_blowfish.c:441-453 | after BF_swap a word read from memory is big-endian on either kind of machine |
| Bcrypt.SwapWritesBigEndian | server/bcrypt/crypt_blowfish.c:441-453 | after BF_swap a word written to memory is big-endian on either kind of machine |
| Bcrypt.BFSwap | server/bcrypt/crypt_blowfish.c:441-453 | exactly the first count words are swapped |
| Bcrypt.MagicSpells | server/bcrypt/crypt_blowfish.c:84-88 | the magic words spell the scheme's text |
| Bcrypt.SubtypeIsTable | server/bcrypt/crypt_blowfish.c:645-647 | the flags are the table's entry for a letter, none for other characters |
| Bcrypt.PrefixIff | server/bcrypt/crypt_blowfish.c:675-688 | a prefix is accepted if and only if it is "$2", a, b, x or y, "$", two digits forming a number up to 31, and "$"; that number is the cost |
| Bcrypt.AcceptsIff | server/bcrypt/crypt_blowfish.c:675-693 | with the minimum of 16 a setting is accepted if and only if its prefix is, its cost is at least 4 and its salt decodes |
| Bcrypt.SaltWordsHold | server/bcrypt/crypt_blowfish.c:689-693 | the salt words are the salt bytes, highest first |
| Bcrypt.RawIff | server/bcrypt/crypt_blowfish.c:693-766 | the raw bytes are the only ones reached from the initial tables by the key arrays, the set-up history and the three repeated encipherments |
| Bcrypt.HashKeepsSetting | server/bcrypt/crypt_blowfish.c:768-770 | a hash keeps the setting's first 28 characters and normalises the last salt character |
| Bcrypt.HashCarries | server/bcrypt/crypt_blowfish.c:768-776 | the rest of a hash decodes to the first 23 raw bytes for the setting's flags, cost and salt |
| Bcrypt.HashReproduces | server/bcrypt/crypt_blowfish.c:675-776 | hashing with a hash as the setting is accepted and reproduces it, for every key and accepted setting |
| Bcrypt.GeneratedIsAccepted | server/bcrypt/crypt_blowfish.c:881-907 | a generated salt is always accepted, decodes to the given bytes and cost, and is kept verbatim in the hash |
| Bcrypt.MatchIff | server/hash.c:39-50 | a stored string matches if and only if it is an accepted setting that hashes to itself |
| Bcrypt.EncryptedMatches | server/hash.c:24-50 | match_password accepts what encrypt_password produced |
| Bcrypt.EncryptedForm | server/hash.c:24-34 | what is stored begins with "$2b$11$", carries the first 16 random characters as salt and the raw bytes for cost 11 |
| Bcrypt.GenSaltIff | server/bcrypt/crypt_blowfish.c:881-894 | a setting is generated if and only if there is enough random input and room, the cost is the default or 4 to 31, and the prefix is "$2a", "$2b" or "$2y" |
| BcryptLoops.LoadSalt | server/bcrypt/crypt_blowfish.c:689-693 | the salt words are the big-endian words of the decoded bytes |
| BcryptLoops.ComputeRaw | server/bcrypt/crypt_blowfish.c:693-774 | the bytes computed have such a history from the initial tables, independent of byte order |
| BcryptLoops.BFCrypt | server/bcrypt/crypt_blowfish.c:649-778 | fails exactly for settings that are not accepted, leaving the buffer alone, and otherwise writes the hash string |
| BcryptLoops.BFGenSalt | server/bcrypt/crypt_blowfish.c:881-907 | writes the generated setting or an empty string |
| TaskOrder.PickTakesFirst | server/taskQueue.c:46-85 | the task taken is the first of its class and the other class is untouched |
| TaskOrder.PickPrefersLong | server/taskQueue.c:46-85 | a long-capable worker takes a short task only when no long one is queued; the short worker never takes a long one |
| TaskOrder.LongIsTransfer | server/thread.c:3-6 | the long commands are puts and gets |
| TaskOrder.ClassesAreFifo | server/taskQueue.c:3-114 | in every run, for each class, what was handed out followed by what is queued is what was accepted; the size never exceeds the bound |
| TaskQueue.Queue.Enqueue | server/taskQueue.c:3-29 | the list grows by one node at its end, or is unchanged when full; pointers and both counters stay true |
| TaskQueue.Queue.Find | server/taskQueue.c:46-64 | the search stops at the first task of the worker's class, with its predecessor |
| TaskQueue.Queue.Dequeue | server/taskQueue.c:31-114 | the list loses exactly the picked task, tail and counters stay true; with head reassigned all is valid, without it exactly when the match is not the first of several nodes |
| WorkerPool.WaitsIffNothing | server/thread.c:30-44 | a worker waits if and only if dequeue would find nothing for it |
| WorkerPool.WaitsIff | server/thread.c:30 | that is, if the queue is empty, or for the short worker if every queued task is long |
| WorkerPool.WorkerMovesIff | server/thread.c:20-98 | in every state a worker can take, finish or leave unless it is gone, or idle before the exit with nothing for it |
| WorkerPool.LoopServes | server/main.c:62-116 | until the exit every watched, returning or new connection can be served |
| WorkerPool.ShortRequestReturns | server/thread.c:44-95 | a short request that is delivered, taken, finished and returned leaves everything as before but the record of tasks |
| WorkerPool.GuardFindsTask | server/thread.c:30-50 | a worker past its wait condition always finds a task: the -1 result is unreachable |
| WorkerPool.StepConserves | server/main.c:72-114 | every step moves connections from one place to another, losing or doubling none |
| WorkerPool.ExactlyOnePlace | server/main.c:62-117 | in every reachable state each accepted connection is in exactly one of epoll set, queue, a worker's hands, pipe, finished |
| WorkerPool.OneTaskAtATime | server/main.c:96-114 | no connection has two tasks queued, two being served, or one queued while another is served |
| WorkerPool.FinishedIffEnded | server/main.c:103-110 | in every run a connection is finished if and only if it hung up, met a full queue, or had a long command completed |
| WorkerPool.RunInvariant | server/thread.c:28-44 | over every run of event loop and workers the per-class order holds and only an empty queue lets a long-capable worker leave |
| WorkerPool.ExitLeavesNothing | server/main.c:137-148 | when all of at least two workers have left, the queue is empty and every accepted task was taken, in order |
| WorkerPool.SingleWorkerStrands | server/threadPool.c:26-31 | with one worker a long task can be left behind |
| Transfer.ReceivedIsStream | server/file_change.c:87-106 | for any sizes of reads, the filled part is the beginning of the stream and nothing else changes |
| Transfer.CompletesIff | server/file_change.c:87-106 | for all sizes of reads the file is completed if and only if some number of reads covers what is missing, each starting on a page boundary and delivering something |
| Transfer.ResumeCompletesIff | server/file_change.c:77-111 | an upload is marked complete if and only if it starts within the source and its reads cover the rest in that way |
| Transfer.UnalignedStalls | server/file_change.c:97-101 | a chunk that leaves the offset unaligned and the file unfinished is the last one taken |
| Transfer.AlignedCompletes | server/file_change.c:87-106 | with reads of full buffers from a page boundary, and a page size that divides the buffer, the file is completed |
| Transfer.PageReadsComplete | server/file_change.c:86-106 | with pages of 4096 bytes and reads ready to return at least 4096, every upload that is within the source is completed |
| Transfer.ResumeWritesSource | server/file_change.c:77-106 | a session writes exactly the source between the offset it resumes from and the one it reaches |
| Transfer.TruePrefixKept | server/file_change.c:77-106 | a session that begins with a true prefix of the source keeps one |
| Transfer.CompleteIsSourceIff | server/file_change.c:107-111 | a session after which the upload is marked complete leaves the source if and only if it began with a true prefix |
| Transfer.HoleIsNeverFilled | server/file_change.c:77-83 | once the file has its full size no session touches anything before its last page boundary |
| Transfer.InterruptedUploadIff | server/file_change.c:77-111 | an upload interrupted at an offset and completed by later sessions is the source if and only if the source is zero from that offset to the last page boundary |
| Transfer.LostConnectionCorrupts | server/file_change.c:77-111 | for every page size, a source and two sessions that end complete but different |
| TransferLoops.ReceiveLoop | server/file_change.c:87-106 | the loop computes the transfer, for any sizes of reads |
| TransferLoops.RecvFile | server/file_change.c:77-111 | the upload's receiver: file as specified, complete exactly when the reads cover the rest, then equal to the source exactly from a true prefix |
| TransferLoops.GetsFile | client/pthread.c:124-155 | the download's receiver computes the same transfer |
| PoolRuns.GetKeepsCounted | server/database.c:60-83 | with a true counter get_connection never returns NULL, waits only when every slot is out, and keeps the counter true |
| PoolRuns.ReleaseKeepsCountedIff | server/database.c:87-102 | a release keeps the counter true if and only if the connection is handed out or not the pool's |
| PoolRuns.DoubleReleaseReachesNull | server/database.c:60-102 | releasing twice makes the NULL return reachable |
| PoolRuns.RunSound | server/database.c:60-102 | in every run of workers that release only what they hold, the counter is the number of free slots and no connection has two holders |
| PoolRuns.NeverNullWaitsIff | server/database.c:60-83 | in every such run NULL is never returned, and a caller waits if and only if all slots are held |
| PoolRuns.ReturnRestores | server/database.c:60-102 | returning the connection that was handed out restores the pool |
| PoolRuns.EnoughSlotsNeverWait | server/header.h:257 | with at least as many slots as workers, each holding at most one connection at a time, no worker ever waits |
| PoolRuns.TooFewSlotsWait | server/header.h:257 | with fewer slots than workers some run makes a worker wait |
| ConnectionPool.Pool.constructor | server/database.c:21-55 | all slots are free and the counter says so |
| ConnectionPool.Pool.Get | server/database.c:60-83 | the first free slot is handed out, nothing else changes; with a true counter never NULL |
| ConnectionPool.Pool.Release | server/database.c:87-102 | the slot of the connection becomes free and the counter grows; it stays true if and only if the slot was in use |
| ConnectionPool.Pool.Destroy | server/database.c:105-123 | with a true counter it proceeds if and only if no slot is in use, and closes every connection once |
| ConnectionPool.FourWorkersNeverWait | server/main.c:181 | the four workers never wait for one of the four connections |

## Left out

- SQL as text, escaping, collation, prepared statements, connection errors, delete_time and quote columns; each query is a selection or change on sets of rows, and rows of equal rank come in any order.
- Interleaving of several commands inside one query function: each is one atomic step. Autocommit state is not modelled.
- 32-bit truncation of ids in query_cd and of data_length in transfers: ids and lengths are unbounded.
- query_ls and query_ll: plain selections after query_cd.
- JWT, SHA-256 and random strings: opaque; salts and hashes are parameters.
- Sockets, epoll, pipes, mmap and ftruncate beyond what they do to connections and bytes: sizes of reads, disconnections and the page size are parameters; mmap fails only at an unaligned offset.
- Two simultaneous uploads of the same content into one file: sessions follow each other.
- The bcrypt self-test, x86.S, wrapper.c beyond the failure string, other salt generators, and the digits of pi: the initial tables are arbitrary.
- Overflow of the fixed 1024-byte path buffers: paths have any length, and only get_file_name states its bound.
- NUL bytes inside texts: strings are sequences without terminators, except where a buffer's terminator is part of a contract.
- Condition variables, lost wake-ups, the race on short_thread before it is set, and the forced exit by alarm: safety only, and the model starts when all workers exist.
- Reuse of descriptor numbers: connections are numbered as they are accepted.
- Creation and joining of threads, logging, configuration, argument splitting by spaces and the client's user interface.
- PathBuffers.GetFileName: its last component is shorter than 1024 characters, because the source copies it into a buffer of that size without a check.
- Waiting for a connection inside a query: the methods of Database.Store start when a slot is free, and other workers do not interleave with one query.
- WorkerPool.ExitLeavesNothing: for at least two workers; SingleWorkerStrands shows why.
