# MyFS: a verified model

MyFS keeps a file system in two MariaDB tables. `files` holds one row for each node, with its
parent and name; `file_data` holds a file's bytes in rows of at most 4096. FUSE callbacks walk
paths through `files` and read and write ranges of rows. This project models those operations in
Dafny, statement by statement and branch by branch, and proves what they do for every input,
every table the schema allows and every pattern of failing statements.

Dafny 4.11; `dafny verify dfyconfig.toml` checks all modules.

## How it is built

| module | models |
|---|---|
| `Blocks` | block arithmetic, the SQL string functions, rows against one flat byte sequence |
| `Database` | the two tables, the schema's constraints, the statements, a connection with transactions |
| `Append`, `Truncate`, `Write`, `Read` | the four loops over `file_data` |
| `RowWrite` | what the loops of a write make of any rows, well-formed or not |
| `Overrun` | how many bytes a read copies, and which reads are exact for all contents |
| `Store` | runs of them as a refinement of one flat byte sequence |
| `Tree`, `TreeChange`, `Shape` | `files` as a tree: depth, paths, and what each statement does to them |
| `Paths`, `Query` | path strings, tokens, and the lookups |
| `Namespace`, `Session`, `Runs` | the callbacks, the open-file table, whole runs of callbacks with their handles |
| `Reclaimer` | the reclaimer thread interleaved with its notifiers |
| `Retry` | the retry loop around every statement |
| `Chars`, `Config`, `ConfigFile` | in-place trimming and tokenising, the config parser and printer |

`Database.Connection` numbers the statements it sends. Those whose number is in `faults` fail for
outside reasons; `faults` is any finite set, so a contract about `Healthy` (no fault met so far)
covers every pattern of failures. Each method is tied to a predicate or function on the tables,
and the lemmas say what that predicate means.

Things the code does that its own documentation, or POSIX, would not lead one to expect are
stated as they are, each with the exact condition:

* A write inside a file is rejected when it needs one more block than its length alone suggests
  and that block exists (`Write.Collides`, `Write.CollidesMeaning`, `Write.FileWrite`).
* The recorded size after a write agrees with the contents only if the write stays inside the old
  contents or the old length is a multiple of the block size (`Write.SizeAgrees`).
* A write that starts behind the end does not fill the gap, and behind the bytes of a partial last
  block it loses bytes (`Write.RewrittenFaithful`).
* A read subtracts its running total from a 64-bit counter at each row, so a long read can stall
  (`Read.AlignedRead`, `Read.TriangularRead`, `Read.ThreeBlockRead`), and an unaligned read is only
  exact inside one row (`Read.UnalignedRead`).
* For the same reason a read that does not stall, ends inside a block and inside the file, and is
  longer than two blocks writes past its caller's buffer (`Overrun.ReadOverruns`).
* A path walk crashes when a directory on the way is missing (`Query.FileGet`), and a lookup that
  loads children when their query fails (`Query.FileQuery`).
* A name or path that does not fit its buffer is cut off: the node is then made or moved where its
  path does not lead (`Namespace.NodeFound`, `Namespace.RenameMeaning`).
* `create` leaves its node behind when no handle is free, or its path was cut off
  (`Session.LeftBehind`).
* A shrink blanks the block it cuts (`Truncate.ResizedFaithful`).
* The existence check of a rename looks up the wrong path: for a one-character name it always
  answers "exists" (`Namespace.PreCheckMeaning`).
* RENAME_EXCHANGE exchanges parents but not names, so the two paths never change places
  (`TreeChange.SwapNeverExchanges`), and two files of one name are never exchanged
  (`Namespace.SwapCodeMeaning`).
* A notification that arrives between the reclaimer's gate and its reset is dropped by that reset
  (`Reclaimer.RequestDuringRunIsLost`).
* `config.h` promises `false` for a file with an invalid setting; a later accepted handler setting
  overwrites the failure (`Config.FlagMeaning`, `Config.UnknownKeyUnreported`).

## Model

| member | source | states |
|---|---|---|
| Blocks.BlockCountIsCeiling | src/myfs/myfs_db.c:57-67 | the block count is the least number of blocks that hold the length |
| Blocks.SpanCount | src/myfs/myfs_db.c:144-146 | how the count from the length alone differs from the number of blocks a span touches |
| Blocks.FlatCut | src/myfs/myfs_db.c:372-396 | rows cut from a byte sequence hold exactly that sequence |
| Blocks.WellFormedIsCut | src/myfs/create.c:562-569 | well-formed rows are determined by their bytes |
| Blocks.CutOverwrite | src/myfs/myfs_db.c:207-212 | one SQL INSERT into a block overlays the flat bytes, also past a partial last block |
| Database.ApplyKeepsSchema | src/myfs/create.c:537-581 | no accepted statement breaks unique keys, foreign keys, column length or the root's protection |
| Database.Connection.Query | src/common/db.c:113-128 | a statement takes effect completely or, on a fault or a violated constraint, not at all |
| Database.Connection.Start | src/common/db.c:211-214 | a transaction remembers the tables it started from |
| Database.Connection.Stop | src/common/db.c:216-228 | commit keeps the tables, rollback restores those at the start |
| Append.FileAppend | src/myfs/myfs_db.c:281-405 | on any table: success iff no statement fails and the file exists (or there is nothing to append); then contents and size grow by the data and well-formedness is kept; no other file changes, and failure changes nothing |
| Append.PushRow | src/myfs/myfs_db.c:382-396 | an INSERT behind the last row is never rejected and extends the contents |
| Append.FillLast | src/myfs/myfs_db.c:339-365 | CONCAT on the last row extends the contents |
| Truncate.FileTruncate | src/myfs/myfs_db.c:621-826 | success iff no statement fails, the file exists and its rows hold the bytes to be taken away; exact resulting tables; no other file changes, and failure changes nothing |
| Truncate.ShrinkFile | src/myfs/myfs_db.c:749-818 | the shrink loop ends for every table, empty rows included, and running out of rows fails |
| Truncate.ShrinkTotal | src/myfs/myfs_db.c:752-818 | rows run out exactly when they hold too few bytes, otherwise exactly the difference is taken away |
| Truncate.ShrinkCut | src/myfs/myfs_db.c:790-817 | on well-formed rows a shrink gives the well-formed rows of the block-aligned prefix followed by spaces |
| Truncate.ResizedAt | src/myfs/myfs_db.c:714-738 | byte by byte: added bytes are spaces (32), and so are those a shrink leaves of the block it cuts |
| Truncate.ResizedFaithful | src/myfs/myfs_db.c:805-809 | a shrink keeps the prefix iff the bytes it blanks in the cut block were spaces (none at a block boundary) |
| Truncate.BlankExample | src/myfs/myfs_db.c:805-809 | cutting one of two bytes off blanks the other |
| Write.FileWrite | src/myfs/myfs_db.c:132-279 | for any rows and every offset: success iff no fault and the write fits, then exactly the rows of `RowWrite.RowsWrittenMeaning`; for well-formed rows it fits iff it does not collide, with exact contents and size; failure changes nothing, other files are never touched |
| RowWrite.RowsWrittenMeaning | src/myfs/myfs_db.c:180-270 | of any rows: each selected row gets its share, the rest goes into new rows behind the last of them, no other row changes, and the write is rejected iff one of the new rows is there |
| RowWrite.ReplacedFrom | src/myfs/myfs_db.c:181-226 | the overwriting loop gives every selected row its share of the bytes |
| RowWrite.FilledExact | src/myfs/myfs_db.c:247-270 | the adding loop succeeds iff none of its indexes is taken |
| Write.WriteExamples | src/myfs/myfs_db.c:144-245 | a write that collides, one whose recorded size is wrong, and one that loses a byte |
| Write.CollidesMeaning | src/myfs/myfs_db.c:146-165 | a collision is a write that touches more blocks than its length needs, when that block exists |
| Write.RewrittenFaithful | src/myfs/myfs_db.c:187-270 | a successful write does what POSIX says iff it starts inside the file, at a full end, or is empty; a gap before it is never filled |
| Write.SizeAgrees | src/myfs/myfs_db.c:233-241 | recorded size equals content length after a write iff it stays inside the old contents or the old length is block-aligned |
| Write.OverwriteNext | src/myfs/myfs_db.c:181-226 | each turn of the overwriting loop puts exactly the next chunk in place |
| Write.AddFirst | src/myfs/myfs_db.c:232-245 | when the selected rows are used up, either the next index is free and the size grows by the rest, or the write collides |
| Read.FileRead | src/myfs/myfs_db.c:559-619 | for a buffer of any length: overruns it iff what the wrapping counter lets through is longer; otherwise the buffer receives just that and nothing behind it changes; -1 iff the query fails |
| Read.UnalignedRead | src/myfs/myfs_db.c:597-607 | a read starting inside a block is exact iff it stays inside that block's row |
| Read.AlignedRead | src/myfs/myfs_db.c:572-611 | a block-aligned read of whole blocks or up to the end is exact iff the counter never stalls; `Overrun.AlignedReads` has the others |
| Read.TriangularRead | src/myfs/myfs_db.c:609-610 | below 2^38 bytes an aligned read to the end is exact iff its block count is no triangular number from 3 on |
| Read.ThreeBlockRead | src/myfs/myfs_db.c:610 | reading a three-block file whole returns two blocks |
| Read.SmallRead | src/myfs/myfs_db.c:592-611 | every aligned read of at most two blocks is exact |
| Read.CounterValue | src/myfs/myfs_db.c:610 | the counter after k full rows, modulo 2^64 |
| Overrun.LastCounter | src/myfs/myfs_db.c:610 | at the odd last row of two blocks and more the wrapped counter is never down to the odd bytes |
| Overrun.ReadOverruns | src/myfs/myfs_db.c:594-610 | a read writes past the `size` bytes of its caller iff it asks for two blocks and some odd bytes or more, the file goes on behind them and the counter never stalls; and how far it writes then |
| Overrun.TriangularOverrun | src/myfs/myfs_db.c:594-610 | the same below 2^38 bytes, by triangular numbers |
| Overrun.OverrunExample | src/myfs/myfs_db.c:594-610 | of a five-block file a read of 10000 bytes writes 12288 |
| Overrun.MiddleRead | src/myfs/myfs_db.c:592-611 | an aligned read that ends inside a block and inside the file is exact for all contents iff it asks for less than two blocks |
| Overrun.AlignedReads | src/myfs/myfs_db.c:572-611 | exactly which aligned reads are exact whatever the contents |
| Store.Perform | src/myfs/myfs_db.c:132-826 | one append, truncation or admissible write: exactly the flat operation or nothing, no other file touched, and when it succeeds |
| Store.Run | src/myfs/myfs_db.c:132-826 | every run refines the replay of its successful operations on one flat sequence and keeps the file well-formed with an agreeing size; without faults exactly the admissible operations that do not collide succeed, so the contents follow from the operations alone |
| Store.EffectAt | src/myfs/myfs_db.c:132-826 | each operation of a run byte by byte |
| Store.GoesMeaning | src/myfs/myfs_db.c:144-273 | only a write can fail to go through: behind the end, past a partial last block, or on a collision, in terms of block counts |
| Store.ReadBack | src/myfs/myfs_db.c:559-619 | a read in an exact window returns that window of the stored sequence |
| Store.TruncateEffect | src/myfs/myfs_db.c:660-819 | truncating a well-formed file gives the resized contents, byte by byte, and keeps it well-formed |
| Tree.DepthParent | src/myfs/myfs_db.c:893-896 | a parent is one step nearer to the root, so the recursion over parents ends |
| Tree.ResolveIff | src/myfs/myfs.c:96-125 | a list of names leads to a node iff it is the node's names from the root |
| Tree.BelowIsPrefix | src/myfs/myfs.c:96-125 | a node lies below another iff its path extends the other's |
| TreeChange.MoveKeepsTree | src/myfs/myfs_db.c:537-557 | a rename keeps the tree iff the new parent lies outside the moved subtree |
| TreeChange.MoveResolves | src/myfs/myfs.c:884-938 | where every path leads after a rename: new prefix for old, old prefix gone, all others as before |
| TreeChange.SwapKeepsTree | src/myfs/myfs_db.c:489-535 | a swap keeps the tree iff neither file is a proper ancestor of the other |
| TreeChange.SwapNeverExchanges | src/myfs/myfs_db.c:508-524 | after a swap one file's path leads to the other iff they are the same file |
| TreeChange.CreateResolves | src/myfs/myfs_db.c:98-111 | a new file is found at its path and no other path changes |
| TreeChange.CascadeIsSubtree | src/myfs/create.c:552 | the cascade of a deletion is exactly the subtree |
| TreeChange.DeleteKeepsTree | src/myfs/myfs_db.c:114-130 | deleting any file but the root leaves a tree with the root |
| TreeChange.DeleteResolves | src/myfs/myfs_db.c:114-130 | paths to and below a deleted file lead nowhere, all others lead where they did |
| Shape.TouchedKeepsTree | src/myfs/myfs_db.c:664-674 | operations on contents change no parent, name, kind or path |
| Paths.TokensJoin | src/myfs/myfs.c:111-118 | a separator joins the names of both sides |
| Paths.ExtraSeparators | src/myfs/myfs.c:111-118 | repeated, leading and trailing separators make no difference |
| Paths.TokensOfJoin | src/myfs/myfs.c:111-118 | tokenising joined names gives the names back |
| Paths.NameParts | src/myfs/util.c:19-55 | directory and base name together name the path, when neither is cut off |
| Query.FileQuery | src/myfs/myfs_db.c:863-965 | the parent recursion ends; without faults the row is found with all its parents; crashes iff the query for the children fails |
| Query.LoadedNames | src/myfs/myfs_db.c:893-896 | a completely loaded file carries the names of its path |
| Query.FileQueryName | src/myfs/myfs_db.c:967-1005 | the lookup of a key returns the one row that has it |
| Query.FileGet | src/myfs/myfs.c:96-125 | the path walk returns the node the path's names lead to; without faults it finds it whenever there is one, and crashes iff a proper prefix leads nowhere |
| Query.BreaksExample | src/myfs/myfs.c:112-118 | in an empty tree a path of two names crashes |
| Namespace.FileCreate | src/myfs/myfs_db.c:69-112 | a fresh id iff no fault, the parent exists and the key is free, else 0 and no change |
| Namespace.MakeNode | src/myfs/myfs.c:674-692 | one row is inserted under the path's directory and nothing else changes; when that succeeds, by the directory's entries; failure changes nothing; the tree is kept |
| Namespace.CreateCodeMeaning | src/myfs/myfs.c:678-690 | making a node succeeds iff the directory exists and has no entry of the name; an entry is EIO |
| Namespace.Mkdir | src/myfs/myfs.c:662-699 | the same for a directory |
| Namespace.NodeFound | src/myfs/myfs.c:670-692 | a node made at a path is found there iff splitting the path has lost nothing |
| Namespace.FileDelete | src/myfs/myfs_db.c:114-130 | what lies below the file goes, every other file keeps its row and its bytes; never the root; nothing without a row |
| Namespace.Unlink | src/myfs/myfs.c:590-619 | the subtree goes, every other file keeps its row and its bytes; exact result code |
| Namespace.Rmdir | src/myfs/myfs.c:621-660 | the same; refused for the root and for directories that have an entry |
| Namespace.RmdirRemovesOne | src/myfs/myfs.c:642-649 | behind the emptiness check the cascade takes the one row only |
| Namespace.PreCheckMeaning | src/myfs/myfs.c:897-901 | what the existence check of a rename really asks |
| Namespace.FileRename | src/myfs/myfs_db.c:537-557 | of an existing row, succeeds iff no other row has the key, so no entry is ever replaced; without a row, changes nothing |
| Namespace.RenameMove | src/myfs/myfs.c:884-938 | only the file's parent and name change; the tree is kept; exact result code |
| Namespace.MoveCodeMeaning | src/myfs/myfs.c:897-931 | a rename succeeds iff file and new directory exist, no other entry there has the name, and the root has none named like it without its first character |
| Namespace.RenameMeaning | src/myfs/myfs.c:884-938 | in path strings, for every successful move: the new path leads to the file iff splitting it has lost nothing; everything below moves along to where directory and base name lead; the old path is gone |
| Namespace.FileSwap | src/myfs/myfs_db.c:489-535 | both updates or none; success iff both keys are free in turn |
| Namespace.RenameSwap | src/myfs/myfs.c:849-882 | the two files exchange parents and nothing else changes; the tree is kept even if a parent could not be loaded; exact result code |
| Namespace.SwapCodeMeaning | src/myfs/myfs_db.c:489-535 | an exchange succeeds iff neither parent has another entry of the name it is to get; never for two files of one name |
| Namespace.Rename | src/myfs/myfs.c:940-962 | the flags decide between move, swap and EINVAL |
| Session.MyFs.Open | src/myfs/myfs.c:267-312 | the first free handle gets the file, with a cached size that agrees with well-formed contents; exactly when it succeeds, truncating opens included; other handles stay |
| Session.MyFs.Release | src/myfs/myfs.c:314-325 | the handle is free again and no other changes |
| Session.MyFs.Write | src/myfs/myfs.c:811-847 | append or write in place as the cached size decides; exactly when each succeeds and with what rows; a write at the cached size keeps it equal to the contents' length; failures change nothing |
| Session.MyFs.WriteAll | src/myfs/myfs.c:811-847 | any number of writes at the cached size: old contents followed by the buffers that were written, in order; without faults all of them |
| Session.InPlaceSize | src/myfs/myfs.c:842 | after a write in place the cached size is right iff nothing was written |
| Session.MyFs.Read | src/myfs/myfs.c:781-809 | clamped to the file's end, an exact window is returned as it is stored; exactly when the buffer is overrun |
| Session.MyFs.RoomEnough | src/myfs/myfs.c:794-799 | when the caller's buffer is too small for a clamped read |
| Session.PageReadExact | src/myfs/myfs.c:794-799 | every read that ends in the block it starts in is exact after clamping |
| Session.MyFs.AppendAndRead | src/myfs/myfs.c:781-847 | data just appended is read back, without faults always |
| Session.MyFs.Create | src/myfs/myfs.c:701-745 | a new empty file, opened with an agreeing size; exact result code; without faults the node is made iff its key is free |
| Session.LeftBehind | src/myfs/myfs.c:728-736 | with its key free a node is left behind with an error code iff every handle is taken, or splitting the path has lost something and the path led nowhere before |
| Session.LeftBehindExample | src/myfs/myfs.c:707-736 | creating a name of 65 characters leaves a node behind |
| Session.MyFs.Symlink | src/myfs/myfs.c:964-1001 | a link node whose contents are the target; exact result code |
| Session.MyFs.Readlink | src/myfs/myfs.c:1003-1040 | for a buffer of any length: the link's contents, cut to leave room for the NUL; success always leaves a NUL inside the buffer; exact result code, overruns included |
| Session.StoredWithin | src/myfs/myfs.c:1003-1040 | up to two blocks a read from the start of a file stays in its buffer for any rows, beyond that iff it does not overrun |
| Session.MyFs.LinkAndRead | src/myfs/myfs.c:964-1040 | what was linked is what is read back, or its first size-1 bytes, if splitting the path has lost nothing; exact result code |
| Runs.PathRoundTrip | src/myfs/myfs.c:96-125 | joining a node's names and resolving the path leads back to the node |
| Runs.SeparatorsDoNotMatter | src/myfs/myfs.c:111-118 | extra separators do not change where a path leads |
| Runs.MoveGuardAllows | src/myfs/myfs.c:884-938 | the check on path strings is exactly the one the tree needs |
| Runs.EverythingSent | src/myfs/myfs.c:590-1001 | a run refuses no call but those the kernel stops |
| Runs.Perform | src/myfs/myfs.c:267-1001 | every callback the kernel sends keeps schema and tree, has its whole effect on tables and handles or none (a new node may stay), and without faults returns the code the state gives, a `create` making its node whenever the key is free |
| Runs.Run | src/myfs/myfs.c:267-1001 | every run of callbacks is the sequence of their effects, through trees only, and leaves each node reached by its own path; without faults every code follows from the state; at most a crash ends it early |
| Runs.HeldChange | src/myfs/myfs.c:267-325 | an open takes one handle, a release gives one back, and no other call changes their number |
| Runs.FullCount | src/myfs/myfs.c:278-287 | every handle is taken iff as many are in use as there are, which is when an open in a run returns EMFILE |
| Runs.FreshTables | src/myfs/create.c:537-581 | the table that holds the root alone satisfies schema and tree, so that runs can start |
| Reclaimer.SharedIsPending | src/myfs/reclaimer.c:42-120 | over all interleavings the shared state records exactly the latest request no reset has followed |
| Reclaimer.PendingMeaning | src/myfs/reclaimer.c:181-197 | what is pending in a history, by events |
| Reclaimer.QueryFollowsRequest | src/myfs/reclaimer.c:86-108 | every OPTIMIZE follows a check that saw a pending request, old enough in optimistic mode |
| Reclaimer.CheckPasses | src/myfs/reclaimer.c:42-62 | a check goes on iff a request is due: the latest notification 1800 s old, or a deletion, with no reset since |
| Reclaimer.GatePasses | src/myfs/reclaimer.c:94-113 | the gate lets the thread through unless the latest query failed less than 30 s ago |
| Reclaimer.ThreadSteps | src/myfs/reclaimer.c:80-120 | what can happen next at every place of the thread, and where it leads |
| Reclaimer.RunsSeparated | src/myfs/reclaimer.c:108-116 | between two successful runs lie the first one's reset and then a new request |
| Reclaimer.RetryWaits | src/myfs/reclaimer.c:94-113 | the attempt after a failed one starts at least 30 seconds after the failure |
| Reclaimer.FailureKeepsRequest | src/myfs/reclaimer.c:109-113 | a failed run leaves the request pending until a reset |
| Reclaimer.RequestDuringRunIsLost | src/myfs/reclaimer.c:86-116 | for every reset: it drops a request made during its run iff there was one between the gate and the reset, and every later OPTIMIZE answers to a request made after the reset |
| Reclaimer.LostRequest | src/myfs/reclaimer.c:108-116 | a history in which a deletion during the query leaves nothing pending |
| Reclaimer.Globals.Play | src/myfs/reclaimer.c:42-120 | thread and notifiers run through any history leave in the globals exactly the latest request that no reset has followed, and the thread where the state machine has it |
| Retry.Client.QueryTimed | src/common/db.c:62-106 | for all settings: one attempt without a wait, at most the retry count otherwise, exactly that many when it fails; each attempt is timed by readings of the clock and waits out the time since the last failure; result and error are those of the last attempt |
| Chars.TrimMeaning | src/common/config.c:195-217 | trimming removes exactly the outer whitespace |
| Chars.TrimIdempotent | src/common/config.c:195-217 | trimming twice is trimming once; trimmed strings are the fixed points |
| Chars.TrimExample | src/common/config.c:195-217 | every kind of outer whitespace goes, inner blanks and separators stay |
| Chars.ConfigTrim | src/common/config.c:195-217 | the string in the buffer is trimmed in place and no byte outside it is written |
| Chars.StrTokR | src/common/config.c:274-279 | one token is cut off in place, the rest stands where the next call looks, and no byte outside the string is written |
| Config.Parameters.ReadFile | src/common/config.c:246-314 | the list and the result flag after a file are those of its settings applied in order |
| Config.Parameters.Set | src/common/config.c:399-416 | the first parameter of that name gets the value; false iff there is none |
| Config.ReadIsAssign | src/common/config.c:265-310 | reading a file is applying the settings parsed from it |
| Config.LineMeaning | src/common/config.c:261 | a line ends with its newline, with the file, or where the buffer is full |
| Config.SplitMeaning | src/common/config.c:265-281 | the key is what precedes the first separator, the value all that follows; comments and lines without key or value set nothing |
| Config.FlagMeaning | src/common/config.c:287-307 | exactly when a file with invalid settings is reported |
| Config.UnknownKeyUnreported | src/common/config.c:292-306 | an unknown key that goes unreported |
| Config.ParseSetting | src/common/config.c:265-281 | a printed setting is parsed to its key and trimmed value; a blank value is no setting |
| Config.PrintedSettings | src/common/config.c:265-281 | the settings read from any printed file are those printed, trimmed |
| ConfigFile.SettingLines | src/myfs/create.c:324-355 | the settings of the generated file, in order |
| ConfigFile.AssignStores | src/common/config.c:283-307 | one setting stores its value, or what the handler makes of it, under its own key and nowhere else; a rejected value is not stored; and its result flag |
| ConfigFile.LatestDecides | src/common/config.c:261-310 | of several settings of one key the latest decides |
| ConfigFile.ReadBackValue | src/myfs/create.c:324-358 | what each parameter holds after the generated file has been read |
| ConfigFile.SettingsSurvive | src/myfs/create.c:336-352 | a string setting survives iff it has no outer whitespace (or is blank and was the value already) |
| ConfigFile.RegisterAll | src/myfs/main.c:239-254 | the registrations at the start of `main` give distinct names, each its own in the file, with the printed string settings stored plainly |
| ConfigFile.StartUp | src/myfs/main.c:239-262 | after registration and reading the generated file a string setting is the printed one iff that has no outer whitespace and is not blank |

## Left out

- MariaDB itself: queries are modelled by their effect on the tables; COMMIT and ROLLBACK are taken to succeed, and SQL text and escaping do not appear.
- `file_data_id`: a row of `file_data` is named by its unique key (`file_id`, `index`) instead, and a file's rows are kept in index order.
- Integer widths: the read counter wraps at 2^64; all other numbers are unbounded, which assumes fewer than 2^32 blocks and file ids.
- Name comparison ignores the collation: names are equal when their characters are.
- Read.FileRead: after an overrun nothing is said of any memory. Bytes read past a row's end are unknown values.
- Session.MyFs.Read: assumes, as the kernel ensures, that a read does not start behind the cached size.
- Runs.Run: reads, writes and `readlink` are not calls of a run; `Session` has them.
- Runs.FreshTables: starts from the root row with size 0; the statement in `create.c` that inserts it names other columns than the table has.
- Query.FileQuery: counts a directory's children but does not load them, so a directory listing does not appear.
- Namespace.RenameMove: assumes the kernel's checks, that the root is not moved and nothing moves below itself; `Runs.MoveGuardAllows` shows that the path strings decide them.
- Namespace.RenameSwap: assumes the kernel's check that neither path is the root or lies below the other.
- Store.Run: a write that starts at or behind the end, or runs past a partial last block, is not part of a run; `Write.FileWrite` says what it does.
- Cached sizes after a truncating open, a truncate through the handle or a write in place do not agree with the store, and nothing is claimed of them beyond `Session.InPlaceSize`.
- Reclaimer.Globals.Play: the thread's steps are interleaved with notifications as atomic events; thread start, the connection and liveness are not modelled.
- ConfigFile.StartUp: the command line, which may change a setting before and after the file, is left out.
- Retry.Client.QueryTimed: the clock and the server's answers are parameters; sleeping is a repeated look at the clock.
- ConfigFile.SettingsSurvive: lines longer than the line buffer, which the parser splits, are excluded.
- Callbacks run one after another, not concurrently.
- Users, groups, modes, times, statfs, logging, prompts, command line parsing, FUSE wiring and memory management.
