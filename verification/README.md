# OS-ARM kernel logic in Dafny

OS-ARM is a small teaching kernel for an ARM board. This project models its four stateful parts and proves what
they keep over whole runs: the on-disk file system AbyssFS, processes with scheduling and message queues, paths
and C strings, and RamFS with descriptors and namespaces. Each part has two layers.

* **State as values.** A decoded state and one function per kernel operation (`AbyssSpec`, `ProcSpec`, `RamSpec`,
  `VfsSpec`, the first halves of `ShellPaths`, `Tokens`, `Namespaces` and `MessageRing`). The theorems about runs,
  round trips and conservation are lemmas about these functions.
* **State in memory.** Classes over byte arrays, a `bv64` bitmap and linked lists, with the loops, pointer walks and
  in-place edits of the C code (`AbyssFs.Volume`, `Processes.Kernel`, `MessageRing.Mailbox`, `ShellPaths.Shell`,
  `RamFs.Table`, `Vfs.FileTable`, `Namespaces.Namespace`). Every method is proved to change the decoded state
  exactly as the function of the same name says, so the theorems hold of the memory too. What each of these functions
computes is stated a second time, without its body, by a lemma (mostly called `...Exact` or `...Succeeds`).

Pointers into a buffer are offsets; a `const char *` argument is the byte sequence from the pointer on. Integer
widths are written out where they matter: `round_up` and the record length are 8 bits wide, inode fields 32 bits.

| file | part |
|---|---|
| `Bytes`, `CStrings`, `Tokens` | memory, string.c, the tokenizer |
| `ShellPaths` | get_parent_dir, normalize_path, cmd_cd |
| `Bitmap`, `DirRecords`, `AbyssLayout` | bitmap, directory records, block layout of AbyssFS |
| `AbyssSpec`, `AbyssInvariant`, `AbyssRuns`, `AbyssPaths`, `AbyssFs` | the AbyssFS machine, its invariant, its runs, its path strings, its memory |
| `ProcSpec`, `ProcRuns`, `Processes` | the process machine, its runs, the linked process list |
| `MessageRing` | queue_message and receive_message |
| `RamSpec`, `RamFs`, `VfsSpec`, `Vfs` | slots, streams, descriptors, cp and mv |
| `Namespaces` | bind, unbind and the two resolvers |

## Findings

Where a property that a reader of the code would expect holds only under a condition, the lemma named proves the
condition exact, in both directions.

* mkdir does not clear the block it takes. The directory it leaves lists "." and ".." exactly when byte 261 of that
  block was zero (`AbyssRuns.MkdirDots`). A file of 262 bytes or more that was written and unlinked leaves such a
  block behind (`AbyssRuns.StaleBlock`), already in three steps from the state abyssfs_init builds
  (`AbyssRuns.StaleRun`).
* create_file cuts the length fields of a record to 8 bits and does not look at the end of the block. The directory
  lists the old entries and the new one exactly when the name has at most 245 bytes and the next length byte still
  lies in the block (`DirRecords.AppendedExact`).
* Timer ticks never end in the endless loop of schedule exactly when two processes are runnable
  (`ProcRuns.TicksNeverHang`); the state init_process builds does not survive its first tick (`ProcRuns.InitHangs`).
* From the empty cwd a process starts with, `cd` differs from `cd` in the root exactly for a relative argument whose
  only components are "." (`ShellPaths.CdFromEmpty`); then cwd stays empty. Once it is not empty it never is again
  (`ShellPaths.CdRunCanonical`).
* With an empty cwd and a relative path, vfs_create and vfs_unlink look at the byte in front of their path buffer.
  The model requires that this does not happen (`VfsSpec.Placed`).
* resolve_namespace_path undoes resolve_path exactly when no slash has to be put in
  (`Namespaces.ResolveBackUndoes`, `Namespaces.SingleBinding`).
* mv unlinks its source also when cp has failed, and cp never replaces a file. Whether the destination then has the
  bytes of the source is told exactly, for all names, from the state before (`VfsSpec.MvExact`). For two different
  names (`VfsSpec.MvToOtherName`): if a descriptor and a free slot in front of every file called like the destination
  are left, then exactly when a second descriptor is left or the source is empty; otherwise exactly when the
  destination had those bytes already. So mv onto a name in use can lose them with room for everything
  (`VfsSpec.MvLosesBytes`).
* The path that names the copy made by cp opens it exactly when no earlier slot has that path
  (`RamSpec.CreatedIsFound`, `VfsSpec.CpCopies`).
* find_mount and vfs_open disagree on "/tmp" itself and on names that merely start with it
  (`VfsSpec.MountsOfInit`).
* The free-block counter is one ahead of the number of clear blocks for ever, because abyssfs_init marks the root
  block without counting it (`AbyssRuns.RunKeepsOwnership`).

## Model

| member | source | states |
|---|---|---|
| AbyssRuns.RunKeepsOwnership | abyssfs.c:300-371 | After any run of create, mkdir, write and unlink a data block is marked in the bitmap exactly when one and only one live inode has it, and the free counter is the number of clear blocks plus one. |
| AbyssRuns.InitKeeps | abyssfs.c:91-176 | The state abyssfs_init builds satisfies the invariant of all runs, and the root lists "." and "..". |
| AbyssInvariant.MarkedIffOneOwner | abyssfs.c:300-317 | Under the invariant, a marked data block has exactly one live owner and a clear one has none. |
| AbyssInvariant.OwnedAfterRelease | abyssfs.c:634-640 | Freeing an inode and its block leaves blocks and owners one to one and the count right; the block was marked before. |
| AbyssInvariant.NewBlockOwned | abyssfs.c:300-310 | Giving the first clear block to a live inode without one keeps blocks and owners one to one and the count right. |
| AbyssInvariant.DirectoryBlock | abyssfs.c:320-334 | No live inode shares its block with a directory. |
| AbyssInvariant.WriteKeeps | abyssfs.c:272-290 | Writing to a live file keeps the invariant and every directory listing. |
| AbyssInvariant.AddEntryKeeps | abyssfs.c:188-243 | Entering a name for an inode no directory names keeps the invariant, appends one entry to that directory and changes no other listing. |
| AbyssInvariant.UnlinkKeeps | abyssfs.c:611-660 | Unlinking any name but the dots keeps the invariant, in particular unique links and single owners. |
| AbyssRuns.CreateKeeps | abyssfs.c:415-449 | create keeps the invariant; on success one fresh inode is appended to the listing of the current directory and nothing else is listed differently; on failure no listing changes. |
| AbyssRuns.MkdirKeeps | abyssfs.c:719-786 | The same for mkdir, whose new inode lists exactly "." and "..". |
| AbyssRuns.EnterKeeps | abyssfs.c:188-243 | The step create and mkdir share: entering the name of the inode just taken keeps the invariant and appends one entry to one listing. |
| AbyssRuns.MkdirResolves | abyssfs.c:662-786 | After mkdir of a fresh name, its lookup behind the path of the current directory finds the new inode, which lists "." and "..". |
| AbyssRuns.MkdirThenLookup | abyssfs.c:662-786 | After mkdir of the fresh path "/name" in the root, get_inode_by_path of the same path returns the new inode. |
| AbyssPaths.MkdirFound | abyssfs.c:662-786 | In every canonical current directory: after mkdir of a fresh name, get_inode_by_path of the string cwd, slash, name returns the new inode, which lists "." and "..". |
| AbyssPaths.CreateFound | abyssfs.c:415-449 | After create of a fresh name, that path returns the inode of the new handle. |
| AbyssPaths.RenderedWords | abyssfs.c:662-717 | A path that spells a stack of names within 256 characters is looked up as exactly these names, as an argument and as the current directory. |
| AbyssPaths.ChildWords | abyssfs.c:662-717 | So is such a path with one more name. |
| AbyssPaths.PathWordsExact | abyssfs.c:662-717 | All maximal pieces of a path of up to 255 characters behind its leading slashes are looked up, and those of the first 255 characters of a longer one. |
| AbyssPaths.SkipSlashesExact | abyssfs.c:667-667 | Exactly the leading slashes of a path are skipped. |
| AbyssPaths.NewNameExact | abyssfs.c:233-234 | The new name is what follows the last slash. |
| AbyssPaths.LookupStep | abyssfs.c:681-714 | Behind a directory found, a lookup goes on to the first entry of the next name, and fails exactly when there is none. |
| AbyssRuns.CreateResolves | abyssfs.c:415-449 | After create of a fresh name, its lookup behind the path of the current directory finds the new inode. |
| AbyssRuns.AllocInodeFails | abyssfs.c:336-371 | No inode is handed out exactly when none is free. |
| AbyssRuns.AllocBlockFails | abyssfs.c:300-310 | No block is handed out exactly when all data blocks are marked. |
| AbyssRuns.CreateSucceeds | abyssfs.c:415-449 | create succeeds exactly when an inode is free and the current directory resolves to an inode with a block; a failure changes nothing or loses one free inode. |
| AbyssRuns.MkdirSucceeds | abyssfs.c:719-786 | mkdir succeeds exactly when besides a data block is clear; what a failure keeps is told exactly. |
| AbyssRuns.UnlinkSucceeds | abyssfs.c:611-660 | unlink succeeds exactly when the root lists the name, and else changes nothing. |
| AbyssRuns.OldPathsSurvive | abyssfs.c:662-786 | Every path through directories that resolved before create or mkdir resolves to the same inode afterwards. |
| AbyssRuns.WalkExtends | abyssfs.c:681-714 | Lookups through directories are stable when live inodes stay and listings only grow at their end. |
| AbyssRuns.UnlinkExact | abyssfs.c:625-656 | unlink removes exactly the first entry of that name, in order, frees exactly the inode and block it named, and changes no other directory. |
| AbyssRuns.UnlinkUndoesMkdir | abyssfs.c:611-786 | unlink of a name just made in the root restores the listings, the marked blocks, the counter and the live inodes. |
| AbyssRuns.ReadBack | abyssfs.c:246-290 | One write of at most 4096 bytes to a fresh file, then reads of any sizes, deliver exactly the bytes written; no other inode or data block and no later byte of the block changes. |
| AbyssRuns.WriteAgain | abyssfs.c:589-608 | A write to a file with a block overwrites the front of that block, keeps the rest, and adds its count to the 32-bit size. |
| AbyssRuns.CreatedFileIsFresh | abyssfs.c:415-449 | The handle create returns is on such a fresh file. |
| AbyssRuns.StaleBlock | abyssfs.c:719-786 | After write and unlink of a file of at least 262 bytes, the next mkdir leaves a directory that lists the dots exactly when byte 261 of the file was zero. |
| AbyssRuns.MkdirDots | abyssfs.c:719-786 | The directory mkdir leaves, whatever create_file did, lists exactly "." and ".." if and only if byte 261 of the block taken was zero. |
| AbyssRuns.StaleRun | abyssfs.c:719-786 | From the state of abyssfs_init, creating, writing and unlinking one file is an allowed run after which mkdir goes wrong for every file with a non-zero byte 261. |
| DirRecords.FreshDirectory | abyssfs.c:752-770 | The two records mkdir stores decode to "." and ".." exactly when byte 261 of the block is zero. |
| DirRecords.RecordLengthFits | abyssfs.c:51-53 | The 8-bit length covers a record exactly for names up to 245 bytes and is then the least multiple of four that does. |
| DirRecords.WordRoundTrip | abyssfs.c:236-236 | A stored inode number reads back. |
| DirRecords.ChainShift | abyssfs.c:643-650 | Records decode the same at every position in a block. |
| DirRecords.StoredRecord | abyssfs.c:236-240 | The bytes create_file stores decode to the entry. |
| DirRecords.AppendKeepsChain | abyssfs.c:218-240 | Cutting the last record, clearing the rest and storing a record gives a well-formed chain inside the block whose listing is the old one plus the entry, whatever slack the last record had. |
| DirRecords.AppendedEntries | abyssfs.c:218-240 | For a name that fits, the block create_file leaves is a chain that lists the old entries and the new one. |
| DirRecords.AppendedExact | abyssfs.c:218-240 | For every name whose stores stay in the block: the block left is a chain listing the old entries and the new one exactly when the name has at most 245 bytes and the next length byte lies in the block. |
| DirRecords.DeleteKeepsChain | abyssfs.c:643-650 | Moving the rest down, or clearing the last record, gives a well-formed chain whose listing lacks exactly the first entry of that name. |
| DirRecords.DeletedEntries | abyssfs.c:643-650 | The same for the block unlink leaves. |
| DirRecords.WithoutRemovesFirst | abyssfs.c:625-656 | Taking out the first entry of a name keeps all others in order. |
| DirRecords.FindAgrees | abyssfs.c:625-656 | The walk over records stops at the record of the first entry of that name, or at the end when there is none. |
| DirRecords.LastEnd | abyssfs.c:218-227 | Only the last record has slack, so minimal sizes add up to the place create_file appends at. |
| Bitmap.MarkAdds | abyssfs.c:300-310 | Setting a bit adds exactly its block to the marked ones. |
| Bitmap.ClearRemoves | abyssfs.c:312-317 | Clearing a bit removes exactly its block. |
| AbyssLayout.WriteInBlock | abyssfs.c:293-298 | Bytes written inside one data block change no inode and no other block. |
| AbyssLayout.WriteWord | abyssfs.c:320-334 | A word written into an inode changes that field of that inode and nothing else that is decoded. |
| AbyssFs.Volume.constructor | abyssfs.c:91-176 | The memory decodes to the initial state. |
| AbyssFs.Volume.GetBlock | abyssfs.c:293-298 | The offset of a block, all of which lies inside the disk; nothing for a number out of range. |
| AbyssFs.Volume.GetInode | abyssfs.c:320-334 | The offset of an inode, all of which lies in blocks 1 to 8; nothing for a number out of range. |
| AbyssFs.Volume.AllocBlock | abyssfs.c:300-310 | Marks and counts the first clear data block, or returns 0 and changes nothing. |
| AbyssFs.Volume.FreeBlock | abyssfs.c:312-317 | Clears the mark of that block and counts it. |
| AbyssFs.Volume.AllocInode | abyssfs.c:336-371 | Takes the first inode with mode zero and resets it, or returns 0 and changes nothing. |
| AbyssFs.Volume.FindRecord | abyssfs.c:693-704 | The pointer walk over records stops at the first record whose name is the C string asked for. |
| AbyssFs.Volume.GetInodeByPath | abyssfs.c:662-717 | Tokenizing a truncated copy and searching block by block computes the component-wise lookup in the decoded listings. |
| AbyssFs.Volume.FindLast | abyssfs.c:218-221 | The walk of create_file ends at the last record of the chain. |
| AbyssFs.Volume.StoreRecord | abyssfs.c:236-240 | The field-by-field stores make up one record of the entry, for every name, with the 8-bit length. |
| AbyssFs.Volume.AppendRecord | abyssfs.c:223-240 | On the bytes of the disk only the directory's block changes, to the block with the entry appended. |
| AbyssFs.Volume.CreateFile | abyssfs.c:188-243 | Appends the basename in the directory that the current directory resolves to; the error cases change nothing. |
| AbyssFs.Volume.Create | abyssfs.c:415-449 | Memory after create decodes to the specified state, also on failure and for names too long; the invariant is kept when the name fits; the handle starts at 0. |
| AbyssFs.Volume.Open | abyssfs.c:452-468 | Every handle of open is on inode 0. |
| AbyssFs.Volume.Mkdir | abyssfs.c:719-786 | Memory after mkdir decodes to the specified state, also with a stale block; what was allocated before a failure stays allocated; the invariant is kept when the block and the name allow it. |
| AbyssFs.Volume.WriteToBlocks | abyssfs.c:589-608 | At most 4096 bytes go to the start of the file's one block, allocated on first use. |
| AbyssFs.Volume.Write | abyssfs.c:272-290 | Memory after write decodes to the specified state, with the 32-bit size, for handles on any inode; the invariant is kept for live files. |
| AbyssFs.Volume.Read | abyssfs.c:246-269 | Delivers the bytes from the position up to count or the size, and advances by their number. |
| AbyssFs.Volume.Unlink | abyssfs.c:611-660 | Memory after unlink decodes to the specified state, also when nothing is found and for the dots; the invariant is kept for all other names. |
| AbyssFs.Volume.ReleaseInode | abyssfs.c:634-640 | The inode becomes free and its block, if any, is returned once. |
| AbyssFs.Volume.RemoveRecord | abyssfs.c:643-650 | The overlapping move or the clearing on the raw bytes changes only the root block, to the block without the entry. |
| AbyssFs.Volume.ReadDir | abyssfs.c:476-513 | Returns the decoded listing of the directory, cut at the given count. |
| ProcRuns.RunsAreSafe | process.c:69-107 | In every reachable state no blocked process has a zombie child and no MSG_WAIT has returned -1; unless stuck, exactly the current process is running; zombie and dead processes never run again. |
| ProcRuns.StepKeeps | message.c:67-104 | Every kernel call keeps unique pids, parents older than children, one running process and the wake-up invariants. |
| ProcRuns.StepAges | process.c:277-296 | No call revives a zombie or dead process or changes who a process is. |
| ProcRuns.InitExact | process.c:149-169 | Process 1 without parent runs alone, and the next pid is 2. |
| ProcRuns.ForkExact | process.c:180-208 | A fork puts a ready child of the caller in front under a fresh pid; every older process is unchanged and the caller still runs. |
| ProcRuns.SpawnExact | process.c:40-65 | process_create puts a ready process in front that is the child of none in the list. |
| ProcRuns.ScheduleExact | process.c:69-107 | The first ready process runs next, the old one becomes ready only if it was running, and nobody else changes; without a ready process nothing changes but that the machine is stuck. |
| ProcRuns.WaitExact | message.c:74-85 | With a zombie child MSG_WAIT reports the status of the first one and changes nothing else. |
| ProcRuns.WaitBlocks | message.c:88-89 | Without one the caller of MSG_WAIT or handle_wait_message blocks and the first ready process runs; nobody else changes. |
| ProcRuns.ReapExact | process.c:353-360 | handle_wait_message makes the child it reports dead, and changes nothing else. |
| ProcRuns.ReapedOnce | process.c:348-367 | Over any later run that child is nobody's zombie child again, so it is not reported twice. |
| ProcRuns.ExitExact | process.c:277-296 | The caller is a zombie with its status, a blocked parent is woken, and no other process changes but the one switched to. |
| ProcRuns.ForkedStatusReported | message.c:49-104 | After a fork and any run in which the child has exited and is the caller's only zombie child, MSG_WAIT of the caller reports exactly the child's status. |
| ProcRuns.ForkWaitExit | message.c:49-104 | Fork, wait and exit in a row: the child runs as soon as its parent waits, and its status is what the parent was told when it runs again. |
| ProcRuns.ScheduleKeeps | process.c:69-107 | Handing over the processor keeps the invariant; a process that resumes inside MSG_WAIT finds the zombie it was woken for. |
| ProcRuns.ExitKeeps | process.c:277-296 | Exit turns the current process into a zombie and loses no wake-up of its parent. |
| ProcRuns.ExitDeliversStatus | message.c:88-103 | A child that exits hands exactly its status to a parent suspended in MSG_WAIT that is the next to run. |
| ProcRuns.StepReports | message.c:67-104 | Every kernel call keeps it true that each status a process was told by MSG_WAIT is that of a terminated child of its own. |
| ProcRuns.RunsReportTrue | message.c:67-104 | So it is in every reachable state. |
| ProcRuns.TickMoves | process.c:69-103 | A tick runs the first runnable entry of the list, or the second when the first was running. |
| ProcRuns.TicksAlternate | timer.c:58-73 | After n ticks, for every n, the running process is given in closed form: from the first tick on the first two runnable entries alternate. |
| ProcRuns.TicksNeverHang | process.c:104-107 | No number of ticks ends in the endless loop exactly when two processes are runnable. |
| ProcRuns.InitHangs | process.c:149-169 | The state init_process builds is stuck after one tick. |
| Processes.Kernel.constructor | process.c:149-169 | The list decodes to the initial state with one running process. |
| Processes.Kernel.FindProcess | process.c:265-274 | The first list entry with that pid, or NULL. |
| Processes.Kernel.FindZombie | message.c:74-85 | The first zombie child in list order, or NULL. |
| Processes.Kernel.FindReady | process.c:74-80 | The first ready entry in list order, or NULL. |
| Processes.Kernel.Schedule | process.c:69-107 | The list after schedule decodes to the specified state, including the stuck loop. |
| Processes.Kernel.ContextSwitch | message.c:90-103 | The process switched to finishes its pending MSG_WAIT with the second scan. |
| Processes.Kernel.Tick | timer.c:58-73 | A timer interrupt is one call of schedule and keeps the invariant. |
| Processes.Kernel.Fork | process.c:180-208 | A ready child with the caller's pid as parent and the next pid, at the head of the list. |
| Processes.Kernel.Spawn | process.c:40-65 | A ready orphan with the next pid at the head of the list. |
| Processes.Kernel.Wait | message.c:67-104 | Returns the status of the first zombie child or blocks and switches, as specified, keeping the invariant. |
| Processes.Kernel.Reap | process.c:348-367 | Reports and buries the first zombie child or blocks and switches. |
| Processes.Kernel.Exit | process.c:277-296 | Becomes a zombie, wakes a blocked parent and switches, as specified, keeping the invariant. |
| MessageRing.RunIsFifo | message.c:8-26 | Over every run from the empty mailbox, told by calls and answers: messages returned and then those queued are the messages sent with success, in order; the next send succeeds exactly when fewer than 32 wait; the next receive fails exactly when none waits and else returns the oldest; the owner is marked blocked exactly when a blocking receive failed since the last send. |
| MessageRing.StoreAppends | message.c:15-17 | Storing at the tail appends to the ring's contents, and tail stays (head + count) mod 32. |
| MessageRing.TakeDropsFirst | message.c:133-135 | Advancing the head drops the first message of the ring's contents. |
| MessageRing.Mailbox.QueueMessage | message.c:8-26 | Appends to the queue unless 32 are waiting, and unblocks the owner. |
| MessageRing.Mailbox.ReceiveMessage | message.c:119-139 | Delivers the oldest message; from an empty queue it fails and marks a blocking owner. |
| CStrings.Strlen | string.c:19-23 | The number of characters in front of the first NUL. |
| CStrings.Strcmp | string.c:11-17 | Zero exactly for equal strings, negative exactly for the lesser one in unsigned byte order. |
| CStrings.Strncmp | string.c:32-40 | The same for the first n characters. |
| CStrings.Strcpy | string.c:42-46 | Copies string and terminator and touches nothing else. |
| CStrings.Strncpy | string.c:55-64 | At most n characters, padded with NULs to n; nothing else changes. |
| CStrings.Strcat | string.c:48-53 | The buffer then holds the concatenation; nothing behind it changes. |
| CStrings.Strrchr | string.c:66-81 | The last occurrence of a character, if any; for NUL the terminator. |
| CStrings.Memset | string.c:3-9 | Fills exactly the region. |
| CStrings.Memcpy | string.c:25-30 | Copies exactly the region. |
| CStrings.Memmove | string.c:165-184 | For every pair of regions in one array, overlapping either way, the destination receives the original source bytes and all else is unchanged. |
| Tokens.Strspn | string.c:107-124 | Where the first byte that is no delimiter stands. |
| Tokens.Strpbrk | string.c:126-138 | The first delimiter, or NULL. |
| Tokens.StrtokR | string.c:140-163 | Cuts off the next piece as a string of its own with one NUL, and saveptr points at the rest. |
| Tokens.Tokenize | string.c:140-163 | The call loop terminates on every buffer and delivers the pieces of the string that was there. |
| Tokens.SpansExact | string.c:140-163 | The pieces are all the non-empty maximal delimiter-free stretches and nothing else. |
| Tokens.SplitFollowsSpans | string.c:140-163 | They come in order, separated by delimiters, with the texts of their stretches. |
| Tokens.SplitJoined | string.c:140-163 | The pieces of two strings with a slash between them are those of the one and then those of the other. |
| ShellPaths.ParentUndoesPush | shell.c:67-101 | get_parent_dir undoes one push on a component stack. |
| ShellPaths.ParentElsewhere | shell.c:67-101 | get_parent_dir ignores one trailing slash and leaves a single relative component alone. |
| ShellPaths.StepsPush | shell.c:161-174 | Components that are names are pushed in order. |
| ShellPaths.StepsDots | shell.c:161-174 | ".." takes back one push and stays at the root, "." does nothing. |
| ShellPaths.StepsCompose | shell.c:161-174 | Following one list of components and then another is following both in a row. |
| ShellPaths.CdFollowsStack | shell.c:142-174 | From a canonical cwd the computed path spells the stack that the argument's components lead to, "." staying, ".." popping and staying at the root. |
| ShellPaths.CdFromEmpty | shell.c:142-174 | From the empty cwd the same holds exactly when the argument is absolute or has a component other than "."; else the path stays empty. |
| ShellPaths.ShortcutsAgree | shell.c:132-139 | The shortcuts for "." and ".." compute what the general loop would. |
| ShellPaths.CdExact | shell.c:124-187 | From a canonical cwd: no argument goes to the root, "." and ".." are always followed, and any other argument is followed exactly when vfs_open accepts the path it leads to; else cwd stays. |
| ShellPaths.CdExactEmpty | shell.c:124-187 | The same from the empty cwd of a fresh process. |
| ShellPaths.CdThereAndBack | shell.c:124-187 | cd into a subdirectory that opens goes there, and cd to ".." comes back. |
| ShellPaths.CdKeepsCanonical | shell.c:124-187 | Every cd from an empty or canonical cwd, successful or not, leaves it empty or canonical, and empty only if it was. |
| ShellPaths.CdRunCanonical | shell.c:124-187 | So does every run of cd calls. |
| ShellPaths.SplitRender | shell.c:160-174 | Splitting a rendered path gives back its stack. |
| ShellPaths.EnterAllRefinesSteps | shell.c:160-174 | The string edits of the component loop follow the fold over the stack. |
| ShellPaths.NormalizeIdempotent | shell.c:104-122 | No "//" is left from index 1 on, and normalising again changes nothing. |
| ShellPaths.NormalizeKeepsPieces | shell.c:104-122 | Normalising does not change the list of components. |
| ShellPaths.NormalizeEnds | shell.c:104-122 | Normalising keeps the first and the last character and a second leading slash. |
| ShellPaths.GetParentDir | shell.c:67-101 | The in-place edit computes the parent path for every string. |
| ShellPaths.NormalizePath | shell.c:104-122 | The in-place compaction computes the normal form and touches nothing behind the old terminator. |
| ShellPaths.Shell.CmdCd | shell.c:124-187 | cwd afterwards, in all cases: no argument, shortcuts, general loop, failing open; for a canonical cwd told by the component stack. |
| ShellPaths.Shell.WalkComponents | shell.c:154-174 | The strtok_r loop over a copied path enters its components in order, within the buffer. |
| RamSpec.BaseExact | ramfs.c:333-358 | A path has base b in d exactly when it is d, a slash and b, with no slash in b. |
| RamSpec.ChildrenExact | ramfs.c:316-330 | A listing has an entry for exactly the used slots directly in the directory, in slot order. |
| RamSpec.CreateInsertsName | ramfs.c:367-412 | Creating a file inserts its name at its slot's place in its directory's listing and changes no other listing. |
| RamSpec.CreatedIsFound | ramfs.c:121-152 | The path opens the new file exactly when no earlier slot has it. |
| RamSpec.UnlinkUndoesCreate | ramfs.c:414-437 | Then unlinking restores every lookup and listing. |
| RamSpec.CreateExact | ramfs.c:367-412 | create fails exactly when every slot is used; else the first unused slot holds an empty file under the full path, and nothing else changes. |
| RamSpec.UnlinkExact | ramfs.c:414-437 | unlink fails exactly when no used slot has the path; else exactly the first such slot becomes unused. |
| RamSpec.FullPathExact | ramfs.c:372-379 | Every file lies under "/tmp/", with the path given as the rest, or as it is when it lies there already. |
| RamSpec.WriteExact | ramfs.c:96-112 | Byte by byte what a write leaves, what it cuts off, and exactly when and how far the file grows. |
| RamSpec.WriteInside | ramfs.c:96-112 | A write in front of the end keeps the size and all other bytes. |
| RamSpec.WrittenIsRead | ramfs.c:49-118 | Bytes written are read back at the same position. |
| RamFs.IsFileInDir | ramfs.c:333-353 | True exactly when the file lies directly in the directory; the "/tmp" branch decides the same. |
| RamFs.GetBasename | ramfs.c:355-358 | What follows the last slash; for a file in a directory, its base there. |
| RamFs.Table.constructor | ramfs.c:154-161 | Sixteen unused slots that share no memory. |
| RamFs.Table.Open | ramfs.c:121-152 | A stream at 0 on the first used slot with the path, or NULL. |
| RamFs.Table.Read | ramfs.c:49-81 | Delivers the bytes from the position up to count or the size and advances; the slots do not change. |
| RamFs.Table.Write | ramfs.c:84-118 | Stores what fits behind the position in that slot alone, extends the size and advances. |
| RamFs.Table.Create | ramfs.c:367-412 | Takes the first free slot for an empty file under "/tmp/", or fails and changes nothing. |
| RamFs.Table.Unlink | ramfs.c:414-437 | Frees the first slot with the path, or fails and changes nothing. |
| RamFs.Table.ReadDir | ramfs.c:273-330 | Fills the caller's array with ".", ".." and the bases in slot order, cut at the count; the rest of the array is unchanged. |
| VfsSpec.ApplyKeeps | vfs.c:120-131 | Every call keeps streams on valid slots and positions below next_fd, and next_fd never goes down. |
| VfsSpec.DescriptorsIncrease | vfs.c:120-131 | Over any run the descriptors handed out strictly increase and stay below 32: none is handed out twice, also after closes. |
| VfsSpec.StreamsStay | vfs.c:398-415 | A stream keeps its slot and never moves back until it is closed; a closed descriptor stays closed. |
| VfsSpec.OpenSucceeds | vfs.c:207-254 | vfs_open succeeds exactly when a used slot has the path and a descriptor is left; else nothing changes. |
| VfsSpec.CreateSucceeds | vfs.c:361-396 | vfs_create succeeds exactly when a slot and a descriptor are free. |
| VfsSpec.OpenFdWorks | vfs.c:257-298 | Read, write and close succeed exactly on open descriptors, and else change nothing; after close a descriptor is not open. |
| VfsSpec.AbsoluteComponents | vfs.c:364-373 | The components of a relative path come behind those of the cwd, with at most one byte between the two strings. |
| VfsSpec.CopyRead | shell.c:250-251 | In a copy in progress the read delivers the next bytes of the source. |
| VfsSpec.CopyWrite | ramfs.c:96-101 | The write that follows is never cut short, and both offsets stay equal to the size of the destination. |
| VfsSpec.CpStart | shell.c:231-245 | The slot taken for the destination is empty and never that of the source. |
| VfsSpec.CpCopies | shell.c:213-262 | cp stores exactly the bytes of the source in a new file and changes no other file. |
| VfsSpec.MvExact | shell.c:282-312 | For all source and destination names, what the destination opens after mv has the bytes of the source exactly under a condition on the state before. |
| VfsSpec.MvToOtherName | shell.c:282-312 | The condition for two different names: a new slot in front with room to copy, or equal bytes there already. |
| VfsSpec.MvFreesSource | shell.c:282-312 | After mv to another name the slot of the source is unused, and every slot but that and the new one is unchanged. |
| VfsSpec.MvLosesBytes | shell.c:282-312 | Two files, a free slot and all descriptors, and still mv of one onto the other loses its bytes. |
| VfsSpec.InRamFsExact | vfs.c:376-376 | vfs_create goes to RamFS for exactly the canonical paths whose first component is "tmp". |
| VfsSpec.MountsOfInit | vfs.c:90-117 | With the two mounts of vfs_init, which paths find_mount sends to RamFS, and exactly where vfs_open differs. |
| Vfs.FileTable.AllocFd | vfs.c:120-131 | The next descriptor, or -1 after 32. |
| Vfs.FileTable.Open | vfs.c:207-254 | Resolves through the bindings and opens the slot, or leaves the path to AbyssFS. |
| Vfs.FileTable.Create | vfs.c:361-396 | Makes the path absolute and creates the file in RamFS, or leaves the path to AbyssFS. |
| Vfs.FileTable.Read | vfs.c:257-278 | Reads through a descriptor; -1 for one that is not open. |
| Vfs.FileTable.Write | vfs.c:281-298 | Writes through a descriptor; -1 for one that is not open. |
| Vfs.FileTable.Close | vfs.c:398-415 | Clears an open descriptor; -1 for another. |
| Vfs.FileTable.CopyLoop | shell.c:248-257 | The loop terminates with all bytes copied and its error exit is never taken. |
| Vfs.FileTable.Cp | shell.c:213-262 | The whole command between two files of RamFS ends in the specified state, also when a call fails. |
| Vfs.FileTable.Unlink | vfs.c:417-444 | find_mount of the full path chooses the file system; in RamFS the first slot with the path as given is freed, or -1. |
| Vfs.FileTable.Mv | shell.c:282-312 | cp and unlink of the source name, whatever cp did, end in the specified state. |
| Vfs.FindMount | vfs.c:90-117 | The first of the longest mount paths that are prefixes of the path. |
| Vfs.AbsolutePath | vfs.c:364-373 | The buffer holds the path behind cwd and one slash, or the absolute path. |
| Namespaces.UnbindUndoesBind | namespace.c:42-119 | bind and then unbind restore the resolution of every path in both directions. |
| Namespaces.UnbindRemoves | namespace.c:82-119 | Wherever it is in the list, the first binding at the path is taken out, and all others stay in order. |
| Namespaces.UnbindFails | namespace.c:82-119 | Without a binding at the path unbind fails and changes nothing. |
| Namespaces.ResolveMaps | vfs.c:336-359 | The first binding whose old path is a prefix maps the path; without one it stays. |
| Namespaces.ResolveBackMaps | vfs.c:161-204 | The first binding whose new path is a prefix maps it back: old path in front, rest behind, at most one byte between, and together the components of both. |
| Namespaces.ResolveBackUndoes | vfs.c:161-204 | Where both resolvers select the same binding, resolving back gives the path again exactly when no slash is put in. |
| Namespaces.SingleBinding | vfs.c:336-359 | With one binding, exactly which paths survive resolving and resolving back. |
| Namespaces.SingleBindingBelow | vfs.c:336-359 | Among them every path equal to the old path or continuing it with a slash. |
| Namespaces.Namespace.Bind | namespace.c:42-75 | Asks for both directories under their resolved paths; a new node at the head of the list, or -1 and no change. |
| Namespaces.Namespace.Unbind | namespace.c:82-119 | Takes exactly the first binding at the path out of the linked list, the others staying in order, or fails and changes nothing. |
| Namespaces.Namespace.ResolvePath | vfs.c:336-359 | The caller's buffer holds the path mapped by the first binding whose old path is a prefix. |
| Namespaces.Namespace.ResolveNamespacePath | vfs.c:161-204 | The result is the path mapped back by the first binding whose new path is a prefix, with the slash rule. |

## Left out

- AbyssRuns.MkdirKeeps: requires what mkdir and create_file do not check: byte 261 of the block taken is zero, the name has at most 245 bytes, and the next length byte lies in the block. `AbyssRuns.MkdirDots` and `DirRecords.AppendedExact` show that these conditions are exact.
- AbyssRuns.CreateKeeps: the same limits on the name and the room in the directory.
- AbyssInvariant.AddEntryKeeps: the same.
- AbyssInvariant.UnlinkKeeps: not for the names "." and "..", which would free the root.
- AbyssInvariant.WriteKeeps: handles are on live inodes that are no directories; a handle kept after unlink could write into a block that has a new owner.
- AbyssRuns.ReadBack: one write of at most one block. write_to_blocks always writes at offset 0 while the size grows, so several appending writes have no such property.
- AbyssRuns.OldPathsSurvive: paths through inodes that are directories or have no block; the walkers would read the data of a file as records.
- AbyssFs.Volume.GetInodeByPath: the same paths.
- AbyssFs.Volume.CreateFile: cwd resolves through such a path to a directory or an inode without a block, and the bytes stored lie in the directory's block.
- AbyssFs.Volume.AppendRecord: the bytes stored lie in the block; create_file would go on into the next one.
- AbyssFs.Volume.Create: as CreateFile.
- AbyssFs.Volume.Mkdir: as CreateFile.
- AbyssFs.Volume.Write: the inode's block, if any, is a data block.
- AbyssFs.Volume.WriteToBlocks: the same.
- AbyssFs.Volume.ReadDir: the block the path leads to is a chain of records.
- AbyssFs.Volume.Read: the recorded size is at most one block, as in every file written once.
- Processes.Kernel.Fork: a slot of the process table must be left; create_process does not check. Slots of the static table are new zeroed objects.
- Processes.Kernel.ContextSwitch: register contents are not modelled. A process suspended in MSG_WAIT is marked by a flag and finishes the call when it is switched to.
- MessageRing.Mailbox.ReceiveMessage: the call of schedule for a blocking receive is a step of the process machine, not part of this method. Messages are values of any type.
- RamFs.Table.Create: paths fit the 32 bytes of a slot; ramfs_create does not check.
- RamFs.Table.Read: buffers are real objects, so position plus count does not pass 2^64.
- Vfs.FileTable.Open: answers None for a path of AbyssFS, whose handles are those of `AbyssFs.Volume`; the table holds streams of RamFS only, and descriptors for AbyssFS are not counted.
- Vfs.FileTable.Create: a relative path has a cwd that is not empty, since the code would look at the byte in front of its buffer; full paths fit their buffer and their slot.
- Vfs.AbsolutePath: the same.
- Vfs.FileTable.Cp: both files are in RamFS; copies from or to AbyssFS are not modelled. Paths as for Create.
- Vfs.FileTable.Unlink: paths as for Create; None for a path of AbyssFS.
- Vfs.FileTable.Mv: as Cp and Unlink.
- Namespaces.Namespace.Bind: which resolved paths the file systems can list is a parameter.
- Namespaces.Namespace.ResolveNamespacePath: an empty old path is allowed only where the code does not look at the byte in front of it.
- ShellPaths.Shell.CmdCd: which paths vfs_open accepts is a parameter, and the path built fits its 256 bytes; cmd_cd does not check.
- Block 0 and the words of an inode behind `blocks` are no part of the decoded state; nothing reads them.
- Failing kalloc and kmalloc.c: memory is new and zeroed, as from a bump allocator that does not run out.
- Hardware: uart.c, gic.c, timer.c registers, mmu.c, exceptions.c and all assembly and linker files. Output is a no-op.
- The shell loop, command dispatch and printing; user_shell, process_test and the test functions.
- load_program, exec_process, handle_exec_message, switch_to_process and init_processes, which work on raw addresses and registers.
- process_init and process_exit, which use current_process while it is NULL; the machine starts from init_process and ends processes with exit_process.
- wait_for_child, which blocks without looking for zombies and is not called.
- abyssfs_remove_recursive: unlink searches only the root, so nested contents are not removed.
- abyssfs_create_file, allocate_blocks, ramfs_mkdir, ramfs_create_file, ramfs_read_file, strstr, mount and register_filesystem, which would add only easy members.
- Dangling streams: a stream on a RamFS slot that is unlinked and taken again reads the new file, as in the code; no property is stated about it.
