# FoxOS kernel model

A Dafny model of five connected parts of the FoxOS kernel, with proofs about whole runs of them.

* **The file table** (`src/fs.c`): a flat array of records whose parent indices encode a directory tree. Paths are tokenised and resolved by first match, records are appended on creation, and deletion closes the gap by shifting records one at a time, lowering parent indices after every single shift.
* **The terminal** (`src/terminal.c`): the line editor over a fixed buffer, its redrawing on the screen, argument parsing, path joining, and the file system commands.
* **The screen** (`src/vga.c`): 80 by 25 cells with wrap, tab, backspace and scroll, and the number printers.
* **The keyboard decoder** (`src/keyboard.c`): a state machine over scancodes that may each be read many times.
* **The page tables** (`src/stage2.asm`): the memory image built before long mode is entered.

`Machine` joins keyboard, editor, shell and file table into one system: its theorems go from scancodes to command lines to the files they leave.

Code that updates memory is modelled as classes and methods over arrays (`FileSystem`, `Screen`, `LineBuffer`, `Console`, `Keyboard`, `Interpreter`, the page table loops), each proved against a function on values; the theorems are about those functions. `Table` is the value of the whole file table, `Live` its live slots. C strings are `CString`: the characters before the terminator. A pointer is an index, and reading past the terminator is a proof failure. Buffer capacities of the C code are preconditions; for the shell and the machine they are the single condition that a joined path is shorter than 512 characters.

## What is proved, and what turned out false

* Deletion as written is *not* "remove the slot and renumber". The nested loop turns a parent `p` above the deleted slot `d` into `d + (p - d) / 2`. It equals the intended renumbering if and only if no surviving entry has a parent above `d + 2` (`Deletion.CompactionRenumbersIff`), and the same condition is exactly when every path keeps its meaning (`Deletion.DeletionKeepsPathsIff`). Whether the result is still a tree at all has its own exact condition (`Deletion.CompactionKeepsTreeIff`), and `Deletion.PathsAfterDeletion` says what every path means after any deletion. `Misplacement.DeletionCanMisplace` is a run of six calls that ends without a tree.
* `touch` of a path ending in a slash creates an entry with an empty name. Creation keeps the tree if and only if that cannot happen: some name is given, or the table is full, or the parent is not a directory other than the root (`Creation.CreationKeepsTreeIff`; `Witnesses.TouchCanSpoilTree` shows it happening).
* `fs_mkdir` and `fs_create` on a path without any slash drop its first character; the given path resolves to the new entry if and only if it contains a slash (`Creation.CreationExtendsPaths`, `Witnesses.MkdirCanDropLetter`).
* A command line leaves the shell in an existing directory except when it deletes something. `rm` does not refuse the current directory (`Witnesses.ShellCanBeStranded`), and deleting an unrelated entry can hang the current directory, or one above it, under another record (`Stranding.RemovingElsewhereStrands`). The exact condition, in any table a run can reach, is that the deletion goes through and the current directory path leads to no directory once every survivor is hung where it lands (`Shell.StaysInDirectoryIff`, over whole sessions `Shell.SessionStaysIff`). For deletions that meet the d + 2 condition in a tree, that is just removing the current directory itself (`Shell.TidyLineStaysIff`).
* The kernel joins the current directory and an argument in a buffer of 512 bytes without looking at their lengths, and `cd` keeps repeated slashes, so that the current directory can grow without a deeper tree (`Witnesses.PathCanOutgrowBuffer`). The model speaks about lines whose joined path is shorter than the buffer (`Shell.LineFits`), carried through sessions, typed text and scancode traces as `SessionFits`, `TextFits` and `PollFits`. That one bound is equivalent to everything the path, component and name buffers demand (`Shell.RoomForIff`).
* Redrawing an edited line is right for every line of up to 72 characters except one of exactly 72 on the last screen row, which scrolls its own prompt away (`EditRow.RedrawIsRightIff`, `EditRow.LongLineLosesPrompt`). `EditRow.RedrawnCells` says what redrawing does to screen memory for lines of any length that do not reach the end of the screen: the row it starts on is computed from the new length, so the 73rd character draws the line over the row above the prompt (`EditRow.LongLineClimbs`).
* The screen is the last 25 rows of an unbounded page after every character except a backspace in the top left corner of a scrolled screen (`Layout.PutAgreesIff`, `Layout.BackspaceCanDisagree`).

## Model

| member | source | states |
|---|---|---|
| `CStrings.StrCmp` | src/fs.c:20-26 | zero exactly for equal strings; otherwise the difference at the first place where they differ |
| `CStrings.StrNCmp` | src/fs.c:53-60 | zero exactly when the first n characters agree; otherwise the difference at the first place where they differ |
| `CStrings.StrLen` | src/fs.c:29-33 | the length of the string the buffer holds |
| `CStrings.StrCpy` | src/fs.c:12-17 | the string and a terminator replace that stretch of the buffer, nothing else changes |
| `CStrings.StrCat` | src/fs.c:36-39 | the buffer then holds the concatenation, and every byte after the new terminator is as before |
| `CStrings.StrNCpy` | src/fs.c:42-50 | at most n characters, padded with NULs up to n, nothing beyond touched |
| `Paths.SplitInverts` | src/fs.c:63-74 | splitting loses nothing and leaves no separator in a piece |
| `Paths.JoinInverts` | src/fs.c:63-74 | separator-free pieces survive joining and splitting |
| `Paths.ComponentsConcat` | src/fs.c:63-74 | the components of a/b are those of a followed by those of b, whatever slashes repeat or trail |
| `Paths.TokenIsFirstComponent` | src/fs.c:63-74 | the token found after leading slashes is the first component, and the rest holds the others |
| `Paths.GetNextPathComponent` | src/fs.c:63-74 | copies the next token within the 256-byte buffer and returns a strictly later position or null |
| `FileTable.Find` | src/fs.c:149-156 | the first live slot with that parent and name, or -1 when there is none |
| `FileTable.WalkConcat` | src/fs.c:144-164 | resolving a concatenated component list is resolving the first part and going on from there |
| `FileTable.LocationResolves` | src/fs.c:135-165 | in a tree, walking parents up to the root prints a path that the tokeniser can take and that resolves back to the slot |
| `FileTable.AncestryUnique` | src/fs.c:135-165 | in a tree only one component list leads to a slot |
| `FileTable.PathsAgree` | src/fs.c:135-165 | two paths name the same slot exactly when their components are equal |
| `Deletion.SettleStep` | src/fs.c:236-240 | one more round lowers exactly the parents still above the shifted slot |
| `Deletion.CompactionHalves` | src/fs.c:232-243 | each later record moves down one slot unchanged but for its parent; a parent up to d stays, a parent p above d becomes d + (p - d) / 2 |
| `Deletion.CompactionRenumbersIff` | src/fs.c:232-243 | the loop is "remove and renumber" if and only if no surviving parent is above d + 2 |
| `Deletion.RemovalKeepsTree` | src/fs.c:217-249 | removing and renumbering keeps the tree invariant |
| `Deletion.CompactionKeepsTreeIff` | src/fs.c:217-249 | the loop keeps the tree if and only if every survivor lands under a directory and no two of one name under the same one |
| `Deletion.CompactionKeepsOrder` | src/fs.c:232-243 | any deletion keeps the root and keeps parents at or below their own slot |
| `Deletion.RemovalKeepsPaths` | src/fs.c:217-249 | removing and renumbering keeps every path's meaning, and paths to the removed slot stop resolving |
| `Deletion.PathsAfterDeletion` | src/fs.c:232-243 | what every path means after any deletion from any table a run can reach, near or not: it resolves as in the old table with every surviving entry hung where it lands, renumbered |
| `Deletion.FarEntryIsLost` | src/fs.c:232-243 | the first entry with a parent above d + 2 is no longer found under its own path, which now leads to an entry of that name that landed under the same directory in its place, or nowhere |
| `Deletion.DeletionKeepsPathsIff` | src/fs.c:217-249 | every path resolves to the renumbered slot it named, the deleted one to -1, nothing new, if and only if no surviving parent is above d + 2 |
| `Operations.LastSlash` | src/fs.c:257-260 | the position of the last slash, or 0 when there is none |
| `Operations.PathParts` | src/fs.c:255-274 | a slashed path has the components of its directory part followed by its name part |
| `Operations.CompactedLive` | src/fs.c:232-243 | the live part of the compacted table, stale copy excluded, is the compaction of the live part |
| `Operations.StaleSlots` | src/fs.c:232-243 | behind the live part nothing changes, except that the last live record stays as a stale copy with its parent halved towards d |
| `Operations.DeletedLive` | src/fs.c:217-249 | a deletion compacts the live part exactly when the slot is not the root and no directory with entries, and otherwise leaves it alone |
| `Creation.WalkAfterAppend` | src/fs.c:123-127 | after appending, a component list newly leads somewhere only if it is the new entry's own |
| `Creation.CreationAppends` | src/fs.c:105-133 | success appends exactly one record with that name, kind and parent, size 0 and stale data, under an existing directory where the name was free, and returns its slot |
| `Creation.CreationSucceedsIff` | src/fs.c:105-133 | creation succeeds exactly with a free slot, a name, a directory to put it in and no entry of that name; otherwise -1 and no change |
| `Creation.TouchSucceedsIff` | src/terminal.c:278-296 | the same for `touch`, which lets an empty name through: a free slot, a directory to put it in and nothing there under that name |
| `Creation.CreationExtendsPaths` | src/fs.c:251-288 | old paths keep their slots, the only new ones have the new entry's components, and the path given is one of them if and only if it contains a slash |
| `Creation.CreationKeepsTreeIff` | src/terminal.c:278-296 | creation without the check for a name keeps the tree if and only if not all of these hold before the call: nothing after the last slash, a free slot, and a parent that is a directory other than the root |
| `Creation.CreationKeepsOrder` | src/fs.c:105-133 | creation always keeps slot sizes, the root and the order of parents |
| `Runs.CallKeepsSound` | src/fs.c:88-288 | every call whose path fits the buffers of the code keeps 1 to 256 live slots, the root at slot 0 and parents at or below their slot |
| `Runs.DeletionSucceedsIff` | src/fs.c:217-230 | in a tree, deletion succeeds exactly for a childless slot other than the root; otherwise -1 and no change |
| `Runs.CallKeepsTreeIff` | src/fs.c:105-249 | a call leaves a tree behind if and only if, in the table before it, a childless slot it removes lands every survivor well and a `touch` is not one that enters a nameless record |
| `Runs.EveryRunIsSound` | src/fs.c:88-288 | so does every run of such calls from a formatted table, with no condition on deletions |
| `Runs.TidyRunKeepsTree` | src/fs.c:88-288 | runs whose deletions meet the d + 2 condition keep the whole tree invariant |
| `Runs.FormattedIsTree` | src/fs.c:88-103 | a formatted table is a tree of one entry, every other slot unused, nameless and empty with parent 0xFFFFFFFF, whatever its memory held |
| `Runs.WriteThenRead` | src/fs.c:175-215 | a write to a file returns min(size, 4096), reads back as that prefix, and changes nothing but the size and those bytes of that slot; a write to anything else returns -1 and changes nothing |
| `Runs.WriteElsewhere` | src/fs.c:175-196 | a write changes what no other path reads |
| `Runs.NewFileIsEmpty` | src/fs.c:123-127 | a new file reads as empty although its slot keeps the old bytes |
| `Runs.ContentsOutliveRuns` | src/fs.c:105-249 | a file's contents survive every tidy run that never writes or deletes the file itself |
| `Runs.WriteSurvivesRun` | src/fs.c:175-215 | what was written is what is read after any such run |
| `Misplacement.DeletionCanMisplace` | src/fs.c:232-243 | a concrete run of creations and one deletion after which /d/x is gone and the table is no tree |
| `Witnesses.TouchCanSpoilTree` | src/terminal.c:278-296 | mkdir /d and touch /d/ on a formatted table end without a tree |
| `Witnesses.MkdirCanDropLetter` | src/fs.c:251-288 | mkdir of "ab" on a formatted table creates /b, and "ab" does not resolve |
| `Listing.ChildrenBelow` | src/fs.c:300-304 | the listed slots are the non-root ones with that parent |
| `Listing.ChildrenInSlotOrder` | src/fs.c:300-304 | they come in slot order |
| `Listing.ListedInOneDirectory` | src/fs.c:290-323 | in a tree every entry but the root is listed once by its own directory and never by another |
| `Listing.ListingsCoverTable` | src/fs.c:290-323 | the listing counts of all directories add up to file_count - 1 |
| `Listing.LsNeverTruncates` | src/terminal.c:239-240 | with the buffer of 256 * 258 bytes every child is listed |
| `Listing.ListingReadsBack` | src/fs.c:310-317 | names and kinds can be read back from the text, in order |
| `FileSystem.FileSystem.Init` | src/fs.c:88-103 | the loop formats the table |
| `FileSystem.FileSystem.Lookup` | src/fs.c:149-156 | the scan returns the first match |
| `FileSystem.FileSystem.CreateFile` | src/fs.c:105-133 | table and return code are those of the creation function |
| `FileSystem.FileSystem.ParsePath` | src/fs.c:135-165 | the tokeniser loop terminates and equals the walk over the path's components |
| `FileSystem.FileSystem.CreateAt` | src/fs.c:251-288 | `fs_mkdir` and, with the other kind, `fs_create` compute the creation function |
| `FileSystem.FileSystem.DeleteFile` | src/fs.c:217-249 | table and return code are those of the deletion function, refusals included |
| `FileSystem.FileSystem.AnyChild` | src/fs.c:225-229 | the scan finds an entry of the directory exactly when there is one |
| `FileSystem.FileSystem.Compact` | src/fs.c:232-243 | the nested loops compute the closed form on all 256 slots |
| `FileSystem.FileSystem.ShiftDown` | src/fs.c:233-241 | one turn of the outer loop takes the closed form for i shifts to that for i + 1 |
| `FileSystem.FileSystem.LowerParents` | src/fs.c:236-240 | the inner loop lowers exactly the live parents above i |
| `FileSystem.FileSystem.Write` | src/fs.c:175-196 | table and return code are those of the write function |
| `FileSystem.FileSystem.Read` | src/fs.c:198-215 | min(size, file size) bytes of the contents, the rest of the buffer and the table untouched, or -1 |
| `FileSystem.FileSystem.ListDir` | src/fs.c:290-323 | the lines of the children up to the first point with less than 259 bytes left, or -1 |
| `FileSystem.FindLastSlash` | src/fs.c:257-260 | the loop finds the last slash |
| `FileSystem.SplitPath` | src/fs.c:252-274 | both buffers hold their parts of the path |
| `Screen.GlyphShows` | src/vga.c:15-17 | the low byte of a cell is the character and the high byte the attribute: the colour for ASCII, all ones from code 128 up |
| `Screen.NextTab` | src/vga.c:55-56 | the next column that is a multiple of eight |
| `Screen.Screen.Scroll` | src/vga.c:20-31 | all rows move up one and the last is blanked |
| `Screen.Screen.Clear` | src/vga.c:38-47 | every cell blank, cursor home |
| `Screen.Screen.SetCursor` | src/vga.c:101-112 | the cursor and nothing else changes |
| `Screen.Screen.PutChar` | src/vga.c:49-89 | every write is in range and the screen is that of the character function, which `Layout.PutCursor` and `Layout.PutCells` describe cell by cell |
| `Screen.Screen.Write` | src/vga.c:91-95 | the characters one after the other |
| `Layout.PutCursor` | src/vga.c:49-89 | where the cursor is after a newline, carriage return, tab, backspace or any other character |
| `Layout.PutCells` | src/vga.c:49-89 | which character and attribute every cell of screen memory holds after each of these, with and without scrolling |
| `Layout.NextLineAgrees` | src/vga.c:83-86 | scrolling the screen is growing the page |
| `Layout.PutAgreesIff` | src/vga.c:49-89 | one character keeps the screen equal to the page's last 25 rows, unless it is a backspace off the top of a scrolled screen |
| `Layout.BackspacingOffTop` | src/vga.c:57-72 | on any scrolled screen, one backspace more than there are cells before the cursor makes screen and page differ |
| `Layout.BackspaceCanDisagree` | src/vga.c:57-86 | from a cleared screen, 25 newlines and 24 * 80 + 1 backspaces do |
| `Layout.ScreenShowsLastRows` | src/vga.c:20-89 | from a cleared screen every text without backspace shows as the last 25 rows of its unbounded layout, cursor included |
| `Layout.PlainTextOnScreen` | src/vga.c:49-89 | for plain text of any length, which character and attribute each cell of screen memory holds and where the cursor is |
| `Numbers.DigitsReadBack` | src/vga.c:136-140 | numerals read back as their number and start with 0 only for zero |
| `Numbers.DecimalReadsBack` | src/vga.c:115-152 | every 64-bit integer prints as a numeral that reads back, with at most 19 digits and no superfluous zero |
| `Numbers.UnsignedReadsBack` | src/vga.c:155-193 | the same in base 16 and 2, with at most 16 and 64 digits |
| `Numbers.LeastNumeral` | src/vga.c:117-120 | the literal printed for the least integer is its numeral |
| `Numbers.CollectDecimal` | src/vga.c:136-140 | the buffer holds the numeral backwards |
| `Numbers.CollectHex` | src/vga.c:160-164 | the buffer holds the numeral backwards |
| `Numbers.CollectBinary` | src/vga.c:180-184 | the buffer holds the numeral backwards |
| `Numbers.PutDec` | src/vga.c:115-152 | the decimal text appears on the screen, zero and the least integer included |
| `Numbers.PutHex` | src/vga.c:155-173 | 0x and the numeral appear on the screen |
| `Numbers.PutBin` | src/vga.c:176-193 | 0b and the numeral appear on the screen |
| `Keyboard.Keyboard.Read` | src/keyboard.c:51-113 | state and character are those of the reaction function, whose characters the key map lemmas give and whose state the trace lemmas give |
| `Keyboard.StateMeansTrace` | src/keyboard.c:51-113 | the three variables say exactly whether shift is down and which key is still held, defined on the whole trace |
| `Keyboard.OutputMeansTrace` | src/keyboard.c:51-113 | a scancode yields its character exactly when it is a key going down that is not still held |
| `Keyboard.NumberRow` | src/keyboard.c:5-20 | the keys from 0x02 on give 1234567890-= and with shift !@#$%^&*()_+ |
| `Keyboard.TopRow` | src/keyboard.c:5-20 | the keys from 0x10 on give qwertyuiop[] and with shift QWERTYUIOP{} |
| `Keyboard.HomeRow` | src/keyboard.c:5-20 | the keys from 0x1E on give asdfghjkl; quote and backquote, and with shift ASDFGHJKL: double quote and tilde |
| `Keyboard.BottomRow` | src/keyboard.c:5-20 | the keys from 0x2B on give backslash and zxcvbnm,./ and with shift the vertical bar and ZXCVBNM<>? |
| `Keyboard.OtherKeys` | src/keyboard.c:79-103 | the remaining keys and the five special keys by scancode, and nothing for any other code |
| `Keyboard.LetterMeansTrace` | src/keyboard.c:51-113 | after any trace a letter key that is not still held gives its letter, a capital exactly while a shift key is down |
| `Typing.AlphabetIff` | src/keyboard.c:5-27 | the printable characters, editing keys, tab and newline are exactly what some key gives with or without shift |
| `Typing.StrokesTypeText` | src/keyboard.c:51-113 | pressing and releasing keys, with either shift key around those that need it, types the text they give and leaves the keyboard idle |
| `Typing.TextCanBeTyped` | src/keyboard.c:5-27 | every text of those characters has such strokes |
| `Keyboard.RepeatIsSilent` | src/keyboard.c:105-108 | reading a scancode again changes nothing and yields nothing |
| `Keyboard.StretchingTypesTheSame` | src/keyboard.c:51-113 | however often each scancode of a trace is read, the characters and the final state are the same |
| `Keyboard.CharactersAreTypeable` | src/keyboard.c:5-20 | only printable characters, editing keys, tab and newline come out |
| `LineEditor.EditAllKeepsEditable` | src/terminal.c:327-395 | every key trace keeps the line printable and within 255 characters |
| `LineEditor.TypingInserts` | src/terminal.c:384-394 | typing inserts at the cursor and keeps the rest |
| `LineEditor.CursorKeys` | src/terminal.c:337-349 | left and right move the cursor by one unless at that end, keep the line, and only move the cursor on the screen |
| `LineEditor.DeleteKey` | src/terminal.c:351-361 | delete takes the character at the cursor, which stays; the later ones close up; at the end nothing happens |
| `LineEditor.BackspaceKey` | src/terminal.c:370-381 | backspace takes the character before the cursor, which goes back one; at the start nothing happens |
| `LineEditor.PrintableKey` | src/terminal.c:384-394 | a printable character goes in at the cursor, the rest moves up one, unless the line has 255 characters |
| `LineEditor.OtherKey` | src/terminal.c:335-394 | no other character but Enter does anything |
| `LineEditor.LineBuffer.Clear` | src/terminal.c:28-34 | the buffer is all zeros and both positions are zero |
| `LineEditor.LineBuffer.RemoveAt` | src/terminal.c:353-358 | one character goes, the rest closes up, zeros follow |
| `LineEditor.LineBuffer.Delete` | src/terminal.c:351-360 | the character at the cursor goes |
| `LineEditor.LineBuffer.Insert` | src/terminal.c:385-392 | the character is inserted at the cursor |
| `LineEditor.LineBuffer.Backspace` | src/terminal.c:370-378 | the character before the cursor goes |
| `LineEditor.LineBuffer.Key` | src/terminal.c:327-395 | every key refines the edit of the pair of strings around the cursor, keeping cursor_pos <= buffer_pos <= 255, printable characters below and only zeros above |
| `EditRow.Console.UpdateCursorPosition` | src/terminal.c:37-46 | the cursor goes where the row arithmetic says |
| `EditRow.Console.Rewrite` | src/terminal.c:56-67 | one cell more than the text is blanked and the text written from the same place |
| `EditRow.Console.RedrawInputLine` | src/terminal.c:49-71 | the screen is the redrawn one, the line unchanged |
| `EditRow.Console.EditKey` | src/terminal.c:336-394 | line and screen after any key but Enter |
| `EditRow.RedrawIsRightIff` | src/terminal.c:49-71 | for lines up to 72 characters, redrawing shows prompt, line and blanks and touches no other row, unless the line has 72 characters on the last row |
| `EditRow.RowReads` | src/terminal.c:49-71 | a row that is right holds, cell by cell in screen memory, the characters of the prompt, the line and blanks |
| `EditRow.CursorFollowsPrompt` | src/terminal.c:37-46 | for a line of any length the cursor goes cursor_pos cells past the end of the prompt |
| `EditRow.RedrawnCells` | src/terminal.c:49-71 | redrawing a line of any length that ends before the screen does, cell by cell: the line from column 7 of the computed row, one blank, nothing else |
| `EditRow.KeyRefreshes` | src/terminal.c:336-394 | every editing key leaves the row right and the cursor at column 7 + cursor_pos |
| `EditRow.EditingStaysInRow` | src/terminal.c:319-394 | from a prompt on a blank row, so does every key sequence without Enter that keeps the line short enough for its row |
| `EditRow.LongLineLosesPrompt` | src/terminal.c:49-71 | typing any 72 printable characters at a prompt on the last row: the row is right after 71 and wrong after the last |
| `EditRow.LongLineClimbs` | src/terminal.c:49-71 | typing any 73 printable characters at a prompt on a row from 1 to 23: the row is right after 72, and the last one draws the whole line over the row above |
| `EditRow.LongLineLeavesScreen` | src/terminal.c:49-56 | typing any 73 printable characters at a prompt on the top row: the row is right after 72, and for the last one the row computed for the prompt is -1 |
| `Shell.ArgumentsPartition` | src/terminal.c:74-93 | a command line is word, spaces, argument, spaces and rest, with nothing lost |
| `Shell.ArgumentsUnique` | src/terminal.c:74-93 | there is only one such division |
| `Shell.JoinedComponents` | src/terminal.c:96-106 | the joined path is rooted and its components are those of both parts |
| `Shell.JoinedText` | src/terminal.c:96-106 | the joined path is the rooted argument, or both parts with exactly one slash between them |
| `Shell.JoinedResolves` | src/terminal.c:96-106 | a rooted argument resolves as itself, any other by resolving the current directory and walking on from there |
| `Shell.RoomForIff` | src/terminal.c:96-120 | all that the path, component and name buffers demand of a joined path holds if and only if it is shorter than 512 characters |
| `Shell.LineFitsIff` | src/terminal.c:109-312 | the bound concerns exactly the file system commands with an argument, other than ls with a dot |
| `Shell.Execute` | src/terminal.c:109-317 | every command line whose joined path is shorter than 512 characters keeps the table sound and the current directory rooted and within its buffers |
| `Shell.CommandNames` | src/terminal.c:230-302 | a line is one of the five file system commands exactly when it begins with its name |
| `Shell.ExecuteDoes` | src/terminal.c:230-315 | what every line does, from any directory and however its words are spaced: bare cd goes to the root, cd to the joined path exactly if that is a directory, mkdir, touch and rm have the tables of creation, unchecked creation and deletion on the joined path, and any other line changes nothing |
| `Shell.TidyLineKeepsTree` | src/terminal.c:248-312 | a line whose deletion meets the condition and whose touch has a name keeps the tree |
| `Shell.StaysInDirectoryIff` | src/terminal.c:248-312 | from any state a session can reach, a line leaves the shell in an existing directory if and only if it does not delete a slot such that, with the surviving entries hung where they land, the current directory path leads to no directory |
| `Shell.TidyLineStaysIff` | src/terminal.c:248-312 | for a tidy line in a tree that is the same as a removal that resolves to the current directory while that has no children and is not the root |
| `Shell.SessionStaysIff` | src/terminal.c:109-317 | a session keeps the shell in existing directories throughout if and only if none of its lines strands it, with no condition on the tree |
| `Shell.SessionConcat` | src/terminal.c:109-317 | after a first part that fits, the whole session fits exactly when the second part fits from there, and it ends where the second part ends |
| `Shell.TidySessionKeepsTree` | src/terminal.c:248-312 | every session of tidy lines that never removes the current directory keeps the tree and stays in it |
| `Witnesses.ShellCanBeStranded` | src/terminal.c:248-312 | after start-up, mkdir d, cd d and rm /d leave the shell in a directory that does not exist |
| `Stranding.RemovingElsewhereStrands` | src/fs.c:232-243 | after start-up, mkdir a, mkdir b, touch c, mkdir d, mkdir d/x and cd d/x leave the shell in an existing directory; then rm /a, which does not remove that directory, strands it |
| `Witnesses.PathCanOutgrowBuffer` | src/terminal.c:96-120 | after start-up, mkdir d and cd d with 250 slashes, twice, fit; the path that ls xxxxxxxxx builds next has 514 characters and does not |
| `Terminal.ParseArgs` | src/terminal.c:74-93 | the two buffers hold the two arguments |
| `Terminal.Interpreter.BuildFullPath` | src/terminal.c:96-106 | the buffer holds the joined path |
| `Terminal.CopyParent` | src/terminal.c:279-289 | the buffer holds the part before the last slash, or the root when that is empty |
| `Terminal.Interpreter.Recognise` | src/terminal.c:122-315 | the comparisons pick the command, the later ones by prefix |
| `Terminal.Interpreter.ChangeDirectory` | src/terminal.c:253-259 | the directory changes exactly when the path names a directory |
| `Terminal.Interpreter.TouchAt` | src/terminal.c:279-299 | the table is that of creation without the check for an empty name |
| `Terminal.Interpreter.ExecuteCommand` | src/terminal.c:109-317 | table and current directory are those of the execution function, which `Shell.ExecuteDoes` describes line by line |
| `Terminal.Interpreter.ListCommand` | src/terminal.c:230-247 | the text printed lists all children of the directory named, or nothing |
| `Machine.TerminalLoop.Run` | src/terminal.c:327-395 | one character on the real buffers is one step of the terminal function, which `Machine.EnterExecutes` and `Machine.KeysEditLine` describe |
| `Machine.KeysEditLine` | src/terminal.c:327-395 | keys other than Enter edit the line and change neither files nor directory |
| `Machine.EnterExecutes` | src/terminal.c:363-368 | after any editing keys, Enter executes exactly the line they left and clears it; whether that fits is whether the line does |
| `Machine.TypedLineExecutes` | src/terminal.c:363-394 | a printable line typed at an empty prompt is the line that is executed |
| `Machine.KeystrokesRunSession` | src/terminal.c:327-395 | editing and entering line after line is running the session of the edited lines |
| `Machine.TraceRunsSession` | src/terminal.c:319-395 | from start-up, a scancode trace that types such lines ends in their session from the root directory of a formatted table |
| `Machine.SessionCanBeTyped` | src/terminal.c:319-395 | every session of printable lines is what some trace of key strokes runs |
| `Machine.PollDecodesThenReceives` | src/terminal.c:327-333 | polling is decoding the trace and feeding the typed characters to the terminal, and the paths built fit in the one exactly when they fit in the other |
| `Machine.RepeatedReadsChangeNothing` | src/terminal.c:327-395 | files, directory and line, and whether the paths built fit, do not depend on how often each scancode is read |
| `Machine.EveryTraceKeepsOrder` | src/terminal.c:319-395 | after start-up, every scancode trace whose lines build paths that fit leaves an ordered table under its root, a rooted directory within its buffer and a line within its own |
| `PageTables.RepStosd` | src/stage2.asm:128-131 | exactly the addressed dwords are set |
| `PageTables.FillDirectory` | src/stage2.asm:138-145 | the 512 entries, with 32-bit additions that never wrap, and nothing else |
| `PageTables.BuildTables` | src/stage2.asm:126-145 | the whole image, memory outside 0x9000-0xCFFF unchanged |
| `PageTables.ImageIs` | src/stage2.asm:126-145 | the image in numbers: 0xA003 at 0x9000, 0xB003 at 0xA000, 0x200000 * i + 0x83 for the 512 entries from 0xB000, zero elsewhere in the tables, memory outside unchanged |
| `PageTables.IdentityMapsFirstGigabyte` | src/stage2.asm:126-145 | a 4-level walk maps every address below 1 GiB to itself, writable and supervisor only, and finds every other 48-bit address not present |

## Left out

- Shell.Execute: only for lines whose joined path is shorter than 512 characters (`LineFits`); what the code does after writing past the buffer is not modelled.
- Machine.EveryTraceKeepsOrder: likewise only for traces that submit no line building a longer path (`PollFits`).
- EditRow.Console.EditKey: when the key changes the line, the row computed for the prompt must be on the screen. With the cursor on row 0 a line of 73 characters puts it at -1 (`EditRow.LongLineLeavesScreen`) and the code writes outside screen memory, which is not modelled. A redraw that reaches the end of the screen and scrolls is described only for lines of up to 72 characters.
- EditRow.Console.RedrawInputLine: the same bound on the prompt's row, for the same reason.
- Terminal.Interpreter.ExecuteCommand: the messages and the help, clear, exit, colour, version and formatting commands have no effect in the model beyond being recognised.
- Bytes of a name buffer after its terminator: a record's name is the string it holds.
- `fs_save`, `fs_load` and the superblock: stubs without behaviour.
- `fs_delete`: not declared in the header and called nowhere.
- `vga_printf` formatting: variable arguments and presentation; the printers it calls are modelled.
- The screen between Enter and the next prompt: it shows whatever the command prints.
- Ports and polling: the scancode is an input and cursor port writes are no effect.
- The UEFI loaders, `src/boot.asm`, and the disk read, descriptor table and mode switch of `src/stage2.asm`: firmware and processor plumbing.
- `src/kernel.c` and the build files: start-up order only.
