# Verified model of a teaching kernel and its user programs

The repository is a small x86 kernel (`student-distrib`), its user programs (`syscalls`) and an
animation demo (`fish`). This project models the parts of it that keep state or loop over data, and
proves what they promise. `dafny verify dfyconfig.toml` checks everything.

Each component has two layers. A few functions on values say what the component means to a caller:
the text on the console, the line being typed, the list of live blinks, the positions of the files.
Classes and methods over arrays follow the C and assembly, loop by loop, and each is proved to carry
out those functions. The lemmas are about the functions, so they hold for the code.

| module | component |
|---|---|
| `Bytes` | machine integers, bytes, lines of a file |
| `Console` | the 25x80 window over the scroll-back buffer, the cursor and its VGA registers |
| `Terminal` | the keyboard line editor and its echo, `terminal_read` |
| `Grep` | the streaming search with its 1024-byte buffer |
| `Blink`, `Frames` | the blink list in its slot pool, the ticking, and the two-picture animation |
| `FileSys` | the block-mapped read-only files and their positions, over the bytes of the image |
| `Images` | the image that holds given files, and reading them back from it |
| `Paging` | the page tables and the walk that section 4.3 of the Intel SDM, Volume 3A, defines |
| `Printf` | `itoa`, its in-place reversal, and `printf` |
| `Args` | the command splitter and the argument joiner |
| `Memory` | the word-wise `memset`, `memcpy` and `memmove` |
| `Rtc` | the interleavings of `rtc_write` with the interrupt handler |

## What is assumed

- Console: the cursor row stays at or below 19635, the last one whose window lies in the saved
  buffer (the C code has no such check), and the first operation after power-on finds the hardware
  cursor on. `ScreenInit` states what happens otherwise.
- Terminal: the three stores that begin a read happen with no keyboard interrupt between them. The
  table lookup for key codes of 128 and above reads past the tables; a key carries an arbitrary byte
  for it (`stray`).
- Grep: no NUL bytes in the file or the search string, `read` returns as much as fits, and the byte
  after the buffer is not a newline at first (it is uninitialised in the C code). Lines may be of any
  length and the search string may be empty or begin with any byte; what is printed is stated for all
  of them.
- File system: a well-formed image (inodes and blocks in range, at most 63 directory entries, files
  of at most 1023 blocks), and names that `fopen` can compare without leaving it.
- `printf` and `%d`: negating the smallest integer is taken to wrap around, which C leaves undefined.
- `scroll`: the sum of the offset and the top row does not overflow, which C leaves undefined.

## Where the code differs from what it says

- `terminal.c:312` speaks of 1024 characters; the code stops at 10, and so does the model.
- `fish/blink.S` accepts a blink at location 0, although 0 marks a free slot.
  `Blink.Driver.AddToList` shows that the pool stays consistent exactly when the add fails or the
  location is another one; `Blink.Driver.AddAfterZero` shows the cyclic list that any add after such
  an add makes.
- A sync always shows the target's off character: its conditional move looks at the sign, which the
  test before it clears. `Blink.SyncAgrees` shows that the screen is right exactly when the copied
  status is off or both characters are the same; `Blink.SyncExample` is a case in which it is wrong.
- A blink length of 0, or above 0x8000, lasts one tick, because the countdown is signed.
- `ece391grep.c` cuts lines of more than 1024 bytes into pieces. `Grep.PiecesAreLines` shows that it
  searches the lines of the file exactly when there is no such line.
- `fopen` compares only as many bytes as the name has, so it opens the first entry that begins with it.
  `FileSys.OpensTheNamedEntry` shows that this is the entry of that name, or none, exactly when no
  earlier entry has a longer name that begins with it; `FileSys.LongerNameFirst` is a directory in
  which opening "a" opens "ab".
- `read_data` lets the inode number one past the table through, and reads the first data block as if
  it were an inode (`FileSys.PastTheTable`).
- A `fread` into NULL returns -1 and adds that -1 to the position. `FileSys.PositionCounts` states
  where the position then is; the other properties of reads are about files not read into NULL.
- `ece391_getargs` stores the terminator of an argument before it checks the room for it.
  `Args.Getargs` shows that it stores one past the size it was given exactly when the first few
  arguments, joined, have that many characters (`Args.ExactFit`). `Args.OverrunExample` gives such an
  argument for every size; `Args.SplitFits` shows that no command that the splitter accepts has one
  for a size of 1023 or more, as all callers pass.

## Model

| member | source | states |
|---|---|---|
| Console.Put | student-distrib/lib.c:401-443 | after any character the cursor row is one of the 25 displayed rows, whichever way it left the window |
| Console.PutScrolls | student-distrib/lib.c:436-442 | where each character leaves the window: in place while the cursor row is in it, else with that row at the bottom, or at the start of a short text |
| Console.ShowsLastRows | student-distrib/lib.c:401-443 | printing any text scrolls no further than it takes to show the last row at the bottom |
| Console.ReturnsAreNewlines | student-distrib/lib.c:404-407 | a carriage return does what a newline does, in any text |
| Console.NextRow | student-distrib/lib.c:404-407 | a newline moves to the start of the next row and changes no cell |
| Console.Clear | student-distrib/lib.c:166-184 | clearing changes no cell of the scroll-back; it moves window and cursor past all of them |
| Console.Screen.UpdateCursor | student-distrib/lib.c:43-74 | the disable bit is set exactly when the cursor row is off the window; otherwise the position registers hold 80*row+col; no other register bit changes |
| Console.Screen.ScreenInit | student-distrib/lib.c:83-104 | establishes every console invariant exactly when the hardware cursor was on before |
| Console.Screen.ClearScreen | student-distrib/lib.c:166-184 | keeps the invariants and carries out `Clear` |
| Console.Screen.ScrollBy | student-distrib/lib.c:194-223 | clamps the top row between 0 and the cursor row and rebuilds the window from the saved cells; also right when called with an out-of-date window |
| Console.Screen.UpdateColor | student-distrib/lib.c:226-235 | recolours every saved and displayed cell without changing a character |
| Console.Screen.FontColor | student-distrib/lib.c:238-245 | keeps the invariants and steps the font colour only |
| Console.Screen.BackgroundColor | student-distrib/lib.c:249-256 | keeps the invariants and steps the background colour only |
| Console.Screen.ShowCursorRow | student-distrib/lib.c:439-442 | the unsigned distance and the signed scroll bring the cursor row into the window, also from just above it |
| Console.Screen.Putc | student-distrib/lib.c:401-443 | for all characters: saved cells, window copy, colour, cursor registers and window position agree with `Put` |
| Console.Screen.Puts | student-distrib/lib.c:389-399 | prints every byte of the string and returns its length |
| Console.Screen.Run | student-distrib/lib.c:83-443 | every run of operations keeps window = saved rows, one colour, blanks past the cursor, and the cursor registers |
| Console.Screen.PrintThenErase | student-distrib/lib.c:401-443 | printing any characters and as many backspaces restores saved memory and cursor exactly |
| Console.PrintedThenErased | student-distrib/lib.c:401-443 | the same on the text, across row wraps and scrolls |
| Console.PutsLaysOutLines | student-distrib/lib.c:389-443 | a printed text appears as its lines laid out row by row |
| Console.ScrollUndo | student-distrib/lib.c:194-223 | scrolling back undoes a scroll exactly when neither was cut short, or both were |
| Console.ScrollsNearest | student-distrib/lib.c:194-223 | a scroll comes as near to the row asked for as there are rows, and changes nothing else |
| Console.ScrollsAddUp | student-distrib/lib.c:194-223 | two scrolls in one direction are one |
| Console.ColoursStep | student-distrib/lib.c:238-256 | each press adds one to its colour, modulo 8 |
| Console.ColoursCycle | student-distrib/lib.c:238-256 | eight presses come back to the colour, four do not, and the other colour is kept |
| Terminal.Lookup | student-distrib/terminal.c:114-192 | the tables hold no control character but backspace and newline |
| Terminal.TypesEverything | student-distrib/terminal.c:114-192 | every printable ASCII character is typed by its key on a US keyboard, with or without Shift as it needs |
| Terminal.OtherKeys | student-distrib/terminal.c:114-192 | Backspace, Enter and the keypad; the remaining keys type nothing |
| Terminal.Press | student-distrib/terminal.c:204-321 | after every key the line being typed is exactly the text before the cursor; a read runs exactly until Enter |
| Terminal.PressAll | student-distrib/terminal.c:204-321 | the same for every sequence of keys, so backspace never passes the start of the line |
| Terminal.EnterEndsRead | student-distrib/terminal.c:306-310 | Enter ends the read with the line as it is and moves to the next row |
| Terminal.KeyTypes | student-distrib/terminal.c:311-319 | with Shift or Caps Lock a key types its upper character, otherwise its lower one, on the line and on the screen |
| Terminal.ShiftKeys | student-distrib/terminal.c:246-264 | Shift is on from a press of either key to its release |
| Terminal.CtrlAndCapsKeys | student-distrib/terminal.c:211-244 | Ctrl is on from press to release; Caps Lock turns over |
| Terminal.WindowKeys | student-distrib/terminal.c:221-275 | the scrolling and colour keys change the window only |
| Terminal.CtrlKeys | student-distrib/terminal.c:286-293 | Ctrl-L empties the line and the window; every other character is dropped |
| Terminal.IdleKeys | student-distrib/terminal.c:206-208 | keys outside a read, and releases, do nothing |
| Terminal.PageIsTwelveLines | student-distrib/terminal.c:221-239 | a page key is twelve line keys, also at both ends of the text |
| Terminal.EditsLine | student-distrib/terminal.c:299-320 | characters and backspaces edit a line of at most ten characters |
| Terminal.ReadsLine | student-distrib/terminal.c:50-69 | a line typed and corrected, with Enter at its end, is the line read, and the read goes on until then |
| Terminal.KeysKeepHistory | student-distrib/terminal.c:204-321 | no sequence of keys changes a cell before the line |
| Terminal.TypingIsCapped | student-distrib/terminal.c:311-319 | typing appends the characters and drops those past the tenth |
| Terminal.BackspaceUndoesTyping | student-distrib/terminal.c:301-319 | backspace takes back a typed character on the line and on the screen |
| Terminal.Keyboard.TerminalOpen | student-distrib/terminal.c:28-39 | an empty screen, an empty line, no modifiers, no read; consistent exactly when the hardware cursor was on before |
| Terminal.Keyboard.CommandKey | student-distrib/terminal.c:211-276 | the modifier, scrolling and colour keys do what `Decode` says |
| Terminal.Keyboard.ByteKey | student-distrib/terminal.c:299-320 | a byte edits `typed` and is echoed, or is ignored at either limit |
| Terminal.Keyboard.KeyboardInput | student-distrib/terminal.c:204-321 | buffer, flags and screen after any key are those of `Press` |
| Terminal.Keyboard.WaitForEnter | student-distrib/terminal.c:53-59 | the wait uses up keys to the first Enter and no further |
| Terminal.Keyboard.CopyLine | student-distrib/terminal.c:61-68 | copies min(cnt, line length) bytes, stopping at the newline |
| Terminal.Keyboard.TerminalRead | student-distrib/terminal.c:50-69 | returns the start of the line that the keys spell, and leaves the rest of the caller's buffer alone; a line typed and corrected without Ctrl ends the read at its Enter and min(cnt, length) bytes of it are returned |
| Grep.Strncmp | syscalls/ece391support.c:40-52 | 0 exactly when the search string stands at that position of the line |
| Grep.StrcpyDown | syscalls/ece391support.c:16-20 | the overlapping copy moves the partial line intact |
| Grep.SearchLine | syscalls/ece391grep.c:40-51 | finds the string exactly when the line contains it and its first byte is ASCII |
| Grep.SearchBuffer | syscalls/ece391grep.c:28-57 | what one pass prints and what it carries over account for the buffer and the unread file exactly |
| Grep.SearchFile | syscalls/ece391grep.c:20-60 | the whole report, once and in order, for every file; a failed read leaves a prefix of it; terminates |
| Grep.DoOneFile | syscalls/ece391grep.c:9-66 | output and result for open, read and close succeeding or failing |
| Grep.PiecesAreLines | syscalls/ece391grep.c:29-57 | what is searched are the lines of the file, if and only if no line exceeds 1024 bytes |
| Grep.PrintsMatchingLines | syscalls/ece391grep.c:20-60 | without such lines the output is the matching lines, once each and in order |
| Grep.HitIsContains | syscalls/ece391grep.c:40-42 | a hit is a line in which the string occurs, if that begins with an ASCII byte |
| Grep.ReportIsLines | syscalls/ece391grep.c:43-47 | the report, read as a text, has one line per hit, in order: the file's name, a colon and the line |
| Grep.ReportsMatchingLines | syscalls/ece391grep.c:20-60 | so the output for a file without overlong lines lists the lines that contain the string |
| Blink.Find | fish/blink.S:351-379 | the first node of the list with the location, or none |
| Blink.FullWhenAllUsed | fish/fish.c:161-171 | the list has as many nodes as the pool has slots exactly when no slot is free |
| Blink.PushKeepsPool | fish/blink.S:159-162 | linking a free slot in front keeps the list acyclic and is a prepend; consistent exactly for a non-zero location |
| Blink.UnlinkKeepsPool | fish/blink.S:201-223 | unlinking and freeing keeps the list acyclic and deletes exactly that position |
| Blink.ListAndFreeSlots | fish/fish.c:161-176 | the listed slots are exactly those with a location; list length plus free slots is 2000 |
| Blink.Driver.Malloc | fish/fish.c:161-171 | the lowest free slot, or none when all are in use |
| Blink.Driver.Add | fish/blink.S:105-184 | what an add stores in any state of the pool |
| Blink.Driver.AddToList | fish/blink.S:105-184 | fails exactly on a bad location or a full pool; otherwise prepends; consistent exactly unless it succeeds at location 0 |
| Blink.Driver.AddAfterZero | fish/blink.S:131-162 | after an add at location 0 an add at any place on the screen leaves a node that links to itself |
| Blink.Driver.FindHelper | fish/blink.S:351-379 | terminates and returns the first match |
| Blink.Driver.FindCell | fish/blink.S:206-212 | terminates at the link cell that holds the node |
| Blink.Driver.Remove | fish/blink.S:187-237 | succeeds exactly when the low word of the argument is a live location; then the first node there leaves the list, the others keep their order, and its slot is free |
| Blink.RemovesFirst | fish/blink.S:187-237 | on the board, exactly the first blink at the place is gone, and the screen is as it was |
| Blink.RemovesPlace | fish/blink.S:187-237 | with distinct places no blink is left there and every other one is |
| Blink.Driver.TickNode | fish/blink.S:64-86 | the 16-bit decrement, signed test, poke and toggle of one node |
| Blink.Driver.Tick | fish/blink.S:49-99 | one tick of every node, in list order, and the pokes it makes |
| Blink.Driver.Sync | fish/blink.S:240-300 | copies lengths, countdown and status of the first node with the source location to the first one with the target location and shows the target's off character; fails exactly when either is missing |
| Blink.SyncWords | fish/blink.S:249-262 | the source is the high word of the argument and the target the low one |
| Blink.Driver.Run | fish/blink.S:49-300 | every run of adds, removes, syncs and ticks in which no add at location 0 succeeds keeps the pool consistent and follows the list model |
| Blink.BlinkLaw | fish/blink.S:64-86 | a blink is on after t ticks exactly when t mod (on + off) is below on, for all 16-bit lengths |
| Blink.SyncAgrees | fish/blink.S:277-285 | after a sync the screen still matches every status exactly when the copied status is off or the target's characters are the same |
| Blink.SyncExample | fish/blink.S:277-285 | two blinks that are on, after whose sync the screen is wrong |
| Blink.SyncedInPhase | fish/blink.S:240-275 | a synced blink has the lengths, countdown and status of its source from then on, after any run that leaves both alone |
| Blink.RunAgrees | fish/blink.S:49-300 | with distinct locations, and syncs only as `SyncAgrees` allows, every live node's character on the screen matches its status, in every reachable state |
| Blink.RunHolds | fish/blink.S:49-300 | a blink is ticked once per tick whatever is added, removed and synced around it |
| Blink.ShowsPhase | fish/blink.S:49-184 | the screen shows the character of a blink's phase after any run that leaves it alone |
| Blink.RunElsewhere | fish/blink.S:43-99 | no other byte of the video memory is written |
| Frames.AddsExactly | fish/fish.c:99-148 | exactly one add per position where either padded picture is not blank, in reading order |
| Frames.NextByte | fish/fish.c:103-117 | one guarded read advances a row by one column, or ends it |
| Frames.AddRow | fish/fish.c:100-131 | the adds of one row of both files |
| Frames.AddFrames | fish/fish.c:79-149 | the adds for any two files, of any line counts and lengths, with or without a final newline |
| Frames.PicturesAlternate | fish/fish.c:36-44 | after all adds and t ticks every non-blank place shows the first picture if t mod 30 is below 15, else the second |
| Frames.PicturesKeepTheRest | fish/fish.c:36-44 | every other byte of the video memory keeps its value |
| Frames.Animate | fish/fish.c:36-44 | the code itself, from two files to the screen: after the adds and t ticks the video memory is as above |
| FileSys.Found | student-distrib/filesys.c:20-33 | the first directory entry that begins with the name |
| FileSys.OpensTheNamedEntry | student-distrib/filesys.c:20-33 | that is the entry of exactly this name, or none, if and only if no earlier entry has a longer name that begins with it |
| FileSys.LongerNameFirst | student-distrib/filesys.c:20-33 | a directory in which a longer name is opened instead |
| FileSys.ByteOfFile | student-distrib/filesys.c:138-161 | the address computed for a position lies in the image and holds that byte of the concatenated blocks |
| FileSys.PastTheTable | student-distrib/filesys.c:135-161 | the number one past the inodes reads the first data block as an inode |
| FileSys.FileSystem.Fopen | student-distrib/filesys.c:20-33 | resets the opened file's position and no other; a failed open disturbs none |
| FileSys.FileSystem.ReadData | student-distrib/filesys.c:132-164 | the requested part of the file, its blocks in order cut to its length; at its end 0 and a blanked buffer; -1 exactly for a NULL buffer or a number above that of inodes |
| FileSys.FileSystem.Fread | student-distrib/filesys.c:43-54 | the next chunk and the new position; -1 exactly for a bad index or a NULL buffer |
| FileSys.PositionCounts | student-distrib/filesys.c:20-54 | for any interleaving, a position is the number of bytes returned since the last open less the reads into NULL, modulo 2^32 |
| FileSys.ChunksAreAPrefix | student-distrib/filesys.c:20-54 | for any interleaving of opens and reads, each file's chunks since its last open are its prefix up to its position, if none was read into NULL |
| FileSys.EmptyReadMeansDone | student-distrib/filesys.c:144-150 | a read returns nothing exactly when the whole file has been returned |
| Images.WordReads | student-distrib/filesys.c:132-141 | a 32-bit word is read from its four bytes, least significant first |
| Images.WordIsBytes | student-distrib/filesys.c:132-141 | and those are the bytes of what is read |
| Images.ImageHoldsFiles | student-distrib/filesys.c:111-161 | the image laid out for any storable files is well-formed, and reading its directory and blocks gives back every name and all data |
| Images.StoredFileIsRead | student-distrib/filesys.c:20-54 | opening a stored file by name and reading it gives its data, unless an earlier name begins with that name |
| Paging.WalkIsIdentity | student-distrib/paging.c:13-48 | with the entries that `paging_init` leaves, the walk maps the intended memory to itself and nothing else |
| Paging.ConsoleIsMapped | student-distrib/lib.c:418-433 | every byte that the console stores to is mapped to itself |
| Paging.MemoryMap | student-distrib/paging.c:13-48 | exactly the tables, the display, the saved text and the kernel are mapped, each to itself |
| Paging.PagingInit | student-distrib/paging.c:13-48 | the code leaves those entries, so after it the walk does that for every address |
| Paging.OrLow | student-distrib/paging.c:23-48 | or-ing flags into an aligned address changes only its low bits |
| Paging.OrBits | student-distrib/paging.c:23-48 | a bit of the result is set exactly when it is set in either word |
| Printf.DigitsInOrder | student-distrib/lib.c:446-452 | the digits of every radix, in upper case |
| Printf.DigitsAreTheOnlyNumeral | student-distrib/lib.c:446-479 | the digit string is the only one without leading zeros that denotes the value |
| Printf.Strrev | student-distrib/lib.c:482-498 | reverses the string in place and touches nothing before it |
| Printf.Itoa | student-distrib/lib.c:446-479 | leaves that digit string, NUL-terminated, for every 32-bit value and radix 2 to 36 |
| Printf.Hex8 | student-distrib/lib.c:318-328 | always exactly eight digits: zeros and then the numeral |
| Printf.ConvertHex | student-distrib/lib.c:312-331 | both forms of the hexadecimal conversion |
| Printf.ConvertSigned | student-distrib/lib.c:344-357 | sign and magnitude for every 32-bit value |
| Printf.SignedDenotes | student-distrib/lib.c:344-357 | the text is the numeral of the value, or a minus sign and that of its distance from 2^32 |
| Printf.WordConversions | student-distrib/lib.c:312-364 | which radix and form each conversion letter means; a sharp alters `%x` only |
| Printf.SharpExample | student-distrib/lib.c:266-270 | the documented example of the sharp form |
| Printf.StringConversion | student-distrib/lib.c:365-369 | a string is put as it is |
| Printf.OtherConversions | student-distrib/lib.c:296-374 | a percent sign, and nothing for an unknown letter |
| Printf.PlainText | student-distrib/lib.c:379-383 | text without a percent sign is put as it is |
| Printf.RenderAppend | student-distrib/lib.c:277-386 | two formats in a row, with the arguments divided between them, render one after the other |
| Printf.Printf | student-distrib/lib.c:277-386 | the console afterwards is as after putting the rendering of the format, for every well-formed format; returns the format's length |
| Args.WordsCount | syscalls/ece391emulate.c:88-98 | a text of n characters has at most (n + 1) / 2 words |
| Args.Split | syscalls/ece391emulate.c:68-100 | the argument strings lie NUL-terminated in the buffer, at most 512 of them; too long a command is refused |
| Args.NextArgument | syscalls/ece391emulate.c:88-98 | one turn of the parsing loop finds the next word and stores only NULs |
| Args.NameAndArguments | syscalls/ece391emulate.c:74-98 | what is before the first space names the program, and the words after it are the arguments |
| Args.Getargs | syscalls/ece391emulate.c:131-157 | joins the arguments with spaces, and succeeds exactly when the result and its NUL fit; stores a NUL one past the size given exactly when there is an exact fit, and nothing else there |
| Args.OverrunExample | syscalls/ece391emulate.c:138-143 | an argument as long as the buffer is an exact fit, for every size |
| Args.SplitFits | syscalls/ece391emulate.c:68-157 | the arguments of an accepted command fit every buffer of 1023 bytes or more, with their NUL and no exact fit |
| Args.SplitThenJoin | syscalls/ece391emulate.c:68-157 | splitting and joining gives the text after the name with its spaces normalised, with or without a final newline |
| Args.ResplitIsStable | syscalls/ece391emulate.c:68-157 | splitting the joined text gives the same arguments again |
| Memory.Memset | student-distrib/lib.c:512-549 | equals a byte-wise fill, for every alignment and length |
| Memory.Memcpy | student-distrib/lib.c:588-628 | equals a copy from a snapshot, for disjoint regions and for a destination below the source |
| Memory.Memmove | student-distrib/lib.c:631-652 | equals a copy from a snapshot, for every overlap |
| Rtc.RunKeepsInv | student-distrib/rtc.c:18-90 | what every interleaving of processor steps and interrupts keeps |
| Rtc.BusyBound | student-distrib/rtc.c:72-86 | for every interleaving, each step of a processor that is not idle brings the write closer to its end |
| Rtc.WriteEnds | student-distrib/rtc.c:57-90 | so an accepted write ends after a bounded number of such steps |
| Rtc.OneRound | student-distrib/rtc.c:77-86 | one interrupt during the wait ends the write with success, with failure if it was the last one, or leads to the next wait |
| Rtc.WriteFinishes | student-distrib/rtc.c:57-90 | a whole write: success at the first update-ended interrupt, failure after as many others as the frequency, and waiting until then |
| Rtc.WriteResult | student-distrib/rtc.c:57-90 | 0 exactly when an update-ended interrupt was handled in time; -1 for an accepted count only after as many interrupts as the frequency, none of them so coded |

## Left out

- `BSOD` and `test_interrupts`: they write the display only, on purpose.
- `terminal_write`: a copy and a `puts`.
- `mp1_ioctl_find` of fish/blink.S: it only copies what `FindHelper` returns.
- Blink.Driver.Run: nothing is stated for what follows a successful add at location 0, beyond `AddAfterZero`.
- Memory.Memcpy: nothing is stated for a destination inside the source region, where the original does not promise a copy.
- Frames.AddFrames: a failing `read` or `open` is not modelled; the fields of the structure that the driver overwrites are 0.
- Grep.SearchFile: a `read` that returns fewer bytes than fit before the end of the file is not modelled.
- Printf.Printf: nothing is stated for a format that ends inside a conversion or whose arguments do not match; the original then reads past them.
- `read_dentry_by_name`, the directory reader and the loader of filesys.c: the first has no usable meaning, the others add only easy members.
- `palloc` in paging.c: its tests and masks leave no translation to state.
- Rtc.WriteResult: the value written to register A and the periodic flag of `rtc_read` are not modelled.
- Boot code, descriptor tables, the interrupt controller, system-call stubs, and the remaining user programs.
