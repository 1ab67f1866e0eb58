# A verified model of yapara

yapara reads command lines and runs them, several at a time, under a terminal or
plain interface. This project models the parts of it that hold its logic and
proves what they promise, in Dafny 4.11:

- **Trees** (`TreeTheory`, `TreeLinks`, `TreeFixup`, `TreeSurgery`,
  `RedBlackTree`): the red-black tree macros of `src/yc-rbtree-macros.h`, with
  parent pointers, no sentinel and subtree counts, against a sorted sequence of
  nodes. The heap operations write fields only; what the writes mean is proved on
  a snapshot of the nodes, for a tree with one place left open.
- **Byte buffers** (`BufferPieces`, `FragmentBuffer`, `BufferRuns`): the chains
  of fragments of `src/yc-buffer.c` against flat byte sequences, with a shared
  recycling pool, foreign memory and its destroy callbacks, and whole runs over
  several buffers.
- **Line ring** (`LineRing`): `src/yc-circular-buffer.c` against a bounded queue
  of lines.
- **Shell lines** (`ShellSyntax`, `ShellWords`, `ShellRedirections`, `ShellLine`,
  `ShellEnvironment`, `ShellQuoting`, `ShellSpelling`): the translator of
  `src/yc-shell.c`, and the resolution of duplicated descriptors in
  `src/yc-child.c`, against chapter 2 of the XCU volume of POSIX.1-2017; and what
  a line means, stated on how its words, assignments and redirections are written.
- **Terminal** (`Utf8`, `TerminalDisplay`, `Terminal`, `TerminalKeys`): the diffed
  frame buffer, against a terminal that keeps attributes in force from one row to
  the next; the decoding of keys; and the UTF-8 decoder of `src/yc-term.c`, against
  section 3 of RFC 3629.
- **Jobs** (`JobIndex`, `LineDelivery`, `JobTable`): index formatting, line
  reassembly and the job tables of `src/yc-ui.c`.
- **Supervision** (`ChildProcess`, `Scheduler`): the child and container callbacks
  of `src/yc-child.c` with the driver of `src/yapara-main.c`, over every
  interleaving of what libuv, the children and the operating system may do.

`dafny verify dfyconfig.toml` checks all of it. A class holds the state that the
source updates in place; the ghost fields of a class hold what that state stands
for, and its `Valid` ties the two together. Sizes, counts and indices are unbounded numbers
unless a constant bounds them; `char` stands for one byte of a command line.

Where the code and its descriptions differ, the model follows the code:

- `yc_buffer_append_zeros` passes its arguments in the wrong order and appends
  nothing (`FragmentBuffer.Buffer.AppendZeros`).
- `yc_buffer_clear` says that the buffer may be used again, but leaves its ends
  and its size as they were; only an empty buffer survives it
  (`FragmentBuffer.Buffer.Clear`).
- `yc_buffer_str_index_of` compares unsigned bytes with signed characters: a text is
  found where it occurs exactly when it has no byte above 127
  (`FragmentBuffer.MatchesAsSigned`).
- A line that fills the ring is taken for an empty one as long as it is not alone
  (`LineRing.Ring.GetLine`), and evicting it then drops too much or leaves a wrong
  occupancy (`LineRing.Ring.Add`; `LineRing.FillingLineIsMistaken` is an instance).
  It cannot happen when no line can fill the ring, or none is empty
  (`LineRing.Ring.AddAll`).
- `EMPTY` is said to be for blank lines and comments. A line is reported so exactly
  when nothing in it comes to anything: it may also hold redirections like `1>&1`,
  and words that expand to nothing (`ShellLine.CalledEmpty`).
- The diffed repaint shows what a full one would, over every earlier screen, exactly
  when each row that leaves attributes in force is followed only by rows that reset
  them at once (`TerminalDisplay.RightOverAny`). A row that is ended leaves none.
- A combining mark after a character in the last column is dropped, although the
  comment has it stay (`Terminal.Term.MarkAtTheEdge`).
- A key sequence that is not handled is said to be dropped. It is exactly when its
  parameters are digits only; otherwise only the part up to the first that is none
  is, and the rest is told as if it had been typed (`TerminalKeys.TakenWhole`;
  `TerminalKeys.ModifierLeaks` is an instance).
- A text is said not to be able to drive the terminal. No C0 control and no DEL of it
  is sent, but C1 controls are, in UTF-8 (`Terminal.WhatPasses`).
- A hangup is said not to close what is watched for reading. It does not exactly when
  the pipe is not watched for writing as well (`ChildProcess.HangupSpares`);
  otherwise, reported writable at the same time, it is closed with what is left in it
  (`ChildProcess.UnreadIsLost` is an instance). The driver sets up no such pipe.

## Model

| member | source | states |
|---|---|---|
| RedBlackTree.RbTree.Insert | src/yc-rbtree-macros.h:691-800 | INSERT returns the equal node and changes nothing, or puts the node in its place in the order; links, order, colours, black heights and counts are right again |
| RedBlackTree.RbTree.Descend | src/yc-rbtree-macros.h:693-714 | the descent ends at the equal node or at the place where the node belongs, and remembers the side |
| RedBlackTree.RbTree.InsertFixup | src/yc-rbtree-macros.h:745-798 | the repair loop ends, always finds a grandparent, and turns one red-red pair into a valid tree with the same contents and counts |
| RedBlackTree.RbTree.BumpCounts | src/yc-rbtree-macros.h:737-744 | after a leaf is hung in, every count on the way up is its subtree's size again |
| RedBlackTree.RbTree.Remove | src/yc-rbtree-macros.h:802-948 | REMOVE leaves a valid tree whose sequence is the old one without just that node; every other node stays the same object |
| RedBlackTree.RbTree.RemoveHere | src/yc-rbtree-macros.h:810-832 | a node with one child at most is spliced out, also when the child is missing and only its parent stands for it |
| RedBlackTree.RbTree.RemoveSuccessor | src/yc-rbtree-macros.h:833-860 | a node with two children is replaced by its successor node itself, relinked, with its colour and count |
| RedBlackTree.RbTree.RemoveFixup | src/yc-rbtree-macros.h:861-944 | the repair loop ends and makes up for one missing black on a path, through all cases of the sibling |
| RedBlackTree.RbTree.Rotate | src/yc-rbtree-macros.h:1020-1066 | a rotation, either way, keeps the links, the order and every count |
| RedBlackTree.RbTree.FixCountsUp | src/yc-rbtree-macros.h:1068-1089 | recounting from a node upwards makes every count right again when only those on that path were wrong |
| RedBlackTree.RbTree.Neighbour | src/yc-rbtree-macros.h:609-635 | NEXT and PREV give the node beside it in the sequence, or null at the end |
| RedBlackTree.RbTree.End | src/yc-rbtree-macros.h:637-646 | FIRST and LAST give the ends of the sequence, or null for an empty tree |
| RedBlackTree.RbTree.Lookup | src/yc-rbtree-macros.h:487-503 | LOOKUP gives the node with the key, or null exactly when there is none |
| RedBlackTree.RbTree.LookupOr | src/yc-rbtree-macros.h:506-577 | LOOKUP_OR_NEXT and LOOKUP_OR_PREV give the nearest node at or beyond the key, or null exactly when there is none |
| RedBlackTree.RbTree.GetByIndex | src/yc-rbtree-macros.h:974-999 | GET_BY_INDEX gives the node at that position of the sequence, or null beyond its end |
| RedBlackTree.RbTree.GetNodeIndex | src/yc-rbtree-macros.h:1001-1018 | GET_NODE_INDEX gives the one position at which the node stands, so that it undoes GET_BY_INDEX |
| RedBlackTree.RbTree.HeightOfTree | src/yc-rbtree-macros.h:153-253 | a tree of n nodes is at most 2 log2(n + 1) high |
| TreeFixup.Grandparent | src/yc-rbtree-macros.h:201-203 | a red parent in a tree being repaired is never the root |
| TreeFixup.RedUncle | src/yc-rbtree-macros.h:206-212 | recolouring under a red uncle moves the red-red pair two levels up |
| TreeFixup.InsideToOutside | src/yc-rbtree-macros.h:215-219 | rotating an inner red pair makes it an outer one |
| TreeFixup.BlackUncle | src/yc-rbtree-macros.h:220-223 | recolouring and rotating under a black uncle ends the repair |
| TreeRemoval.RedSibling | src/yc-rbtree-macros.h:872-879 | rotating a red sibling gives a black one and keeps the missing black where it is |
| TreeRemoval.BlackNephews | src/yc-rbtree-macros.h:880-885 | with two black nephews the missing black moves one level up |
| TreeRemoval.NearNephew | src/yc-rbtree-macros.h:888-896 | a red near nephew is turned into a red far one |
| TreeRemoval.FarNephew | src/yc-rbtree-macros.h:897-903 | with a red far nephew one rotation makes up for the missing black |
| TreeTheory.RotatedInOrder | src/yc-rbtree-macros.h:587-606 | a rotation does not change the sequence |
| TreeTheory.HeightBound | src/yc-rbtree-macros.h:153-253 | black heights and the absence of red pairs bound the height of any tree |
| FragmentBuffer.Arena.NewNative | src/yc-buffer.c:59-84 | a fragment is taken from the pool or newly made; it is empty and no longer in the pool |
| FragmentBuffer.Arena.Recycle | src/yc-buffer.c:112-132 | a foreign fragment's callback runs once; a native one joins the pool exactly when there is room |
| FragmentBuffer.Buffer.Append | src/yc-buffer.c:199-232 | the bytes come at the end; no fragment is left empty, and the size is the total |
| FragmentBuffer.Buffer.AppendRepeatedByte | src/yc-buffer.c:234-266 | the same for one byte many times |
| FragmentBuffer.Buffer.AppendZeros | src/yc-buffer.h:71-72 | nothing is appended, whatever the count |
| FragmentBuffer.Buffer.AppendSmall | src/yc-buffer.h:182-200 | the inline append does what append does |
| FragmentBuffer.Buffer.AppendByte | src/yc-buffer.h:201-215 | the inline append of a byte does what append does |
| FragmentBuffer.Buffer.AppendForeign | src/yc-buffer.c:1036-1065 | foreign memory joins without copying, and its callback is owed; for no bytes it runs at once |
| FragmentBuffer.Buffer.Read | src/yc-buffer.c:336-372 | as many bytes as asked and there are leave the front, in order; callbacks of consumed fragments run, no others |
| FragmentBuffer.Buffer.Discard | src/yc-buffer.c:535-564 | the same without the bytes |
| FragmentBuffer.Buffer.Peek | src/yc-buffer.c:390-417 | the front is copied and nothing changes |
| FragmentBuffer.Buffer.PeekByte | src/yc-buffer.c:499-506 | the first byte, or -1 for an empty buffer |
| FragmentBuffer.Buffer.ReadByte | src/yc-buffer.c:518-523 | the first byte is taken, or -1 for an empty buffer |
| FragmentBuffer.Buffer.ReadLine | src/yc-buffer.c:431-464 | the bytes up to the first newline are taken with it, and nothing when there is none |
| FragmentBuffer.Buffer.ParseString0 | src/yc-buffer.c:477-487 | the same up to the first NUL |
| FragmentBuffer.Buffer.EmptyToString | src/yc-buffer.c:1709-1715 | everything is taken |
| FragmentBuffer.Buffer.Clear | src/yc-buffer.c:719-734 | every callback owed runs and every fragment is given back; the buffer is sound afterwards exactly when it was empty |
| FragmentBuffer.Buffer.Reset | src/yc-buffer.c:736-742 | the buffer is empty and sound, and every callback owed has run |
| FragmentBuffer.Buffer.FindFragment | src/yc-buffer.c:1504-1525 | the fragment and offset found hold the byte at that position; null for the end |
| FragmentBuffer.Buffer.GetByteAt | src/yc-buffer.c:1531-1537 | the byte at a position of the flat sequence |
| FragmentBuffer.Buffer.GetLastByte | src/yc-buffer.c:1526-1530 | the last byte of the flat sequence |
| FragmentBuffer.Buffer.IndexOf | src/yc-buffer.c:754-771 | the first occurrence in the flat sequence, or -1 when there is none |
| FragmentBuffer.Buffer.StrIndexOf | src/yc-buffer.c:782-835 | the first occurrence of a non-empty text, also across fragments, exactly when it occurs and has no byte above 127; otherwise -1 |
| FragmentBuffer.MatchesAsSigned | src/yc-buffer.c:796-826 | bytes match the characters of a text exactly where it occurs, if it has no byte above 127 |
| FragmentBuffer.Buffer.Transfer | src/yc-buffer.c:868-896 | all bytes and all callbacks owed go to the other buffer, in order, with the fragments themselves |
| FragmentBuffer.Buffer.TransferMax | src/yc-buffer.c:942-980 | just as many bytes as asked and there are go to the end of the other buffer, and the source keeps the rest |
| FragmentBuffer.Buffer.AppendBuffer | src/yc-buffer.c:983-992 | a copy of the other buffer is appended, and that one stays as it is |
| FragmentBuffer.Buffer.AppendBufferMax | src/yc-buffer.c:994-1018 | the same for no more than so many bytes |
| BufferPieces.FlattenConcat | src/yc-buffer.c:868-896 | hanging one chain on another concatenates the bytes and adds up the callbacks owed |
| BufferRuns.Workspace.Step | src/yc-buffer.c:199-1065 | any operation on any of several buffers changes their texts as it would plain sequences, and no other text |
| BufferRuns.Workspace.Run | src/yc-buffer.c:199-1065 | any run of operations, and so every interleaving, leaves the texts and gives the answers of the same run on plain sequences; callbacks given are those run and those owed |
| BufferRuns.Workspace.NothingShared | src/yc-buffer.h:2-3 | no fragment is in two buffers, or in one and in the pool |
| BufferRuns.Workspace.AllRun | src/yc-buffer.c:1022-1035 | when all buffers are empty, each callback that was given has run exactly once |
| BufferRuns.LineOfIs | src/yc-buffer.c:431-464 | the line of a plain sequence is what comes before its first newline |
| LineRing.Ring.Add | src/yc-circular-buffer.c:56-160 | from every ring that can be reached: the line that comes last is the text if that is not too long, else its first bytes, and of a UTF-8 text as many whole code points as fit, marked as cut; the fewest oldest lines go and are counted, unless a line that fills the ring is mistaken for an empty one: then all go, or, for an empty line, the occupancy goes wrong |
| LineRing.Ring.MakeRoom | src/yc-circular-buffer.c:73-113 | the eviction loop ends with room in both rings, from every ring that can be reached, after as many lines as the queue says |
| LineRing.Ring.DropOne | src/yc-circular-buffer.c:75-112 | the oldest line goes, and how much the occupancy then changes |
| LineRing.Ring.WriteText | src/yc-circular-buffer.c:139-156 | the bytes go into the ring from the write position on, in two parts if need be, and no other place changes |
| LineRing.Ring.GetLine | src/yc-circular-buffer.c:163-230 | for every age the two parts give that line with its flag and data, exactly unless it fills the ring and is not alone |
| LineRing.Ring.GetStats | src/yc-circular-buffer.c:233-240 | the number of lines and of their bytes; the size of the ring when its occupancy has gone wrong |
| LineRing.Ring.AddAll | src/yc-circular-buffer.c:56-160 | any run of additions leaves the bounded queue it should and drops as many lines each time, when no line can fill the ring or none is empty |
| LineRing.Ring.AddAny | src/yc-circular-buffer.c:56-160 | any run of additions at all leaves the state, and drops the numbers of lines, that follow from the queue and whether the occupancy has gone wrong |
| LineRing.FillingLineIsMistaken | src/yc-circular-buffer.c:97-103 | a ring in which it happens: a line is shown empty, and two go where one would have been enough |
| LineRing.FewestEvictions | src/yc-circular-buffer.c:73-113 | after the lines dropped there is room in bytes and in lines, and there was none after fewer |
| LineRing.TooManyGo | src/yc-circular-buffer.c:95-108 | in the ambiguous case fewer lines than all of them would have been enough |
| LineRing.UnmistakableIsPlain | src/yc-circular-buffer.c:95-108 | the ambiguous case needs both a line that fills the ring and an empty one |
| LineRing.BytesOfLine | src/yc-circular-buffer.c:169-178 | the bytes from a line's start on are its text, round the end of the ring |
| LineRing.AddBytes | src/yc-circular-buffer.c:139-157 | what is written comes after what was there, and overwrites none of it |
| LineRing.AddRecord | src/yc-circular-buffer.c:115-137 | the new record and its data share a slot, and no other line's is touched |
| LineRing.CutBetweenCodePoints | src/yc-circular-buffer.h:17-18 | a UTF-8 text that is too long is cut between code points |
| ShellWords.ParseWord | src/yc-shell.c:222-366 | one pass over a word gives just the fields of its two-phase definition, or its error with the same code and position |
| ShellWords.ExpandDollar | src/yc-shell.c:374-479 | a parameter's value joins the word, and splits it where it is to be split |
| ShellWords.ReadParameter | src/yc-shell.c:381-449 | the name after a dollar sign, or the error for what only a shell understands |
| ShellWords.ReadName | src/yc-shell.c:427-437 | a name of up to 127 characters |
| ShellSyntax.Word | src/yc-shell.c:222-366 | the cursor moves on unless the word ends at once, never passes the terminator, and stops where a word ends |
| ShellSyntax.OneUnit | src/yc-shell.c:464-478 | splitting while expanding: one more byte closes the open field or joins it, as splitting all at once would have it |
| ShellSyntax.LastField | src/yc-shell.c:360-364 | at the end the open field counts unless it has neither bytes nor quotes |
| ShellSyntax.AtMostOneField | src/yc-shell.c:217-221 | a word that is not to be split gives one field at most |
| ShellRedirections.FdMap.Get | src/yc-shell.c:133-141 | the slot of a descriptor, or none |
| ShellRedirections.FdMap.Set | src/yc-shell.c:145-166 | the slot of a descriptor is replaced in its place, or added |
| ShellRedirections.FdMap.CheckDupOrder | src/yc-shell.c:667-693 | accepts exactly the maps in which no duplication's source was redirected later |
| ShellRedirections.AcceptedOrder | src/yc-shell.c:667-693 | on the redirections: accepted exactly if the last one of each descriptor, when it duplicates another, comes after the last one of that |
| ShellRedirections.LastWins | src/yc-shell.c:143-144 | the map holds just the last redirection of each descriptor |
| ShellRedirections.FollowDups | src/yc-child.c:374-397 | a chain is followed to what it comes to rest at; it is called circular exactly when it never ends, and not configured when it leaves the child's descriptors |
| ShellRedirections.ResolveDupFds | src/yc-child.c:353-404 | succeeds exactly when every chain comes to rest, and then gives each duplication what it rests at |
| ShellRedirections.LongWalkIsEndless | src/yc-child.c:389-395 | more hops than there are descriptors means a circle |
| ShellRedirections.BuildCreateInfo | src/yc-shell.c:744-776 | the descriptors of the child's description are 0 to 2 and every redirected one, each once, with what the map has for it, names and directions included |
| ShellRedirections.OpensInTurn | src/yc-shell.c:744-776 | each described descriptor is inherited if nothing redirects it, else the file or the duplication of its last redirection, opened for reading, writing or appending as that asks |
| ShellRedirections.DupMeansTarget | src/yc-shell.c:667-671 | an accepted duplication has its source's final meaning, and the source was redirected strictly earlier |
| ShellRedirections.WalkEnds | src/yc-child.c:389-395 | each hop of an accepted line goes to an earlier redirection, so that no chain is circular |
| ShellRedirections.ResolvedMeansInTurn | src/yc-shell.c:667-693 | for an accepted line, resolving gives each descriptor what the redirections carried out in turn give it, and succeeds exactly for those not left closed |
| ShellRedirections.Resolve | src/yc-child.c:353-404 | the same for the whole way from the redirections to the descriptors of the child; the circular error never occurs |
| ShellRedirections.RefusedForGoodReason | src/yc-shell.c:667-671 | `2>&1 >log` is refused, and would resolve to the wrong file |
| ShellRedirections.RefusedWithoutNeed | src/yc-shell.c:672-693 | a refused line that would have resolved rightly: the check is sufficient, not necessary |
| ShellLine.ParseRedirect | src/yc-shell.c:513-664 | one redirection with its defaults and limits, or its error; the map changes by it alone |
| ShellLine.ParseTarget | src/yc-shell.c:585-664 | what follows the operator: a descriptor, or one word as a file name |
| ShellLine.ParseAssignment | src/yc-shell.c:483-509 | the name as it stands and the value as one field |
| ShellLine.ParseItems | src/yc-shell.c:794-826 | a line is words, leading assignments and redirections in order, up to its end or a comment; the loop ends |
| ShellLine.ShellParse | src/yc-shell.c:830-891 | the outcome of a line: a direct child, a shell for what is unsupported if allowed, or an error with code and position |
| ShellLine.LineFrom | src/yc-shell.c:794-826 | the cursor stays within the line, for results and for errors |
| ShellLine.ANoOpIsCalledEmpty | src/yc-shell.c:871-877 | `1>&1` alone is reported as blank, and is neither blank nor a comment |
| ShellLine.CalledEmpty | src/yc-shell.h:39-40 | a line is reported as blank exactly if it can be read and holds nothing but redirections of a descriptor to itself and words that expand to nothing; as the header has it, exactly if it holds none of these either |
| ShellLine.LineGathers | src/yc-shell.c:794-826 | what a line says is what its items say, in order |
| ShellEnvironment.BuildEnv | src/yc-shell.c:711-742 | nothing when nothing is assigned; else the environment with all assignments carried out |
| ShellEnvironment.LastAssignmentWins | src/yc-shell.c:726-738 | getenv in the child gives the last assignment of a name, and what it gave before for names not assigned |
| ShellEnvironment.LineAssigns | src/yc-shell.c:483-509 | every assignment a line yields has a name and an equals sign |
| ShellQuoting.ReadBack | src/yc-shell.c:242-324 | any non-empty list of strings, each in single or double quotes and set apart by blanks, reads back as just that argv |
| ShellQuoting.ReadBackWord | src/yc-shell.c:242-324 | a quoted string reads back as one field, split or not |
| ShellSpelling.ReadWord | src/yc-shell.c:222-366 | a word of plain text, escaped characters, both kinds of quotes and variables, with lone dollar signs, backslashes and continued lines, is read as what its chunks expand to |
| ShellSpelling.FieldsTogether | src/yc-shell.c:464-478 | what is set apart by blanks of unquoted variables makes the fields, and nothing else does |
| ShellSpelling.QuotedVariable | src/yc-shell.c:454-462 | a variable in double quotes is one field, its value, also if that is empty or it is unset |
| ShellSpelling.UnsplitVariable | src/yc-shell.c:454-462 | unquoted in an assignment or a file name it is its value unsplit, or nothing |
| ShellSpelling.SplitVariable | src/yc-shell.c:464-478 | unquoted in a command it gives the runs of its value between blanks, and none if it is unset or blank |
| ShellSpelling.ReadLine | src/yc-shell.c:794-826 | a line of words, assignments and redirections as they are spelled is read as what they say in order: > truncates, >> appends, < reads, numbers are decimal, and without one < means 0 and > means 1 |
| ShellSpelling.Outcomes | src/yc-shell.c:830-891 | such a line, with a comment or not, is spawned directly with just those arguments, assignments and redirections; or is left to a shell for the order of its duplications; or has no command; or is empty |
| ShellSpelling.ForAShell | src/yc-shell.c:331-350 | an operator, a pattern, a brace, a backquote, an exclamation mark, or a tilde that begins a word leaves the line to a shell, or is an error at its place |
| ShellSpelling.NotAVariable | src/yc-shell.c:395-437 | so does a dollar sign before a special or positional parameter, a parenthesis or a name of more than 127 characters |
| ShellSpelling.NotAPlainName | src/yc-shell.c:404-449 | so do braces that hold no name or more than a name |
| ShellSpelling.WithinQuotation | src/yc-shell.c:258-307 | so does a backquote or a special parameter between double quotes; without the closing one the line is an error for any shell |
| ShellSpelling.NotClosed | src/yc-shell.c:242-256 | as it is without the closing apostrophe |
| ShellSpelling.LastBackslash | src/yc-shell.c:309-315 | and with a backslash at its end |
| ShellSpelling.NumberTooLarge | src/yc-shell.c:525-541 | a descriptor above 1024 leaves the line to a shell, or is an error where the redirection begins |
| ShellSpelling.OperatorForAShell | src/yc-shell.c:543-603 | so does a here-document, <>, >|, or an ampersand that no descriptor follows |
| ShellSpelling.MoreThanADescriptor | src/yc-shell.c:616-622 | a descriptor after an ampersand with anything but a blank, an operator or the end after it is an error for any shell |
| ShellSpelling.NoFileName | src/yc-shell.c:646-653 | so is a redirection without a file name, or to one that expands to nothing |
| Utf8.Decode | src/yc-term.c:200-240 | accepts exactly the shortest forms of values below 0x140000 that are no surrogates, and gives the value and its length |
| Utf8.RoundTrip | src/yc-term.c:200-240 | every scalar value comes back from its encoding, whatever follows it |
| Utf8.EncodedBits | src/yc-term.c:200-240 | the bytes of a value, each as its own formula |
| Utf8.BeginsOnce | src/yc-term.c:200-240 | a text begins with the encoding of one value at most |
| Utf8.AcceptedEncodes | src/yc-term.c:223-235 | what passes the decoder's tests is the encoding of its value |
| Terminal.InRanges | src/yc-term.c:285-299 | binary search over sorted disjoint ranges finds a range that holds the value exactly when there is one |
| Terminal.Term.RowPuts | src/yc-term.c:312-363 | of the text's code points, with a question mark for each that is ill-formed or a control, as many are drawn as fit, with exactly their bytes; for each no, two or one columns are counted as the two tables have it, and never more than the width |
| Terminal.Ordinary | src/yc-term.c:312-363 | printable code points in neither table are drawn whole and take one column each, as many as fit |
| Terminal.Wide | src/yc-term.c:312-363 | a wide code point takes two columns, and is dropped when only one is left |
| Terminal.Weightless | src/yc-term.c:312-363 | code points of no width are all drawn and take no column, unless the row is full |
| Terminal.Term.RowPad | src/yc-term.c:382-396 | just the missing blanks are added, up to the column or the width |
| Terminal.Term.RowEnd | src/yc-term.c:398-403 | ESC, bracket, 0 and m are added, so that the row is not empty |
| Terminal.Term.RowAttr | src/yc-term.c:184-194 | just the bytes given are added, and no column |
| Terminal.FrameIsTidy | src/yc-term.h:11-20 | a frame whose rows are each begun, drawn and ended, whatever the rows and what is drawn, leaves no row open |
| Terminal.Term.SetSize | src/yc-term.c:128-149 | a new size empties every front row, since what is shown is no longer known, and keeps what was drawn; no size means 80 by 24 |
| Terminal.Term.BeginFrame | src/yc-term.c:166-174 | every row starts empty |
| Terminal.Term.EndFrame | src/yc-term.c:415-468 | just the rows that differ are written, in order; a row then shows what a full repaint would, exactly unless it was stale since a resize and is empty, or meets other attributes than it would then and does not reset them at once; if no row was ever left open, exactly unless it was stale and untouched |
| Terminal.Term.DrawFrame | src/yc-term.h:11-20 | a frame drawn by any calls that leave no row open is drawn as those calls say, and shows in every row what a full repaint would, exactly unless the row was stale since a resize and not touched; no attribute stays in force |
| Terminal.Term.Run | src/yc-term.c:128-468 | after any calls the front rows are what the terminal shows, each with the attributes it met; rows hold what was drawn with the right number of columns; and no attribute is in force between frames as long as none ended with a row open |
| Terminal.ShownAsDrawn | src/yc-term.c:185-194 | the terminal shows each item that was drawn with the attributes set before it |
| TerminalDisplay.SgrForm | src/yc-term.h:36-41 | ESC, a bracket, digits and semicolons, and m set attributes, or reset them if there is at most a zero |
| TerminalDisplay.DifferingAre | src/yc-term.c:427-452 | the rows written are those whose bytes differ from what is shown, once each and from the top |
| TerminalDisplay.ResetCloses | src/yc-term.c:398-403 | a reset at the end of a row leaves no attribute in force, whatever comes before it |
| TerminalDisplay.SameIff | src/yc-term.c:398-403 | a row looks the same under two sets of attributes exactly if they are the same or it resets them at once |
| TerminalDisplay.RowAsRepainted | src/yc-term.c:427-452 | for any screen, which rows the diffed repaint shows as a full one would |
| TerminalDisplay.RightOverAny | src/yc-term.c:427-452 | a frame is painted right over any other exactly if each row that leaves attributes in force is followed only by rows that reset them at once |
| TerminalDisplay.OverAnyAndOver | src/yc-term.c:398-452 | it also leaves nothing in force for the next exactly if every row is closed |
| TerminalDisplay.OpenRowSpoilsTheNextFrame | src/yc-term.c:398-403 | two frames, of which the first leaves a row open, after which a row of the second is shown wrong |
| Terminal.Term.FitIsLongest | src/yc-term.c:336-363 | what is drawn is the longest beginning that fits |
| Terminal.Term.MarkAtTheEdge | src/yc-term.c:336-340 | a zero-width mark is drawn exactly when its character is not in the last column |
| Terminal.NoControlBytes | src/yc-term.c:346-355 | no C0 control byte or DEL of the text reaches the terminal |
| Terminal.WhatPasses | src/yc-term.c:346-355 | a code point is drawn as it is exactly if it is neither; so C1 controls are |
| TerminalKeys.KeyInput.DecodeOne | src/yc-term.c:529-596 | one unit is taken from the front and its key told, or nothing happens because what is there may still become longer |
| TerminalKeys.KeyInput.Drain | src/yc-term.c:610-620 | units are taken until what is left waits for more |
| TerminalKeys.KeyInput.FeedInput | src/yc-term.c:598-622 | after any calls, the keys told are those of the one reading of all bytes that came, also when the space for pending bytes ran full |
| TerminalKeys.OneReading | src/yc-term.c:526-528 | a text is cut into units in one way only |
| TerminalKeys.ReadOn | src/yc-term.h:103-105 | a text that goes on is read on from where it stood |
| TerminalKeys.OnlyTheBytesCount | src/yc-term.h:103-105 | the keys told, and what waits, do not depend on how the input was cut into reads |
| TerminalKeys.ToldAsTyped | src/yc-term.c:529-596 | keys in their usual spelling are told as they were typed, exactly when no escape key comes last or before a bracket or O |
| TerminalKeys.LetterSpelling | src/yc-term.c:561-571 | the key, if any, of ESC, a bracket or O, and each final byte |
| TerminalKeys.NumberSpelling | src/yc-term.c:573-596 | the key, if any, of ESC, a bracket or O, a number of up to 29 digits, taken as an unsigned int, and each final byte |
| TerminalKeys.ModifierLeaks | src/yc-term.c:578-583 | an arrow key with a modifier is dropped in part only |
| TerminalKeys.TakenWhole | src/yc-term.c:560-596 | a control sequence is taken as a whole exactly if its parameters are digits only and fit; otherwise it is dropped up to the first that is none, and the rest is told as if it had been typed |
| JobIndex.FormatIndex | src/yc-ui.c:154-187 | the buffer gets the padded numeral with a NUL, cut to what it holds |
| JobIndex.ReadBack | src/yc-ui.c:154-187 | read in base 10 or 16 the numeral is the index; it is as long as the larger of its digits and the width, of which at most 64 count, and padded with zeros or blanks |
| JobIndex.FilenamesSort | src/yc-ui.c:198-209 | the form for file names sorts as the numbers do, as long as the width holds their digits |
| JobIndex.NamesSortUpTo | src/yc-ui.c:198-209 | for either base and any width, the names of all indices below a number sort exactly if it is at most 10 or 16 to the power of the width |
| LineDelivery.LineBuf.Deliver | src/yc-ui.c:804-831 | each line that a chunk finishes is told without its carriage return, and the rest waits; the NULs written in place spoil nothing |
| LineDelivery.LineBuf.Append | src/yc-ui.c:748-761 | the chunk joins what was waiting, with room for a NUL |
| LineDelivery.LineBuf.Emit | src/yc-ui.c:764-785 | the line is told without one carriage return, and no byte outside it changes |
| LineDelivery.LineBuf.Flush | src/yc-ui.c:834-851 | an unfinished last line is told |
| LineDelivery.JobOutput.Flush | src/yc-ui.c:834-851 | for each of both descriptors the lines told are those of its whole stream |
| LineDelivery.JobOutput.Deliver | src/yc-ui.c:804-831 | a read of either descriptor tells the lines it finishes and leaves the rest waiting, as the specification on values has it |
| LineDelivery.KeepsMore | src/yc-ui.c:804-831 | on values: after every read the lines told are those finished so far |
| LineDelivery.KeepsToTheEnd | src/yc-ui.c:834-851 | on values: after the flush they are all there are |
| LineDelivery.DeliverAll | src/yc-ui.c:804-851 | the lines told do not depend on how the output was cut into reads or the two streams were mixed |
| LineDelivery.LinesWritten | src/yc-ui.c:764-851 | lines written with a newline or a carriage return and a newline, in any mixture, and a last one without, are the lines of the stream; one carriage return goes, no more |
| LineDelivery.EndedLine | src/yc-ui.c:764-784 | the first line of a stream that begins with a line and its end, and the lines of the rest |
| LineDelivery.UnfinishedLine | src/yc-ui.c:833-851 | the same for a stream that is one line without an end |
| LineDelivery.DeliverWritten | src/yc-ui.c:804-851 | any reads of two streams of such lines, mixed in any way, tell just those lines |
| LineDelivery.PiecesConcat | src/yc-ui.c:815-830 | the lines of a stream in two parts |
| JobTable.Ui.Spawn | src/yc-ui.c:992-1017 | a job gets the next index and runs; one that could not be created leaves no trace |
| JobTable.Ui.Finish | src/yc-ui.c:902-951 | the job leaves the running ones, the last few finished ones are kept, and the oldest go; its end is told before it can be destroyed |
| JobTable.Ui.Trim | src/yc-ui.c:715-724 | the oldest go until the cap is met, each told once |
| JobTable.Ui.Remove | src/yc-ui.c:646-658 | the first occurrence goes, and the order stays |
| JobTable.Ui.Reap | src/yc-ui.c:726-733 | only a kept finished job can be reaped |
| JobTable.Ui.Free | src/yc-ui.c:589-610 | every finished job has then been destroyed exactly once |
| JobTable.Run | src/yc-ui.c:632-733 | after any calls, started jobs are those running and those finished, running ones in their order; with a fixed cap and no reaping the jobs kept are the last to finish |
| JobTable.PartitionFinish | src/yc-ui.c:646-658 | finishing a job keeps each job in just one table, once |
| ChildProcess.Child.PollCb | src/yc-child.c:194-233 | what is read joins what was delivered, in order; the pipe is closed exactly by a read that fails or finds the end, or by a hangup when nothing was read and it was not watched for reading or was reported writable |
| ChildProcess.HangupSpares | src/yc-child.c:222-232 | a hangup never closes a pipe watched for reading exactly if it is not watched for writing as well |
| ChildProcess.UnreadIsLost | src/yc-child.c:218-232 | a child in which a hangup closes a pipe with a byte left in it |
| ChildProcess.Child.UiIo | src/yc-ui.c:855-899 | one read is delivered, up to a chunk of what is there, and the lines it finishes are told; the end of the stream or an error closes the descriptor, and nothing else does |
| ChildProcess.Child.Close | src/yc-child.c:537-571 | our end goes once, told once, and its poll handle is closed first |
| ChildProcess.Child.PollClosedCb | src/yc-child.c:177-192 | one handle less is live |
| ChildProcess.Child.ProcessClosedCb | src/yc-child.c:484-490 | one handle less is live |
| ChildProcess.Child.ExitCb | src/yc-child.c:492-510 | the exit is noted with its signal or else its status as a 32-bit number, and the process handle is still live |
| ChildProcess.Child.AfterDone | src/yc-child.c:459-470 | a child that is done has no pipe and no handle left, and was told so once, as the last of its callbacks |
| ChildProcess.Child.NoOutputLost | src/yc-child.c:218-232 | without poll or read errors, all that was ever written to a captured pipe has been delivered, in order, when the child is done |
| ChildProcess.Child.LinesTold | src/yc-ui.c:902-909 | the lines the child's callbacks told, all before the end, are the lines written |
| ChildProcess.Child.NotDueIsActive | src/yc-child.c:459-468 | a child that is not done keeps the loop alive |
| ChildProcess.LiveNone | src/yc-child.c:459-468 | no live poll handle means that every pipe is closed for good |
| Scheduler.Container.CheckDone | src/yc-child.c:462-482 | a due child is retired, its slot filled, its job finished, and slots are offered again; no wake-up is lost |
| Scheduler.Container.Vacate | src/yc-child.c:474-477 | the last child takes over the slot, and every child knows its own |
| Scheduler.Container.Retain | src/yc-child.c:431-457 | the last few finished children are kept, oldest first, and all others have been freed once each, in their order |
| Scheduler.Container.IdleCb | src/yc-child.c:582-597 | slots are offered until none is left or the driver declines for good |
| Scheduler.Container.SignalReady | src/yc-child.c:603-612 | an offer is pending, or there is no room |
| Scheduler.Container.SpawnChild | src/yc-ui.c:961-1017 | a command becomes the job with the next index, in the next slot, with the descriptors it must have; if no child can be made there is no trace, and the program ends |
| Scheduler.KindsRight | src/yc-ui.c:971-987 | descriptors 1 and 2 of a child are pipes it writes to exactly if the interface shows output and no redirection of the line is the last on them; a shell is captured whole |
| Scheduler.Container.ReadyToSpawn | src/yapara-main.c:67-111 | blank lines are passed over; one command is spawned, or the input is at its end, or a line that cannot be run ends the program |
| Scheduler.Container.ReadLine | src/yapara-main.c:34-65 | the next line of the file, without its newline; a last line need not have one |
| Scheduler.FileOfLines | src/yapara-main.c:31-65 | a file in which each line is followed by a newline, but for the last if it is not empty, reads as those lines |
| Scheduler.CommandsOne | src/yapara-main.c:87-111 | a line is a command exactly if it can be read, unsupported syntax being left to a shell |
| Scheduler.CommandsJoin | src/yapara-main.c:72-111 | the commands of a file are those of its lines, in order |
| Scheduler.Container.Step | src/yc-child.c:582-612 | whatever happens next, either an offer is pending, all slots are full, or the driver has declined; and a child that exits is recorded with its signal or status, and no other |
| Scheduler.Container.Run | src/yc-child.c:643-656 | when the loop unwinds, after any events in any order, no line of the file was fatal; every command in it has run in its order as job 0, 1, 2 and so on, with its standard output and error captured exactly if the interface shows output and they are not redirected; every job has ended; those counted as failed are those that did not exit with status 0; and nothing captured without an error was lost, nor told other than line by line; without errors in the events none occurs in any job |
| Scheduler.Container.DiedRightly | src/yapara-main.c:87-105 | the program ends early only at a line that has an error other than being empty, or whose child cannot be made; every command before it has been started |
| Scheduler.Container.AllIsDone | src/yc-child.c:648-655 | a loop with nothing left to wait for has nothing left to do |

## Left out

- Buffer placeholders, which nothing in yapara calls; `yc_buffer_printf`, `yc_buffer_writev` and `yc_buffer_readv`, the empty-fragment calls, `yc_buffer_polystr_index_of`, `yc_buffer_fragment_peek` and `yc_buffer_fragment_advance`.
- The plain variant of the tree macros, which is the counting one without its counts: the loops, rotations and cases are the same, so only the counting one is modelled. Likewise left and right are one parameter where the macros swap names, and keys are integers in place of a comparator. `INSERT_AT` and `REPLACE_NODE` are not modelled.
- The order in which removal relinks the successor's children and recounts is kept only up to its effect on the links.
- Allocation cannot fail, and 32-bit sizes of buffers and counts of trees do not wrap; the ring's sizes are bounded by 2^31, where its sums fit.
- A line's data in the ring is one value to a slot, in place of a stretch of a flat array.
- The text of error messages; only codes and positions are modelled. The locale is the C locale.
- ShellRedirections.Resolve: final destinations only; files that a later redirection overrides are not created by yapara, while a shell would create them. Descriptors above 2 that yapara itself has open count as closed.
- Opening files and pipes, `fork`, `exec` and signals; that a spawn or a poll set-up fails after the child runs; `yc_child_kill` and the destruction of a container with children still running.
- Scheduler.Container.Retain: the cap is set before the run and not changed in it.
- Callbacks that call back into the container. After `yc_die` nothing more is modelled.
- Scheduler.Container.SpawnChild: which processes cannot be made is given as any set of jobs, in place of what opening files and `fork` depend on; the descriptors above 2 of a job, which are never pipes, are not in the child.
- ChildProcess.Child.LinesTold: the interface is taken to want lines; the child's line buffers are the values that LineDelivery.JobOutput.Deliver and its flush are proved to follow.
- ChildProcess.Child.Valid: pipes are polled from the start, so that the branch of `yc_child_fd_close` for a pipe without a poll handle does not occur.
- Scheduler.Container.Run: pipes are those that `yc_ui_spawn` sets up, which capture output; a pipe to a child's input would have to be closed by its owner.
- The `job_ended` callback neither reaps the ending job nor changes the cap.
- Timestamps, recorders' own state, colours, the bundled interfaces, registries and files written by recorders.
- Terminal.Term.EndFrame: writing to the terminal succeeds in full. Attributes are told apart by the SGR sequences since the last reset, and escape sequences other than SGR are taken to be shown as they are.
- `yc_term_frame_row`, raw mode and signals; the contents of the width tables, of which only their order is used.
- `src/yc-cmdline.c`, `src/yc-common.c` and `src/yc-alloc.c`.
