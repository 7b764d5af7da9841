# The ALSA configuration engine

A model of the configuration engine in `code/alsa-lib`: the text of a configuration and the tree it
describes, the operations on that tree and on the linked nodes it is kept in, the `$[...]` expressions,
the global tree that several users share, and the cache of plugin symbols.

## How the project is laid out

*Text and tree.* `Lexer` and `Parser` are the reading side as functions of the text that is left;
`InputStream` and `LexerMachine` are the same code as it runs, with the pushback slot, the stack of open files, the
growing buffer and the loops, each method proved equal to its function; the parser as it runs is `NodeParser`, on nodes,
and `Skipping`, where definitions are only read over.
`TokenPrinter` and `Printer` are the writing side. `TokenRoundTrip`, `SavedForm`, `Graft` and `RoundTrip` relate the
two; `RoundTripLimits`, `TopArrays` and `Escapes` are about what does not come back. `Loading`, `Modes`, `Locality`,
`Desugar`, `Balance` and `Lists` say what a text does to a tree that is already there, and which texts do the same.
`Aftermath` and `FailedLoads` say what is left of the tree when a load fails.

*Trees.* `Merging`, `Associativity`, `Searching`, `Expansion`, `Arithmetic` and `Evaluator` work on trees as values.

*Nodes in memory.* `Ring`, `Forest`, `Substitution` and `ConfigHeap` work on nodes with parent pointers and
circular sibling rings in an explicit memory, so that a freed node is gone and a dangling pointer shows.
`HeapTree` says which tree a node stands for and `HeapFrame` what it means that only one tree has changed.
`HeapMerging`, `HeapCopying`, `HeapExpanding` and `NodeParser` prove that merging, copying, expanding and parsing
nodes is merging, copying, expanding and parsing the trees they stand for; `PathMaking` is about
`snd_config_make_path`. `Calls` puts the calls together into runs. What it asks of callers, beyond live handles, is that
nothing is added below itself, that merging meets no pair that substitution breaks, and that nothing is deleted that
somebody holds a reference to: Delete, Merge and Load ask that of the nodes they delete and of no others. `MergeLimits`,
`Obligations` and `FailedLoads` show what happens otherwise.

*Sharing.* `UpdateDetection`, `GlobalTree` and `SymbolCache`.

## What the proofs found

* A text survives printing and reading exactly when every character is printable and not a backslash, or one
  of `\t \v \b \r \f`, and an unquoted text does not start with `<`; an unquoted id must not start with a mode
  prefix either. A backslash is printed bare, a newline is dropped as a line splice, and other bytes are written with
  four octal digits but read with three.
* `get_hexachar` counts a hexadecimal letter from zero, so `\xff` means 0x55; an escape stands for its byte exactly
  when both digits are decimal (`Escapes.HexReadIff`).
* The documentation lets a separator follow an item of a list in brackets. A list loads exactly when no item has one
  (`Lists.ListLoadsIff`): `a [ 1, 2 ]` is refused (`Lists.DocumentedList`).
* A load that fails leaves what it has done so far, and where a block does not close, the parser deletes the compound it
  was filling, be it new or old (`FailedLoads.UnclosedDeletes`). In `?a.b {` that is the child `a` which the `?` was to
  keep (`FailedLoads.QuestionDeletes`), and in a block that is read over it is a pointer that was never given a value:
  `?a { b { c 1` does that to every tree that has `a` (`FailedLoads.UnsetExample`). `Aftermath.LeftDefs` is the tree that
  every text leaves of every tree, or says that it comes to such a pointer; a text without `?` never does
  (`FailedLoads.NoQuestionSound`).
* An overriding definition of a child that somebody holds, such as `!a 1`, only takes a reference from it and then adds
  another child of that id (`FailedLoads.OverrideExample`, `Obligations.OverrideClashes`).
* `a.b v` and `a { b v }` do the same unless a comment is left open behind the value: then the braces cannot close
  (`Balance.OpenCommentFails`).
* A compound that looks like an array is written without ids. At the top of a file every such one of unjoined children,
  or with its joined children in front, is lost (`TopArrays.TopArrayLost`, `TopArrays.MixedTopArrayLost`), and the text of an array with a joined compound in it never denotes that array
  (`RoundTripLimits.JoinedItemLost`).
* The evaluator steps over the character behind a closing bracket without looking at it. An operator that follows
  directly is lost: the text fails, or a negative right operand is subtracted (`Evaluator.OperatorLost`).
* `snd_config_substitute` leaves a broken ring when the source is an empty compound, or a compound that
  replaces a scalar, and two siblings with one id when the id of the source is taken
  (`Substitution.SubstituteIff`). `snd_config_merge` reaches such pairs (`MergeLimits.MergeCanCorrupt`), exactly
  outside the condition `HeapMerging.Mergeable` on the two trees (`MergeLimits.MergeableIff`).
* `snd_config_make_path` stops at an assertion when the key leads through a scalar, and reports EEXIST, with a
  count lost and a new node that nothing points to, when the scalar it may replace is referenced elsewhere
  (`PathMaking.MakePath`).
* Merging is not associative in general. A leaf between two compounds is in the way unless the first is absorbed by the
  last, and so is a test for two arrays that one bracketing passes and the other does not
  (`Associativity.MergeAssociativeIff`, `Associativity.UnsteadyFails`).
* Expanding twice is expanding once exactly when no node called `@args` is a variable with a compound value
  (`Expansion.ExpandIdempotent`).

## Model

| member | source | states |
|---|---|---|
| `Numbers.StrtollOfPrintInt` | code/alsa-lib/src/conf.c:670-684 | a printed integer in front of any text that does not continue it is read back as itself, with exactly that text left and no overflow |
| `InputStream.BufferInput.Getc` | code/alsa-lib/src/input.c:266-273 | moves one character from what remains to what is consumed; at the end nothing moves |
| `InputStream.BufferInput.Ungetc` | code/alsa-lib/src/input.c:275-284 | undoes the last getc and refuses at the start; consumed and remaining together stay the original |
| `InputStream.LocalString.AddChar` | code/alsa-lib/src/conf.c:949-999 | through every doubling the buffer holds exactly the characters added, in order |
| `InputStream.Input.GetChar` | code/alsa-lib/src/conf.c:746-779 | delivers the pushed-back character, else what is left of the files on the include stack from the top down |
| `InputStream.Input.UngetChar` | code/alsa-lib/src/conf.c:781-786 | undoes a get_char; the slot must be empty, which is the assertion in the code and is proved at every call |
| `InputStream.Input.PushFile` | code/alsa-lib/src/conf.c:790-874 | an included text is read before the rest of the file that includes it |
| `Lexer.NonwhiteStops` | code/alsa-lib/src/conf.c:790-892 | what get_nonwhite stops at is neither blank nor the start of a comment or directive |
| `Escapes.HexIff` | code/alsa-lib/src/conf.c:894-907 | two hexadecimal digits are read as the byte they mean if and only if neither is a letter |
| `Escapes.HexReadIff` | code/alsa-lib/src/conf.c:909-947 | inside a quoted text that closes, the escape stands for its byte if and only if neither digit is a letter |
| `LexerMachine.GetNonwhite` | code/alsa-lib/src/conf.c:876-892 | the loop over blanks and comments finds what the function of the text says and leaves exactly its rest |
| `LexerMachine.GetQuotedchar` | code/alsa-lib/src/conf.c:909-947 | every escape sequence, cut off or not, means the specified number and leaves the specified rest |
| `LexerMachine.GetFreestring` | code/alsa-lib/src/conf.c:1001-1059 | takes the longest run of free characters and pushes the one behind it back |
| `LexerMachine.GetDelimstring` | code/alsa-lib/src/conf.c:1061-1093 | reads up to the closing delimiter with escapes replaced and escaped newlines dropped, errors included |
| `LexerMachine.ReadToken` | code/alsa-lib/src/conf.c:1095-1124 | the token, or the error, and the text left are those of the function, for every input and id mode |
| `TokenRoundTrip.TokenComesBack` | code/alsa-lib/src/conf.c:1533-1623 | what string_print writes, followed by a separator and any tail, is read back as the same text, quoted or not as written, and exactly separator and tail are left |
| `TokenRoundTrip.RoundTripsIff` | code/alsa-lib/src/conf.c:909-1124 | for every C string: it survives printing and reading if and only if its characters are in the stated set and it is quoted or does not start with `<` |
| `Skipping.SkipDef` | code/alsa-lib/src/conf.c:1372-1514 | the loop along a dotted id with `skip` set terminates on every input, fails where the specification does with the same text left, and tells exactly when the block of the definition does not close and when that happens in a definition inside it |
| `Skipping.SkipDefs` | code/alsa-lib/src/conf.c:1516-1531 | the same for a list of definitions, for which an open block means a pointer without a value |
| `Skipping.SkipItem` | code/alsa-lib/src/conf.c:1263-1352 | the same for an array item, whose own pointer is NULL |
| `Skipping.SkipItems` | code/alsa-lib/src/conf.c:1354-1370 | the same for the items up to the closing bracket |
| `Skipping.WildFails` | code/alsa-lib/src/conf.c:1463-1493 | a definition that is read over and leaves a block open, its own or an inner one, fails |
| `Aftermath.DefsAgree` | code/alsa-lib/src/conf.c:1263-1531 | for all texts and trees: where the load succeeds, the tree left is the tree loaded, and a pointer without a value is only read where it fails |
| `FailedLoads.UnsetInSkipped` | code/alsa-lib/src/conf.c:1372-1493 | for all keys and trees: a definition that leaves a block open, in a block that `?` reads over, comes to a pointer without a value |
| `FailedLoads.UnsetExample` | code/alsa-lib/src/conf.c:1372-1493 | `?a { b { c 1` does, in every tree that has `a` |
| `FailedLoads.QuestionDeletes` | code/alsa-lib/src/conf.c:1408-1493 | behind `?a.` a definition whose block does not close deletes the child that was to be kept, and nothing else |
| `FailedLoads.UnclosedDeletes` | code/alsa-lib/src/conf.c:1463-1493 | a block that does not close deletes the compound it was merged into, with all that it held before |
| `FailedLoads.OverrideTakes` | code/alsa-lib/src/conf.c:1408-1461 | an overriding definition of a child at or below which somebody holds a reference deletes it, whatever follows the id |
| `FailedLoads.OverrideExample` | code/alsa-lib/src/conf.c:1408-1461 | `!a 1` does |
| `FailedLoads.NoQuestionSound` | code/alsa-lib/src/conf.c:1263-1531 | a text without `?` never reads a pointer without a value, and where nobody holds a node of the tree it deletes none that is held |
| `Loading.NextFreeIsFree` | code/alsa-lib/src/conf.c:1269-1289 | the index the search ends at is the id of no child |
| `Loading.NextFreeIsFirst` | code/alsa-lib/src/conf.c:1269-1289 | and every index before it is the id of one |
| `Loading.ParseDefsWellFormed` | code/alsa-lib/src/conf.c:1184-1531 | loading any text into a tree with distinct sibling ids at every level gives such a tree |
| `Loading.DefExtent` | code/alsa-lib/src/conf.c:1372-1514 | how far a definition reaches does not depend on the tree, the default mode or whether it is skipped |
| `Loading.QuestionKeepsAll` | code/alsa-lib/src/conf.c:1378-1461 | a text whose definitions all begin with `?` leaves every child that was there in its place, with its value, and only appends |
| `Loading.OverrideDef` | code/alsa-lib/src/conf.c:1402-1461 | an overriding definition makes one child, the same for every tree, in place of the child with its id |
| `Loading.OverrideMeaning` | code/alsa-lib/src/conf.c:1378-1461 | overriding text puts the tree it denotes on its own behind the children it does not mention, which stay in order; its success does not depend on the tree |
| `Loading.LastDefWins` | code/alsa-lib/src/conf.c:1402-1461 | after overriding text each id that it defines holds the child its last top-level definition makes on its own, and every other id what it held |
| `Loading.OverrideIdempotent` | code/alsa-lib/src/conf.c:2065-2126 | loading overriding text twice is loading it once |
| `Loading.PrefixFreeOverrides` | code/alsa-lib/src/conf.c:1384-1401 | with the overriding default every prefix-free text is overriding text |
| `Modes.AssignMeaning` | code/alsa-lib/src/conf.c:1184-1261 | a value goes into an existing scalar exactly when the types agree or both are integers; the scalar keeps its type and gets the value unchanged |
| `Modes.DefStores` | code/alsa-lib/src/conf.c:1372-1514 | every definition that succeeds stores one value under its id at the place its mode gives; a value stored in place has the kind of the old one |
| `Modes.UnmentionedKept` | code/alsa-lib/src/conf.c:1372-1531 | whatever its modes, a text leaves every child whose id it does not mention as it is and in order |
| `Modes.MergeKeepsPlaces` | code/alsa-lib/src/conf.c:1378-1461 | text with only `+` or only `-` moves and removes no child and changes no type, and with `-` it adds none |
| `Modes.MergeNeedsEntry` | code/alsa-lib/src/conf.c:1424-1461 | a definition with `-` of an id that is not there fails |
| `Modes.NewEntryAppended` | code/alsa-lib/src/conf.c:1424-1509 | in the other modes a definition of a new id appends the same child to every tree |
| `Modes.OldEntryMerged` | code/alsa-lib/src/conf.c:1424-1509 | a merging definition of an id that is there changes that child as if it were alone |
| `Locality.ParseDefLocal` | code/alsa-lib/src/conf.c:1372-1514 | a definition that ends in front of a stop is read the same way in front of any other stop |
| `Desugar.DottedIsBraced` | code/alsa-lib/src/conf.c:1424-1509 | from any tree, with any mode prefix, `a.b v` and `a { b v }` fail together or give the same tree up to join flags, for every text of one definition that leaves no comment open |
| `Balance.LoadsBalanced` | code/alsa-lib/src/conf.c:1263-1531 | a text that loads has as many opening as closing braces outside quotes and comments |
| `Balance.OpenCommentFails` | code/alsa-lib/src/conf.c:1463-1509 | with a comment left open the braced form fails in every tree |
| `Desugar.PrefixedIdIsKey` | code/alsa-lib/src/conf.c:1378-1408 | a printed id behind a mode prefix is read as that id in that mode, in front of all that can follow an id |
| `Lists.WordIsValue` | code/alsa-lib/src/conf.c:1184-1261 | any word is the text of a value in front of all that can follow a word, a separator or a bracket included; numbers in every base |
| `Lists.BlanksAround` | code/alsa-lib/src/conf.c:876-892 | blanks around the text of a value change nothing, and behind it they let anything follow |
| `Lists.QuotedIsValue` | code/alsa-lib/src/conf.c:1061-1124 | any quoted text is the text of a value, whatever follows it |
| `Lists.PrintedIsValue` | code/alsa-lib/src/conf.c:1637-1669 | so is what the printer writes for a value |
| `Lists.ListIsDotted` | code/alsa-lib/src/conf.c:1263-1370 | where `a` is absent, the list in brackets and the lines `a.0 x0`, `a.1 x1`, ... give the same tree up to the join flag, whatever the texts of the values; an item has to begin with what ends a word only where the one before could run on |
| `Lists.ListLoadsIff` | code/alsa-lib/src/conf.c:1354-1370 | a list of any texts of values, each with a comma, a semicolon or nothing behind it, loads if and only if nothing stands behind any of them |
| `Lists.DocumentedList` | code/alsa-lib/src/conf.c:1354-1370 | `a [ 1, 2 ]` is refused, and `a [1 2]` is a list of two |
| `RoundTrip.LoadChildren` | code/alsa-lib/src/conf.c:1681-1714 | the lines of some children, under any path of joined compounds and in front of any tail, graft exactly those children in normal form |
| `RoundTrip.LoadItems` | code/alsa-lib/src/conf.c:1263-1370 | the lines of an array are read as its items, numbered on from those already there |
| `RoundTrip.SaveThenLoad` | code/alsa-lib/src/conf.c:1372-1714 | saving a tree and loading the text into a fresh top node gives its normal form: ids, order, types, array shape and join flags |
| `RoundTrip.RoundTripIffCanonical` | code/alsa-lib/src/conf.c:1372-1714 | the very same tree comes back if and only if integers have the type of their size, array ids are decimals and no joined compound is empty |
| `SavedForm.NormKidsIdentity` | code/alsa-lib/src/conf.c:1184-1261 | a tree is its own normal form if and only if it is canonical |
| `RoundTripLimits.IdComesBackIff` | code/alsa-lib/src/conf.c:1378-1408 | for every C string: it comes back as the id of a definition in the default mode if and only if it survives as a token and, unquoted, starts with no mode prefix |
| `TopArrays.UsesTwo` | code/alsa-lib/src/conf.c:1372-1514 | in a text of lines with one value each, every definition uses up two lines or fails |
| `TopArrays.AtMostHalf` | code/alsa-lib/src/conf.c:1516-1531 | so such a text defines at most half as many children as it has lines |
| `TopArrays.TopArrayLost` | code/alsa-lib/src/conf.c:1681-1714 | every top node that looks like an array of unjoined children is lost: at most half as many children come back, or the load fails |
| `TopArrays.MixedTopArrayLost` | code/alsa-lib/src/conf.c:1681-1714 | so is every one that has its joined children in front of the others |
| `RoundTripLimits.JoinedItemLost` | code/alsa-lib/src/conf.c:1681-1714 | for all arrays that hold a joined compound, the text written for the array denotes it nowhere |
| `Merging.RunMerge` | code/alsa-lib/src/conf.c:2300-2344 | the loops over source and destination children compute the recursive specification |
| `Merging.RunArrayMerge` | code/alsa-lib/src/conf.c:2253-2274 | two arrays are concatenated, the source items renumbered from the length of the destination |
| `Merging.MergeMeaning` | code/alsa-lib/src/conf.c:2300-2344 | first the destination children in order, each paired with the source child of its id, then exactly the other source children in order |
| `Merging.MergeKidsDistinct` | code/alsa-lib/src/conf.c:2300-2344 | merging keeps sibling ids distinct |
| `Merging.EmptyIsUnit` | code/alsa-lib/src/conf.c:2300-2344 | the empty compound is a unit on both sides, up to the join flag of the destination |
| `Associativity.AbsorbsIff` | code/alsa-lib/src/conf.c:2300-2344 | merging c into a gives c if and only if the children of a come first in c, down to the leaves |
| `Associativity.MergeAssociativeIff` | code/alsa-lib/src/conf.c:2253-2344 | where at every shared path the test for two arrays always succeeds or always fails, merging three trees is associative if and only if no leaf stands between two compounds of which the first is not absorbed |
| `Associativity.ArrayAppears` | code/alsa-lib/src/conf.c:2311-2313 | when a becomes an array with b only by merging and c is one, merging is never associative |
| `Associativity.UnsteadyFails` | code/alsa-lib/src/conf.c:2311-2313 | for all lists of ids on which the test changes there are values under these ids on which the bracketing matters |
| `Associativity.CompatAssociative` | code/alsa-lib/src/conf.c:2253-2344 | merging is associative on trees that pairwise agree on leaf, array or neither at every shared path |
| `Searching.RunSearch` | code/alsa-lib/src/conf.c:3452-3473 | the loop of the search macro computes the recursive search |
| `Searching.SearchComposes` | code/alsa-lib/src/conf.c:3452-3473 | searching `k1.k2` is searching k1 and then k2, not-found included, for all trees and keys |
| `Searching.SearchVIsSearch` | code/alsa-lib/src/conf.c:3501-3523 | searching a list of keys one after the other is searching the key joined by dots |
| `Expansion.GroundExpands` | code/alsa-lib/src/conf.c:4897-5124 | a tree without variables and `@args` expands to itself |
| `Expansion.ExpandIdempotent` | code/alsa-lib/src/conf.c:5029-5124 | where the values of variables need no expansion, a second expansion changes nothing if and only if no `@args` node that is reached is a variable with a compound value |
| `Expansion.ArgsVariableVanishes` | code/alsa-lib/src/conf.c:5039-5124 | every variable called `@args` with a compound value survives the first expansion and not the second |
| `Expansion.FindExpanded` | code/alsa-lib/src/conf.c:4897-5124 | under each id the expanded children hold the expansion of the old child, or nothing if that was dropped |
| `Expansion.ExpandThenSearch` | code/alsa-lib/src/conf.c:4897-5124 | searching an expanded tree finds the expansion of what is found before, exactly on the paths no node of which was dropped or replaced |
| `Arithmetic.TruncDivMeaning` | code/alsa-lib/src/confeval.c:225-241 | C division: quotient and remainder recompose the dividend, and the remainder is smaller than the divisor and has the sign of the dividend |
| `Arithmetic.NodeKeepsValue` | code/alsa-lib/src/confeval.c:77-122 | the choice of integer or integer64 for a result loses nothing when it is read as an operand |
| `Evaluator.FindEndOfExpression` | code/alsa-lib/src/confeval.c:45-59 | the counting loop finds the bracket that closes, or none |
| `Evaluator.EvalString` | code/alsa-lib/src/confeval.c:125-249 | the state machine, with its recursion on bracketed parts, terminates and computes its specification on every text |
| `Evaluator.EvalOf` | code/alsa-lib/src/confeval.c:125-249 | every printed expression evaluates to its denotation: 64-bit values, undefined variables as 0, division by zero and overflow set apart |
| `Evaluator.EvaluateStringOf` | code/alsa-lib/src/confeval.c:261-277 | the same for `$[...]` as a whole |
| `Evaluator.BehindBracketIgnored` | code/alsa-lib/src/confeval.c:125-249 | the character behind a closing bracket, round or square, has no influence on the result |
| `Evaluator.OperatorLost` | code/alsa-lib/src/confeval.c:125-249 | what every printed expression evaluates to when no blank stands between its bracketed left operand and the operator |
| `Evaluator.OperatorLostFails` | code/alsa-lib/src/confeval.c:125-249 | with a defined left operand and any right one but a negative number, that is an error |
| `Ring.LinkMemory.ListInsert` | code/alsa-lib/include/list.h:94-103 | changes exactly the four pointers of the new entry and its two neighbours |
| `Ring.LinkMemory.ListAdd` | code/alsa-lib/include/list.h:65-77 | is an insertion behind the head |
| `Ring.LinkMemory.ListAddTail` | code/alsa-lib/include/list.h:79-92 | is an insertion in front of the head |
| `Ring.LinkMemory.ListDel` | code/alsa-lib/include/list.h:105-110 | joins the two neighbours and changes nothing else |
| `Ring.RingInsert` | code/alsa-lib/include/list.h:65-103 | on a ring that stands for a sequence, inserting between two neighbours is inserting at that position, for all positions |
| `Ring.RingRemove` | code/alsa-lib/include/list.h:105-110 | unlinking an entry removes exactly that position |
| `Ring.RingFrame` | code/alsa-lib/include/list.h:65-110 | a ring is not affected by changes to entries outside it |
| `Ring.RingIsEmpty` | code/alsa-lib/include/list.h:112-115 | the head points at itself if and only if the sequence is empty |
| `Ring.RingUnique` | code/alsa-lib/include/list.h:50-56 | a head determines the sequence it stands for |
| `Forest.AttachKeeps` | code/alsa-lib/src/conf.c:1150-1163 | linking a parentless node with a new id into a ring keeps all rings, parents, ids and the absence of cycles |
| `Forest.DetachKeeps` | code/alsa-lib/src/conf.c:2359-2366 | so does taking one out |
| `Forest.MakeKeeps` | code/alsa-lib/src/conf.c:1126-1148 | so does making a node |
| `Forest.FreeKeeps` | code/alsa-lib/src/conf.c:2419-2424 | so does freeing a node without parent and members |
| `Forest.RenameKeeps` | code/alsa-lib/src/conf.c:1918-1942 | so does renaming to an id no sibling has |
| `Forest.BelowAll` | code/alsa-lib/src/conf.c:2397-2416 | what is below a compound is the compound and what is below its members |
| `ConfigHeap.Heap.FindChild` | code/alsa-lib/src/conf.c:1165-1182 | walking the ring finds a member with the id if there is one |
| `ConfigHeap.Heap.CheckNew` | code/alsa-lib/src/conf.c:2152-2166 | the error codes of snd_config_add and its variants, each exactly when it applies |
| `ConfigHeap.Heap.Add` | code/alsa-lib/src/conf.c:2152-2170 | appends the child or changes nothing, and keeps the forest |
| `ConfigHeap.Heap.AddNextTo` | code/alsa-lib/src/conf.c:2190-2248 | puts the child right before or behind the sibling, or changes nothing, and keeps the forest |
| `ConfigHeap.Heap.Remove` | code/alsa-lib/src/conf.c:2359-2366 | the node is out of its ring and alive; nothing else changes |
| `ConfigHeap.Heap.SetId` | code/alsa-lib/src/conf.c:1918-1942 | renames or reports EEXIST or EINVAL, each exactly when it applies |
| `ConfigHeap.Heap.Delete` | code/alsa-lib/src/conf.c:2390-2425 | with zero counts exactly the subtree is freed, each node once, and the ring of the parent is the old one without it; with a positive count only the count changes |
| `ConfigHeap.Heap.DeleteMembers` | code/alsa-lib/src/conf.c:2444-2462 | the loop that keeps the next entry while members unlink themselves frees exactly what is below the node and leaves it empty |
| `ConfigHeap.Heap.Substitute` | code/alsa-lib/src/conf.c:1738-1766 | dst takes over id, data and members of src, its own members and src are freed, all member lists are given, and the forest is kept |
| `Substitution.SubstituteCorrupts` | code/alsa-lib/src/conf.c:1746-1755 | outside the condition no assignment of members makes the memory a forest |
| `Substitution.SubstituteIff` | code/alsa-lib/src/conf.c:1738-1766 | substitution leaves a forest if and only if the source is a scalar, or both are compounds and the source has members, and no other sibling of dst has the id of the source |
| `Substitution.MoveKeeps` | code/alsa-lib/src/conf.c:1746-1755 | handing the members of a non-empty compound to an empty one keeps the forest |
| `HeapTree.ShowsSome` | code/alsa-lib/src/conf.c:440-463 | every node of a forest stands for a tree |
| `HeapTree.ShowsOne` | code/alsa-lib/src/conf.c:440-463 | and for one only |
| `HeapTree.ShowsFrame` | code/alsa-lib/src/conf.c:440-463 | which does not change while data, ids and members below the node do not, wherever it is linked |
| `HeapMerging.SubstMerges` | code/alsa-lib/src/conf.c:1738-1766 | after a substitution dst stands for the tree of src, every node of src but the root is below dst, and outside the two trees only the siblings of src have changed |
| `HeapMerging.PairStep` | code/alsa-lib/src/conf.c:2317-2334 | one round with a partner replaces exactly that child of the destination tree by the merged one, in its place |
| `HeapMerging.MoveStep` | code/alsa-lib/src/conf.c:2335-2340 | one round without a partner appends the source child with its whole tree |
| `HeapMerging.CountItems` | code/alsa-lib/src/conf.c:1848-1866 | walking the ring counts the items of an array and gives 0 for anything else |
| `HeapMerging.MergeItems` | code/alsa-lib/src/conf.c:2253-2274 | on nodes, two arrays become the concatenation with renumbered ids; no new id clashes |
| `HeapMerging.MergeMembers` | code/alsa-lib/src/conf.c:2314-2343 | on nodes, the two nested loops, with members leaving src during the iteration, give the merge of the children |
| `HeapMerging.MergeNodes` | code/alsa-lib/src/conf.c:2300-2344 | for all forests: afterwards dst stands for the merge of the trees dst and src stood for, src is freed, no node is made, every node of either tree is freed or below dst, every node that somebody holds is still there with its count, nothing else changes but the siblings of src, and the memory is a forest |
| `MergeLimits.MergeableIff` | code/alsa-lib/src/conf.c:2314-2334 | the condition on two trees holds if and only if every substitution that merging them makes is sound |
| `MergeLimits.SparesIff` | code/alsa-lib/src/conf.c:2300-2344 | what is asked of the holders of references is that nobody holds a node that is freed: a source node with a partner, or a node below one that is substituted |
| `MergeLimits.SubstFrees` | code/alsa-lib/src/conf.c:1738-1766 | a substitution frees exactly the source and what is below the destination |
| `MergeLimits.RoundPartner` | code/alsa-lib/src/conf.c:2314-2334 | in every round the partner found is the destination child that was there before the loop |
| `MergeLimits.PairCorrupts` | code/alsa-lib/src/conf.c:1746-1755 | in every forest, substituting a compound member for a scalar partner leaves no forest |
| `MergeLimits.EmptyCorrupts` | code/alsa-lib/src/conf.c:1746-1755 | nor does substituting an empty compound for an empty one |
| `MergeLimits.MergeCanCorrupt` | code/alsa-lib/src/conf.c:2300-2344 | a forest in which merging `a { }` into `a 1` comes to that |
| `HeapCopying.CopyStep` | code/alsa-lib/src/conf.c:4913-4928 | adding the copy of a child to the copy of its parent adds exactly that child |
| `HeapCopying.CopyMembers` | code/alsa-lib/src/conf.c:4897-4938 | the walk over the members copies them all in order and touches nothing that was there |
| `HeapCopying.CopyNode` | code/alsa-lib/src/conf.c:4940-5027 | the copy stands for the same tree under the same id, without parent and references, and nothing that was there has changed |
| `HeapCopying.CopyDisjoint` | code/alsa-lib/src/conf.c:4940-5027 | what is below the copy is exactly what is new |
| `PathMaking.LeadsToOne` | code/alsa-lib/src/conf.c:2706-2760 | in a forest a path leads to one node at most |
| `PathMaking.WayIsCompound` | code/alsa-lib/src/conf.c:2706-2760 | on the way to a node there are only compounds |
| `PathMaking.Descend` | code/alsa-lib/src/conf.c:2715-2737 | one id of the key: the member with it, or, exactly if there is none, a new compound with the join flag behind the others; the whole new state |
| `PathMaking.Last` | code/alsa-lib/src/conf.c:2738-2759 | the last id of the key: each outcome exactly when its cause is there, and the whole state after it |
| `PathMaking.MakePath` | code/alsa-lib/src/conf.c:2706-2760 | each outcome if and only if its cause is in the old state, and the whole state after it: the new nodes are exactly the compounds missing at the end of the key, a scalar at the key is replaced, a clash costs it a count and leaves a new node behind, and errors change nothing; the node returned is the compound at the key |
| `HeapExpanding.Build` | code/alsa-lib/src/conf.c:5029-5037 | what a variable gives is a new tree that stands for its value |
| `HeapExpanding.ExpandMembers` | code/alsa-lib/src/conf.c:4897-4938 | the walk over the members adds the expansion of each and, after an error, leaves nothing of what it made |
| `HeapExpanding.ExpandNode` | code/alsa-lib/src/conf.c:5039-5124 | for all nodes: a new tree that stands for the expansion of the tree, under the same id, or nothing, or an error; nothing that was there has changed |
| `HeapFrame.MemberChanged` | code/alsa-lib/src/conf.c:440-463 | when only one member has changed within itself, its parent stands for the list with that child changed |
| `HeapFrame.WithinUp` | code/alsa-lib/src/conf.c:440-463 | what changes only below a node changes only below every node above it |
| `HeapFrame.MemberPaths` | code/alsa-lib/src/conf.c:2390-2396 | the paths from a member to what somebody holds are those of its parent that begin with its id |
| `HeapFrame.SamePlacesSteady` | code/alsa-lib/src/conf.c:2390-2396 | while nothing that somebody holds is freed or moved, neither is anything above it |
| `NodeParser.LocateNode` | code/alsa-lib/src/conf.c:1408-1461 | on nodes, the search for an id and its mode give the place that the specification gives, and an overridden member at or below which nobody holds a reference is deleted |
| `NodeParser.ScalarDef` | code/alsa-lib/src/conf.c:1184-1261 | on nodes, a scalar is a new last member or the new value of the member that is there |
| `NodeParser.PassDef` | code/alsa-lib/src/conf.c:1408-1493 | behind `?id.` the member with the id is deleted exactly where the block of the definition does not close |
| `NodeParser.Block` | code/alsa-lib/src/conf.c:1463-1493 | on nodes, the compound that is there or a new one is filled, and deleted where the block does not close |
| `NodeParser.ParseDef` | code/alsa-lib/src/conf.c:1372-1514 | on nodes, one definition ends and leaves the tree and the text as specified, also where it fails; what somebody holds stays at its place |
| `NodeParser.ParseDefs` | code/alsa-lib/src/conf.c:1516-1531 | the same for a list of definitions |
| `NodeParser.NextItem` | code/alsa-lib/src/conf.c:1269-1289 | on nodes, the search for the next index; with the overriding default an item at or below which nobody holds a reference is replaced |
| `NodeParser.BlockItem` | code/alsa-lib/src/conf.c:1292-1340 | on nodes, an item in braces or brackets, and its deletion where another character closes it |
| `NodeParser.ParseArrayDef` | code/alsa-lib/src/conf.c:1263-1352 | on nodes, one array item |
| `NodeParser.ParseArrayDefs` | code/alsa-lib/src/conf.c:1354-1370 | on nodes, the items up to the closing bracket |
| `NodeParser.Load` | code/alsa-lib/src/conf.c:1967-2068 | for all forests and texts that delete nothing that is held: the node stands for what the text leaves of its children, also where the load fails; loading succeeds exactly when the specification does, and ends at a pointer without a value exactly when the text comes to that; nothing outside its tree changes |
| `Obligations.AddIff` | code/alsa-lib/src/conf.c:2152-2170 | linking a root with a new id keeps a forest if and only if the parent is not below it |
| `Obligations.DeleteFrees` | code/alsa-lib/src/conf.c:2390-2425 | the recursion frees exactly the nodes up from which to the root of the call nobody holds a reference, takes one reference from each node that stops it, and changes no other |
| `Obligations.FreedAll` | code/alsa-lib/src/conf.c:2390-2425 | where nobody holds a reference, that is the whole subtree |
| `Obligations.DeleteDangles` | code/alsa-lib/src/conf.c:2390-2425 | where somebody does, what deleting leaves is no forest, whatever links and members are assumed |
| `Obligations.BusyDeleted` | code/alsa-lib/src/conf.c:2390-2425 | deleting what is held takes a reference away, and deleting what has something held below it leaves no forest |
| `Obligations.OverrideClashes` | code/alsa-lib/src/conf.c:1408-1436 | overriding a member that is held leaves two members of one id, and no forest |
| `Obligations.ReplacedDangles` | code/alsa-lib/src/conf.c:1738-1766 | substituting for a compound with a member that is held leaves that member behind, and no forest |
| `Calls.Perform` | code/alsa-lib/src/conf.c:1918-2760 | each of make, add, add_before, add_after, set_id, remove, delete, make_path, merge, copy and load, with its error returns, keeps the forest and does what its relation says; a merge and a load, failed or not, also keep every node that somebody holds |
| `Calls.PlainLoad` | code/alsa-lib/src/conf.c:1967-2068 | a text without `?` may be loaded wherever nobody holds a node below |
| `Calls.Run` | code/alsa-lib/src/conf.c:1918-2760 | in every run of a client that sees to what the calls ask for, whatever the calls return, every state is a forest and follows from the one before |
| `UpdateDetection.NamesOfWritten` | code/alsa-lib/src/conf.c:4540-4547 | splitting a list of names joined by a delimiter gives the names |
| `UpdateDetection.CountNames` | code/alsa-lib/src/conf.c:4540-4547 | the first pass counts the names |
| `UpdateDetection.SplitNames` | code/alsa-lib/src/conf.c:4561-4574 | the second pass fills the array sized by the first exactly, every write in bounds |
| `UpdateDetection.KeepAccessible` | code/alsa-lib/src/conf.c:4575-4597 | the loop with memmove is a stable filter that keeps exactly the accessible files |
| `UpdateDetection.Unchanged` | code/alsa-lib/src/conf.c:4540-4610 | the old tree is kept if and only if the accessible files with their signatures are those stored |
| `GlobalTree.Shared.UpdateR` | code/alsa-lib/src/conf.c:4516-4657 | slot, stored signatures and counts after every outcome of an update, failures included |
| `GlobalTree.Shared.UpdateRef` | code/alsa-lib/src/conf.c:4697-4719 | a reference is taken exactly on success and when asked for |
| `GlobalTree.RunBalanced` | code/alsa-lib/src/conf.c:2393-2396 | in every disciplined run a root's count is its holders plus the slot less one |
| `GlobalTree.ReferenceSafety` | code/alsa-lib/src/conf.c:4516-4803 | in every disciplined run, whatever the files do, no freed root is touched, none is freed twice, and a root is freed exactly when the slot has dropped it and no holder is left |
| `GlobalTree.NeverNoDevice` | code/alsa-lib/src/conf.c:4697-4719 | the ENODEV branch of update_ref is never taken |
| `GlobalTree.UndisciplinedDangles` | code/alsa-lib/src/conf.c:4745-4751 | one unref too many frees the tree the slot still shows |
| `SymbolCache.Cache.Acquire` | code/alsa-lib/src/dlmisc.c:310-385 | a hit adds references to the entry, a miss appends one that resolves, a failure changes nothing |
| `SymbolCache.Cache.Put` | code/alsa-lib/src/dlmisc.c:406-431 | counts down the entry of the function; tells the last reference, and an unknown function |
| `SymbolCache.Cache.Cleanup` | code/alsa-lib/src/dlmisc.c:433-452 | on the ring, the loop that unlinks and frees as it goes keeps exactly the entries in use, in order |
| `SymbolCache.VersionIgnored` | code/alsa-lib/src/dlmisc.c:319-332 | what a lookup leaves is the same for two versions exactly when the symbol is there already or both resolve alike: the search does not look at the version |
| `SymbolCache.RunMeaning` | code/alsa-lib/src/dlmisc.c:310-452 | in every run there is one entry per key, with the function the resolver gives, and its count is the references outstanding |
| `SymbolCache.RunObservations` | code/alsa-lib/src/dlmisc.c:310-452 | in every run put reports the last reference exactly when one is outstanding, and cleanup keeps exactly what has one |

## Left out

- `<file>`, `<confdir:...>` and `searchdir:`: a directive is the error IncludeDirective; the include stack is modelled for texts that are already open.
- Reals: reading with strtod and writing with `%-16g` are parameters; a real is in the domain of the round trip when its text reads back as that real and not as an integer.
- Line and column numbers, and the texts of error messages.
- What happens once a pointer without a value is deleted, or a node that is held is deleted by a load: the model of a load ends there, or asks that it does not come to that.
- Out-of-memory branches, and the wrap-around of reference counts and array indices.
- NodeParser.ParseDef: the loop along the path is a call for each id, and the parser with `skip` set, which looks at no node, is Skipping.
- NodeParser.Load: asks that the text deletes no node at or below which somebody holds a reference; FailedLoads and Obligations show what comes of it otherwise.
- Merging.Merge: does not model the broken ring that substitution leaves for an empty or misplaced compound source; Substitution states exactly when that happens, and HeapMerging is about the nodes.
- Associativity.MergeAssociativeIff: is stated for trees with at most LLONG_MAX nodes, beyond which an index no longer reads back, and where the test for two arrays is steady; where it is not, some values still agree by coincidence, and UnsteadyFails states that others do not.
- RoundTrip.RoundTripIffCanonical: is stated for trees whose texts survive one by one, that hold no joined compound inside an array and are no array at the top, except of joined compounds; RoundTripLimits and TopArrays show that each of these fails otherwise, but for a top array in which a joined child stands behind an unjoined one.
- HeapMerging.MergeNodes: is stated for two trees, neither in the other, where nobody holds a node that is freed on the way and no substitution breaks a ring; MergeLimits and Obligations show why.
- Obligations.DeleteFrees: is about the nodes; what the rings look like that a deletion leaves with freed heads is not modelled.
- PathMaking.MakePath: ends at the assertion that fails on a scalar (conf.c:4823); what a build without assertions does there is not modelled.
- HeapExpanding.ExpandNode: takes the values of variables from a function; the nodes that hold them, and those an expression makes on its way, are not modelled.
- `@func`, hooks, `@args` evaluation and aliases (`snd_config_searcha`).
- Characters above 127 in expressions, whose order depends on whether char is signed.
- SymbolCache.Cache.Acquire: takes opening a library and looking up a symbol in its version from a resolver, which may differ from call to call.
- The locks: every call is one step.
- The project's own main programs, the server, the PCM and UMP helpers and the wave file reader.
