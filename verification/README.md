# Verified models of research Unix and jerq programs

Dafny models of the algorithms inside several self-contained programs of the tenth-edition and
jerq sources, with proofs of what those programs are for. Disks, tapes, files and screens are arrays or
sequences; code that updates in place is modelled by methods that update in place, proved against
specification functions whose own laws are lemmas.

| files | program |
|---|---|
| BlockCache, FreeList, IndirectTree, Radix, Inode, FileState, Truncate, FileImage, Restor | the old-format file system restorer: block cache, chained free list, indirect blocks, restoring and truncating a file |
| AvlTree, AvlStore, AvlInsert, AvlOrder, AvlMap, AvlIter | the AVL map with parent links and stackless iterators |
| Raster, Shear, Icon, IconLaws, HexFile, HexRoundTrip | the icon editor: block moves, turns by shears, reflections, undo, hexadecimal files |
| Floppy, Rad50, Extents, Arff, ArffLinks, ArffLaws, ArffStore, ArffRun | the RT-11 floppy archiver: sector map, packed names, extent directory and its links, storing one file and a list of them |
| ArFormat, ArEdits, Ar | the portable archiver: format, replace, delete, move |
| Midnights, Accounting | login accounting by terminal and by day |
| Tek4014 | the Tektronix filter: abbreviated addresses, motions, columns and pages |
| History | the terminal emulator's history ring |
| Calendar | the calendar with the change of 1752 |
| Ruler | the ruler's integer square root |
| Arithmetic, Options, CStrings | C division, facts of multiplication and division; results that may be missing; strings up to their null |

The restorer is modelled for any fan-out that is a power of two, any free-group size and any cache
size. Its state is abstracted by one sequence, the pool: the free stack followed by the file's blocks in
the reverse of the order in which they were taken. Every operation keeps that sequence, which is why
truncation gives back the very free list that restoring started from. A picture is the set of its lit points, and a
floppy or an archive the sequence of its bytes, so that the main results are equations.

## Where the programs fall short

The models keep the code as it is. Where it does less than its purpose asks, the exact condition is a lemma.

- A restored file longer than its inode can address has its further blocks written over block 0 of the
  volume, the boot block (`FileImage.RestoredWhole`, `FileImage.BootKept`, `FileImage.BootLost`).
- The floppy archiver's delete command rewrites a directory segment only if it merged holes there; a file
  deleted between two others is still on the floppy (`ArffLaws.DeletionWritten`, `ArffLaws.LostDeletion`). Replacing a file whose old entry is in
  another segment leaves that entry on the floppy (`ArffLaws.CreationWritten`, `ArffLaws.OldEntryStays`).
- Its test for a full directory segment allows the end mark to be moved past the last slot, where it overwrites
  the link of the next segment; files in the segments behind it, or the file just made, are then out of reach
  (`ArffLaws.EndMarkStaysInside`, `ArffLaws.EndMarkOutside`, `ArffLinks.CreationKeepsLinks`, `ArffLaws.CreatedIsFound`,
  `ArffLaws.FileOutOfReach`, `ArffLaws.EntryLost`). An empty file put into an empty hole leaves a hole of
  negative length (`Extents.SplitKeepsSizes`, `ArffLaws.NegativeHole`).
- A file of whole blocks stored over a longer one leaves the old blocks behind it in the extent
  (`ArffStore.ImageFills`, `ArffStore.ClearedBehind`, `ArffStore.OldBlockStays`).
- The directory that a clobbered floppy starts with has a hole as long as a floppy of 77 tracks, behind fourteen blocks;
  files made at its end run past the floppy (`ArffStore.CreatedOnFloppy`, `ArffStore.BlankPastEnd`).
- A block of an icon moved past the edge and back, or turned out of it, has lost the points that left it
  (`Icon.MoveThereAndBack`, `IconLaws.OppositeTurns`).
- An archive member whose name fills its field takes the date of the member before it (`ArFormat.LongNameLosesDate`).
- A daily accounting report covers two days when a gap of less than a day and a half crosses two midnights
  (`Midnights.OneDay`, `Midnights.TwoDays`).
- A written icon region takes in up to fifteen columns to its right (`HexRoundTrip.OnlyRegionLoads`, `HexRoundTrip.StrayPoint`).
- The ruler's square root is minus the root for two to the thirtieth and does not end for larger numbers
  (`Ruler.RootFoundBelow`, `Ruler.EndsUpTo`, `Ruler.ReturnsMinusRoot`).

Cache slots start out marked with block 0, so a first read of block 0 would never reach the volume
(`BlockCache.FreshRead`); no caller reads block 0.

## Model

| member | source | states |
|---|---|---|
| BlockCache.Disk.DWrite | v10/cmd/512restor.c:760-784 | a write goes to the volume and to the first slot holding that block, if any, whose age starts over while those scanned before it age; nonzero blocks stay cached at most once and never stale |
| BlockCache.Disk.Scan | v10/cmd/512restor.c:792-806 | the ring scan stops at the first slot that matches and ages those before it; on a miss it ages all and ends with the first of greatest age |
| BlockCache.Disk.DRead | v10/cmd/512restor.c:786-820 | a nonzero block reads as the volume holds it; a hit ages the slots scanned before; a miss ages all others and replaces the first of greatest age; exactly when a read fails |
| BlockCache.CachedRun | v10/cmd/512restor.c:760-820 | for any run of reads and writes of nonzero blocks and any cache size, the reads and the final volume are those of a volume without a cache |
| BlockCache.FreshRead | v10/cmd/512restor.c:786-820 | block number 0 marks an unused slot, so a first read gives what the volume holds exactly when it is of another block or block 0 is zero |
| FreeList.ChainUnique | v10/cmd/512restor.c:901-950 | the in-core group and the volume determine the free stack |
| FreeList.ChainPush | v10/cmd/512restor.c:917 | a block put into a group with room is the new top of the stack |
| FreeList.ChainSpill | v10/cmd/512restor.c:910-917 | a full group written into the freed block, which starts a new group, is the same stack with that block on top |
| FreeList.ChainPop | v10/cmd/512restor.c:934-947 | taking the last block of a group and reading in the group it holds, then overwriting it, is popping the stack |
| FreeList.ChainInNumbers | v10/cmd/512restor.c:910-947 | a group is laid out in its block as a count and the numbers after it, and an in-core group lies on top of the one that its first number leads to |
| FreeList.ThreeFree | v10/cmd/512restor.c:910-947 | an instance: two groups and the order in which their blocks go out |
| Restor.FileSystem.BFree | v10/cmd/512restor.c:901-918 | the freed block becomes the top of the free stack; only that block's contents may change, and none while the group has room |
| Restor.FileSystem.BAlloc | v10/cmd/512restor.c:924-950 | exactly an empty stack is out of space; otherwise the top is taken, zeroed, and no other block changes |
| Radix.ShiftMaskIsDigit | v10/cmd/512restor.c:1007-1008 | shifting and masking picks one digit of the block number in the base of the fan-out |
| Radix.DigitsOrdered | v10/cmd/512restor.c:1005-1009 | larger block numbers have lexicographically larger index paths |
| Inode.LocateOrdered | v10/cmd/512restor.c:970-991 | file block numbers are laid out over the inode's addresses and index paths in increasing order, for any fan-out |
| Inode.LocateInjective | v10/cmd/512restor.c:970-991 | two file block numbers never share an address and a path |
| IndirectTree.FollowInjective | v10/cmd/512restor.c:1005-1016 | in a tree without shared blocks different index paths lead to different blocks |
| Inode.BlockOfInjective | v10/cmd/512restor.c:998-1017 | different mapped file blocks have different disk blocks |
| Inode.CapacityInNumbers | v10/cmd/512restor.c:970-991 | with indirect blocks of k entries an inode addresses 10 + k + k*k + k*k*k blocks |
| Inode.CapacityOf128 | v10/cmd/512restor.c:970-991 | with blocks of 512 bytes, that is 128 entries, 10 + 128 + 16384 + 2097152 blocks |
| Inode.LocateInNumbers | v10/cmd/512restor.c:970-1009 | which address and which entries lead to every block number, in quotients and remainders by k |
| Inode.BlockOfInNumbers | v10/cmd/512restor.c:970-1017 | so the first ten blocks are found by their own addresses, and the others through addresses 10, 11 and 12 with one, two and three lookups |
| Inode.NodesInNumbers | v10/cmd/512restor.c:853-872 | a file's blocks are those of ten addresses and of trees of height one, two and three at the last three |
| IndirectTree.SmallTree | v10/cmd/512restor.c:877-899 | an instance: two small trees in order, and where paths through them lead |
| IndirectTree.PreOrderFrame | v10/cmd/512restor.c:1006-1013 | a tree is determined by its indirect blocks alone |
| IndirectTree.GrowAppends | v10/cmd/512restor.c:1009-1014 | a block entered where nothing follows it is appended to the tree's blocks in order |
| IndirectTree.GrowFollows | v10/cmd/512restor.c:1009-1014 | entering a block changes where its own path leads and no other |
| FileState.AllocationExtends | v10/cmd/512restor.c:998-1014 | one allocation on the way down moves one block from the free stack into the file and keeps every other mapping |
| FileState.WalkEnds | v10/cmd/512restor.c:1005-1017 | the walk that reaches level zero has mapped the block it returns |
| Restor.FileSystem.Levels | v10/cmd/512restor.c:981-993 | which address and how many levels lead to a block number, or that none does, and its number within that tree, counted past ten, k and k*k blocks |
| Restor.FileSystem.BMap | v10/cmd/512restor.c:957-1018 | the first ten blocks each take one block, put into their own address; and whatever a direct address held before, beyond the file's last block a fresh block is mapped, taking exactly the missing indirect blocks and the data block off the free stack and keeping every other mapping; 0 and no change beyond the triple indirect range |
| Truncate.RootLast | v10/cmd/512restor.c:889-898 | the blocks of a tree are freed last entry first and the root after them, which is the reverse of the order they were taken |
| Restor.FileSystem.TLoop | v10/cmd/512restor.c:877-899 | exactly the blocks of the tree go back on the free stack, each once, in the reverse of their order |
| Restor.FileSystem.FreeAddress | v10/cmd/512restor.c:856-872 | each of the thirteen addresses is torn down at its own height: one block at the first ten, and trees of one, two and three levels |
| Restor.FileSystem.ITrunc | v10/cmd/512restor.c:841-875 | a file or directory gives back exactly its data and indirect blocks, each once; a free inode or a special file, whatever its addresses hold, nothing |
| FileImage.MappedThenWritten | v10/cmd/512restor.c:1115-1116 | mapping a file block beyond all others and writing its data block changes no other file block, no block outside the pool, and not the pool |
| FileImage.OldContentKept | v10/cmd/512restor.c:1115-1116 | blocks mapped earlier are neither taken again nor overwritten as indirect blocks |
| Restor.FileSystem.RstrFile | v10/cmd/512restor.c:1109-1118 | the next block of the file is stored, or, past the addressable range, written over block 0 |
| Restor.FileSystem.Restore | v10/cmd/512restor.c:418-426 | whatever the old inode was, and starting from the first address of the dumped one, for any sequence of data blocks and holes in order the file reads back as the records, holes where they were skipped; the pool of free and file blocks is the same sequence as before, which is the free stack alone unless the old inode was a file or directory |
| FileImage.RestoredWhole | v10/cmd/512restor.c:991-993 | the file comes back whole exactly when every record lies in the addressable range |
| FileImage.BootKept | v10/cmd/512restor.c:991-993 | block 0 survives, whatever it holds, exactly under the same condition |
| FileImage.BootLost | v10/cmd/512restor.c:991-993 | an instance: one block just past the last that can be addressed takes the boot block's place |
| Restor.FileSystem.RestoreThenTruncate | v10/cmd/512restor.c:841-1118 | restoring a file and truncating it gives back the free stack in its old order |
| AvlTree.BalancedIsFull | r70/CC/Map.h:130-207 | a balanced tree of height h holds at least Fib(h+2)-1 keys |
| AvlTree.InOrderIncreases | r70/CC/Map.h:268-281 | the keys of a search tree read in order are strictly increasing |
| AvlTree.TagInNumbers | r70/CC/Map.h:130-144 | a node's tag names the higher of its two sides |
| AvlStore.RotationWired | r70/CC/Map.h:212-242 | either rotation, with its parent links, leaves child and parent links in agreement |
| AvlStore.RotationTurns | r70/CC/Map.h:212-242 | which records a rotation changes, and to what, whether or not the node was the head |
| AvlMap.Map.RotL | r70/CC/Map.h:212-226 | the heap after turning right child over node, every field |
| AvlMap.Map.RotR | r70/CC/Map.h:228-242 | the heap after turning left child over node, every field |
| AvlInsert.GrowStep | r70/CC/Map.h:140-144 | passing an even node: it leans to the side of the insertion and its subtree is one higher |
| AvlInsert.AbsorbStep | r70/CC/Map.h:151-152 | a node that leaned the other way becomes even and its subtree keeps its height |
| AvlInsert.SingleStep | r70/CC/Map.h:156-159 | the single rotation restores order, links and tags with the height from before the insertion |
| AvlInsert.DoubleStep | r70/CC/Map.h:160-179 | the double rotation does so too, for each lean of the inner node |
| AvlMap.Map.Unbalance | r70/CC/Map.h:137-144 | the run up the tree stops at the first node that is not even, or past the head |
| AvlMap.Map.FixRight | r70/CC/Map.h:155-179 | the right-heavy node is put right, in both shapes |
| AvlMap.Map.FixLeft | r70/CC/Map.h:180-204 | the left-heavy node is put right, in both shapes |
| AvlMap.Map.Rebalance | r70/CC/Map.h:137-207 | after an insertion every node is ordered, linked and tagged truly, and the keys are the old ones and the new |
| AvlMap.Map.NewNode | r70/CC/Map.h:122-210 | the map gains exactly the key with the default value and stays a tagged AVL tree |
| AvlMap.Map.Index | r70/CC/Map.h:244-266 | an existing key's value, or a new default one; every other value stays |
| AvlMap.Map.Put | r70/CC/Map.h:244-266 | assignment through the reference changes the map at that key only |
| AvlMap.Map.HeightBound | r70/CC/Map.h:122-210 | a map of n keys has Fib(height+2) at most n+1 |
| AvlMap.Map.Element | r70/CC/Map.h:268-281 | lookup finds a key exactly when it is there, comparing with as many nodes as the search path has, at most the height, logarithmic in the size |
| AvlIter.Mapiter.Next | r70/CC/Map.h:283-306 | the next key in order, the first after null, null after the last, without a stack |
| AvlIter.Mapiter.Prev | r70/CC/Map.h:308-331 | the key before, the last after null, null before the first |
| AvlIter.Walk | r70/CC/Map.h:283-306 | from null, ++ passes all keys once in strictly increasing order and returns to null |
| AvlIter.ForthAndBack | r70/CC/Map.h:283-331 | ++ reaches the next position, and -- from there comes back, on every node and on null |
| AvlIter.BackAndForth | r70/CC/Map.h:283-331 | -- reaches the position before, and ++ from there comes back, on every node and on null |
| AvlIter.Assign | r70/CC/Map.h:103-114 | walking one map and inserting into another makes them equal, and leaves the first as it was |
| Shear.HorShear | jerq/src/icon.c:713-731 | each row has moved over itself by its own lag, clipped to the bitmap, and nothing else has changed, for any lag and direction |
| Shear.VerShear | jerq/src/icon.c:733-751 | the same of columns |
| Shear.PlusShearsTurn | jerq/src/icon.c:753-782 | in the rectangle taken out, the three overlapping shears have sent pixel (x,y) to (v-1-y,x), with no residue |
| Shear.MinusShearsTurn | jerq/src/icon.c:784-813 | the three shears of the other turn send (x,y) to (y,h-1-x), with no residue |
| Shear.LagInNumbers | jerq/src/icon.c:713-751 | a line moves by its share of the whole, rounded towards nothing, counted from either end |
| Icon.TurnAdvances | jerq/src/icon.c:701-710 | at each point of the scan the bit read is the original one and the turn adds that point to the simultaneous result, for any displacement |
| Icon.Editor.IconOp | jerq/src/icon.c:657-680 | each code changes one point inside the icon as its truth table says, picture and display together |
| Icon.Editor.IconBitBlit | jerq/src/icon.c:682-711 | the result is as if all bits were read first, then the source code applied to the rectangle, then the destination code with the shifted, clipped bits; any overlap, sign or clip |
| Icon.BlitInNumbers | jerq/src/icon.c:682-711 | what that comes to at every point: the landing place, what the clip keeps off, and what the source code leaves behind |
| Icon.CodesInNumbers | jerq/src/icon.c:657-680 | the six codes as tables |
| Icon.ClearThenOrMoves | jerq/src/icon.c:682-711 | with CLR and OR the block move is a true move |
| Icon.MoveThereAndBack | jerq/src/icon.c:682-711 | moving there and back, clipped at the picture's edge or not, restores it exactly when nothing was lit in the part of the landing place outside the rectangle and no lit point left the picture |
| Icon.Editor.Erase | jerq/src/icon.c:919-929 | exactly the rectangle's points go out |
| Icon.Editor.OpInvert | jerq/src/icon.c:941-955 | exactly the rectangle's points are flipped, and the picture from before is kept for undo |
| Icon.Editor.OpReflX | jerq/src/icon.c:835-853 | every point of the rectangle shows its mirror image's old value, also when the rectangle lies partly outside |
| Icon.Editor.OpReflY | jerq/src/icon.c:815-833 | the same, top to bottom |
| IconLaws.ReflectTwice | jerq/src/icon.c:815-853 | a reflection undoes itself exactly when every lit point's mirror image lies in the picture |
| Icon.MirrorInNumbers | jerq/src/icon.c:815-853 | a mirror image is as far from the rectangle's middle as its original, on the other side |
| Icon.Editor.XorOntoScreen | jerq/src/icon.c:1542-1556 | the display is flipped at exactly the drawing's points that fall in the icon |
| Icon.Editor.OrOntoPicture | jerq/src/icon.c:1567-1577 | complement, or, complement and exclusive or add up to or, clipped to the picture |
| Icon.Editor.OpUndo | jerq/src/icon.c:1527-1540 | three exclusive ors exchange the picture and the undo picture, and the display follows |
| Icon.CoordBack | jerq/src/icon.c:460-488 | a screen point of an enlarged picture point maps back to that picture point, except exactly when it lies more than a point's width left of the screen's edge and is not the first of its points |
| Icon.CoordsInNumbers | jerq/src/icon.c:460-488 | enlarged points lie side by side from the origin on |
| Icon.Editor.OpRotPlus | jerq/src/icon.c:753-782 | the rectangle's picture is turned by a quarter about its middle and or-ed over what was around it |
| Icon.Editor.OpRotMinus | jerq/src/icon.c:784-813 | the same, turned the other way |
| IconLaws.TurnsAboutMiddle | jerq/src/icon.c:776-813 | a turn takes each lit point of the rectangle by a quarter about the rectangle's middle, exactly when width and height are both odd or both even and otherwise off by half a point each way, and leaves the rest |
| IconLaws.CornerTurned | jerq/src/icon.c:776-813 | an instance: the corner of a rectangle four by two, turned either way |
| IconLaws.OppositeTurns | jerq/src/icon.c:753-813 | the two turns undo each other exactly when nothing was lit in the part of the turned rectangle outside the original one and no lit point was turned out of the picture |
| IconLaws.TwoTurnsReflect | jerq/src/icon.c:753-853 | on a square two turns the same way are both reflections together |
| IconLaws.EditsThenUndo | jerq/src/icon.c:1522-1540 | after any run of edits one undo takes back the last, and a second brings it back |
| HexFile.Writer.BSend | jerq/src/icon.c:1136-1142 | sending the buffer as a null-terminated string puts all of it into the file and leaves it empty |
| HexFile.Writer.BPutc | jerq/src/icon.c:1144-1150 | a character is written once, in order, whatever chunks the buffer is sent in |
| HexFile.WriteHex | jerq/src/icon.c:1166-1178 | the file is the region's rows as hexadecimal words, one line each, whatever chunks it is sent in |
| HexFile.PutNibble | jerq/src/icon.c:611-626 | which points a character adds, in two's complement when it is no digit |
| HexFile.DigitsInNumbers | jerq/src/icon.c:601-626 | the sixteen digits, their values with letters of either size, and their bits |
| HexFile.NoDigitsInNumbers | jerq/src/icon.c:611-626 | the value of every character that is no digit, of which the last four bits count |
| HexFile.NibbleInNumbers | jerq/src/icon.c:601-609 | a digit is written for four points from left to right, the first weighing most |
| HexFile.WordPoints | jerq/src/icon.c:1070-1074 | the four digits of a word stand for sixteen points from left to right |
| HexFile.TextureRows | jerq/src/icon.c:1088-1096 | the words of a texture are its rows from the top down, sixteen of them |
| HexFile.WordIs | jerq/src/icon.c:1091-1097 | where each of those words begins: at the next x of either size |
| HexFile.FromFileIs | jerq/src/icon.c:1062-1097 | which of the two is read: hexadecimal words after a leading 0, and otherwise a texture behind the first brace |
| HexFile.LoadHex | jerq/src/icon.c:1067-1086 | what the loader makes of any text that starts with a 0, end of file included |
| HexFile.OpLoad | jerq/src/icon.c:1053-1103 | what the loader makes of any file whatever: hexadecimal words after a 0, and otherwise sixteen words of a texture |
| HexRoundTrip.NibbleBack | jerq/src/icon.c:601-626 | each bit of a written nibble loads back as it was |
| HexRoundTrip.RowsLoad | jerq/src/icon.c:1068-1086 | loading written rows adds exactly their pixels; the extra pass after the last newline adds nothing |
| HexRoundTrip.WriteThenLoad | jerq/src/icon.c:1053-1180 | writing any region and loading it adds exactly its pixels and those of the columns that the rounding takes in, the height exact and the width rounded up to sixteen |
| HexRoundTrip.OnlyRegionLoads | jerq/src/icon.c:1053-1180 | nothing but the region itself is loaded exactly when every lit point the rounding takes in besides it lands outside the bitmap |
| HexRoundTrip.StrayPoint | jerq/src/icon.c:1053-1180 | an instance: a lit point to the right of a region one point wide comes along |
| HexRoundTrip.OpRead | jerq/src/icon.c:1105-1125 | the drawing of any file is or-ed in at the place chosen; one of hexadecimal words without a whole line changes nothing, not even the undo picture |
| Floppy.SectorBack | v10/cmd/arff.c:567-573 | within a track the interleave and skew can be undone |
| Floppy.TransKeepsTrack | v10/cmd/arff.c:560-577 | each logical track goes to the next physical one, sector by sector, the byte offset kept |
| Floppy.TransInjective | v10/cmd/arff.c:560-577 | no two logical addresses share a physical one |
| Floppy.TransOnto | v10/cmd/arff.c:560-577 | every address past the first track is the translation of one, so each track is permuted |
| Floppy.SectorsApart | v10/cmd/arff.c:560-577 | a track's logical sectors lie two sectors apart, three where the second round begins, and each track starts six sectors further round than the one before |
| Floppy.SecondTrack | v10/cmd/arff.c:560-577 | an instance: logical address 3328 is physical 7424 |
| Floppy.Drive.ViewLies | v10/cmd/arff.c:589-616 | each logical byte lies at its translated address, or at its own on a plain file |
| Floppy.Drive.LWrite | v10/cmd/arff.c:599-618 | in logical addresses a write lays its data over the floppy and touches nothing else, translated or not |
| Floppy.Drive.LRead | v10/cmd/arff.c:578-597 | a read gives what the logical addresses hold |
| Floppy.WritesThenRead | v10/cmd/arff.c:578-618 | after any sequence of writes a read gives the last data written at each address |
| Rad50.Rad50 | v10/cmd/arff.c:440-459 | packing by the loop is packing by threes |
| Rad50.Unrad50 | v10/cmd/arff.c:463-477 | unpacking by the loop gives three letters for any sixteen-bit word, the null that ends the table included |
| Rad50.CodesInNumbers | v10/cmd/arff.c:541-557 | the code of every character: capitals as small letters, digits, and what has no code of its own |
| Rad50.FieldInNumbers | v10/cmd/arff.c:479-538 | what may stand in either part of an ordinary name: small letters, digits and two signs, up to its length |
| Rad50.SymbolsInOrder | v10/cmd/arff.c:540 | the letter of every code |
| Rad50.UnpackPacked | v10/cmd/arff.c:440-477 | packing then unpacking only folds case and fills up with spaces |
| Rad50.PackUnpacked | v10/cmd/arff.c:440-477 | every packed word survives unpacking and packing |
| Rad50.SRad50 | v10/cmd/arff.c:479-518 | which characters of a path go into the name and the extension, quirks included |
| Rad50.SUnrad50 | v10/cmd/arff.c:519-538 | for any three words, name and extension are joined by a dot, without trailing spaces and without a dot that nothing follows, up to the first null |
| Rad50.NameBack | v10/cmd/arff.c:479-538 | an ordinary name, whatever its directory, comes back from its three words |
| Rad50.SwapSys | v10/cmd/arff.c:440-538 | an instance: a path, its three words and the name they give |
| Extents.ExtentsInOrder | v10/cmd/arff.c:393-431 | the files of a segment lie one after another and never overlap |
| Extents.DeletedExtents | v10/cmd/arff.c:777-789 | deleting takes one file out of the list of extents and moves no other |
| Extents.SplitExtents | v10/cmd/arff.c:690-705 | making a file in a hole puts it at the hole's start and moves no other |
| Extents.SplitKeepsSizes | v10/cmd/arff.c:690-705 | a split leaves no negative length exactly when it is not an empty file put into an empty hole |
| Extents.StatusInNumbers | v10/cmd/arff.c:26-29 | the kinds of entry by number, and which of them take up blocks |
| Extents.ClearedInNumbers | v10/cmd/arff.c:777-789 | a deleted entry keeps its length and nothing else |
| Extents.BlocksInNumbers | v10/cmd/arff.c:690 | a file takes as many blocks as its bytes need, and one when it has none |
| Extents.MergedExtents | v10/cmd/arff.c:796-805 | running holes together keeps every file's address and the total length |
| Extents.MergedApart | v10/cmd/arff.c:796-805 | after compaction no two holes are neighbours |
| Extents.MergedChanges | v10/cmd/arff.c:796-809 | compaction changes a segment exactly when it had neighbouring holes |
| Arff.ScrunchSegment | v10/cmd/arff.c:796-807 | the in-place loop computes that compaction and reports exactly whether it merged anything |
| Arff.TakeHole | v10/cmd/arff.c:690-717 | the in-place shift and split, or that the segment is full, with the source's own bound, which lets the end mark into the slot past the last |
| Arff.RtInit | v10/cmd/arff.c:340-391 | reading the directory in fails exactly on too many segments or awful links; the directory is fit for use exactly when every segment has an end mark and the links end, and then holds the entries up to the marks |
| Arff.LinkedDistinct | v10/cmd/arff.c:410-412 | links that end never come to a segment twice |
| Arff.BlankSound | v10/cmd/arff.c:65-66 | the directory that a clobbered floppy starts with has its end mark, and links that end |
| Arff.BlankInNumbers | v10/cmd/arff.c:65-66 | what that directory is |
| Arff.Directory.Lookup | v10/cmd/arff.c:394-431 | the first entry of that name in link order, with its address and size |
| ArffLaws.FoundIsFirst | v10/cmd/arff.c:394-431 | what is found is in the first linked segment that has the name, and the first entry of that name there |
| ArffLaws.AddressInNumbers | v10/cmd/arff.c:427-430 | an address is 512 times the segment's first block and the blocks of the entries before it |
| Arff.Directory.Delete | v10/cmd/arff.c:777-789 | the entry becomes a hole of the same length, in memory only |
| Arff.Directory.MkEnt | v10/cmd/arff.c:680-718 | the hole is split and that segment, and no other, is written back; a full segment changes nothing; an end mark moved past the last slot overwrites the next segment's link |
| Arff.Directory.FlCreat | v10/cmd/arff.c:648-678 | the four ends of a request: an old entry big enough, no hole, a full segment, or a new entry by first fit, looked up along the links as they are afterwards; and what those are |
| ArffLaws.FitIsFirst | v10/cmd/arff.c:656-666 | the hole taken is in the first linked segment with one big enough, and the first there |
| ArffLaws.OldEntryServes | v10/cmd/arff.c:653-672 | an old entry that is big enough serves again; where there is no such entry and no hole, nothing changes |
| Arff.Directory.Scrunch | v10/cmd/arff.c:791-811 | every linked segment is compacted and exactly those with neighbouring holes are written back |
| Arff.Directory.DCmd | v10/cmd/arff.c:750-775 | the delete command over any list of names, and which of them were missing |
| ArffLaws.CreationKeepsOthers | v10/cmd/arff.c:648-718 | whatever a creation ends in, every file of another name keeps its entry and address, none appears, and no segment changes length |
| ArffLaws.DeleteCommandKeepsOthers | v10/cmd/arff.c:750-811 | the same of the delete command with its compaction, which leaves no neighbouring holes |
| ArffLaws.CreatedIsFound | v10/cmd/arff.c:648-718 | a file just made is found, with room for its size, exactly when its segment is still linked and no entry of its name comes before it; it is lost exactly when its segment is no longer linked and there is no other of its name |
| ArffLaws.UniqueNameIsFound | v10/cmd/arff.c:648-718 | with the name in the directory at most once it is found exactly when its segment is still linked |
| ArffLinks.RelinkedChain | v10/cmd/arff.c:703-705 | after a segment's link has been overwritten, the chain is the same exactly when that segment was not in it or had that link, and in any case up to that segment |
| ArffLinks.CreationKeepsLinks | v10/cmd/arff.c:666-707 | a creation keeps the links exactly when its end mark stays inside the segment's slots, no next segment is in use, or the mark's length is the link that was there; and the chain exactly when, in place of the second, the next segment is not linked |
| ArffLinks.ZeroMarksEnd | v10/cmd/arff.c:700-707 | when end marks have length zero the links still end after any creation, and bring in no segment that was not linked |
| ArffLaws.FileOutOfReach | v10/cmd/arff.c:648-718 | an instance: a creation in the first of three segments leaves the third, and its file, out of reach |
| ArffLaws.EntryLost | v10/cmd/arff.c:666-678 | an instance: the entry just made is itself out of reach |
| ArffLaws.CreationWritten | v10/cmd/arff.c:666-717 | the entries on the floppy are up to date after a creation exactly when no old entry was cleared in another segment |
| ArffLaws.OldEntryStays | v10/cmd/arff.c:666-717 | an instance: the floppy lists the old entry and the new one |
| ArffLaws.DeletionWritten | v10/cmd/arff.c:791-811 | deletions of any names reach the floppy exactly when every segment they changed then has neighbouring holes |
| ArffLaws.HoleBesideDeleted | v10/cmd/arff.c:791-811 | which means a hole beside the deleted file |
| ArffLaws.LostDeletion | v10/cmd/arff.c:791-811 | an instance: the middle one of three files is deleted and the floppy still lists it |
| ArffLaws.EndMarkStaysInside | v10/cmd/arff.c:693-707 | the end mark stays within the segment's slots exactly when the hole fits or two slots are free: the check comes one slot late |
| ArffLaws.EndMarkOutside | v10/cmd/arff.c:693-707 | an instance: seventy-one holes and one split |
| ArffLaws.SegmentInNumbers | v10/cmd/arff.c:693-707 | a segment counts as full at seventy-two entries, and at seventy-one a split moves the end mark out |
| ArffLaws.NegativeHole | v10/cmd/arff.c:690-705 | an instance of what a split may leave: an empty file in an empty hole |
| ArffStore.ToFlop | v10/cmd/arff.c:722-749 | exactly the file's extent is written: the file, a part block filled up, and then cleared blocks; after a file of whole blocks nothing is cleared |
| ArffStore.ImageFills | v10/cmd/arff.c:732-748 | the whole extent is written exactly when the file ends inside a block or fills it |
| ArffStore.ClearedBehind | v10/cmd/arff.c:732-748 | behind the file its extent reads zero exactly when the file ends inside a block or there were zeros already |
| ArffStore.OldBlockStays | v10/cmd/arff.c:732-748 | an instance: a file of one block in an extent of two leaves the second as it was |
| ArffStore.FilesApart | v10/cmd/arff.c:648-749 | no two files overlap, in whichever segments their entries are |
| ArffStore.CreatedOnFloppy | v10/cmd/arff.c:393-431 | a file just made lies on the floppy exactly when its segment's first block, the entries before the hole and the file's own blocks add up to no more than the floppy has, which can be told beforehand |
| ArffStore.BlankPastEnd | v10/cmd/arff.c:648-718 | an instance: on a floppy of 77 tracks the directory that a clobbered one starts with takes files of 481 to 494 blocks, which run past its end, and no others do |
| ArffStore.Rtr | v10/cmd/arff.c:630-646 | storing a file that the floppy has room for writes its image over its extent and nothing else, and every file of another name has the entry, the address and the contents it had |
| ArffStore.LaidAfter | v10/cmd/arff.c:648-718 | the files still lie apart after a creation exactly when it did not put an empty file into an empty hole |
| ArffStore.Rtx | v10/cmd/arff.c:315-339 | extracting gives the whole extent of the first entry of that name |
| ArffStore.StoreThenExtract | v10/cmd/arff.c:315-749 | storing a file and extracting it gives the file, then zeros or, behind a file of whole blocks, what was there before, to the extent's length |
| ArffRun.FoundAtPlace | v10/cmd/arff.c:393-431 | what is looked up is the first file of that name in the order of the links, where the lengths before it put it |
| ArffRun.CreationKeepsPlaces | v10/cmd/arff.c:648-718 | creating a file leaves the first file of every other name where it was, however often names are repeated |
| ArffRun.OnceKept | v10/cmd/arff.c:648-718 | a name that is in the linked segments at most once still is after any creation |
| ArffRun.StoreStep | v10/cmd/arff.c:630-646 | after one request its name holds the file, or nothing when its segment was full, and every other name what it held |
| ArffRun.RunOne | v10/cmd/arff.c:630-646 | one request of a run, after which the next can be made |
| ArffRun.RCmd | v10/cmd/arff.c:620-628 | the replace command over any list of files: it goes on to the end unless a segment is full, and then every name holds the last file made under it and every other name what it held; when no request clears an old entry in another segment, the entries on the floppy are those in memory |
| ArffRun.LastMade | v10/cmd/arff.c:620-628 | which means that a file made and not made again is held |
| ArffRun.NotAsked | v10/cmd/arff.c:620-628 | and that a name not asked for, or for whose files there was no hole, is as before |
| ArffStore.TwoAreas | v10/cmd/arff.c:394-431 | instances of segments whose areas lie apart, touching, empty and in either order, and of two that do not |
| ArffRun.Extract | v10/cmd/arff.c:315-339 | what a name holds is what extracting it gives |
| ArffRun.RoomyFits | v10/cmd/arff.c:620-628 | a run over files that are not empty can be made when each linked segment has a slot to spare for each of them and its area is on the floppy |
| ArFormat.ScanPrinted | v10/cmd/ar.c:506-513 | a printed decimal or octal number scans back as itself |
| ArFormat.ParsePrinted | v10/cmd/ar.c:506-603 | reading a printed header gives the member's own fields, whatever was read before |
| ArFormat.HeaderInNumbers | v10/cmd/ar.c:506-513 | where each field of a header lies, how wide it is and in what base it is written |
| ArFormat.FitsInNumbers | v10/cmd/ar.c:506-513 | which members a header can hold, by the length of the name and the size of the numbers |
| ArFormat.ScanInNumbers | v10/cmd/ar.c:597-609 | what a number is scanned from: white space, then decimal or octal digits |
| ArFormat.OneMember | v10/cmd/ar.c:502-577 | an instance: an archive of one member of three characters |
| Ar.MemberAt | v10/cmd/ar.c:538-577 | where a member's header, data and padding lie in the archive |
| Ar.CopyData | v10/cmd/ar.c:556-574 | the buffered copy gives exactly the data, and the padding byte as the flags say, for any even buffer size |
| Ar.Archiver.GetDir | v10/cmd/ar.c:579-610 | end of archive, malformed header or next member, whose name is cut and whose numbers are scanned, one that does not begin with a digit keeping the value before it; at the end the position's two files change places |
| ArFormat.LongNameLosesDate | v10/cmd/ar.c:597-604 | a name of sixteen characters puts its null at the head of the date, and the member takes the date of the one before it |
| Ar.Archiver.RestoredHeader | v10/cmd/ar.c:543-554 | the header goes out with the name's trailing spaces put back |
| Ar.Archiver.CopyMember | v10/cmd/ar.c:538-577 | a member is copied byte for byte, odd padding included, or passed over |
| Ar.Archiver.MoveFil | v10/cmd/ar.c:502-518 | a file outside becomes a printed member |
| ArEdits.TrimInNumbers | v10/cmd/ar.c:670-687 | a member is named by what follows the last slash of its path, slashes at the end not counting |
| ArEdits.MadeInFields | v10/cmd/ar.c:502-518 | and has the file's own date, owner, group, mode and contents |
| Ar.Archiver.Match | v10/cmd/ar.c:612-626 | the first name not yet used that matches is used up |
| Ar.Archiver.BAMatch | v10/cmd/ar.c:628-653 | the state machine splits the output exactly before or after the first member of the position's name |
| Ar.Archiver.Cleanup | v10/cmd/ar.c:443-461 | new members for the names left over go in where the position is |
| Ar.Archiver.RCmd | v10/cmd/ar.c:164-194 | the new archive is the list with named members replaced in place and new ones at the position or the end |
| Ar.Archiver.MCmd | v10/cmd/ar.c:264-288 | the new archive is the list with the named members moved to the position or the end |
| Ar.Archiver.DCmd | v10/cmd/ar.c:196-212 | the new archive is the list without the named members |
| ArEdits.MoveIsPermutation | v10/cmd/ar.c:196-288 | moving is a permutation that keeps the unmoved in order, and deleting loses exactly what moving would move |
| ArEdits.MarkedWhenNamed | v10/cmd/ar.c:612-626 | in an archive without repeated names, exactly the named members are matched |
| ArEdits.ReplacedInPlace | v10/cmd/ar.c:164-194 | replacing keeps every member's place and name, and every unnamed member whole; given no names, exactly the members with a file, or a newer one, of their own name are replaced |
| ArEdits.NamedIsReplaced | v10/cmd/ar.c:164-194 | a member of a name of its own that is given becomes the file of the first such name, unless there is none or it was to be newer and is not |
| ArEdits.FreshInOrder | v10/cmd/ar.c:443-461 | new members come in the order of their names |
| ArEdits.InsertedBeside | v10/cmd/ar.c:628-653 | with an after or before position the new members stand right behind or right in front of the first member of that name |
| ArEdits.InsertedLast | v10/cmd/ar.c:628-653 | and last when there is no position or no such member |
| ArEdits.MovedBeside | v10/cmd/ar.c:264-288 | members moved after or before a position go right behind or in front of that member, among the unmoved |
| ArEdits.MovedLast | v10/cmd/ar.c:264-288 | and last when there is no position or no such member |
| Accounting.Accountant.Charge | v10/cmd/ac.c:206-215 | the user of a terminal, and nobody else, is charged the time since the terminal's last |
| Accounting.Accountant.Login | v10/cmd/ac.c:222-236 | the user's slot or the first free one, or too many users; no account changes |
| Accounting.Accountant.UpAll | v10/cmd/ac.c:191-197 | bringing every terminal up to a time keeps every account in agreement with the log |
| Accounting.Accountant.EndDay | v10/cmd/ac.c:127-133 | a day's report charges each user up to midnight and no further |
| Accounting.Accountant.Loop | v10/cmd/ac.c:122-166 | each record keeps the accounts in agreement with the log, across midnights, long gaps and reboots, and the reports up to each midnight with the log up to it |
| Accounting.Accountant.Run | v10/cmd/ac.c:74-102 | by day or not, each user's reports add up to that user's session lengths, terminal by terminal, and by day the reports up to each midnight cut to the time up to it; the run fails exactly when the log names more users than there are slots |
| Accounting.DayByDay | v10/cmd/ac.c:127-133 | so a day's report gives each user the time from the midnight cut before to its own |
| Midnights.OneDay | v10/cmd/ac.c:122-133 | which is exactly one day if and only if the record that made the cut before came within a day of it and no gap of more than a day and a half followed; otherwise it is more |
| Midnights.TwoDays | v10/cmd/ac.c:122-133 | an instance: a gap of 26 hours over two midnights puts two days into one report |
| Accounting.AllClosed | v10/cmd/ac.c:134-138 | after a reboot every session counts whole |
| Accounting.SessionLength | v10/cmd/ac.c:200-237 | a login opens a session that the terminal's next record or the next reboot closes, counted from the one to the other for that user alone |
| Accounting.UpToInNumbers | v10/cmd/ac.c:200-215 | time up to a midnight is what a reboot then would close |
| Accounting.ChronologicalInNumbers | v10/cmd/ac.c:122-126 | a log is in order when no record is earlier than the one before it |
| Midnights.CutMade | v10/cmd/ac.c:122-133 | a record more than a day and a half after the one before makes no cut; any other makes one exactly when a midnight lies between the record that the days run from and it, at the first such midnight |
| Midnights.RunExists | v10/cmd/ac.c:122-133 | there always is a record that the days run from: the first, the last after such a gap or the last to make a cut |
| Midnights.LongGap | v10/cmd/ac.c:122-133 | an instance: after fifty hours without a record nothing is cut |
| Tek4014.AddressDecodes | v10/cmd/4014.c:265-295 | a terminal that remembers what was sent decodes the abbreviated address to the full point |
| Tek4014.AbbreviationIsInvisible | v10/cmd/4014.c:265-295 | the abbreviated address leaves the terminal where the full one would |
| Tek4014.Filter.SendPt | v10/cmd/4014.c:265-295 | so every point sent arrives, and the filter's memory stays that of the terminal |
| Tek4014.Filter.Init | v10/cmd/4014.c:181-196 | the next column, or after the last one the next page, with the whole address sent again |
| Tek4014.Filter.Line | v10/cmd/4014.c:102-118 | a new line or form feed, which below the page's end goes on to the next column or page |
| Tek4014.Filter.Take | v10/cmd/4014.c:100-171 | each character or motion moves the cursor as the plain machine does, and the terminal shows what that has written so far |
| Tek4014.Run | v10/cmd/4014.c:97-179 | filtering is invisible: over any text, and whatever the terminal remembered to begin with, its pages come out as if every character had been placed by a full address |
| Tek4014.Motions | v10/cmd/4014.c:130-156 | half lines change twice the height plus the remainder by exactly a line; a tab goes to the next stop exactly when not left of the margin or on a stop |
| Tek4014.MotionsInNumbers | v10/cmd/4014.c:102-169 | each motion in points: 31 to a character, 47 to a line, tabs every 248 |
| Tek4014.ColumnsInNumbers | v10/cmd/4014.c:181-195 | where the next column or page begins |
| Tek4014.WrittenAtCursor | v10/cmd/4014.c:161-169 | a character goes on the page at the cursor's point |
| Tek4014.ShownInNumbers | v10/cmd/4014.c:15-17 | what the terminal makes of a character and of each control byte sent to it |
| Tek4014.FirstAddress | v10/cmd/4014.c:265-295 | instances: the full address of the first place on a page, and what goes out for the same place and for a line further down |
| Tek4014.HalfLineRun | v10/cmd/4014.c:147-156 | over any run of half-line motions rounding never drifts |
| Tek4014.PageFills | v10/cmd/4014.c:102-118 | a page of text takes as many new lines as fit above its end, and the next one ends it |
| Tek4014.LinesPerPage | v10/cmd/4014.c:26-64 | a page length given in lines is the number of lines on a page, and without one it is 66 |
| History.User.Store | jerq/src/hp.c:348-351 | the ring holds the last characters received, one fewer than its size |
| History.User.ScanBack | jerq/src/hp.c:602-618 | the scan ends, at the newline sought or the oldest character kept |
| History.User.Backup | jerq/src/hp.c:595-621 | the replay starts at the longest run of kept characters with no more newlines than asked for, and atend tells whether that is all of them |
| History.ThreeQuarters | jerq/src/hp.c:602 | a backup asks for three quarters of a screen for each step |
| History.TailIsLongest | jerq/src/hp.c:595-621 | that run has no more newlines, and one character more would |
| History.User.GetChar | jerq/src/hp.c:322-353 | replay first, then what comes in, backups included for a caller that waits; one that polls gets what is there; a replay leaves the ring alone |
| History.Replay | jerq/src/hp.c:322-353 | a replay gives its characters in order, all of them unless its lines run out first |
| Calendar.YearAdvances | v10/cmd/cal.c:173-204 | the weekday of January 1 moves on by the true length of the year, for every year |
| Calendar.Jan1Of | v10/cmd/cal.c:173-204 | it is the true weekday, counted day by day |
| Calendar.KindOfYear | v10/cmd/cal.c:121-145 | the switch tells common years, leap years and 1752 apart |
| Calendar.MonthsMakeYear | v10/cmd/cal.c:106-111 | the month lengths add up to the year, September 1752 included |
| Calendar.MonthLengths | v10/cmd/cal.c:106-145 | the length of every month of every year, and the dates of September 1752 |
| Calendar.KnownDays | v10/cmd/cal.c:113-204 | instances: the weekdays of five known days |
| Calendar.Cal | v10/cmd/cal.c:113-166 | the loop draws the grid of every existing day, skipping the eleven dropped ones |
| Calendar.DayIsDrawn | v10/cmd/cal.c:149-165 | every existing day stands once, under its true weekday, in one of six rows |
| Calendar.CellsInNumbers | v10/cmd/cal.c:146-165 | the cells stand three characters apart in a week and a line apart from week to week |
| Calendar.DatesAsText | v10/cmd/cal.c:154-157 | instances: a date of one and of two digits |
| Calendar.NotYetDrawn | v10/cmd/cal.c:149-165 | nothing else in the buffer is touched |
| Ruler.NewtonStep | jerq/src/ruler.c:131 | each step stays at or above the root, and stops only at it |
| Ruler.RootIsLargest | jerq/src/ruler.c:124-134 | the root is the largest number whose square is at most the number |
| Ruler.Isqrt | jerq/src/ruler.c:124-134 | with every operation in a 32-bit word, wherever the program ends: what it returns is what the two loops come to, and below two to the thirtieth the integer square root |
| Ruler.RootFoundBelow | jerq/src/ruler.c:124-134 | it ends with the square root exactly for words below two to the thirtieth |
| Ruler.EndsUpTo | jerq/src/ruler.c:124-134 | it ends exactly for words up to two to the thirtieth |
| Ruler.ReturnsMinusRoot | jerq/src/ruler.c:131-133 | for two to the thirtieth itself it returns minus the root |
| Ruler.DoublingNeverEnds | jerq/src/ruler.c:130 | above two to the thirtieth the doubling loop never ends in a 32-bit word |

## Left out

- Restor.FileSystem.BMap: is stated for a block number beyond every block the file already has, as the restorer's increasing counter makes it.
- Restor.FileSystem.Restore: a dumped inode with a first address but without a first block on the tape, whose address would stay in the file, is excluded.
- AvlMap.Map.Clear: the nodes are dropped from the map; freeing their memory is not modelled.
- AvlMap.Map.Index: keys are integers in place of any ordered type.
- Icon.Editor.OpRotPlus: the rectangle lies inside the icon, as a swept one does; a tracked 16 by 16 one dragged past the edge would pick up what the display shows there. Running out of bitmap memory is not modelled.
- Icon.Editor.OpRotMinus: as for OpRotPlus.
- HexRoundTrip.WriteThenLoad: a region without rows or columns, which cannot be swept, is excluded.
- Floppy.Drive.LWrite: addresses past the floppy's end and hardware errors are not modelled.
- Arff.TakeHole: the branch for an option o is left out: no option letter sets it (v10/cmd/arff.c:102-155), so it is never taken.
- Arff.Directory.MkEnt: as for TakeHole.
- Arff.Directory.FlCreat: the directory's segments are entries in memory and images written back; the bytes of an entry, its date and the extra entry words are not laid out. Of the slot past a segment's last, which overlaps the next segment's header in memory, the length field and the link are followed and no other field; the links on the floppy are not. The links must end after the creation as before it; where they come round, the program never stops.
- ArffStore.Rtr: the directory names a file at most once and its segments' areas lie apart; the directory blocks themselves are not part of the drive's bytes. What writing past the floppy's end does is not modelled.
- ArffRun.RCmd: each name is in the directory at most once and each extent on the floppy, and no request changes the chain of links or puts an empty file into an empty hole; files that cannot be opened, which are passed over, are not in the list.
- Ar.Archiver.RCmd: names have one to fifteen characters and fields leave a space; read errors, files that change while copied and the stripping of trailing slashes from the argument strings are not modelled.
- Ar.Archiver.GetDir: a name field of spaces only, which makes the program read in front of its buffer, has no stated result; a name of sixteen characters, which has no null, is given without what lies behind it in memory; signs before numbers are not scanned.
- Accounting.Accountant.Loop: as for Run.
- Accounting.Accountant.Run: clock-change records are excluded, and a record names the slot of its terminal directly.
- Tek4014.Run: control characters other than null and bell, the terminal's own margins, the inquiry for its cursor when pages are not erased, and commands typed while a page is read are not modelled.
- History.User.GetChar: characters are not null.
- Prompts, signals, exit codes, messages, volume changes, terminal modes, menus, mouse tracking and the enlarged display of the icon editor.
- The tape header reader, directory search and extraction of the restorer.
- Stretching, texture patterns, grids and resizing in the icon editor; the writer of its texture files.
- Listing, extracting, printing and quick appending in the archiver; the verbose listings of the floppy archiver.
- The year view of the calendar, which draws three grids side by side.
- The bodies of the terminal's raster primitives, which are firmware: the model writes them out from their clipping and overlap rules.
- Integer widths other than where they are named above.
