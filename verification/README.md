# Verified models of the Jamoma foundation library

These modules model parts of the Jamoma foundation library and of the Boost headers in
its tree, and prove what those parts are for.

The main core is the OSC address tree. A directory (`TTNodeDirectory`) keeps one tree of
nodes in three forms that must agree: parent pointers, two-level tables of children (name,
then instance) in every node, and one flat hash from full address to node. `NodeDirectory`
models nodes and directory as heap classes whose fields are those of the program. A ghost
map `tree` from paths to nodes is the abstract state; `TreeOk` ties it to the fields and
`IndexOk` to the flat hash. Creation (with its mutual recursion through `setParent`),
removal (whose destructors recurse through the directory while the tables they walk
shrink), renaming and the notification of observers are proved against `tree`. `Runs` puts
them together over whole runs, `Searches` covers `getChildren`, `Lookup`, `LookingFor` and
`IsThere`, and `Address` the parser, the printer and the comparison of addresses.

The second core is the CRC engine: `Gf2` has division of bit streams over GF(2), `Crc` the
three engines for any width, polynomial and reflection, and `CrcDetection` what a CRC is
for. The smaller modules are `Color` (HSV and HSL), `LexicalCast` (the grouping integer
printer), `Registry` (classes, tags and the CSV parser), `Limits` (folding and wrapping)
and `Progress` (the tic counter). `Text` holds C string searches and decimal numerals,
`Reals` the laws of multiplication and division that `Color` and `Limits` use.

## Conventions

- Symbols are interned strings, so comparing symbol pointers is comparing strings. A hash
  is a map whose `append` does not overwrite; `getKeys` gives the keys in any order.
- A path is a sequence of components, each a name and an instance. A path is valid when
  names are not empty and neither part contains '.', '/' or ':'. An address is canonical
  when it is the rendering of a valid path.
- `used`, `Room` and `Generated` speak of the numerals `generateInstance` can make: its
  buffer holds seven characters and its counter wraps round, so there are ten million. With
  none free its loop would not end; `RoomBelowLimit` shows there is room while fewer than
  9,999,999 instances of the name exist.
- `getKeys` lists keys in a TTValue, whose count has 16 bits (`library/source/TTHash.cpp:64-71`,
  `library/includes/TTValue.h:92`, `library/source/TTValue.cpp:219-224`). `Countable`,
  `Listable` and `AllListable` say that a table, the children of a node, or all those at and
  below a node have fewer than 65,536 keys; every operation that lists keys requires it of
  the tables it lists.
- `notified` is what observers were sent, in order. `Told` says that between two states they
  were sent exactly what a log of nodes calls for: for each node in turn, once, the observer
  lists at all keys that hear of it, in an order the hash decides.
- `dying` names the nodes whose destructors are running. A call from outside passes none.
- A message is a sequence of bytes and a byte is a sequence of 8 bits, lowest first. A
  register is a sequence of bits that may be wider than the CRC, as the C++ type is.

Code and documentation disagree in two places, and the model follows the code.
`library/includes/TTNodeDirectory.h:147-160` says that creating a node at a taken address
returns the node already there, and that an instance is generated when none is given; the
code makes a new node with a generated instance at a taken address, and keeps the empty
instance at a free one. `setName` and `setInstance` mean to replace every key that starts
with the old address, but their test lets only the node's own key through:
`RekeyedExactly` says exactly when that is enough, and `RenamingAParentFails` is a
program where it is not.

## Model

| member | source | states |
|---|---|---|
| NodeDirectory.Directory.constructor | library/source/TTNodeDirectory.cpp:16-34 | a directory starts with nothing but its root, under "/", and has told nobody |
| NodeDirectory.Directory.TTNodeCreate | library/source/TTNodeDirectory.cpp:99-213 | from an agreeing tree and hash to agreeing ones; a free path is filled together with its missing prefixes, a taken one gains exactly one sibling with a generated instance, no entry changes, the flag says whether the path was taken, the ancestors made are empty containers, and observers are sent exactly the notices of the new nodes, each node once, parents first |
| NodeDirectory.CreatedMeans | library/source/TTNodeDirectory.cpp:99-213 | written out: the paths that a creation adds are the missing prefixes, or one sibling of the same name under another instance, and the ancestors it makes are containers without object and context |
| NodeDirectory.MissingInOrder | library/source/TTNodeDirectory.cpp:168-184 | the nodes a creation makes are the prefixes that were missing, the shortest first |
| NodeDirectory.Node.SetParent | library/source/TTNode.cpp:287-310 | the parent is the node at that address, created with its missing ancestors if need be; the error answer is never given |
| NodeDirectory.Node.SetChild | library/source/TTNode.cpp:561-602 | refuses exactly when the name and instance are taken, and otherwise adds that one entry |
| NodeDirectory.Node.GenerateInstance | library/source/TTNode.cpp:604-637 | terminates and returns the numeral of the least unused positive number (zero once all are used), never one in use; fails exactly when the name is unknown |
| NodeDirectory.GeneratedUnique | library/source/TTNode.cpp:604-637 | the generated instance is determined by the set of used ones |
| NodeDirectory.GeneratedMeans | library/source/TTNode.cpp:604-637 | a positive numeral is generated exactly when it is unused and the numerals of all smaller positive numbers are used |
| NodeDirectory.RoomBelowLimit | library/source/TTNode.cpp:604-637 | pigeonhole over injective numerals: below the limit of the buffer a positive numeral is free |
| NodeDirectory.Node.GetOscAddress | library/source/TTNode.cpp:478-559 | counting, collecting and printing the ancestors yields the rendering of the node's path |
| NodeDirectory.Directory.TTNodeRemove | library/source/TTNodeDirectory.cpp:215-242 | fails exactly on "/" and unknown addresses and then changes nothing; otherwise the tree loses exactly the node and its descendants, the hash exactly the keys equal to the address or continuing it after a "/", every other entry is unchanged, observers are sent exactly the notices of the departed nodes, each node once and after its parent, and it terminates |
| NodeDirectory.Node.Destroy | library/source/TTNode.cpp:33-107 | the destructor, walking snapshots of keys while the tables shrink under it, removes the whole subtree, keeps tree and hash in agreement for all nodes not being destroyed, and sends exactly the notices of the nodes below |
| NodeDirectory.Node.DestroyChildren | library/source/TTNode.cpp:43-78 | the loop over the names ends with no children, having thinned only the tree below the node |
| NodeDirectory.Node.LeaveParent | library/source/TTNode.cpp:80-99 | a leaf is taken out of its parent's table, and the table with it when it was the last instance; the rest still agrees |
| NodeDirectory.UnderIsDescent | library/source/TTNodeDirectory.cpp:215-242 | for canonical addresses, being equal or continuing after a "/" is being the node or a descendant |
| NodeDirectory.IndexAfterRemoval | library/source/TTNodeDirectory.cpp:215-242 | a hash that agrees with the pruned tree is the old one without the keys under the address |
| NodeDirectory.IndexAfterCreation | library/source/TTNodeDirectory.cpp:187-189 | creation keeps every entry of the hash and adds exactly the addresses of the new nodes |
| NodeDirectory.IndexParentClosed | library/source/TTNodeDirectory.cpp:99-213 | the hash is closed under the parent address that splitting reports, and holds there the parent pointer of the entry |
| NodeDirectory.RootPresent | library/source/TTNode.cpp:287-310 | from the node at a path as many steps along the parent pointers as the path is long lead to the root, and the next step to no node |
| NodeDirectory.ParentsLeadUp | library/source/TTNode.cpp:478-559 | on the way these are the nodes at the prefixes of the path, longest first |
| NodeDirectory.Node.SetName | library/source/TTNode.cpp:122-200 | the node moves to the wished name, or to a generated instance exactly when a sibling has name and instance; the tree is the old one with the subtree moved and agrees with the fields, exactly one key of the hash is replaced, and tree and hash agree afterwards if and only if, before the call, the node had that name or no children |
| NodeDirectory.Node.SetInstance | library/source/TTNode.cpp:202-273 | the same for the instance, where the emptied table of instances is not removed in between; agreement holds if and only if, before the call, the node had no children, or had that instance, or a sibling has it and the instance generated instead is the one the node had |
| NodeDirectory.Node.EnterParent | library/source/TTNode.cpp:153-160 | the loop runs its body at most once: after one generated instance the child is accepted |
| NodeDirectory.Directory.Rekey | library/source/TTNode.cpp:165-197 | the loop over all keys replaces the node's own key and no other |
| NodeDirectory.MoveOk | library/source/TTNode.cpp:122-163 | moving a subtree to a free sibling path keeps parent pointers, names and tables in agreement |
| NodeDirectory.RekeyedExactly | library/source/TTNode.cpp:165-197 | with the one key replaced the hash agrees with the moved tree if and only if the path did not change or the node is a leaf |
| Runs.RunAll | library/source/TTNodeDirectory.cpp:99-242 | from a fresh directory, over any mixture of creations, removals and changes of name and instance of childless nodes that creates fewer nodes than a TTValue can list, each step does to the tree what the operation is for and to nothing else, and tree and hash agree at the end; numerals never run out |
| Runs.RenamingAParentFails | library/source/TTNode.cpp:165-197 | a program that does break it: a new directory, /a/b created, /a renamed to c; then the tree has /c/b, the hash still /a/b |
| NodeDirectory.Directory.NotifyObservers | library/source/TTNodeDirectory.cpp:466-520 | exactly the observer lists are notified whose key the address equals or lies below by the comparison, each observer of a list in order; the error says nobody was |
| NodeDirectory.Directory.Deliver | library/source/TTNodeDirectory.cpp:496-508 | a list of observers gets one notice each, in the order of the list, and nothing else is sent |
| NodeDirectory.ToldInOrder | library/source/TTNodeDirectory.cpp:466-520 | with observers at canonical addresses, what is sent of a node is one notice for each observer in the lists at the keys that hear of it, list after list and each list in order |
| NodeDirectory.TellsAllSplits | library/source/TTNodeDirectory.cpp:466-520 | what is sent of a log of nodes is what is sent of its first part and then of the rest, down to single nodes |
| NodeDirectory.ToldExactly | library/source/TTNodeDirectory.cpp:466-520 | each notice is sent as often as its observer is listed at the keys that hear of the node; those told are the observers at addresses that hear |
| NodeDirectory.HearsMeans | library/source/TTNodeDirectory.cpp:486-488 | an address hears of a node exactly when each of its levels is matched by the level of the node, name and instance each equal or one of them a whole "*" |
| NodeDirectory.HearsSelfAndBelow | library/source/TTNodeDirectory.cpp:466-520 | between wildcard-free addresses these are the observers at the node and its ancestors |
| Searches.GetChildren | library/source/TTNode.cpp:312-405 | returns exactly the children that fit the name and instance, a whole "*" fitting any, each once; fails exactly on a node without children and when a name was asked for and nothing found |
| Searches.Lookup | library/source/TTNodeDirectory.cpp:244-314 | started with an empty list, finds exactly the nodes whose path has the pattern's length and matches it component by component, each once, and succeeds exactly when it found one; the root is missed only when its property contains a '*' |
| Searches.FindsMeans | library/source/TTNodeDirectory.cpp:244-314 | written out: a path is found once exactly when it is in the tree, has the pattern's length, and each level has the name and instance asked for or was asked for with a "*" |
| Searches.CompareIsSelection | library/source/TTNodeDirectory.cpp:675-747 | between a pattern and a node the comparison and the search agree: Equal is being selected, Lower and Upper are being selected up to the length of the shorter |
| Searches.SelectsAsIndexed | library/source/TTNodeDirectory.cpp:291-312 | on patterns without a wildcard the matching nodes are the hash lookup |
| Searches.LookingFor | library/source/TTNodeDirectory.cpp:316-358 | appends every strict descendant of a start node that passes the test, once for each start node above it, and nothing else; fails exactly without start nodes, and terminates |
| Searches.GainedMeans | library/source/TTNodeDirectory.cpp:316-358 | written out: a path is added as often as the number of start nodes above it when it passes, and not at all otherwise |
| Searches.ChildOrBelow | library/source/TTNodeDirectory.cpp:329-347 | a strict descendant is one of the children or lies below exactly one of them |
| Searches.IsThere | library/source/TTNodeDirectory.cpp:360-410 | yes exactly when a strict descendant of a start node passes, with such a node; fails exactly without start nodes |
| Searches.IsThereAsLookingFor | library/source/TTNodeDirectory.cpp:316-410 | that is exactly when LookingFor finds something |
| Address.ParseOfRender | library/source/TTNode.cpp:478-559 | printed paths parse back, so addresses of different paths differ |
| Address.SplitOSCAddress | library/source/TTNodeDirectory.cpp:565-645 | the three cuts of the buffer yield the parts of the specification, for every string |
| Address.SplitMeans | library/source/TTNodeDirectory.cpp:565-645 | each cut is at the last mark of its kind: no ':' in the property, no '/' in name and instance but the root's, no '.' in the instance |
| Address.SplitOfRender | library/source/TTNodeDirectory.cpp:565-645 | a canonical address with an optional property splits into its parent's address, its own name and instance, and the property |
| Address.MergeOfParts | library/source/TTNodeDirectory.cpp:647-673 | those parts merge to the address again; without a property this is what getOscAddress prints for the node |
| Address.SplitOfMerge | library/source/TTNodeDirectory.cpp:565-673 | splitting what was merged gives the parts back |
| Address.MergeOfSplit | library/source/TTNodeDirectory.cpp:565-673 | for every string at all: merging what was split gives it back if and only if no mark is followed by nothing and the name and parent are not special |
| Address.Marks | library/includes/TTNode.h:28-42 | the marks themselves: "/a.1/b:c" is property c of the node b below instance 1 of a |
| Address.SplitAtOSCAddress | library/source/TTNodeDirectory.cpp:528-563 | the two parts make up the address, cut after the separator counted; fails exactly when there are too few separators |
| Address.CompareOSCAddress | library/source/TTNodeDirectory.cpp:675-747 | the loop over equal first levels and the recursion terminate and give the comparison level by level, wildcards and properties included |
| Address.CompareWithMeans | library/source/TTNodeDirectory.cpp:715-742 | written out: Equal, Upper and Lower call for names and instances on the common levels that are equal or of which one is "*", and for the same property where one is written; all else is Different |
| Address.AddressesName | library/source/TTNodeDirectory.cpp:675-747 | this covers the addresses of all nodes and of their properties, the root with a property included |
| Address.CompareMeaning | library/source/TTNodeDirectory.cpp:675-747 | without properties: Different exactly when some level of the shorter differs in name or instance and neither side is "*", otherwise decided by the lengths |
| Address.CompareSymmetric | library/source/TTNodeDirectory.cpp:675-747 | exchanging the addresses exchanges Upper and Lower only |
| Address.CompareIsDescent | library/source/TTNodeDirectory.cpp:675-747 | between wildcard-free addresses Lower is proper descent |
| Crc.BothEngines | library/boost/libs/crc/test/crc_test.cpp:100-125 | for every width, polynomial, initial remainder, final xor, all four reflect settings and every byte sequence, the table-driven engine and the bit-at-a-time engine give the same interim remainder and the same checksum |
| Crc.RemainderMeans | library/boost/boost/crc.hpp:728-748 | from zero that remainder is the one of polynomial division: the message bits with a width of zeros behind them are a multiple of the full polynomial, and the remainder |
| Crc.MessageBitsMean | library/boost/boost/crc.hpp:753-783 | the bits of a message are those of its bytes in turn, each from its lowest bit up when the input is reflected and from its highest down otherwise |
| Crc.CrcBasic.ProcessByte | library/boost/boost/crc.hpp:773-783 | a byte in its order of transmission is divided bit by bit |
| Crc.CrcBasic.ProcessBlock | library/boost/boost/crc.hpp:784-812 | the register becomes the remainder of the block |
| Crc.CrcBasic.Checksum | library/boost/boost/crc.hpp:814-823 | bit i is bit i of the remainder, or the one as far from the other end when the output is reflected, flipped where the final xor is set; nothing above its width |
| Crc.CrcTable.InitTable | library/boost/boost/crc.hpp:488-536 | every entry is the stored remainder of the byte its index stands for, computed once |
| Crc.TableStep | library/boost/boost/crc.hpp:947-967 | one table step on the stored register is eight steps of the division, for every width and reflection |
| Crc.CrcOptimal.ProcessBlock | library/boost/boost/crc.hpp:947-967 | the same remainder as bit by bit, through the stored reflection |
| Crc.CrcOptimal.Checksum | library/boost/boost/crc.hpp:988-995 | the same bits of the same remainder |
| Crc.Reflect | library/boost/boost/crc.hpp:306-326 | the low bits reversed, the others cleared |
| Crc.AugmentedCrc | library/boost/boost/crc.hpp:1045-1076 | long division of the message proper, for widths of at least a byte |
| Crc.AugmentedWithZeroBytes | library/boost/libs/crc/test/crc_test.cpp:507-600 | followed by a width of zero bytes it is the plain CRC, from the translated initial remainder |
| Crc.AugmentedFromZero | library/boost/libs/crc/test/crc_test.cpp:507-600 | from zero it is the plain CRC from zero |
| Crc.TrailerCheck | library/boost/libs/crc/test/crc_test.cpp:507-600 | over a message and a trailer it is zero, from any initial remainder, if and only if the trailer is the message's plain CRC from the translated initial remainder, highest byte first |
| Gf2.DivideLinear | library/boost/boost/crc.hpp:728-748 | division of streams is linear in register and stream |
| Gf2.DivideByGroup | library/boost/boost/crc.hpp:947-967 | a group of bits at once: the shifted register plus the remainder of the group compared with the top |
| Gf2.DivisionTheorem | library/boost/boost/crc.hpp:1045-1076 | register and stream together are the product of a quotient with the divisor, and the final register |
| Gf2.PlainDivision | library/boost/boost/crc.hpp:728-748 | the comparing form from zero gives the remainder of the stream with a width of zeros behind it |
| Gf2.AugmentedIsPlain | library/boost/boost/crc.hpp:1045-1076 | zeros pushed through the register after the message turn long division into the plain form |
| CrcDetection.DetectsBurstsExactly | library/boost/boost/crc.hpp:728-748 | a CRC tells any two streams apart that differ within its width if and only if its polynomial has the constant term |
| CrcDetection.ChecksumDetectsBurst | library/boost/boost/crc.hpp:814-823 | so do the checksums of two messages, whatever the reflections and the final xor |
| Color.RgbHsvRgb | extensions/DataspaceLib/ColorDataspace.cpp:189-278 | RGB to HSV to RGB is the identity, whatever the hue of a grey, if and only if the largest component is not 0 or none is negative; so everywhere on [0,1] |
| Color.HsvRgbHsv | extensions/DataspaceLib/ColorDataspace.cpp:189-278 | the way back is the identity for positive saturation and value, and for greys and black exactly when their hue and saturation are the ones the program gives them |
| Color.HsvMeans | extensions/DataspaceLib/ColorDataspace.cpp:235-278 | written out for chromatic colours: value and saturation from the extremes, and the hue from the largest component at 0, 120 or 240 degrees and the distance of the others |
| Color.HsvGrey | extensions/DataspaceLib/ColorDataspace.cpp:189-232 | without saturation any hue gives the grey of that value, and without value black |
| Color.RgbHslRgb | extensions/DataspaceLib/ColorDataspace.cpp:70-159 | RGB to HSL to RGB is the identity wherever no division is by zero |
| Color.UnitDivides | extensions/DataspaceLib/ColorDataspace.cpp:131-137 | on [0,1] none is |
| Color.HslRgbHsl | extensions/DataspaceLib/ColorDataspace.cpp:70-159 | the way back is the identity if and only if the colour is chromatic or has hue and saturation 0 |
| Color.HslMeans | extensions/DataspaceLib/ColorDataspace.cpp:110-159 | written out for chromatic colours: lightness and saturation from the extremes, and the same hue |
| Color.HslGrey | extensions/DataspaceLib/ColorDataspace.cpp:70-106 | without saturation any hue gives the grey of that lightness; without lightness everything is black, with all of it white |
| Color.HslOnWheel | extensions/DataspaceLib/ColorDataspace.cpp:13-26 | the three calls of hls_value, a third of a turn apart, are the components of the same colour wheel the HSV unit uses |
| LexicalCast.PutUnsigned | library/boost/boost/lexical_cast.hpp:507-561 | writes backwards exactly the digits in groups, the last size repeating, and touches nothing else of the buffer |
| LexicalCast.GroupsMean | library/boost/boost/lexical_cast.hpp:507-561 | cut at the separators, the text has from the right groups of exactly the sizes that the grouping names, the last repeating and one that is not positive meaning 127; only the leftmost group may be smaller |
| LexicalCast.Insert | library/boost/boost/lexical_cast.hpp:837-865 | a buffer of the length computed at compile time is always long enough, sign included |
| LexicalCast.WrittenFits | library/boost/boost/lexical_cast.hpp:334-347 | no integer of the type, in any grouping, is longer than that |
| LexicalCast.ToUnsigned | library/boost/boost/lexical_cast.hpp:486-493 | negation modulo the width gives the magnitude, of the most negative value too |
| LexicalCast.ReadBack | library/boost/boost/lexical_cast.hpp:507-561 | with the separators dropped the text reads back as the integer |
| LexicalCast.NoLeadingZero | library/boost/boost/lexical_cast.hpp:507-561 | only zero starts with a zero |
| LexicalCast.UngroupedIsPlain | library/boost/boost/lexical_cast.hpp:519-525 | under a grouping without a limit every integer of a type whose digits10 is below 127, as is asserted at compile time, is its plain numeral with its sign |
| Registry.TransformCSV | library/source/TTValue.cpp:933-965 | the parser, overwriting its buffer from the last comma to the first, yields the reverse of splitting at commas, every segment but the first trimmed, of the string up to its first NUL |
| Registry.SymbolsMean | library/source/TTValue.cpp:933-965 | written out: the segments hold no comma and joined with commas they are the string; they come out last one first, all but the first trimmed |
| Registry.TrimAt | library/source/TTValue.cpp:951-957 | both trimming loops stay inside the segment and the NUL before it, on segments of spaces only too |
| Registry.TrimMeans | library/source/TTValue.cpp:951-957 | trimming takes the spaces at both ends and no others |
| Registry.Environment.RegisterClass | library/source/TTEnvironment.cpp:56-117 | a new name adds its class and its tags, and a name known already changes nothing; the inverted index stays that of the registered classes |
| Registry.RegisterAll | library/source/TTEnvironment.cpp:56-117 | after any run of calls each tag leads to the registered names in order, with multiplicity |
| Registry.FirstCallWins | library/source/TTEnvironment.cpp:67-70 | over a run a class has the tags of the first call that named it, and no others |
| Registry.TaggedMeans | library/source/TTEnvironment.cpp:78-109 | a name is in a tag's list exactly when its class carries the tag |
| Registry.TaggedTimes | library/source/TTEnvironment.cpp:78-109 | it is there as often as the tag was given for the class |
| Registry.TaggedOrder | library/source/TTEnvironment.cpp:78-109 | and classes registered earlier are earlier in the list |
| Registry.Environment.GetClassNamesWithTags | library/source/TTEnvironment.cpp:126-148 | returns the list of the last tag searched for that any class carries, or the list there was when no tag is found, with the error of the last tag searched for |
| Limits.FoldIsReflection | library/includes/TTLimits.h:155-175 | folding is reflecting at the violated bound until the value is in range |
| Limits.FoldSymmetric | library/includes/TTLimits.h:155-175 | the folded value is in range, the value itself when that is in range, unchanged by a reflection at either bound, and has twice the range as period |
| Limits.WrapMeans | library/includes/TTLimits.h:142-152 | the wrapped value is in range and congruent to the value; it is the upper bound exactly for values below the range by a whole number of ranges |
| Limits.WrapDetermined | library/includes/TTLimits.h:142-152 | otherwise congruent values wrap to the same point |
| Progress.ProgressDisplay.Add | library/boost/boost/progress.hpp:107-114 | one increment is one step of the specification, the do-while of the tics included |
| Progress.StarsBefore | library/boost/boost/progress.hpp:88-138 | before completion the count is the sum of the increments, and there are never fewer stars than 50 times the share done, rounded down, and never more than 50 |
| Progress.StarsOnTime | library/boost/boost/progress.hpp:88-138 | written out: before completion the output is stars only, none before the first increment and at least one after it, at least 50 times the share done, rounded down, at most 50, and no star before its tic is due |
| Progress.ExactlyFiftyOne | library/boost/boost/progress.hpp:88-138 | for any increments whose total first reaches the expected count at the last step, exactly 51 stars and a newline |

## Left out

- Threads, locks, extension loading, logging, platform branches, memory management and reference counts.
- NodeDirectory.GetKeys: hashes of 65,536 keys or more, which overflow the element count of a TTValue, are excluded here and in every member that lists keys (creation and removal, renaming, notification and the searches).
- NodeDirectory.Directory.TTNodeCreate: does not model addresses with a property part, creating the root a second time, or the registration of attributes.
- NodeDirectory.Directory.TTNodeRemove: the destroyed node's name, type, object and instance are not set to NULL in the model; nothing reaches the node afterwards.
- NodeDirectory.Directory.NotifyObservers: the message carries address, observer and flag, not the node pointer nor what earlier notifications left in the shared value; observers do not call back into the directory.
- Address.CompareOSCAddress: says nothing of properties that contain "/" or ":", nor of strings that are not addresses of nodes or properties.
- NodeDirectory.Node.SetName: after a rename that leaves stale keys no further operation is covered.
- Runs.RunAll: renames only nodes without children, for the same reason, and there are no observers in its directory.
- Searches.Lookup: the pointer to the first node found is not returned (the program writes a local variable); what is found when the list starts non-empty is only said to be nodes of the directory.
- Searches.LookingFor: the order of merged lists is that of concatenation; `std::list` merges unsorted pointers in an order of its own.
- Long functions of the program are split into several methods here, one for each loop or step; the rows above name the outermost and the most telling ones.
- `addObserverForNotifications`, `removeObserverForNotifications`, `getChildrenName` and `getChildrenInstance`: simple list operations.
- Crc.AugmentedCrc: widths below a byte, for which the program's shift count would be negative.
- Color, Limits and Progress compute in exact arithmetic: IEEE rounding and unsigned overflow of the counters are not modelled.
- LexicalCast.PutUnsigned: the character type is `char` with signed 8-bit group sizes; floating-point and string conversions are left out.
- Registry.TransformCSV: at least 65536 segments, which overflow the element count of a TTValue, are excluded.
- Linear and transcendental unit conversions, TTOneWrap, TTScale and TTClip, and the Windows branch of TTFold.
