# Verified model of the referee box core libraries

This project models, in Dafny, the state-changing core of the referee box: the YAML configuration tree and the
configuration object with its two trees, the conveyor belt handshake, the aspect and thread life cycle, the message
list of exceptions, the register file of the field controllers, and the logging cache. The properties proved are about
all inputs, all runs and all failures named below.

`dafny verify dfyconfig.toml` checks everything.

## How the model is built

Code that changes objects in place is modelled by classes whose methods change the same fields in the same order. Each
such method is proved to be one application of a function on values (`State()`, or the ghost `shape` of a tree). The
theorems are then about these functions and about runs of them.

- `Basics`, `KeyOrder`: option type, sequence facts, the order in which a map with string keys is visited.
- `ConfigPath`: splitting and writing of path texts.
- `ConfigTree`: a tree as a prefix-closed map from paths to node contents; insertion, writing, erasing with pruning,
  leaf maps, differences.
- `ConfigNode`: the heap nodes with their child pointers. The ghost shape of a tree records which node sits at which
  path; it implies that the tree is acyclic, that a map key is the child's name, and that trees with disjoint objects
  cannot influence each other.
- `ConfigQuery`: leaf enumeration, search, diff. `ConfigMerge`: overlay merge and destruction. `ConfigOverlay`: merging
  many trees. `ConfigExamples`: documents on which a law fails.
- `ConfigDocument`: reading one parsed document. `ConfigLoad`: includes and the load queue. `ConfigSetup`: all of
  loading, with the host document. `ConfigFiles`, `ConfigSuccess`: what loading takes from the files, and when it
  succeeds, told from the files alone. `Configuration`: the two trees and runs of commands. `YamlConfiguration`: the
  object on the heap.
- `ConveyorBelt`: the referee box side of the belt protocol. `ConveyorSystem`: the protocol with a device and two
  unreliable channels.
- `AspectManager`, `ThreadManager`: initialisation with rollback, and the agreement of the two registries.
- `MessageList`, `SpsComm`, `LogCache`.

A tree has a leaf where a node without children sits, other than the root. The main invariant of the configuration,
`Configuration.Covered`, says that every path of the host tree exists in the effective tree and every scalar leaf of the
host tree is a leaf of the effective tree with the same text.

The text conversions of C++ streams, the URL and frame patterns and the boolean words are one uninterpreted parameter
(`Conversions`). Files are a finite map from names to parsed documents. Clock readings, arriving messages, the answers of
remote controllers and the failures of initializers and threads are parameters of the operations. The variant of the
source with `HAVE_YAMLCPP_0_5` is modelled.

Assumptions that a theorem needs and the source does not check are preconditions of that theorem: includes are acyclic
(`ConfigLoad.Acyclic`), no key of a document consists of slashes only (`ConfigDocument.KeysOk`, for all files
`ConfigLoad.DiskOk`: the source takes the last component of an empty list then), a device adopts a command only when its
number is one more than its own cycle (`ConveyorSystem.Adopts`), an exception is not copied into itself. What printf makes
of a message is a parameter, fixed only for messages without directives (`MessageList.Printf`).

## Where the code and its documentation differ

The model follows the code in each of these.

- `search` promises all values whose path starts with the given string (src/libs/config/config.cpp:309-316); the code
  lists the leaves below one node, component by component.
- `diff` does not see changes of list elements (`ConfigTree.ListChangeUnseen`).
- Port 65535 is refused although it is in the range of port numbers (src/libs/config/yaml.cpp:829-832).
- `Exception::operator=` appends to the messages that are there instead of replacing them.
- `ThreadManager::force_remove` is said to succeed even if the finalizer cannot finalize the thread; an exception of an
  aspect finalizer leaves the thread in place (`ThreadManager.ForceCanFail`).
- `test_lights` is said to turn the machines off one after the other at the end; it turns them on.
- The set operations of the configuration throw after both trees took the change when there is no host file.

## Properties that hold only under a condition

Each of these has its exact condition as a theorem and, where the failure needs a state of its own, a concrete one.

- Consistency of the two trees under scalar writes: `Configuration.SetKeepsCovered`, failing in
  `Configuration.LargeUnsignedBreaks`. All-or-nothing scalar writes: `Configuration.SetIsAtomic`, failing there and, in the
  host tree alone, in `Configuration.HostAloneThrows`. All-or-nothing erasure: `Configuration.EraseKeepsCovered`, failing in
  `Configuration.HalfErased`. Consistency after loading: `ConfigSetup.HostMergeCovered`,
  failing in `ConfigExamples.OverwrittenLost` and `ConfigExamples.MisfitIgnored`.
- Finding every enumerated leaf: `ConfigQuery.FindEnumerated`, failing in `ConfigDocument.EmptyKeyUnreachable`.
- Diff reporting a list write: `ConfigTree.ListWriteSeen`, failing in `ConfigTree.ListChangeUnseen`.
- Loading as the overlay of all files: `ConfigSetup.LoadedLeaves`, failing in `ConfigExamples.ListOverwrittenThrows`. Merging
  as an overlay of scalar leaves: `ConfigMerge.MergeScalarLeaves`, and of paths: `ConfigMerge.MergeKeepsPaths`.
- Loading without an exception: `ConfigSuccess.LoadSucceeds`.
- The last request reaching the device: `ConveyorSystem.RequestLost`, failing in `ConveyorSystem.StopLost`. The reset flag
  staying clear: `ConveyorSystem.ResetAtWrap`.
- Agreement of the two managers: `ThreadManager.StepAgrees`, failing in `ThreadManager.StartFailureSeparates`.
- Faithful copies of exceptions: `MessageList.CopyIsFaithful`.

## Model

| member | source | states |
|---|---|---|
| `ConfigPath.StrSplit` | src/libs/utils/misc/string_split.h:34-61 | the splitting loop yields exactly the non-empty items between slashes, in order |
| `ConfigPath.SplitLaws` | src/libs/utils/misc/string_split.h:34-61 | the laws that determine splitting: a slash separates, a text without one is one item, an empty item does not count |
| `ConfigPath.SplitText` | src/libs/config/yaml_node.h:764-776 | the text under which a leaf is enumerated splits back into the path of the leaf |
| `ConfigPath.TextInjective` | src/libs/config/yaml_node.h:764-776 | two paths of slash-free components never share a text, so no enumerated leaf hides another |
| `KeyOrder.SortKeys` | src/libs/config/yaml_node.h:764-776 | the child map is visited in strictly ascending key order, every key once |
| `KeyOrder.LessMeans` | src/libs/config/yaml_node.h:764-776 | the order of the child map is lexicographic: the first difference decides, a proper prefix comes first |
| `ConfigTree.GrowIsGrown` | src/libs/config/yaml_node.h:277-292 | inserting component by component equals one closed form: all prefixes exist, new nodes are empty, a node becomes a map exactly when it gets its first missing child on the way |
| `ConfigTree.InferMeans` | src/libs/config/yaml_node.h:683-703 | the type of a text on a node that holds no list: an unsigned number that is no int throws, then the first of int, float, bool and string that it converts to |
| `ConfigTree.InferOverList` | src/libs/config/yaml_node.h:683-703 | on a node with a list the first element decides, and an unsigned number throws |
| `ConfigTree.SetValueNodes` | src/libs/config/yaml_node.h:547-556 | a scalar write node by node: the written node takes the text and keeps its list, its type follows from what it held, missing nodes on the way are empty maps, a node with its first child becomes a map, nothing else changes |
| `ConfigTree.SetListNodes` | src/libs/config/yaml_node.h:564-579 | likewise for a list write, which keeps the text |
| `ConfigTree.SetValueLeafMap` | src/libs/config/yaml_node.h:547-556 | set_value changes the leaf map at the path only and removes leaves that were proper prefixes of it; it is refused exactly on a node with children and then inserts nothing |
| `ConfigTree.SetListLeafMap` | src/libs/config/yaml_node.h:564-579 | the same for set_list, with the list stored |
| `ConfigTree.PruneUpIsPrune` | src/libs/config/yaml_node.h:319-333 | walking up the stack and dropping emptied nodes removes exactly the nodes below which only the erased path hung |
| `ConfigTree.EraseLeafMap` | src/libs/config/yaml_node.h:294-333 | erase succeeds exactly on an existing childless node, takes exactly that path from the leaf map and leaves no emptied ancestor as a new leaf; when it throws nothing changes |
| `ConfigTree.EraseNodes` | src/libs/config/yaml_node.h:294-333 | what erasing answers, and node by node what it leaves: the root, and unchanged every node that is not on the way or has something else below it |
| `ConfigTree.EraseAfterSet` | src/libs/config/yaml_node.h:294-333 | erase after set_value succeeds, and restores the leaf map exactly when neither the path nor a prefix of it was a leaf before |
| `ConfigTree.ChangedSymmetric` | src/libs/config/yaml_node.h:399-448 | the set of changed paths is symmetric in the two trees |
| `ConfigTree.ChangedBySet` | src/libs/config/yaml_node.h:399-448 | after one write the written path is reported exactly when the node was not already as written, and otherwise exactly the leaves that were prefixes of the path |
| `ConfigTree.SetValueOutcome` | src/libs/config/yaml_node.h:547-556 | which of the three answers set_value gives, told from the old tree and the text alone, and exactly when it leaves the tree as it is |
| `ConfigTree.ListWriteSeen` | src/libs/config/yaml_node.h:399-448 | a list write is reported at its path exactly when the path held no list before |
| `ConfigTree.ListChangeUnseen` | src/libs/config/yaml_node.h:399-407 | two concrete trees whose leaf maps differ in a list and between which nothing is reported |
| `ConfigNode.Node.FindOrInsert` | src/libs/config/yaml_node.h:277-292 | on the heap: walks and inserts in place, returns the node at the path, keeps the representation, uses only old and new objects |
| `ConfigNode.Node.Find` | src/libs/config/yaml_node.h:255-275 | returns the node at the path, or reports the shortest missing prefix |
| `ConfigNode.Node.SetScalar` | src/libs/config/yaml_node.h:683-713 | writes the text first and infers the type while the old type is still set; the text stays when inference throws |
| `ConfigNode.Node.SetValue` | src/libs/config/yaml_node.h:547-556 | the heap operation refines the one on the value of the tree, outcome included |
| `ConfigNode.Node.SetList` | src/libs/config/yaml_node.h:564-579 | likewise for lists |
| `ConfigNode.Node.Erase` | src/libs/config/yaml_node.h:294-333 | the heap operation with its queue and stack refines erasing from the value, and allocates nothing |
| `ConfigQuery.EnumLeafs` | src/libs/config/yaml_node.h:764-776 | adds every childless node below the start under prefix plus relative text, each once and nothing else |
| `ConfigQuery.Leafs` | src/libs/config/yaml.cpp:1324-1330 | the enumeration of a whole tree is in bijection with its leaves and yields the very nodes |
| `ConfigQuery.Search` | src/libs/config/yaml.cpp:1332-1348 | a search, its slashes at the end cut, lists the leaves below the node found, and nothing when there is no such node |
| `ConfigQuery.SearchKeyIsText` | src/libs/config/yaml.cpp:1332-1348 | a key of the result is the path text of its leaf exactly when the prefix was given in canonical form |
| `ConfigQuery.SearchFilters` | src/libs/config/yaml.cpp:1332-1348 | the result of a search on the text of an addressable path, with or without a slash at its end, is all leaves of the tree filtered by component-wise proper prefix, each under its own path text |
| `ConfigQuery.FindEnumerated` | src/libs/config/yaml_node.h:255-275 | looking up the key of an enumerated leaf finds that very node exactly when every component of its path is non-empty |
| `ConfigQuery.Diff` | src/libs/config/yaml_node.h:418-448 | lists the text of every changed leaf, each once, and nothing else |
| `ConfigMerge.MergeExtends` | src/libs/config/yaml_node.h:368-397 | a merge never touches a node that is no scalar, never loses a path and never turns a scalar into anything else, even when it throws halfway |
| `ConfigMerge.MergeIsOverlay` | src/libs/config/yaml_node.h:368-397 | a merge of an argument without nodes called "root" below its root, whose scalars with children lie over non-scalars, succeeds exactly when no scalar meets a node that is no scalar and every number laid over a scalar, or over nothing, fits an int, and then yields the overlay of the two trees |
| `ConfigMerge.MergeScalarLeaves` | src/libs/config/yaml_node.h:368-397 | for any two trees, the receiver sound: a merge succeeds, takes over every path and gives the right-biased union of the scalar leaf maps exactly when no node of the argument below its root is called "root", a common path is a scalar in both trees or in neither (scalars with children apart, which must lie over a node that is no scalar), and every number laid over a scalar, or over nothing, fits an int |
| `ConfigMerge.MergeKeepsPaths` | src/libs/config/yaml_node.h:368-397 | a successful merge takes over every path exactly when no node of the argument below its root is called "root" and its scalars with children lie over nodes that are no scalars |
| `ConfigMerge.MergeNodes` | src/libs/config/yaml_node.h:368-397 | a successful merge node by node, lists and types included: what the receiver keeps, what a scalar of the argument overwrites, and what is copied |
| `ConfigMerge.RootIsTransparent` | src/libs/config/yaml_node.h:368-397 | a node called "root" is looked through: merging a tree is merging it with every component "root" left out of its paths |
| `ConfigMerge.ArrivedSettles` | src/libs/config/yaml_node.h:368-397 | a path that the merge dropped below a scalar stays out of every tree that grows out of the merge |
| `ConfigMerge.MergeSound` | src/libs/config/yaml_node.h:368-397 | a merge keeps the tree shape and the rule that only leaves are scalars, whatever the argument |
| `ConfigMerge.MergeTree` | src/libs/config/yaml_node.h:368-397 | on the heap: the receiver becomes the merge, the argument is unchanged, the two share no object afterwards |
| `ConfigMerge.DeleteTree` | src/libs/config/yaml_node.h:226-232 | deleting the argument after the merge frees each of its nodes once and none of the receiver |
| `ConfigDocument.ReadEntriesPlants` | src/libs/config/yaml.cpp:754-816 | reading a clean document into any node plants exactly the flattened items there, at every level of nesting |
| `ConfigDocument.DocumentLeafMap` | src/libs/config/yaml.cpp:754-869 | a clean document with mixed slash keys and nested maps is read exactly when all its scalars convert and pass their tag checks, and gives the leaf map of the flattened document |
| `ConfigDocument.DocumentRead` | src/libs/config/yaml.cpp:754-869 | when a clean document is read, every value in it, at every level, sits at its path: a sequence with all its items, a scalar with its text and a scalar type, null as an empty node, a mapping as a map |
| `ConfigDocument.DocumentLeavesSaid` | src/libs/config/yaml.cpp:754-869 | and every leaf of the tree is such a value |
| `ConfigDocument.KeyPathMeans` | src/libs/config/yaml.cpp:770-784 | a key is split at its slashes; any other key, the empty one included, is one component |
| `ConfigDocument.ScalarChecked` | src/libs/config/yaml.cpp:818-869 | which scalars are refused, and with which exception: ports outside 1 to 65534, urls and frames of another form, numbers above INT_MAX |
| `ConfigDocument.ExistingKeyOverwrites` | src/libs/config/yaml.cpp:786-803 | an entry whose key resolves to an existing node: when it is refused, that its mapping or sequence is lost, that the node takes the text or the empty one, and exactly when a node with children becomes a scalar |
| `ConfigDocument.EmptyKeyUnreachable` | src/libs/config/yaml.cpp:754-816 | a document with an empty key, read without complaint, whose leaf is enumerated under a text that does not lead back to it |
| `ConfigDocument.ReadDocIsTree` | src/libs/config/yaml.cpp:754-816 | whatever the document, the result is a tree |
| `ConfigDocument.ReadInto` | src/libs/config/yaml.cpp:754-816 | the recursive reader changes the heap nodes as the function on values says |
| `ConfigLoad.ReadMetaDoc` | src/libs/config/yaml.cpp:663-751 | the include loop appends the entries of all includes in order, sorted within a directory, and settles the host file or the exception |
| `ConfigLoad.RoundsDecrease` | src/libs/config/yaml.cpp:554-576 | every round uses up one unit of the unfolded include tree, so the loop ends for acyclic includes although it keeps no visited set |
| `ConfigLoad.QueueIsFold` | src/libs/config/yaml.cpp:554-576 | the queue loop is the left fold over the entries in the order they are visited, stopping at the first exception |
| `ConfigLoad.VisitedByLevels` | src/libs/config/yaml.cpp:554-576 | files are read level by level of include depth, in queue order |
| `ConfigFiles.FileQueued` | src/libs/config/yaml.cpp:744-746 | an included file is queued under its full path with its mark |
| `ConfigFiles.DirectoryQueued` | src/libs/config/yaml.cpp:699-742 | an included directory is queued first, then every file in it once, in ascending order, all with the mark of the include |
| `ConfigFiles.NothingQueued` | src/libs/config/yaml.cpp:677-746 | exactly which includes queue nothing |
| `ConfigFiles.HostAfterMeans` | src/libs/config/yaml.cpp:677-746 | the includes of a file are taken exactly when each is available and at most one, none when a host file is known, is host-specific; that one is the host file then |
| `ConfigFiles.HostFileNamed` | src/libs/config/yaml.cpp:546-576 | a loaded configuration has a host file exactly when a file that was read names one, and it is that one |
| `ConfigFiles.HostDocumentRead` | src/libs/config/yaml.cpp:578-590 | the host tree is what the document of the host file reads to; it is merged last, and the file is the last one to be watched |
| `ConfigFiles.NoHostDocument` | src/libs/config/yaml.cpp:578-593 | without such a document the host tree is empty and the effective tree as it was |
| `ConfigFiles.LoadedFiles` | src/libs/config/yaml.cpp:546-594 | every queued file could be read or may be missing; the files and directories to watch are those with a document, in queue order, then the host file |
| `ConfigFiles.TreesOfDocuments` | src/libs/config/yaml.cpp:481-543 | the trees laid over each other are what the documents of these files read to, one by one |
| `ConfigSuccess.LoadSucceeds` | src/libs/config/yaml.cpp:546-594 | loading succeeds exactly when every queued file can be read or may be missing, the includes of all files together can be taken and name at most one host file, every document reads, the trees merge, and the host file reads, includes no other and merges |
| `ConfigSuccess.IncludeFails` | src/libs/config/yaml.cpp:682-716 | which exception the first include that cannot be taken raises |
| `ConfigSuccess.FileFails` | src/libs/config/yaml.cpp:481-543 | which exception a file raises, and exactly when the host file is refused for including others |
| `ConfigSetup.QueueReady` | src/libs/config/yaml.cpp:554-576 | the tree being loaded always keeps its shape, scalar leaves and the absence of inner nodes called "root" |
| `ConfigSetup.LoadListMerges` | src/libs/config/yaml.cpp:554-576 | what the queue has read is the merge of all contributed trees in order |
| `ConfigOverlay.MergeAllLeaves` | src/libs/config/yaml_node.h:368-397 | merging any number of trees succeeds, takes over every path and gives the overlay of their scalar leaves exactly when no two of them disagree about which common paths are scalar leaves, none has a node called "root" below its root, every number fits an int, and every scalar with children lies over a node of an earlier tree |
| `ConfigSetup.LoadedLeaves` | src/libs/config/yaml.cpp:546-594 | a loaded configuration holds every path of all files, and its scalar leaves are those of the files laid over each other in queue order with the host document on top, exactly when the files meet the condition for merging many trees |
| `ConfigSetup.HostMergeCovered` | src/libs/config/yaml.cpp:579-593 | a host document that merges leaves the two trees consistent exactly when it has no node called "root", each of its scalar leaves lies over a scalar, over nothing, or over a childless node with its text, and each of its scalars with children lies over a node that is no scalar |
| `ConfigSetup.LoadedConsistent` | src/libs/config/yaml.cpp:546-594 | the same for the whole of loading, for any files; without a host document the trees always agree |
| `ConfigSetup.CleanHostDocument` | src/libs/config/yaml.cpp:579-593 | a host file with one clean document has no scalar with children, so that only the fit of its leaves and names matters |
| `ConfigSetup.LoadAndRun` | src/libs/config/yaml.cpp:546-594 | when the host document meets this condition: from loading through any calm sequence of writes and erasures every scalar leaf of the host tree is a leaf of the effective tree with the same text |
| `ConfigExamples.OverwrittenLost` | src/libs/config/yaml.cpp:786-803 | the host document `a/b: y`, `a: x` is read and merged without an exception, and its leaf is missing from the effective tree |
| `ConfigExamples.MisfitIgnored` | src/libs/config/yaml_node.h:368-397 | the host document `a: 1` over `a: {b: 1}` is merged without an exception and without effect |
| `ConfigExamples.ListOverwrittenThrows` | src/libs/config/yaml_node.h:683-713 | a document in which a number above INT_MAX overwrites a list is read without an exception and throws when it is merged |
| `Configuration.SetIsAtomic` | src/libs/config/yaml.cpp:1118-1163 | a scalar write is refused exactly when the path has children in the effective tree or inference throws in one of the trees, told from the trees and the text; a refusal for children changes nothing, and exactly which of the others leave something changed behind |
| `Configuration.SetKeepsCovered` | src/libs/config/yaml.cpp:1118-1163 | a scalar write keeps the trees consistent exactly when it does not throw inside the effective tree or nothing in the host tree disagrees with what it wrote |
| `Configuration.ListKeepsCovered` | src/libs/config/yaml.cpp:1165-1211 | a list write keeps the trees consistent and is taken by both or by none |
| `Configuration.EraseKeepsCovered` | src/libs/config/yaml.cpp:1223-1229 | erasing keeps the trees consistent; it fails halfway exactly when the path is a leaf of the host tree and has children in the effective tree, and otherwise takes exactly that leaf from both |
| `Configuration.EraseOfScalar` | src/libs/config/yaml.cpp:1223-1229 | erasing a scalar of the host tree never fails halfway |
| `Configuration.AnswerMeans` | src/libs/config/yaml.cpp:1118-1229 | a command that is not refused is stored exactly when a host file is known, and no command changes which one that is |
| `Configuration.BothTake` | src/libs/config/yaml.cpp:1118-1211 | a write that is not refused puts the text, or the list, into both trees, where other leaves stay unless the path goes through them, and the configuration then reads it |
| `Configuration.RunKeepsConsistent` | src/libs/config/yaml.cpp:1118-1229 | over every run the trees are consistent after each command exactly when no write throws in the middle against the host tree |
| `Configuration.SafeRun` | src/libs/config/yaml.cpp:1118-1229 | no such write occurs when every written text that converts to unsigned int converts to int and no written path held a list of numbers, before the run or from an earlier command of it |
| `Configuration.SafeRunIsAtomic` | src/libs/config/yaml.cpp:1118-1229 | in such a run, for both trees, every scalar write is all-or-nothing: refused only for children in the effective tree, and then changing neither tree |
| `Configuration.GetAfterSet` | src/libs/config/yaml.cpp:927-936 | a written value is read back, and another leaf reads as before exactly when the new path does not go through it |
| `Configuration.GetTells` | src/libs/config/yaml.cpp:927-936 | why a value cannot be read: the first missing part of the path, longer paths below it, or a list; otherwise it is the text of the leaf |
| `Configuration.HostWins` | src/libs/config/yaml.cpp:927-936 | a scalar of the host tree is what the configuration reads, unless a list sits there |
| `Configuration.LargeUnsignedBreaks` | src/libs/config/yaml.cpp:1126-1132 | a concrete state in which writing an unsigned value above INT_MAX leaves the trees in disagreement |
| `Configuration.HalfErased` | src/libs/config/yaml.cpp:1223-1229 | a host document that loads over a configuration, after which an erasure fails with the host tree changed |
| `Configuration.HostAloneThrows` | src/libs/config/yaml_node.h:683-713 | a host document that loads over a configuration, after which writing a plain text is refused by the host tree alone, with both trees changed |
| `YamlConfiguration.YamlConfiguration.ReadYamlConfig` | src/libs/config/yaml.cpp:546-594 | the queue loop with in-place merging and deleting ends and yields the two trees, the host file and the lists of files and directories of the loading function |
| `YamlConfiguration.YamlConfiguration.ReadHost` | src/libs/config/yaml.cpp:579-593 | the host document: read, refused when it includes files, merged last |
| `YamlConfiguration.YamlConfiguration.GetString` | src/libs/config/yaml.cpp:927-936 | reading a value from the effective tree, or the reason there is none |
| `YamlConfiguration.YamlConfiguration.SetScalar` | src/libs/config/yaml.cpp:1118-1163 | the paired in-place writes are one step of the two-tree state, exception paths included |
| `YamlConfiguration.YamlConfiguration.SetList` | src/libs/config/yaml.cpp:1165-1211 | likewise for lists |
| `YamlConfiguration.YamlConfiguration.Erase` | src/libs/config/yaml.cpp:1223-1229 | likewise for erasing, host tree first |
| `ConveyorBelt.TriggeredConveyorBeltThread.ReceiveAndBufferConveyorStatusMsg` | rockin/plugins/triggered_conveyor_belt/triggered_conveyor_belt_thread.cpp:255-290 | one status, or none: cycle, flags, buffered status and the three-second rule, with the unsigned counter compared as int32 |
| `ConveyorBelt.TriggeredConveyorBeltThread.SetConveyorBeltRunMode` | rockin/plugins/triggered_conveyor_belt/triggered_conveyor_belt_thread.cpp:216-253 | rate limit, command contents, and a time stamp only when sending did not throw |
| `ConveyorBelt.TriggeredConveyorBeltThread.Loop` | rockin/plugins/triggered_conveyor_belt/triggered_conveyor_belt_thread.cpp:149-167 | one round of the thread: receive, then send if a command or a reset is pending |
| `ConveyorBelt.LimitsAreExact` | rockin/plugins/triggered_conveyor_belt/triggered_conveyor_belt_thread.cpp:221-224 | truncation to milliseconds and seconds does not move the limits of one and three seconds |
| `ConveyorBelt.RunLaws` | rockin/plugins/triggered_conveyor_belt/triggered_conveyor_belt_thread.cpp:149-278 | over every run: accepted acknowledgements are numbered 1, 2, 3 and so on, every command carries one plus the number accepted, sends are at least a second apart, the early return is never taken |
| `ConveyorBelt.SendsApart` | rockin/plugins/triggered_conveyor_belt/triggered_conveyor_belt_thread.cpp:216-253 | on a clock that does not go back any two sends in a row are stamped at least a second apart |
| `ConveyorBelt.RunExplained` | rockin/plugins/triggered_conveyor_belt/triggered_conveyor_belt_thread.cpp:149-278 | over every run all fields of the thread follow from the events: the last request, the acknowledgements, whether a reset is due, the last status unless three seconds passed without one |
| `ConveyorBelt.SendsExplained` | rockin/plugins/triggered_conveyor_belt/triggered_conveyor_belt_thread.cpp:216-253 | when a command goes out and what it says: one more than the acknowledgements, the mode asked for last, whether a reset is due |
| `ConveyorBelt.WireNumber` | rockin/plugins/triggered_conveyor_belt/triggered_conveyor_belt_thread.cpp:226-230 | a number on the wire is the 32-bit two's complement reading of the counter |
| `ConveyorBelt.TriggeredConveyorBeltThread.ClipsStartBelt` | rockin/plugins/triggered_conveyor_belt/triggered_conveyor_belt_thread.cpp:202-207 | asks for START and marks a command to be sent |
| `ConveyorBelt.TriggeredConveyorBeltThread.ClipsStopBelt` | rockin/plugins/triggered_conveyor_belt/triggered_conveyor_belt_thread.cpp:209-214 | asks for STOP and marks a command to be sent |
| `ConveyorSystem.Handshake` | rockin/plugins/triggered_conveyor_belt/triggered_conveyor_belt_thread.cpp:149-278 | with any loss, duplication and reordering after a steady state, old commands with the reset flag included: the device is at most one cycle ahead, no cycle number is executed twice, the reset flag stays clear until the numbers run out |
| `ConveyorSystem.HandshakeFromPowerOn` | rockin/plugins/triggered_conveyor_belt/triggered_conveyor_belt_thread.cpp:36-44 | the same from the constructed thread and a device at cycle 0 on: the reset flag is clear from the first acknowledgement until the numbers run out |
| `ConveyorSystem.SteadyReached` | rockin/plugins/triggered_conveyor_belt/triggered_conveyor_belt_thread.cpp:149-167 | the opening exchange with its reset command leads to a steady state |
| `ConveyorSystem.ResetAtWrap` | rockin/plugins/triggered_conveyor_belt/triggered_conveyor_belt_thread.cpp:268-276 | a repeated status raises the reset flag exactly at the largest int32 number |
| `ConveyorSystem.WantsLastAsked` | rockin/plugins/triggered_conveyor_belt/triggered_conveyor_belt_thread.cpp:202-214 | after any run the thread wants the mode that was asked for last |
| `ConveyorSystem.RequestLost` | rockin/plugins/triggered_conveyor_belt/triggered_conveyor_belt_thread.cpp:202-214 | after any run the handshake can complete without the mode asked for last exactly when another mode was adopted or is still on the way under the open number |
| `ConveyorSystem.PatientRunAgrees` | rockin/plugins/triggered_conveyor_belt/triggered_conveyor_belt_thread.cpp:202-214 | when every request waits for the one before, the device is in the mode of the last request of the run whenever nothing is pending |
| `ConveyorSystem.StopLost` | rockin/plugins/triggered_conveyor_belt/triggered_conveyor_belt_thread.cpp:202-214 | an explicit run from any steady state, its requests START and then STOP: the stop comes between adoption and acknowledgement of the start and is lost, the device keeps running and nothing is pending |
| `ConveyorSystem.RoundCompletes` | rockin/plugins/triggered_conveyor_belt/triggered_conveyor_belt_thread.cpp:149-278 | one exchange without loss completes the handshake and says in which mode the device then runs |
| `ConveyorSystem.RequestServed` | rockin/plugins/triggered_conveyor_belt/triggered_conveyor_belt_thread.cpp:149-278 | from any steady state one request, with which nothing is lost, takes effect in the mode asked for |
| `AspectManager.Manager.Init` | src/libs/aspect/manager.cpp:98-137 | the two loops and the rollback refine the initialisation function, calls and their order included |
| `AspectManager.Manager.Finalize` | src/libs/aspect/manager.cpp:140-162 | the same for finalising |
| `AspectManager.Manager.PrepareFinalize` | src/libs/aspect/manager.cpp:165-186 | the same for preparing, stopping at the first refusal |
| `AspectManager.Manager.UnregisterInifin` | src/libs/aspect/manager.cpp:71-84 | refused for an unknown aspect and while threads are alive, otherwise both entries go |
| `AspectManager.FailedInitRollsBack` | src/libs/aspect/manager.cpp:98-137 | a failed initialisation leaves the registry unchanged and finalizes exactly the aspects initialised before, in reverse order, unless the exception is a foreign one or a finalizer throws as well |
| `AspectManager.UndoIsReversed` | src/libs/aspect/manager.cpp:122-126 | the rollback is a prefix of the reversed list, and all of it exactly when no finalizer but the last one called throws |
| `AspectManager.InitEnlists` | src/libs/aspect/manager.cpp:98-137 | initialisation succeeds exactly when every aspect has an initializer and none throws; the thread is then alive under all its aspects and nothing else changes |
| `AspectManager.FinalizeDelists` | src/libs/aspect/manager.cpp:140-162 | finalisation succeeds exactly when every aspect has a finalizer and none throws; the thread is then alive under none of them, and a failure changes no list |
| `AspectManager.FinalizeStopsAt` | src/libs/aspect/manager.cpp:140-162 | finalising calls the finalizers in the order of the aspects up to the first that is unknown or throws, and the answer tells which |
| `AspectManager.PrepareStopsAt` | src/libs/aspect/manager.cpp:165-186 | preparing asks the finalizers in order up to the first that is unknown, refuses or throws, answers accordingly and changes neither registry |
| `AspectManager.RegistrationAnswers` | src/libs/aspect/manager.cpp:58-217 | an initializer leaves only while nothing is alive under its aspect and takes nothing else with it; a new one replaces none; the default ones come once |
| `AspectManager.EnlistLast` | src/libs/aspect/manager.cpp:119-121 | a thread goes to the end of the list of each of its aspects |
| `AspectManager.ReachableBacked` | src/libs/aspect/manager.cpp:58-186 | in every reachable state an aspect with live threads has an initializer, so finalising or preparing a registered thread never reports an unknown aspect |
| `ThreadManager.ThreadManager.Add` | src/libs/baseapp/thread_manager.cpp:191-239 | initialise, init, clean up after a failed init, start, enlist, with every exception path |
| `ThreadManager.ThreadManager.Remove` | src/libs/baseapp/thread_manager.cpp:316-342 | prepare, finalise the aspects, finalise the thread, delist |
| `ThreadManager.ThreadManager.ForceRemove` | src/libs/baseapp/thread_manager.cpp:409-424 | the same without asking |
| `ThreadManager.AddAnswers` | src/libs/baseapp/thread_manager.cpp:191-239 | adding answers Done, and enlists the thread, exactly when its aspects initialise, its init works and it starts; what every other case answers |
| `ThreadManager.RemoveAnswers` | src/libs/baseapp/thread_manager.cpp:316-424 | what removing and forced removal answer, and that only Done takes the thread out |
| `ThreadManager.StepAgrees` | src/libs/baseapp/thread_manager.cpp:191-424 | one operation keeps the two managers in agreement exactly when none of the listed failures happens in it |
| `ThreadManager.ThreadsAgree` | src/libs/baseapp/thread_manager.cpp:191-424 | over any sequence of operations without such a failure a thread with aspects is managed exactly when it is alive under every one of them, its finalizers are known and its initializers cannot be unregistered |
| `ThreadManager.RunAgrees` | src/libs/baseapp/thread_manager.cpp:191-424 | the managers agree after every operation of a run exactly when none of these failures happens in it |
| `ThreadManager.ForceCanFail` | src/libs/baseapp/thread_manager.cpp:409-424 | force_remove takes the thread out exactly when neither an aspect finalizer nor Thread::finalize throws |
| `ThreadManager.StartFailureSeparates` | src/libs/baseapp/thread_manager.cpp:237-238 | a concrete case: a thread whose start fails stays alive under its aspect without being managed |
| `MessageList.Exception.AppendNolock` | src/libs/core/exception.cpp:391-506 | appends one message at the tail; the list stays acyclic with the tail pointer at its last node |
| `MessageList.Exception.Prepend` | src/libs/core/exception.cpp:428-450 | puts one message in front, and keeps the tail pointer |
| `MessageList.Exception.CopyMessages` | src/libs/core/exception.cpp:532-547 | appends what printf makes of the messages of another exception, which stays unchanged and shares no node |
| `MessageList.Exception.Assign` | src/libs/core/exception.cpp:518-525 | assignment appends to the messages that are there |
| `MessageList.Exception.Destroy` | src/libs/core/exception.cpp:269-282 | the destructor loop ends and frees every node of the list once |
| `MessageList.Exception.Trace` | src/libs/core/exception.cpp:618-636 | walking the list from the head visits all messages in order |
| `MessageList.FormattedIsSame` | src/libs/core/exception.cpp:391-399 | a message used as a format without arguments stays the same exactly when it holds no percent sign |
| `MessageList.FormattedUndoesDoubling` | src/libs/core/exception.cpp:391-399 | formatting takes back the doubling of percent signs and succeeds, without arguments, for nothing else |
| `MessageList.CopyIsFaithful` | src/libs/core/exception.cpp:532-547 | copying keeps all messages when none holds a percent sign, and among messages whose percent signs are doubled only then |
| `MessageList.Replay` | src/libs/core/exception.cpp:376-547 | under any mix of append, prepend and copying between different exceptions each keeps a well-formed list of its own with the expected messages |
| `MessageList.LastAction` | src/libs/core/exception.cpp:376-547 | what the last action of a run does to each exception: one message at the end or in front, or the copies of another exception's messages at the end |
| `MessageList.PlainRun` | src/libs/core/exception.cpp:376-547 | among messages without percent signs the result of any such mix does not depend on printf: every copy is faithful |
| `SpsComm.SPSComm.PlcIndex` | src/libs/llsf_sps/sps_comm.cpp:469-481 | the controller and the local index of a machine, for any number of controllers |
| `SpsComm.SPSComm.SetLight` | src/libs/llsf_sps/sps_comm.cpp:256-291 | which error, or exactly one register write; the later bounds test cannot fail |
| `SpsComm.SetLightChangesOne` | src/libs/llsf_sps/sps_comm.cpp:256-291 | setting a light changes exactly this light over all machines and no RFID window |
| `SpsComm.ResetsAreSeparate` | src/libs/llsf_sps/sps_comm.cpp:235-249 | resetting lights and resetting RFID registers each clear their own registers of the controllers reached and nothing else |
| `SpsComm.LightRegister` | src/libs/llsf_sps/sps_comm.cpp:256-291 | register by register: setting a light writes 0, 0x100 or 0x200 to register 3 m + light of the controller of the machine, and no other register |
| `SpsComm.WindowRegisters` | src/libs/llsf_sps/sps_comm.cpp:402-411 | the windows of the RFID writers are the three registers from 48 + 3 m on |
| `SpsComm.ResetRegisters` | src/libs/llsf_sps/sps_comm.cpp:235-249 | resetting lights clears registers 0 to 47, resetting RFID the others, of the controllers reached |
| `SpsComm.SPSComm.TestLights` | src/libs/llsf_sps/sps_comm.cpp:181-231 | the light test stops at the first exchange that is not answered; it succeeds after 243 exchanges per controller, with every light on, and never touches an RFID window |
| `SpsComm.SPSComm.ReadRfid` | src/libs/llsf_sps/sps_comm.cpp:311-330 | the puck under one reader |
| `SpsComm.SPSComm.ReadRfids` | src/libs/llsf_sps/sps_comm.cpp:338-362 | entry m is what reading machine m alone gives, 0xFFFFFFFF without a puck |
| `SpsComm.NoPuckAmbiguous` | src/libs/llsf_sps/sps_comm.cpp:338-362 | an entry is 0xFFFFFFFF exactly when there is no puck or a puck with that id |
| `SpsComm.PuckRegisters` | src/libs/llsf_sps/sps_comm.cpp:311-362 | the digit 0x100 of the first register tells whether there is a puck, the other two are the high and the low word of its id |
| `SpsComm.PollGoesOn` | src/libs/llsf_sps/sps_comm.cpp:414-428 | polling goes on while the controller answers and the digit 0x200 of the status register is zero |
| `SpsComm.SPSComm.WriteRfid` | src/libs/llsf_sps/sps_comm.cpp:391-436 | offer, polling and taking back: the windows written in order, the number of polls, every failure, and the state while the writer has not reported yet |
| `SpsComm.WriteWindowChangesOne` | src/libs/llsf_sps/sps_comm.cpp:402-411 | writing one RFID window changes this window only and reaches no light |
| `SpsComm.IdRoundTrip` | src/libs/llsf_sps/sps_comm.cpp:402-407 | splitting an id into two registers and recombining is the identity, both ways |
| `LogCache.CacheLogger.PushMessage` | src/libs/logging/cache.cpp:125-163 | one message: level filter, formatting failure, front insertion, dropping the oldest |
| `LogCache.CacheLogger.PushException` | src/libs/logging/cache.cpp:165-197 | the loop over the messages of an exception, cut to size once |
| `LogCache.CacheLogger.SetSize` | src/libs/logging/cache.cpp:97-106 | shortens the list only when it is too long |
| `LogCache.CacheLogger.SetLoglevel` | src/libs/logging/logger.cpp:243-247 | the level filter can change between any two messages |
| `LogCache.CacheIsPrefix` | src/libs/logging/cache.cpp:74-197 | over every run the cache is a prefix of the newest-first history since the last clear, its counter is its length, the limit holds |
| `LogCache.HistoryAfter` | src/libs/logging/cache.cpp:125-197 | what each event does to the history: a message goes in front unless it cannot be formatted or its level is below the log level, those of an exception marked and last one first |
| `LogCache.LastChangeCounts` | src/libs/logging/cache.cpp:97-106 | the size and the log level are those set last |
| `LogCache.Survives` | src/libs/logging/cache.cpp:74-197 | a message is still cached exactly when at every moment since it came fewer newer messages than the size of that moment had arrived |
| `LogCache.ConstantSize` | src/libs/logging/cache.cpp:125-197 | while the size never changes the cache is as much of the history as fits |
| `LogCache.ExceptionIsOneByOne` | src/libs/logging/cache.cpp:165-197 | pushing an exception equals pushing its messages one at a time |

## Left out

- Parsing and emitting of YAML text, file access, file alteration monitoring and the reload it triggers: documents and
  files are given.
- The number, boolean, URL and frame conversions themselves, and the printing of numbers as text.
- Sequences whose items are not scalars, default values (`is_default`), comments, and the typed getters after the text was
  found.
- What is left in memory when loading throws: the half-built tree that the exception leaves behind has no contract.
- ConfigDocument.DocumentLeafMap: for documents in which a key resolves to an existing node or a leaf path is a prefix of
  another; what happens to such an entry is `ConfigDocument.ExistingKeyOverwrites` and the reader itself.
- ConveyorSystem.Handshake: a device that does something else on a reset command than adopting it by its number; a device
  that starts at another cycle than the thread and has to be resynchronised; a device at the largest int32 cycle adopts
  nothing.
- ConveyorBelt.RunLaws: a status message that fails to parse halfway through has no effect in the model.
- The camera side of the conveyor belt thread, logging and facts asserted in CLIPS.
- Thread lists and the list versions of add, remove and force_remove; cancelling and joining threads; a thread manager
  without initializer or finalizer.
- MessageList.Exception.CopyMessages: which text printf makes of a message with directives other than the doubled percent
  sign, and copying an exception into itself, where the code waits for its own lock.
- The reference to the message list that `get_messages` of the logging cache hands out, and the additional unlock in
  `tlog_push_message`.
- Mutexes: every locked operation is one step.
- LogCache.CacheLogger.PushMessage: the time is a number; its rendering as text is not modelled.
- SpsComm.SPSComm.WriteRfid: how long the source polls a writer that never reports completion; the model describes the
  state after any given number of polls.
- The light and state names of the field controllers, connecting and reconnecting.
- User interfaces, command line tools, the other loggers, plugin loading and simulation threads: no invariants beyond
  those of a single member.
