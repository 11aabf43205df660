# RIOT leader election: topology generator and protocol thread

This project models the two core parts of a RIOT-OS leader-election
experiment:

* **The network topology generator** (`mac_topology_gen.py`). From a topology
  kind (ring, line, binary tree, grid), a size or grid dimensions and a
  direction flag, it writes a desvirt XML file and a cleanup script.
  * The XML file holds a `<node>` line per node and a `<link>` line per link.
  * The cleanup script deletes the network's interfaces.
  * `existingLinks` records the ordered pairs of every link written, so that
    a link can be suppressed when its pair is already there.

  `TopologyGen.Generator` is a class whose fields are the lists the script
  mutates: nodes and links written, `existingLinks`, `treeNodes` and the
  cleanup lines. The script's functions and its node, link and cleanup
  loops are methods of it. The network name and description, the direction
  flag and the fixed XML text are `TopologySpec` functions (`NetworkName`,
  `Description`, `UniOf`, `XmlHeader`, `XmlDocument`). `TopologyGen.Run`
  puts the name, the description and the XML text together with the
  methods' output, and the link block takes its direction flag from `UniOf`. The methods are proved to
  write what the functions of `TopologySpec` describe, and `TopologyProps`
  proves what those outputs satisfy.

* **The protocol thread** (`protocols.c`). It keeps a 20-slot neighbour table,
  answers `nd_ack:<id>` (neighbour discovery), `le_ack:NNN:<id>` (a
  neighbour's election value) and `le_m?:` (a query for the current minimum),
  and runs two phase machines: discovery (`stateND`) and election
  (`stateLE`).
  * `LeMessages` models the C library calls on character buffers (strncpy,
    strncmp, atoi, the `%03d`-style padding) and the `le_ack` layout.
  * `LeState` models one iteration of the main loop as a function on the
    thread's variables, and proves the invariant the loop keeps.
  * `LeThread.ProtocolThread` is the thread as an object. The neighbour
    table, `neighborsVal`, `msg_content`, `ipv6` and `neighborM` are arrays
    updated in place. The handler, phase and iteration methods
    (`AcceptNeighbor`, `HandleNdAck`, `StoreNeighborValue`, `AcceptValue`,
    `HandleLeAck`, `HandleLeQuery`, `NeighborDiscovery`, `LeaderElection`,
    `React`, `Step`) are proved equal, on the object's variables, to the
    `LeState` function for the same part of the loop. The helpers they call
    state their effect directly: on a buffer, through a `LeMessages`
    function, or on the fields they assign, with everything else unchanged.

The clock is an input: every method that reads it takes `now`. The random
draw of `m` is an input too, and `LeState.DrawM` states the range
`random_uint32() % 254 + 1` gives.

The generator writes what the script writes, including the three defects
of its grid and tree blocks listed under "## Findings". The evidently
intended grid and tree links are defined beside the as-written ones
(`IntendedGridLinks`, `IntendedTreeLinks`), and their properties are proved
there; the methods of `TopologyGen.Generator` do not use them.

## Model

| member | source | states |
|---|---|---|
| TopologyGen.Generator.constructor | mac_topology_gen.py:148 | a fresh run has written nothing and all lists are empty |
| TopologyGen.Generator.AddNode | mac_topology_gen.py:22-24 | one `<node>` entry with the given name is appended |
| TopologyGen.Generator.AddNeighbor | mac_topology_gen.py:26-31 | the link is appended; `(from,to)` is appended to existingLinks, then `(to,from)` exactly when the link is bidirectional; earlier entries are unchanged, so existingLinks stays equal to the pairs of the links written |
| TopologyGen.Generator.GenerateNodes | mac_topology_gen.py:33-58 | the nodes written are TopologyNodes for the topology; for a tree, treeNodes receives the non-root ids in emission order |
| TopologyGen.Generator.GenerateGridNodes | mac_topology_gen.py:35-39 | the grid branch writes the rows×cols letter ids in row-major order |
| TopologyGen.Generator.GenerateGridRow | mac_topology_gen.py:37-39 | the inner loop writes `chr(97+x)+str(y)` for y in 0..cols-1 |
| TopologyGen.Generator.GenerateNumberNodes | mac_topology_gen.py:40-42 | ring and line write "0" .. str(size-1) in order |
| TopologyGen.Generator.GenerateTreeNodes | mac_topology_gen.py:43-57 | the tree branch writes "root", then the first size-1 level-order ids, and records them in treeNodes |
| TopologyGen.Generator.GenerateTreeLevel | mac_topology_gen.py:48-55 | one level: positions are written while count < size; the count and the number written agree, and the loop stops early only when count reaches size |
| TopologyGen.Generator.AssignGridNeighbors | mac_topology_gen.py:60-86 | the links written are GridLinks: one link (r,y)→(r,y+1) per cell, row-major; existingLinks matches them |
| TopologyGen.Generator.AssignGridRow | mac_topology_gen.py:63-85 | one row of cells appends that row's right links |
| TopologyGen.Generator.GridCellNeighbors | mac_topology_gen.py:65-85 | for one cell, only the right link is written: the above/below guards never hold, and the left pair is already recorded as the reverse of the previous right link |
| TopologyGen.Generator.RingNeighbors | mac_topology_gen.py:158-165 | the links written are RingLinks, with no duplicate check; existingLinks matches them |
| TopologyGen.Generator.LineNeighbors | mac_topology_gen.py:189-195 | the links written are LineLinks; existingLinks matches them |
| TopologyGen.Generator.RootNeighbors | mac_topology_gen.py:170-173 | root→a1 iff size ≥ 2, root→a2 iff size ≥ 3, with no membership check |
| TopologyGen.Generator.TreeNeighbors | mac_topology_gen.py:166-188 | the tree block writes the root links, then the child links of the first size-1 non-root nodes (TreeLinks); existingLinks matches them |
| TopologyGen.Generator.TreeParentLoop | mac_topology_gen.py:174-188 | the level loop appends the child links of every non-root node, stopping when the count reaches size |
| TopologyGen.Generator.TreeLevelNeighbors | mac_topology_gen.py:176-186 | one level of parents appends their child links; it stops early only when the count reaches size |
| TopologyGen.Generator.ParentNeighbors | mac_topology_gen.py:177-183 | a parent gets a link to each of its two children that is in treeNodes, left first |
| TopologyGen.Generator.AssignNeighbors | mac_topology_gen.py:156-195 | the link block of the chosen topology writes TopologyLinks, with uni derived from --d (mac_topology_gen.py:103-106); existingLinks matches them |
| TopologyGen.Generator.WriteCleanup | mac_topology_gen.py:208-234 | the cleanup script is CleanupScript over the same node enumeration as generateNodes |
| TopologyGen.Generator.CleanupGrid | mac_topology_gen.py:212-216 | one deletion line per grid node, row-major |
| TopologyGen.Generator.CleanupGridRow | mac_topology_gen.py:214-216 | one deletion line per node of row x |
| TopologyGen.Generator.CleanupNumbers | mac_topology_gen.py:217-219 | one deletion line per ring or line node |
| TopologyGen.Generator.CleanupTree | mac_topology_gen.py:220-233 | one deletion line for root, then one per non-root tree node in level order |
| TopologyGen.Generator.CleanupTreeLevel | mac_topology_gen.py:224-231 | one level of deletion lines, with the same count logic as generateNodes |
| TopologyGen.Run | mac_topology_gen.py:103-234 | a run fails (math domain error) exactly for a tree with size < 0; otherwise it returns the XML file and the cleanup script that Expected describes |
| TopologyGen.Generate | mac_topology_gen.py:147-234 | a fresh generator writes TopologyNodes, TopologyLinks and the cleanup script over the same nodes |
| TopologyGen.TreeNodesDone | mac_topology_gen.py:47-57 | when the level loop stops, the ids written are exactly the first size-1 non-root ids |
| TopologyGen.ParentLoopExit | mac_topology_gen.py:175-188 | when the parent loop stops, the links written are the child links of all non-root nodes |
| TopologyGen.LeftPairRecorded | mac_topology_gen.py:82-85 | the pair (x,y)→(x,y-1) is already in existingLinks when cell (x,y) is reached |
| TopologyGen.NonRootMembers | mac_topology_gen.py:180-183 | `ident in treeNodes` holds exactly for positions whose level-order index is below size-1 |
| TopologySpec.Log2Floor | mac_topology_gen.py:44 | depth k satisfies 2^k ≤ size+1 < 2^(k+1) |
| TopologySpec.LinkPairs | mac_topology_gen.py:28-30 | a link contributes its pair, and the reverse pair when bidirectional |
| TopologySpec.GridIdsAt | mac_topology_gen.py:35-39 | grid node r*cols+c is `chr(97+r)+str(c)` |
| TopologySpec.ChildLinksAt | mac_topology_gen.py:177-183 | child link j goes from the parent of node j+2 to node j+2 |
| TopologyIds.LetterIdInjective | mac_topology_gen.py:38 | letter ids are equal only when letter and number are |
| TopologyIds.TreeIdAtLevel | mac_topology_gen.py:47-49 | position y of level L is non-root node 2^(L+1)-2+y, named `chr(97+L)+str(y)` |
| TopologyIds.NonRootMember | mac_topology_gen.py:180-183 | an id is in treeNodes iff its level-order index is below the non-root count |
| TopologyIds.FullLevelsIds | mac_topology_gen.py:47-55 | full levels then y positions of the next are the first non-root ids |
| TopologyIds.RowPairsExclude | mac_topology_gen.py:72-75 | a right-link pair is not yet recorded when its cell is reached |
| TopologyIds.GridPairsExclude | mac_topology_gen.py:72-75 | no earlier row recorded the right-link pair of (x,y) |
| TopologyProps.NumberIdsAt | mac_topology_gen.py:40-42 | ring/line node x is str(x) |
| TopologyProps.GridIdsRowMajor | mac_topology_gen.py:35-39 | grid node i is cell (i / cols, i % cols) and its letter lies in 'a'..'z' (rows ≤ 26, mac_topology_gen.py:12) |
| TopologyProps.TreeIdsShape | mac_topology_gen.py:43-57 | a tree has exactly size nodes (only root for size ≤ 1), root first, then a0, a1, b0 |
| TopologyProps.NodesDistinct | mac_topology_gen.py:33-58 | generateNodes never writes a name twice |
| TopologyProps.TreeIdAtInjective | mac_topology_gen.py:47-49 | distinct level-order indices name distinct tree nodes |
| TopologyProps.RingLinksAt | mac_topology_gen.py:158-165 | a ring has exactly size links, the x-th from x to (x+1) mod size; size 1 gives the self-loop 0→0 |
| TopologyProps.LineLinksAt | mac_topology_gen.py:189-195 | a line has size-1 links, the x-th from x to x+1 |
| TopologyProps.UniFlag | mac_topology_gen.py:156-195 | every link has uni="true" exactly when --d is uni and the topology is not a grid; grid links are always "false" |
| TopologyProps.GridLinksCell | mac_topology_gen.py:63-75 | grid link i is the right link of some cell, row-major |
| TopologyProps.GridNoVerticalLinks | mac_topology_gen.py:67-80 | as written, no grid link joins two different rows |
| TopologyProps.GridDanglingLink | mac_topology_gen.py:72-75 | as written, each row links its last node to `chr(97+r)+str(cols)`, which is not a node |
| TopologyProps.GridLinksNoRepeat | mac_topology_gen.py:69-85 | no grid link repeats the pair, or the reverse pair, of an earlier one |
| TopologyProps.IntendedRowMember | mac_topology_gen.py:64-85 | a link is in a row's intended links iff it is the link of one of its cells |
| TopologyProps.IntendedGridMember | mac_topology_gen.py:63-85 | a link is in the intended grid iff it is the link of one of its cells |
| TopologyProps.IntendedGridAdjacency | mac_topology_gen.py:60-86 | with the guards testing for real neighbours, the links join exactly the horizontally or vertically adjacent grid nodes, from the left or upper node |
| TopologyProps.IntendedGridNoRepeat | mac_topology_gen.py:60-86 | with the guards testing for real neighbours, no two links have the same pair, and none is the reverse of another |
| TopologyProps.IntendedCellAdjacent | mac_topology_gen.py:65-80 | a cell's intended link goes to its right or lower neighbour |
| TopologyProps.IntendedGridEndpoints | mac_topology_gen.py:60-86 | every intended grid link joins two grid nodes |
| TopologyProps.A2NeverNode | mac_topology_gen.py:47-49 | "a2" is never a tree node |
| TopologyProps.NoLinkToA0 | mac_topology_gen.py:170-188 | no tree link ends at "a0" |
| TopologyProps.TreeRootLinksAsWritten | mac_topology_gen.py:170-173 | as written, root→a2 is written for size ≥ 3 although a2 is no node, and a0 is a node that no link reaches |
| TopologyProps.IntendedTreeLinkAt | mac_topology_gen.py:170-188 | with root→a0, root→a1, link i goes from the parent of non-root node i to that node |
| TopologyProps.ParentInTree | mac_topology_gen.py:43-57 | the parent of every non-root node is a tree node |
| TopologyProps.IntendedTreeParentLinks | mac_topology_gen.py:166-188 | the corrected tree has exactly one link into each non-root node, from its parent, both ends being tree nodes |
| TopologyProps.CleanupFollowsNodes | mac_topology_gen.py:211-234 | the cleanup script deletes the network first, then `<name>_<id>` for each node in node order, then undefines the topology |
| TopologyProps.XmlLayout | mac_topology_gen.py:135-203 | the XML file is the 11 header lines, one node line per node in order, 2 lines, one link line per link in order, then 3 closing lines |
| TopologyProps.PrefixedNumberUnique | mac_topology_gen.py:114-127 | a prefix followed by str(n) determines n |
| TopologyProps.DirectedNameUnique | mac_topology_gen.py:113-125 | uni-/bi- names determine the direction and the size |
| TopologyProps.GridNameUnique | mac_topology_gen.py:110 | a grid's name determines its rows and columns |
| TopologyProps.NetworkNameDetermines | mac_topology_gen.py:108-129 | the network name, and with it both file names, determines the parameters it is built from |
| Decimal.NatToString | mac_topology_gen.py:42 | str(n) is a non-empty digit string, one character exactly below 10 |
| Decimal.IntToString | mac_topology_gen.py:110-128 | str(i) of a negative number is '-' and the digits of -i |
| Decimal.NatToStringValue | mac_topology_gen.py:42 | the digits of str(n) denote n |
| Decimal.IntToStringInjective | mac_topology_gen.py:110-128 | str is injective on integers |
| Decimal.NatToStringLength | protocols.c:209-215 | str(n) has k digits iff n < 10^k and either k = 1 or 10^(k-1) ≤ n |
| LeThread.Memset | protocols.c:45 | the first b characters become NUL, the rest is unchanged |
| LeThread.StrNCpy | protocols.c:46 | the first b characters become src up to its NUL, cut to b, then NULs; the rest is unchanged |
| LeThread.Substr | protocols.c:43-47 | substr leaves in t[0..b) the strncpy of s from offset a; the rest of t is unchanged |
| LeMessages.CStr | protocols.c:182 | the string a buffer holds is its prefix before the first NUL |
| LeMessages.NCopy | protocols.c:46 | strncpy output is src's string cut to b, padded with NULs to b |
| LeMessages.NCopyAt | protocols.c:46 | character j of strncpy is src's while its string lasts, then NUL |
| LeMessages.NCopyString | protocols.c:43-47 | the string substr leaves is the source string cut to b characters |
| LeMessages.SpacesEnd | protocols.c:200 | atoi skips exactly the leading white space |
| LeMessages.LeadingDigits | protocols.c:200 | atoi reads the longest run of digits |
| LeMessages.FormatMDigits | protocols.c:209-215 | every value 1..999 is written as exactly three digits whose value is the number |
| LeMessages.AtoiFormatM | protocols.c:197-200 | atoi reads back the three-digit rendering |
| LeMessages.MessageBufferOf | protocols.c:133-163 | a string message lands in msg_content as its characters followed by NULs |
| LeMessages.LeAckRoundTrip | protocols.c:197-218 | `"le_ack:"+NNN+":"+id` parses back at offsets 7 and 11 to the value and the id cut to 46 characters |
| LeMessages.IndexOf | protocols.c:56-61 | the least slot holding id, or -1 exactly when none does |
| LeState.Sub64 | protocols.c:264 | uint64 subtraction wraps around below zero |
| LeState.Add64 | protocols.c:248 | uint64 addition wraps around at 2^64 |
| LeState.DrawM | protocols.c:106 | m = r % 254 + 1 lies in 1..254 |
| LeState.InitialInv | protocols.c:87-126 | the initial variables satisfy the loop invariant, with an empty table and min = m |
| LeState.SlotsHold | protocols.c:49-54 | with a free slot, the 20 slots hold id iff the table does or id is "" (an empty id matches a free slot) |
| LeState.NdAckRecords | protocols.c:179-194 | nd_ack is bounded and deduplicating: a known or empty id changes nothing; a new one is appended, the count rises by one, it is greeted, and the first numNeighbors slots stay distinct |
| LeState.AddNeighborInv | protocols.c:183-191 | recording an id no slot holds keeps the table's shape and appends it |
| LeState.StoreValueInv | protocols.c:202-207 | storing a positive value keeps every stored value at or above min |
| LeState.LeAckMinimum | protocols.c:195-222 | le_ack: a non-positive value changes nothing; min never increases; it drops exactly when a sender in the table (one of the first numNeighbors slots) announces a smaller value, and then the sender becomes leader and the new pair is sent; otherwise leader and outbox stay |
| LeState.StoreValueCounts | protocols.c:202 | countedMs rises by one exactly when a slot's value goes from 0 to non-zero, and otherwise stays |
| LeState.LeAckUnknownSender | protocols.c:199-203 | an le_ack from a sender in no slot passes the value guard while getNeighborIndex answers -1; the model's handler ignores it |
| LeState.LeAckWritesSenderSlot | protocols.c:199-203 | the model's le_ack handler ignores a sender that is not in the table, and otherwise writes only the used slot that holds the sender |
| LeState.LeAckEmptySender | protocols.c:199-203 | an le_ack with an empty sender passes the value guard while getNeighborIndex answers the first free slot; the model's handler ignores it |
| LeState.TableIndex | protocols.c:56-61 | getNeighborIndex answers one of the first numNeighbors slots exactly for the ids in the table |
| LeState.LeQueryAnnounces | protocols.c:223-238 | le_m? sends the current pair in the format an le_ack reader parses back |
| LeState.DiscoveryPhases | protocols.c:241-277 | discovery moves idle→0→1→0: it starts when due, sends nd_init in phase 0, leaves phase 1 once the last answer is more than 8 s old, and goes idle then only if numNeighbors > 0 |
| LeState.ElectionPhases | protocols.c:279-326 | election goes 0→1 (sends le_init, countedMs reset), 1→2 when all counted or after 8 s of silence, then 2→0 setting hasElectedLeader and quit |
| LeState.HandleKeepsInv | protocols.c:178-239 | each string handler keeps the invariant, never raises min, and only extends the table and the outbox |
| LeState.ReactKeepsInv | protocols.c:174-326 | the rest of an iteration keeps the invariant and never ends the loop |
| LeState.StepKeepsInv | protocols.c:130-329 | an iteration keeps the invariant, continues the loop exactly when quit was not already set, never raises min, only extends table and outbox, and answers a leader query with the leader |
| LeThread.ProtocolThread.constructor | protocols.c:87-126 | the object starts in the initial state, with buffers of the C sizes |
| LeThread.ProtocolThread.AlreadyANeighbor | protocols.c:49-54 | 1 iff one of the 20 slots, used or not, holds id, else 0 |
| LeThread.ProtocolThread.GetNeighborIndex | protocols.c:56-61 | the least slot holding id, or -1 |
| LeThread.ProtocolThread.PrintMin | protocols.c:209-215 | neighborM holds min as three zero-padded digits and a NUL |
| LeThread.ProtocolThread.SendMinimum | protocols.c:208-219 | `le_ack:NNN:<leader>` is appended to the outbox |
| LeThread.ProtocolThread.ReadAddress | protocols.c:181 | the id is the string at the offset of msg_content, cut to 46 characters |
| LeThread.ProtocolThread.ReadValue | protocols.c:197-200 | the value is atoi of the three characters at offset 7 |
| LeThread.ProtocolThread.RecordNeighbor | protocols.c:183-191 | id goes to slot numNeighbors, the count rises by one, nd_hello:<id> is sent, lastND is now |
| LeThread.ProtocolThread.AcceptNeighbor | protocols.c:182-192 | the object's new state is NdAckFrom of the old one, and the invariant holds |
| LeThread.ProtocolThread.HandleNdAck | protocols.c:179-194 | the nd_ack handler's new state is NdAck of the old one on msg_content |
| LeThread.ProtocolThread.CountValue | protocols.c:202-203 | the slot gets v; countedMs rises exactly when it held 0 |
| LeThread.ProtocolThread.TakeMinimum | protocols.c:204-221 | the sender becomes leader, min becomes v, and the new pair is sent |
| LeThread.ProtocolThread.StoreNeighborValue | protocols.c:202-222 | the new state is StoreValue of the old one |
| LeThread.ProtocolThread.AcceptValue | protocols.c:199-222 | the new state and the go flag are LeAckFrom of the old state |
| LeThread.ProtocolThread.HandleLeAck | protocols.c:195-222 | the le_ack handler's new state and go flag are LeAck of the old state on msg_content |
| LeThread.ProtocolThread.HandleLeQuery | protocols.c:223-238 | the le_m? handler's new state is LeQuery of the old one |
| LeThread.ProtocolThread.StartDiscovery | protocols.c:250-255 | discovery starts at now and is counted; nothing else changes |
| LeThread.ProtocolThread.PingNeighbors | protocols.c:259-262 | nd_init is sent and the phase becomes 1; nothing else changes |
| LeThread.ProtocolThread.EndDiscovery | protocols.c:263-271 | the phase returns to 0, and discovery stops at now only if some neighbour is known |
| LeThread.ProtocolThread.NeighborDiscovery | protocols.c:241-277 | the new state is Discovery of the old one, and the invariant holds |
| LeThread.ProtocolThread.StartElection | protocols.c:283-288 | election starts at now, may not start again, and records its start second |
| LeThread.ProtocolThread.PingElection | protocols.c:293-297 | le_init is sent, the phase becomes 1 and countedMs 0 |
| LeThread.ProtocolThread.CloseElection | protocols.c:299-304 | the phase becomes 2 at now |
| LeThread.ProtocolThread.FinishElection | protocols.c:305-319 | the leader is elected, countedMs and the phase are reset, and quit is set |
| LeThread.ProtocolThread.RecordLeader | protocols.c:314-316 | running stops, the leader is elected, countedMs is 0 |
| LeThread.ProtocolThread.ResetElection | protocols.c:317-319 | the phase is 0 at now and quit is set |
| LeThread.ProtocolThread.LeaderElection | protocols.c:279-326 | the new state and the looping flag are Election of the old state, and the invariant holds |
| LeThread.ProtocolThread.React | protocols.c:174-326 | the rest of an iteration (handlers, then both phases) is LeState.React of the old state |
| LeThread.ProtocolThread.RecordServer | protocols.c:137-142 | the UDP server's pid is recorded; nothing else changes |
| LeThread.ProtocolThread.RecordAddress | protocols.c:144-151 | the own address becomes myIPv6 and leader, and election is allowed |
| LeThread.ProtocolThread.ReceiveText | protocols.c:160-164 | msg_content holds the strncpy of the message over len+1 characters, then NULs |
| LeThread.ProtocolThread.Step | protocols.c:130-329 | one iteration of the main loop is LeState.Step of the old state: the intake cases, the reply to a leader query and the looping flag |

## Left out

- File I/O, `os.chmod` and `print` (mac_topology_gen.py:132, :205, :209, :236-241): the XML file and the cleanup script are modelled as sequences of lines.
- Argument parsing (mac_topology_gen.py:11-19, :89-97): the parsed values are inputs, and the `--r` choices give the precondition 1 ≤ rows ≤ 26.
- `int(math.log(size + 1, 2))` (mac_topology_gen.py:44, :168, :221) is modelled as the exact floor of log2(size + 1). Floating-point rounding is not modelled.
- TopologySpec.TreeSizeOk: tree sizes so large that a level letter `chr(97+x-2)` would reach the surrogate block are excluded.
- TopologyGen.Run: for a tree with a negative size, Python stops with a math domain error after the XML header has been written. The model returns the error and does not model the partly written file.
- The existingLinks lists of the ring, line and tree blocks are written but never consulted. For every block, the model proves that existingLinks stays the pairs of the links written.
- Thread creation (`leader_election`), `msg_init_queue`, `msg_try_receive`, `ipc_msg_send` and `ipc_msg_reply` (protocols.c:66-86, :134, :157, :189, :219, :236, :260, :294). A received message is an input, and a sent one is appended to the `sent` outbox. The reply to a leader query is returned.
- `xtimer_usleep` and the clock reads (protocols.c:174, :328 and the `xtimer_now_usec64` calls): every iteration takes one clock reading `now`.
- `random_init`/`random_uint32` (protocols.c:105-106): m is an input. The comment at :106 says "1 to 255", but the code gives 1..254, and the model follows the code.
- `calloc`/`free` and the final reporting loop (protocols.c:99-102, :331-349).
- `printf`/`puts`, and the end time and convergence time that are only printed (protocols.c:307-313).
- LeThread.ProtocolThread.RecordAddress: strncpy of the own address into the 46-character myIPv6 (protocols.c:147) overflows for an address of 46 characters or more. The model stores the whole string.
- LeThread.ProtocolThread.ReadAddress: an identifier of 46 characters or more fills ipv6 without a terminating NUL, and the C code then reads past the buffer. The model cuts the identifier at 46 characters.
- LeState.LeAck: when the sender is in none of the first numNeighbors slots, the model ends the iteration as for a non-positive value. For a sender in no slot the code indexes neighborsVal[-1]; for an empty sender it stores the value in the first free slot (see Findings).

## Findings

| source | as written | input that shows it | evidently intended | confidence | as-written member | corrected member |
|---|---|---|---|---|---|---|
| protocols.c:199-203 | the result of getNeighborIndex is used as an index without a check; only atoi(neighborM) > 0 is tested | an `le_ack:005:x` from an id x that no slot holds, while numNeighbors > 0: i == -1, and neighborsVal[-1] is read and written | an le_ack from an unknown sender is ignored | not executed | LeState.LeAckUnknownSender | LeState.LeAckWritesSenderSlot |
| protocols.c:199-203 | getNeighborIndex also matches the empty id against the zeroed identifier of a free slot | an `le_ack:005:` with an empty id, while 0 < numNeighbors < 20: the index is numNeighbors, so the value is stored and counted in a free slot, and "" can become the leader | an le_ack with an empty sender is ignored, as nd_ack ignores an empty id | not executed | LeState.LeAckEmptySender | LeState.LeAckWritesSenderSlot |
| mac_topology_gen.py:67-77 | the "above" and "below" guards compare the row index with 97 (`x-1 >= 97`, `x+1 >= 97`), not the letter code `97+x` | any grid with rows ≥ 2, e.g. `--t grid --r 2 --c 1`: x ≤ 25, so neither guard holds and no link joins two rows | vertical links between rows x and x+1 | not executed | TopologyProps.GridNoVerticalLinks | TopologyProps.IntendedGridAdjacency |
| mac_topology_gen.py:72 | the "right" guard is `y+1 <= cols` | any grid, e.g. `--t grid --r 1 --c 1`: cell a0 is linked to a1, which is not a node | a right link only when y + 1 < cols | not executed | TopologyProps.GridDanglingLink | TopologyProps.IntendedGridEndpoints |
| mac_topology_gen.py:170-173 | the root is linked to a1 and a2, while the first level is a0, a1 | `--t binary-tree --s 3`: the nodes are root, a0, a1; root→a2 is written and a0 gets no link | root→a0 and root→a1 | not executed | TopologyProps.TreeRootLinksAsWritten | TopologyProps.IntendedTreeParentLinks |
