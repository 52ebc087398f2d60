# NanoRedis, modelled and proved

NanoRedis is a small Redis: a server that keeps a map from strings to strings behind a hash map with
progressive resizing, a sorted set built from an AVL tree and the same hash map over shared nodes, a
length-prefixed protocol spoken over non-blocking sockets, and a command-line client. This project
models those cores in Dafny in their own imperative form and proves them against plain values: a
sequence for a tree, a finite map for each container, the commands of a byte stream for a connection.

Run `dafny verify dfyconfig.toml` to check everything.

## The files

- `Options`, `ByteStrings`, `Bits`, `LittleEndian`: optional values, byte strings and their order, `str_hash`, masks and powers of two, integer fields.
- `AvlShape`, `AvlTree`: the tree as a value with a zipper for a position in it, and `src/avl_tree.cpp`
  on heap nodes with parent pointers. `Climb` and `Delete` say on values what `avl_fix` and `avl_del` do; the
  methods build exactly that tree, and the lemmas show what it means: order, balance, heights, counts.
- `HashTable`, `HashMap`, `HashMapRuns`: `src/hashtable.cpp`. An `HNode **from` is a `Slot`, a bucket or the `next` field of a node.
- `SortedSet`, `SortedSetRuns`: `src/zset.cpp`, two indexes over the same nodes.
- `Wire`, `Request`: the response and the request format, both directions.
- `Stream`, `KeyValue`, `Sockets`, `Connection`, `Server`: `src/server_utils.cpp` and the turns of the event loop. `Exchange` is
  one executed command with the map it found; the ghost fields `executed` and `history` collect them.
- `EndToEnd`: client and server together.
- `AsWritten`: the places where the text of the source fails its purpose.

`read` and `write` are methods of `Socket`. Each takes its outcome from a script (EINTR, EAGAIN, failure, up to n
bytes), and all results hold for every script, so for every way to cut the streams. Where a result says how far a connection
gets, `WriteUp` and `ReadUp` compute it from the scripts; `Takes` and `Brings` are conditions on them that can be checked beforehand. The storage that a table, a tree
or the key space is made of is known by ghost sets of nodes; sharing of a node by two indexes is sharing of references.

## Where the code and its purpose differ

The model follows the purpose in these places. `AsWritten` follows the text and proves when the two agree.

- `src/avl_tree.cpp:86-90`: heights are unsigned and that of no tree is -1, so `lh - rh > 1` and `lh - rh < -1` wrap.
  They choose as meant exactly when the left side is higher by two or more, and `FaultsExactly` says when the rotation
  chosen follows a null pointer; every new leaf does. The model has signed heights with -1 for no tree, as the comment at line 220 has it
  (`include/avl_tree.h:93` says 0).
- `src/avl_tree.cpp:242`: for the same reason the height is right exactly when both children or neither exist.
- `src/hashtable.cpp:131-138`: the work is never counted and the bucket after an empty one is not looked at. A call
  drains the whole table or follows a null pointer, the second exactly when an empty bucket behind the cursor has a
  non-empty one behind it. The model advances or else moves one node and counts it, for any budget.
- `src/server_utils.cpp:398`: the length of an error message is that of the buffer. The client gets the message
  exactly when the message is five bytes longer than what was in the buffer before it, so it gets no error the server sends.
- `src/server_utils.cpp:384-389` and `src/client.cpp:164-176`: an integer is written with eight bytes and read with four.
  A value survives exactly when no integer is in it. The model reads eight.
- `src/server_utils.cpp:208`: the assertion says `<`. It fails exactly when the read may move as many bytes as there is room for
  and the peer has sent as many, as with a longest legal request in one piece. The model has `<=`.
- `src/zset.cpp:163`: `strcmp` stops at a NUL and names are not terminated. Even terminated names are put in an order,
  and in the right one, exactly if they differ before the first NUL. The model compares whole names.
- `src/zset.cpp:98`: a bare `return;` is read as returning NULL.

One fault is in the design and so is in the model: `state_res` reached from `connection_io` returns to `STATE_REQ`
without looking at the requests that are still in the read buffer. They wait for the next bytes, and if the peer
closes instead they are lost. `Connection.Conn.LastActivation` says exactly when, from what is in the buffer before the
end of the stream is read; `EndToEnd.SecondRequestLost` is a run of it for any two requests that fit the buffer.

## Model

| member | source | states |
|---|---|---|
| AvlShape.RebalanceInOrder | src/avl_tree.cpp:85-90 | the rotations of one node keep the in-order sequence and the set of nodes |
| AvlShape.RebalanceNear | src/avl_tree.cpp:128-203 | if one child of a balanced node is replaced by an AVL tree whose height is off by at most one, rebalancing the node gives an AVL tree whose height is again off by at most one |
| AvlShape.ClimbInOrder | src/avl_tree.cpp:75-97 | the climb to the root keeps the in-order sequence of the whole tree |
| AvlShape.ClimbBalanced | src/avl_tree.cpp:75-97 | if a position changed its height by at most one in an otherwise balanced tree, the climb restores balance everywhere |
| AvlTree.AvlUpdate | src/avl_tree.cpp:241-244 | with exact children, the node's height and count become exact; no other field is written |
| AvlTree.RotLeft | src/avl_tree.cpp:159-177 | the heap holds the left rotation with its parent links, heights and counts, under the old parent |
| AvlTree.RotRight | src/avl_tree.cpp:185-203 | the same for the right rotation |
| AvlTree.FixLeft | src/avl_tree.cpp:128-133 | single or double rotation as the inner grandchild demands, on the heap |
| AvlTree.FixRight | src/avl_tree.cpp:141-146 | its mirror image |
| AvlTree.AvlFix | src/avl_tree.cpp:75-97 | starting anywhere under ancestors with stale heights, the loop returns the parentless root of exactly the climbed tree, all links, heights and counts consistent; it ends because the ancestors run out |
| AvlTree.AvlDel | src/avl_tree.cpp:31-65 | returns the root of exactly the tree without the node, also when deleting the victim has rotated the node; the recursion is on a smaller subtree |
| AvlTree.Unlink | src/avl_tree.cpp:32-41 | a node without right child is replaced by its left child and the ancestors are fixed |
| AvlTree.TakePlace | src/avl_tree.cpp:48-63 | the victim receives the node's present links, and the children and the parent point to it |
| AvlTree.Smallest | src/avl_tree.cpp:44-45 | finds the leftmost node of a subtree |
| AvlShape.DeleteInOrder | src/avl_tree.cpp:31-65 | the in-order sequence after a deletion is the old one without exactly that node |
| AvlShape.DeleteNodes | src/avl_tree.cpp:31-65 | the nodes are the old ones without that node, each still in one place |
| AvlShape.DeleteBalanced | src/avl_tree.cpp:31-65 | deleting any node of an AVL tree leaves an AVL tree |
| AvlShape.DeleteIsRemoval | src/avl_tree.cpp:31-65 | the whole of it: the in-order sequence loses exactly the node at the position, the nodes too, and the tree stays AVL |
| AvlShape.SizeAtLeastFib | src/avl_tree.cpp:241-244 | an AVL tree of height h has at least Fib(h + 3) - 1 nodes |
| AvlShape.WalkIsShort | src/zset.cpp:135-144 | a walk down an AVL tree of n nodes has so few steps that Fib(steps + 2) and 2^(steps / 2) are at most n + 1 |
| AvlShape.DepthBounded | src/zset.cpp:135-144 | a position is no deeper than the height of the tree allows |
| Bits.InitAssertion | src/hashtable.cpp:8 | the assertion of `h_init` holds exactly for the powers of two |
| Bits.AndMask | src/hashtable.cpp:16 | masking with 2^k - 1 is the remainder modulo 2^k |
| HashTable.HTab.Init | src/hashtable.cpp:7-12 | a valid empty table of a power of two buckets |
| HashTable.HTab.Insert | src/hashtable.cpp:14-22 | the node becomes the head of the chain that its masked code selects, everything else keeps its place |
| HashTable.HTab.Lookup | src/hashtable.cpp:25-43 | the slot of a node with this code and key, or none exactly if the table has no such node |
| HashTable.HTab.Detach | src/hashtable.cpp:47-52 | exactly the node behind the slot leaves, the rest of its chain moves up |
| HashTable.HTab.Scan | src/hashtable.cpp:55-66 | the chains are visited one after another, so every node once, the early exit at size zero included |
| HashTable.HTab.EmptyIffZero | src/hashtable.cpp:56 | the size is zero exactly if no node is in the table |
| HashTable.HTab.SizeIsCount | src/hashtable.cpp:14-22 | the size field is the number of nodes |
| HashTable.FlatIsAll | src/hashtable.cpp:55-66 | the chains one after another contain every node of the table once |
| HashMap.HMap.CursorInBounds | src/hashtable.cpp:131-137 | while nodes remain in the old table, the cursor is on a bucket |
| HashMap.HMap.Rehashed | src/hashtable.cpp:117-138 | a node in old bucket i belongs in bucket i of the doubled table or in i plus the old number of buckets |
| HashMap.HMap.MoveHead | src/hashtable.cpp:136-137 | the head of the bucket at the cursor changes tables, into one of these two buckets |
| HashMap.HMap.Migrate | src/hashtable.cpp:129-138 | moves as many nodes as the budget allows or as there are; ends on nodes and buckets left; the map does not change |
| HashMap.HMap.HelpResizing | src/hashtable.cpp:129-144 | as Migrate, and the old table is released exactly when it is empty |
| HashMap.HMap.StartResizing | src/hashtable.cpp:117-122 | all nodes are in the old table, the new one is empty and twice as large, the cursor is at zero |
| HashMap.HMap.LoadFactor | src/hashtable.cpp:102-103 | the truncating division exceeds eight exactly from nine nodes a bucket on |
| HashMap.HMap.Insert | src/hashtable.cpp:94-109 | adds the node to the finite map, keeps every invariant and the load bound for any budget of at least one; starts with four buckets, and doubles them exactly when no resize is under way and nine nodes a bucket are reached |
| HashMap.HMap.Lookup | src/hashtable.cpp:146-152 | returns what the finite map has for the key, however far the migration is, and changes no entry; migrates exactly the budget or what is left |
| HashMap.HMap.Pop | src/hashtable.cpp:154-168 | removes exactly the key's node from whichever table has it and keeps the load bound without helping |
| HashMap.HMap.LoadBound | src/hashtable.cpp:94-109 | in every valid state both tables together have fewer than nine nodes per bucket of the new table, and the sizes add up to the number of keys |
| HashMap.HMap.Scan | src/server_utils.cpp:297-298 | scanning both tables meets the node of every key once |
| HashMap.HMap.Size | src/hashtable.cpp:78-83 | the number of keys |
| HashMapRuns.Run | src/hashtable.cpp:94-168 | any insertions of absent keys, lookups and pops from the empty map, with any hash function and any budgets, answer like a finite map and end within the load bound |
| SortedSet.ZLessTotal | src/zset.cpp:159-164 | the order is total on nodes of different names and antisymmetric |
| SortedSet.ZLessTransitive | src/zset.cpp:159-164 | the order is transitive |
| ByteStrings.LexLessMeans | src/zset.cpp:163 | one name is before another exactly if it is a proper prefix or has the smaller octet where they first differ |
| SortedSet.SortedAscends | src/zset.cpp:159-164 | sorted means from the least score up, and equal scores by name in that sense, stated on the indices of the sequence |
| SortedSet.ZSet.WalkListsMap | src/zset.cpp:36-112 | in every valid state the in-order walk lists every name of the map with its score, from the least score up |
| SortedSet.ZSet.FindSlot | src/zset.cpp:136-141 | the descent ends at an empty place with everything before it less and everything after it greater, under the node and on the side it reports |
| SortedSet.ZSet.TreeAdd | src/zset.cpp:135-145 | the node joins the tree, which stays sorted and balanced, in at most height + 1 rounds of the loop, logarithmic in the number of members |
| SortedSet.ZSet.TreeDel | src/zset.cpp:82 | the node leaves the tree, which stays sorted and balanced |
| SortedSet.ZSet.Lookup | src/zset.cpp:36-44 | finds exactly the node of that name, the shortcut at an empty tree included |
| SortedSet.ZSet.Update | src/zset.cpp:78-86 | the map gives the node's name the new score, the same node stays in both indexes |
| SortedSet.ZSet.Add | src/zset.cpp:55-68 | the map gives the name this score; true exactly if the name is new |
| SortedSet.ZSet.Pop | src/zset.cpp:97-112 | the name leaves the map and both indexes; its node with its score is returned, or NULL if there is none |
| SortedSetRuns.Run | src/zset.cpp:36-112 | any additions (an addition of a name that is there updates it), lookups and pops from an empty set answer like a finite map from names to scores, and the walk of the tree lists that map in ascending order; the tree stays sorted, balanced and equal to the hash index throughout |
| LittleEndian.FromLeLe | src/client.cpp:69 | an integer field is read back modulo its width |
| LittleEndian.LeFromLe | src/client.cpp:69 | and every field is the field of what is read from it |
| LittleEndian.ByteOfLe | src/client.cpp:69 | the byte at each place of an integer field: the least significant comes first |
| LittleEndian.FromSignedLeLe | src/server_utils.cpp:384-389 | signed integers that fit are read back |
| Wire.DecodeEncode | src/client.cpp:128-232 | any nested value followed by anything decodes to itself and uses exactly its encoding |
| Wire.EncodeDecode | src/client.cpp:128-232 | whatever decodes is the encoding of what was shown |
| Wire.DecodesExactly | src/client.cpp:128-232 | the two together: a prefix decodes to a value exactly if it is that value's encoding |
| Wire.Layout | src/server_utils.cpp:369-408 | the tag and every field of an encoding, by their positions |
| Wire.ElementAt | src/server_utils.cpp:294-299 | the elements of an array lie back to back in their order |
| Wire.NarrowClientDecodes | src/client.cpp:164-176 | a client that reads four bytes per integer gets a value exactly if it has no integer |
| Wire.OnResponse | src/client.cpp:128-232 | on arbitrary bytes returns -1 exactly if nothing decodes, else a count between 1 and the size, never reading outside |
| Wire.OutNil | src/server_utils.cpp:369-372 | appends the encoding of nil |
| Wire.OutStr | src/server_utils.cpp:374-382 | appends the encoding of a string |
| Wire.OutInt | src/server_utils.cpp:384-389 | appends the encoding of an integer |
| Wire.OutErr | src/server_utils.cpp:391-401 | appends the encoding of an error, its message length the message's |
| Wire.OutArr | src/server_utils.cpp:403-408 | with the encodings of n values behind it, it is the encoding of their array |
| Request.ParseReq | src/server_utils.cpp:260-283 | returns 0 with the list that the bytes parse to, or -1 exactly if they do not parse |
| Request.ParsesExactly | src/server_utils.cpp:260-283 | bytes parse to a list exactly if they are the client's encoding of it |
| Request.StringAt | src/client.cpp:66-79 | where in a request its number of strings, and the length and the bytes of each string are found |
| Request.SendReq | src/client.cpp:59-80 | sends exactly the frame of the command, or nothing and -1 exactly if the body is longer than the limit; the buffer suffices |
| Request.SizeOfStrings | src/client.cpp:60-63 | the computed length is that of the encoding |
| Stream.FrontOfFrame | src/server_utils.cpp:112-134 | what a client frames is seen as exactly that request at the front of the buffer |
| Stream.FrontIsFrame | src/server_utils.cpp:112-134 | and what is seen as a request is the frame of one that could have been sent |
| Stream.MalformedExactly | src/server_utils.cpp:116-134 | refused is exactly a length beyond the limit, or a whole body that is not the encoding of any list of strings |
| Stream.FrontOfPart | src/server_utils.cpp:112-126 | every proper part of a legal request is waited for, never refused |
| Stream.FrontStays | src/server_utils.cpp:112-126 | more bytes never change what a decided front is |
| Stream.CommandsOfRequests | src/server_utils.cpp:110-172 | frames one after another mean the requests they were made of, then whatever follows |
| Stream.LegalSoFar | src/server_utils.cpp:110-172 | however much of a stream of legal requests was read, what is left of it is only waited for |
| Stream.CommandsGrow | src/server_utils.cpp:174-213 | reading more only adds requests at the end |
| KeyValue.CmdIsLoosely | src/server_utils.cpp:285-287 | a command word is matched without regard to case, and only up to its first NUL |
| KeyValue.Words | src/server_utils.cpp:97-103 | which words, octet by octet, are get, set, del and keys |
| KeyValue.PlainMap | src/server_utils.cpp:96-108 | what each of the four commands, by the octets of its word, does to a plain map and answers; any other command changes nothing and gets the unknown-command error |
| KeyValue.StaysFitting | src/server_utils.cpp:321-336 | key and value of every stored pair leave 19 bytes of a longest request free, whatever command is carried out |
| KeyValue.ReplyFits | src/server_utils.cpp:141-150 | only the answer to keys can be replaced for its size |
| KeyValue.Database.DoGet | src/server_utils.cpp:304-318 | answers the map's value or nil, and the assertion on its size holds |
| KeyValue.Database.DoSet | src/server_utils.cpp:321-336 | the map gets the pair, by exchanging the value in place or by a new entry |
| KeyValue.Database.DoDel | src/server_utils.cpp:339-353 | the key leaves the map, the answer tells whether it was there |
| KeyValue.Database.DoKeys | src/server_utils.cpp:294-299 | announces as many strings as it emits, every key once |
| KeyValue.Database.DoRequest | src/server_utils.cpp:96-108 | any command changes and answers as a plain map from strings to strings would: the words get, set, del and keys, spelled out in octets of either case, read, write, erase and list, and everything else gets the unknown-command error |
| KeyValue.HistoryIsRun | src/server_utils.cpp:96-108 | the answer to every command of a history is that of the plain map made by the commands before it |
| Connection.Conn.WriteSome | src/server_utils.cpp:222-225 | ends with the first outcome that is not an interruption; what it reports is what the peer gets |
| Connection.Conn.TryFlushBuffer | src/server_utils.cpp:219-256 | after any partial write, what was written and what waits are still the responses in order; goes on, would block, has failed, or is back in STATE_REQ with an empty buffer, exactly as the calls end |
| Connection.Conn.StateRes | src/server_utils.cpp:215-217 | writes exactly as many bytes as the calls let out, and is then back in STATE_REQ if the response is out, in STATE_RES if a write would block, in STATE_END if one has failed |
| Connection.Conn.NextRequest | src/server_utils.cpp:111-134 | nothing for an incomplete front, STATE_END exactly for bytes with which no request begins, otherwise the request |
| Connection.Conn.Answer | src/server_utils.cpp:140-161 | packs exactly the framed response, removes exactly the request and balances both books |
| Connection.Conn.TryOneRequest | src/server_utils.cpp:110-172 | executes exactly the complete request at the front, if there is one, ends the connection at bytes with which no request begins, asks for more exactly if the response went out, and stops only with an incomplete front, a held-up response or an ended connection |
| Connection.Conn.SettledHasRoom | src/server_utils.cpp:180 | when no request can be taken from it, the read buffer is not full |
| Connection.Conn.Receive | src/server_utils.cpp:182-208 | the bytes read join the buffer; a read of zero bytes is the end of the stream, never a full buffer |
| Connection.Conn.Serve | src/server_utils.cpp:210-212 | after bytes have come every whole request is executed: what remains in STATE_REQ is a part of one |
| Connection.Conn.TryFillBuffer | src/server_utils.cpp:178-213 | makes one read and keeps all invariants; whenever bytes have come no complete request remains in STATE_REQ; for a peer that takes its responses it is one step of `ReadOnce` |
| Connection.Conn.StateReq | src/server_utils.cpp:174-176 | ends in STATE_REQ only when a read would block, and then, or at the end of the stream, with no complete request left if bytes have come; for a peer that takes its responses it reads exactly as far as `ReadUp` says |
| Connection.Conn.ConnectionIo | src/server_utils.cpp:86-94 | one activation keeps all invariants, lasts until the socket would block and takes what there is to read; from STATE_REQ no complete request is left behind when bytes have come, and for a peer that takes its responses it gets exactly as far as the reads allow; one that only finishes a response executes nothing |
| Connection.Conn.InOrder | src/server_utils.cpp:110-213 | in every reachable state the executed commands are the first ones of the stream, however it was cut |
| Connection.Conn.Leftover | src/server_utils.cpp:152-158 | when no whole request is in the buffer, the executed commands are exactly those of the bytes read, and the buffer holds what is behind them |
| Connection.Conn.AtEof | src/server_utils.cpp:196-204 | at the end of the stream everything was executed exactly if no complete request is left in the buffer |
| Connection.Conn.LastActivation | src/server_utils.cpp:86-94 | when the end of the stream is about to be read, everything sent has been executed exactly if no complete request is in the buffer |
| Connection.Conn.AtBadFrame | src/server_utils.cpp:117-134 | a connection closed for bad bytes has executed every request before them |
| Connection.SameStream | src/server_utils.cpp:110-213 | of two connections with the same stream, one has executed what the other has and perhaps more |
| Sockets.TakesOne | src/server_utils.cpp:215-256 | a peer that takes k responses of any length takes one, whatever its length, and then k - 1 |
| Sockets.EverythingArrives | src/server_utils.cpp:174-213 | legal requests are read to the last byte in the first turn, if they fit the buffer and the first read moves them, or if there are as many successful reads as bytes |
| EndToEnd.ClientReads | src/client.cpp:110-117 | the client decodes from every response exactly what a plain map answers, or for keys the too-big error exactly if the list has no room |
| EndToEnd.NeverBad | src/client.cpp:59-80 | what the client sends is never taken for something malformed |
| EndToEnd.SentIsExecuted | src/client.cpp:59-80 | the commands that were sent are executed in order, all of them if no response was held up before the end of the stream, and all of them with all responses written if everything was read and the peer takes them |
| EndToEnd.SecondRequestLost | src/server_utils.cpp:86-94 | two requests in one read with the first response held up once: the second is never executed |
| Server.EventLoop.AcceptNewConn | src/server_utils.cpp:48-84 | a new connection in STATE_REQ joins, the others are untouched |
| Server.EventLoop.Activate | src/server.cpp:79-80 | serving one connection until it would block keeps the invariants of all, logs only its commands, reads what there is and leaves no complete request behind when bytes have come; how far it has got after its turns is part of the invariant |
| Server.EventLoop.OneMap | src/server_utils.cpp:96-108 | all commands of all connections, in the order executed, have the answers of one plain map |
| Server.EventLoop.EachInOrder | src/server_utils.cpp:110-213 | each connection's share of them is the beginning of its own stream, answered in order |
| Server.EventLoop.ServedAsFar | src/server.cpp:73-88 | a peer that takes its responses has the answers to exactly the commands that its reads have brought in after its turns; any peer whose turns are as many as its calls has ended, or no longer sends, or no longer takes |
| Server.Run | src/server.cpp:61-89 | after any sequence of events with any read and write outcomes: one map, each stream executed from its beginning, and the bytes written a prefix of the framed responses; a peer that takes its responses has exactly the commands of the bytes that its turns could read executed and all answers; no peer is left alone while a call could do something for it |
| Server.ServesClient | src/server.cpp:61-89 | a client whose legal requests can be read and who takes its responses: once reported ready, all its commands are executed, in order, and all its responses written, whatever other clients do |
| AsWritten.TurnsAgree | src/avl_tree.cpp:86-90 | the unsigned balance test chooses as meant exactly if the left height is larger by two or more, and never leaves a node alone |
| AsWritten.HeightsAgree | src/avl_tree.cpp:242 | the unsigned maximum gives the right height exactly if both children exist or neither does |
| AsWritten.LeafIsTurned | src/avl_tree.cpp:86-90 | a leaf is sent to `avl_fix_right` |
| AsWritten.FaultsExactly | src/avl_tree.cpp:86-90 | with the recorded heights of children and grandchildren, the rotation chosen follows a null pointer exactly under the stated condition |
| AsWritten.NewLeafFaults | src/zset.cpp:142-144 | `avl_fix` follows a null pointer at every new leaf |
| AsWritten.DrainsExactly | src/hashtable.cpp:131-138 | the loop moves all nodes exactly if no empty bucket behind the cursor is followed by a non-empty one, and faults otherwise |
| AsWritten.GapFaults | src/hashtable.cpp:131-138 | nodes in buckets 0 and 2 make it fault |
| AsWritten.ErrAgrees | src/server_utils.cpp:391-401 | the client decodes the error exactly if its length is that of the output before it plus five |
| AsWritten.ErrorRefused | src/server_utils.cpp:391-401 | of an error written into an empty buffer the client decodes five bytes, which is all of it exactly if the message has five |
| AsWritten.UnknownRefused | src/server_utils.cpp:105-107 | so the client refuses the answer to every unknown command |
| AsWritten.DeletionRefused | src/client.cpp:111-115 | the client refuses the answer to every del |
| AsWritten.AssertionAfterRead | src/server_utils.cpp:182-208 | the assertion is reached exactly if bytes come, and then holds exactly unless the read can and does fill the room that is left |
| AsWritten.LongestRequest | src/server_utils.cpp:207-208 | a longest legal request in one read fills the buffer to the last byte |
| AsWritten.Ordered | src/zset.cpp:163 | names are put in an order exactly if they differ before their first NUL; exactly these pairs and equal names are treated as meant |
| AsWritten.TwoNamesTie | src/zset.cpp:163 | two different names of which neither is before the other |

## Left out

- Sockets, epoll and descriptor flags: `Socket` has the outcomes of `read` and `write`; which events epoll reports is an arbitrary list of turns, and a connection that has ended is not served again.
- `printf`, `msg`, `die`, `read_full`, `write_all` and the command lines: output and calls into the system; the client's decoder returns what it would show.
- `avl_fix_recursive` (src/avl_tree.cpp:100-119): unused, and it dereferences missing children.
- `avl_offset` (include/avl_tree.h:119): declared and never defined.
- `malloc`, `free`, `container_of` and unconstructed strings: references with shared identity stand for memory; a failed allocation is not modelled.
- AvlTree.AvlDel: scores are ordered reals, so NaN is not a score.
- HashMap.HMap.Size: counts without bound, where `uint32_t` wraps after 2^32 keys.
- Request.SendReq: the length is computed without bound, where `uint32_t` wraps for commands of 4 GiB and more.
- HashMap.HMap.Insert: is for a key that is absent; with a key that is there the source would chain a second node, and no caller does that.
- HashTable.HTab.Lookup: compares keys, where `h_lookup` passes (key, node) to `hcmp`, which takes (node, key) (src/hashtable.cpp:37, src/zset.cpp:150).
- KeyValue.Database.DoKeys: the order in which keys are listed is left open, as it depends on the tables.
- AsWritten.Ordered: what `strcmp` reads behind a name that no NUL follows is not modelled.
- AsWritten.DrainsExactly: is about chain lengths, because which node is moved does not matter to it.
- TTL, lists and ZADD, which the repository's README mentions: no command reaches them.
