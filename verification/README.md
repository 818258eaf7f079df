# Verified models of the ByeDPI and hev-socks5-tunnel core

This Dafny project models the parts of the two C programs whose correctness rests on invariants,
and proves what each of them is for.

- **Red-black tree** (`RB*.dfy`), on nodes with parent links and colours, with the insertion
  repair, erasure and its rebalancing, replacement and traversal; on top of it the authenticator's
  map of users (`Authenticator.dfy`).
- **AVL tree with subtree sizes** (`Kavl*.dfy`), with its path arrays, single repair on insertion,
  walk back up on erasure, in-place freeing and iterator; on top of it the string pool (`Mpool.dfy`).
- **Mapped DNS** (`MappedDns.dfy`, `HevList.dfy`, `DnsCache.dfy`, `DnsReply.dfy`, `DnsRequest.dfy`,
  `DnsMessage.dfy`): a bounded allocator of addresses kept as tree, list and array, and the replies made
  from it.
- **Event pool** (`Conev.dfy`, `EventPool.dfy`): removal by swapping with the last slot while a poll
  batch is walked downwards, and recursive closing along pair pointers.
- **YAML** (`Yaml*.dfy`): the serializer and the composer on node graphs with sharing and cycles, and
  the emitter as a pushdown machine behind a queue with bounded lookahead, with its layout.
- **TLS records and segmented sending** (`TlsRecords.dfy`, `ClientHello.dfy`, `Desync.dfy`).
- **Ring buffer and splice loop** (`RingBuffer.dfy`, `TcpSplice.dfy`): bytes are written, handed to the
  connection without copying, and released when they are acknowledged.
- **SOCKS5** (`Socks5*.dfy`): client and server as two parties over channels, with every order of their
  steps, what RFC 1928 and RFC 1929 ask of both, the address codec, and datagrams framed in a TCP stream.

Code that changes things step by step is modelled by classes and methods that do the same writes in
the same order; each is proved against a value (a shape, a sequence, a map, a run), and the lemmas
are about that value. The heap of a tree is mirrored in a ghost map `mem` from nodes to their fields,
so that lemmas can speak of the memory before and after a write.

Many contracts end in `== true`, and many bodies start with `hide *`. Both keep the solver away from
definitions that a proof does not need: a predicate compared with `true` is not unfolded where it is
stated, and the small lemmas without a body, about one definition each, bring back the one fact that
is needed.

`dafny verify dfyconfig.toml` checks the whole project.

## Findings

Properties that hold only under a condition, each proved in both directions:

- **A node with the tag "!"** does not survive dumping and loading: the dumper writes it as it is and
  the composer takes "!" for no tag (loader.c:384, 429 and 497). `YamlDump.RoundTrip` and
  `YamlRedump.RedumpSame` hold if and only if no reachable node has that tag.
- **An IPv6 address with the IPv4-mapped prefix** comes back from a socket address as an IPv4 address
  (hev-socks5-misc.c:161-175): `Socks5Addr.SockRoundTrip`.
- **A UDP association with exactly one free slot** follows a null pointer: proxy.c:485 tests `pair` again
  where it should test `client`, and proxy.c:492 writes through `client`. `EventPool.SecondSlotMissing`
  says exactly when, and `EventPool.OneFreeSlot` gives a pool where it happens.
- **A DNS request with fewer questions than it promises** is read one byte behind its end
  (hev-mapped-dns.c:205) if and only if the complete questions fill it: `DnsReply.OverreadsWhen`, with
  `DnsReply.HeaderAlone` for a header alone. `DnsReply.AskedInside` shows that this cannot happen to a
  complete request.
- **A DNS question that starts at offset 256 or later** gets an answer whose pointer leads elsewhere, because
  one byte of its offset is written (hev-mapped-dns.c:237): `DnsReply.PointerReaches`.
- **A host name of 249 bytes or more** cannot be carried by a datagram over TCP: the byte for the header
  length wraps around (hev-socks5-udp.c:79). `Socks5Udp.HeaderWraps` and `Socks5Udp.ReadBody` give the
  exact bound, and `Socks5Udp.LongName` an instance.
- **The addresses of the mapped DNS** lead back to their indices if and only if the mask is contiguous and
  the net has no host bits (`Words.AddressesRecover`); the constructor checks neither.
- **A client that refuses the bound address** fails although the server serves it
  (hev-socks5-client.c:254-259); apart from that the two always agree (`Socks5Dialog.EveryHandshake`).

## Model

| member | source | states |
|---|---|---|
| RBTrees.RBTree.Erase | app/src/main/jni/hev-socks5-tunnel/src/core/src/hev-rbtree.c:628-635 | Erasing any node of a valid tree leaves a valid tree (links, parents and packed colours agree with one shape, the root is black, no red node has a red child, every path has as many black nodes) whose in-order sequence is the old one without that node, and nothing else leaves it |
| RBTrees.RBTree.Splice | app/src/main/jni/hev-socks5-tunnel/src/core/src/hev-rbtree.c:352-444 | All three ways of taking a node out leave its neighbours in order; the returned parent is null exactly when the colours are right again, and otherwise it is the one whose missing child is one black node short |
| RBTrees.RBTree.EraseColor | app/src/main/jni/hev-socks5-tunnel/src/core/src/hev-rbtree.c:451-626 | From a hole one black node short, the loop ends with a valid red-black tree over the same sequence and nodes; it terminates because a round either ends or goes one level up |
| RBTrees.RBTree.EraseStep | app/src/main/jni/hev-socks5-tunnel/src/core/src/hev-rbtree.c:453-625 | One round, in both mirror images: the sequence stays, and either the repair is over with equal black counts or the same shortage stands one level further up |
| RBTrees.RBTree.EraseBlackSibling | app/src/main/jni/hev-socks5-tunnel/src/core/src/hev-rbtree.c:484-624 | The cases of a black sibling, with the recolouring and the two rotations: the repair ends unless sibling, nephews and parent are all black, and then the shortage moves up |
| RBTrees.RBTree.Insert | app/src/main/jni/hev-socks5-tunnel/src/core/src/hev-rbtree.c:194-333 | Linking a red leaf at a link and repairing gives a valid tree in whose sequence the node stands exactly between what was before the link and what was after it |
| RBTrees.RBTree.InsertColor | app/src/main/jni/hev-socks5-tunnel/src/core/src/hev-rbtree.c:194-333 | The repair from a red node below an arbitrary context ends with a valid red-black tree over the same sequence and nodes |
| RBTrees.RBTree.InsertRepair | app/src/main/jni/hev-socks5-tunnel/src/core/src/hev-rbtree.c:222-331 | One round under a red parent, in both mirror images: the sequence and the black counts stay, and the red node either moved up to the grandparent or is gone |
| RBTrees.RBTree.Link | app/src/main/jni/hev-socks5-tunnel/src/core/src/hev-rbtree.h:45-53 | The three writes make the node a red leaf at the link, below that parent, and change nothing else |
| RBTrees.RBTree.First | app/src/main/jni/hev-socks5-tunnel/src/core/src/hev-rbtree.c:168-179 | The first node of the sequence, or null for an empty tree |
| RBTrees.RBTree.Last | app/src/main/jni/hev-socks5-tunnel/src/core/src/hev-rbtree.c:181-192 | The last node of the sequence, or null for an empty tree |
| RBTrees.RBTree.Next | app/src/main/jni/hev-socks5-tunnel/src/core/src/hev-rbtree.c:136-166 | From the i-th node to the node at i + 1, and null at the end |
| RBTrees.RBTree.Prev | app/src/main/jni/hev-socks5-tunnel/src/core/src/hev-rbtree.c:107-134 | From the i-th node to the node at i - 1, and null at the start |
| RBReplace.Replace | app/src/main/jni/hev-socks5-tunnel/src/core/src/hev-rbtree.c:335-349 | The tree stays valid, and its sequence has the new node in the place of the victim |
| RBReplace.RecastRb | app/src/main/jni/hev-socks5-tunnel/src/core/src/hev-rbtree.c:335-349 | A subtree whose root is another node has the same black height and breaks no colour rule |
| RBErase.SiblingTurnedInorder | app/src/main/jni/hev-socks5-tunnel/src/core/src/hev-rbtree.c:515-572 | The rotations at a black sibling keep the in-order sequence |
| RBHeight.HeightIsLogarithmic | app/src/main/jni/hev-socks5-tunnel/src/core/src/hev-rbtree.c:194-333 | A red-black tree of n nodes is at most 2 log2(n + 1) high, the logarithm rounded down |
| RBSplice.SuccessorInorder | app/src/main/jni/hev-socks5-tunnel/src/core/src/hev-rbtree.c:383-444 | The leftmost node of the right subtree is the next one in the sequence, and taking it out leaves the rest in order |
| RBWalk.NeighbourOfFocus | app/src/main/jni/hev-socks5-tunnel/src/core/src/hev-rbtree.c:107-166 | The neighbour of any node is the extreme node of its subtree on that side, and where there is none the nearest ancestor reached from the other side |
| Authenticator.Authenticator.Add | app/src/main/jni/hev-socks5-tunnel/src/core/src/hev-socks5-authenticator.c:39-70 | The users are a map from names to users: a new name is added and nothing else changes, and a name that is taken is refused with the tree as it was |
| Authenticator.Authenticator.Del | app/src/main/jni/hev-socks5-tunnel/src/core/src/hev-socks5-authenticator.c:72-102 | Exactly that name leaves the map; the result says whether it was there |
| Authenticator.Authenticator.Get | app/src/main/jni/hev-socks5-tunnel/src/core/src/hev-socks5-authenticator.c:104-131 | The user that the map holds for the name, or null when it holds none |
| Authenticator.Authenticator.Clear | app/src/main/jni/hev-socks5-tunnel/src/core/src/hev-socks5-authenticator.c:133-145 | Ends with an empty map |
| RBSearch.Walk | app/src/main/jni/hev-socks5-tunnel/src/core/src/hev-socks5-authenticator.c:44-61 | The descent ends at the node with the key, or at the one link where a node with that key keeps the order, and then no node has the key |
| RBSearch.Descend | app/src/main/jni/hev-socks5-tunnel/src/core/src/hev-socks5-authenticator.c:49-60 | Taking the side that the comparison says keeps the key between what is before and what is after |
| RBSearch.TableWith | app/src/main/jni/hev-socks5-tunnel/src/core/src/hev-socks5-authenticator.c:63-69 | Putting a node in, or taking it out, changes the map at its key and nowhere else |
| RBSearch.NotFound | app/src/main/jni/hev-socks5-tunnel/src/core/src/hev-socks5-authenticator.c:104-131 | At a missing child below the right comparisons no item has the key |
| ByteOrder.CompareOrder | app/src/main/jni/hev-socks5-tunnel/src/core/src/hev-socks5-authenticator.c:52-56 | Length first and then memcmp, and strcmp too, are 0 for equal strings only, and change sign when the strings change places |
| ByteOrder.CompareIs | app/src/main/jni/hev-socks5-tunnel/src/core/src/hev-socks5-authenticator.c:52-56 | In the order by length the shorter string comes first, and of two equally long ones the one with the smaller byte where they first differ; strcmp goes by that byte alone, or by length if there is none |
| KavlTree.Kavl.Insert | app/src/main/cpp/byedpi/kavl.h:129-173 | A new key goes to its place with every size and balance field exact and the heights within bounds; a key that is there gives its node and changes nothing; the count is the number of keys up to it |
| KavlRemoval.Erase | app/src/main/cpp/byedpi/kavl.h:175-256 | The node with the key leaves and only that one, the tree is valid again, and the count is its rank; for a missing key nothing changes and the result is null and 0 |
| KavlRemoval.EraseFirst | app/src/main/cpp/byedpi/kavl.h:196-200 | The smallest node leaves, and the rest keeps its order |
| KavlTree.Kavl.Find | app/src/main/cpp/byedpi/kavl.h:81-95 | The node with the key or null, and the number of keys up to it |
| KavlTree.Kavl.Descend | app/src/main/cpp/byedpi/kavl.h:137-152 | The remembered path leads to the place of the key, starting the side stack at the deepest unbalanced node, and the count is the number of smaller keys |
| KavlTree.Kavl.CountPath | app/src/main/cpp/byedpi/kavl.h:157 | Exactly the sizes on that stretch of the path change, by one each |
| KavlTree.Kavl.TiltPath | app/src/main/cpp/byedpi/kavl.h:158-160 | Exactly the balances from the deepest unbalanced node down to the new leaf move, each towards the path |
| KavlTree.Kavl.Rotate1 | app/src/main/cpp/byedpi/kavl.h:99-108 | The three links and two sizes of one rotation, and nothing outside the two nodes |
| KavlTree.Kavl.Rotate2 | app/src/main/cpp/byedpi/kavl.h:110-127 | The links, sizes and balances of two rotations make the doubly rotated subtree in memory, and nothing outside the three nodes changes |
| KavlTree.Kavl.Repair | app/src/main/cpp/byedpi/kavl.h:161-172 | The one rotation at the deepest unbalanced node makes the whole tree what insertion is meant to make |
| KavlInsert.InsertedKeeps | app/src/main/cpp/byedpi/kavl.h:153-172 | Every balance is right height minus left height within -1..1, every size is exact, and the sequence has exactly the new node more at its place |
| KavlInsert.RepairedAvl | app/src/main/cpp/byedpi/kavl.h:157-172 | The subtree at the deepest unbalanced node is balanced afterwards, and as high as before unless that node leaned nowhere: one repair is enough |
| KavlInsert.GrowFlat | app/src/main/cpp/byedpi/kavl.h:158-160 | Below the deepest unbalanced node every subtree on the path grows by one level and stays within bounds |
| KavlInsert.CountedRules | app/src/main/cpp/byedpi/kavl.h:157 | One node more or less in the hole makes every size on the path exact again after counting, and leaves the heights alone |
| KavlRules.Rot1Lowers | app/src/main/cpp/byedpi/kavl.h:99-108 | When the farther grandchild is the higher one, one rotation with zero balances balances the subtree and lowers it by a level |
| KavlRules.Rot1Stays | app/src/main/cpp/byedpi/kavl.h:244-249 | When both grandchildren are as high, one rotation balances the subtree at the same height: the way up can stop |
| KavlRules.Rot2Lowers | app/src/main/cpp/byedpi/kavl.h:110-127 | When the nearer grandchild is the higher one, two rotations balance the subtree and lower it by a level, for all three balances of the middle node |
| KavlRules.CountAtLeast | app/src/main/cpp/byedpi/kavl.h:97-127 | A balanced tree of height h has at least Fib(h + 2) - 1 nodes |
| KavlRules.HeightFits | app/src/main/cpp/byedpi/kavl.h:69 | While the size fits 32 bits the height is at most 45, so the 64 entries of every path are enough |
| KavlErase.RemovedSame | app/src/main/cpp/byedpi/kavl.h:202-232 | In each of the three ways of unlinking, exactly the node that goes is missing from the sequence and from the set of nodes |
| KavlErase.RemovedShort | app/src/main/cpp/byedpi/kavl.h:202-232 | And what is left is balanced but for one subtree on the path that lost one level |
| KavlErase.RestoredAvl | app/src/main/cpp/byedpi/kavl.h:233-253 | One round balances the node, and says truly whether its subtree also lost a level |
| KavlErase.RestoreStep | app/src/main/cpp/byedpi/kavl.h:233-253 | A round either ends with the whole tree balanced or moves the lost level up by one |
| KavlSearch.PlaceStep | app/src/main/cpp/byedpi/kavl.h:85-92 | A step to either side keeps the place of the key, and adds exactly the passed keys to the count |
| KavlSearch.PlaceNone | app/src/main/cpp/byedpi/kavl.h:81-95 | At a missing child no node has the key, and the count is the number of smaller keys |
| KavlDetach.Unlink | app/src/main/cpp/byedpi/kavl.h:202-232 | The writes of the three ways of unlinking leave in memory the path, with its arrays, and the subtree in its hole that lost a level |
| KavlRemoval.RestoreNode | app/src/main/cpp/byedpi/kavl.h:234-252 | The writes of one round leave the restored subtree in memory, and the break is taken exactly when the loss ends there |
| KavlRemoval.RestoreUp | app/src/main/cpp/byedpi/kavl.h:233-254 | The loop up the path arrays ends below the fake node with a balanced and exactly counted tree over the same sequence |
| KavlRemoval.FindVictim | app/src/main/cpp/byedpi/kavl.h:183-195 | The path from the fake node to the node with the key is in the arrays, and the count is its rank; otherwise null and 0 |
| KavlUnlink.RemoveSound | app/src/main/cpp/byedpi/kavl.h:175-256 | Taking out the root of a subtree takes the element of its rank out of the sequence and leaves the path short by one level |
| KavlFree.FreeAll | app/src/main/cpp/byedpi/kavl.h:258-270 | Every node is freed once, in order, and a freed node is neither read nor written again |
| KavlIter.Itr.First | app/src/main/cpp/byedpi/kavl.h:276-281 | The iterator stands at the first element with the whole sequence to come |
| KavlIter.Itr.Next | app/src/main/cpp/byedpi/kavl.h:301-310 | The element under the iterator is passed, and exactly the rest is to come; the result says whether there is one |
| KavlIter.Itr.Find | app/src/main/cpp/byedpi/kavl.h:282-300 | Whether the key is there, and what is to come starts with the first element that is not smaller |
| Mpool.Mphdr.constructor | app/src/main/cpp/byedpi/mpool.c:18-25 | The pool is the empty map from byte strings to elements |
| Mpool.Mphdr.Get | app/src/main/cpp/byedpi/mpool.c:28-36 | The element of the map for the string, or null |
| Mpool.Mphdr.Add | app/src/main/cpp/byedpi/mpool.c:39-65 | The element that the map has, with the map unchanged, or a new one added under the string |
| Mpool.Mphdr.Delete | app/src/main/cpp/byedpi/mpool.c:68-84 | Exactly that string leaves the map |
| Mpool.Mphdr.Destroy | app/src/main/cpp/byedpi/mpool.c:87-101 | The map is empty at the end, and every element was freed once, in the order of the keys |
| Mpool.OneMore | app/src/main/cpp/byedpi/mpool.c:7-13 | Lookups in a strictly ascending sequence with one element more differ at the key of that element only |
| HevList.List.AddTail | app/src/main/jni/hev-socks5-tunnel/src/misc/hev-list.c:14-25 | The node comes last in the list; forward and backward links agree |
| HevList.List.Del | app/src/main/jni/hev-socks5-tunnel/src/misc/hev-list.c:27-39 | Exactly that node leaves the list, wherever it stands |
| MappedDns.MappedDNS.Find | app/src/main/jni/hev-socks5-tunnel/src/hev-mapped-dns.c:98-150 | Tree, list and array go on holding the same distinct names (names in strcmp order, each record under its own index), and they change as the least-recently-used cache does: a known name keeps its index, a new one takes the next free index or that of the oldest name |
| MappedDns.MappedDNS.Seek | app/src/main/jni/hev-socks5-tunnel/src/hev-mapped-dns.c:104-115 | The descent finds the record of the name, or the link where it belongs |
| MappedDns.MappedDNS.FindOldest | app/src/main/jni/hev-socks5-tunnel/src/hev-mapped-dns.c:127-147 | When the cache is full exactly the first record of the list goes, and the new one takes its index |
| MappedDns.MappedDNS.Lookup | app/src/main/jni/hev-socks5-tunnel/src/hev-mapped-dns.c:253-271 | The name whose index the address carries, which becomes the most recent one; nothing for an index not in use |
| MappedDns.New | app/src/main/jni/hev-socks5-tunnel/src/hev-mapped-dns.c:45-63 | A cache is made if and only if every index fits the host part of an address |
| MappedDns.FindThenLookup | app/src/main/jni/hev-socks5-tunnel/src/hev-mapped-dns.c:98-150 | With a contiguous mask and no host bits in the net, the address given to a name looks up to that name |
| Words.AddressesRecover | app/src/main/jni/hev-socks5-tunnel/src/hev-mapped-dns.c:258-259 | Every index can be got back from its address if and only if the mask is contiguous and the net has no host bits |
| Words.BitByBit | app/src/main/jni/hev-socks5-tunnel/src/hev-mapped-dns.c:247 | The bitwise operators on numbers work bit by bit |
| Words.NotBits | app/src/main/jni/hev-socks5-tunnel/src/hev-mapped-dns.c:258 | Every bit of a complemented mask is turned |
| DnsCache.LeastRecentlyUsed | app/src/main/jni/hev-socks5-tunnel/src/hev-mapped-dns.c:117-147 | Over any run of finds and lookups without the name, its index stands for it as long as fewer than max distinct other names were touched since it was, and for another name from then on |
| DnsCache.FoundNameKeepsIndex | app/src/main/jni/hev-socks5-tunnel/src/hev-mapped-dns.c:98-150 | A name just found keeps its index over a run in which fewer than max other names are touched, and is gone after any other run |
| DnsCache.PushedOut | app/src/main/jni/hev-socks5-tunnel/src/hev-mapped-dns.c:127-147 | The name that was touched longest ago is the one that goes |
| DnsReply.Handle | app/src/main/jni/hev-socks5-tunnel/src/hev-mapped-dns.c:174-251 | For every request and buffer: no reply, or one that is the request's header and questions as a response with an answer for each address question; a well-formed request gets its reply if and only if there is room, with the header bits that section 4.1.1 of RFC 1035 asks for, and every address a resolver reads in it looks up to the name of its question |
| DnsReply.ReplyDecodes | app/src/main/jni/hev-socks5-tunnel/src/hev-mapped-dns.c:201-250 | A decoder by section 4.1 of RFC 1035 reads the reply as the same questions and one A/IN record of TTL 1 for each question of that kind, whose owner, by the pointer, is the name asked; bit by bit the flags are those of the request with the response bit set and recursion available if it was or was desired |
| DnsReply.FlagsAnswer | app/src/main/jni/hev-socks5-tunnel/src/hev-mapped-dns.c:247 | The flags of a reply: the response bit, recursion available if it was or was desired, and every other bit as asked, the response code included |
| DnsReply.PointerReaches | app/src/main/jni/hev-socks5-tunnel/src/hev-mapped-dns.c:236-237 | The pointer in an answer leads to its question if and only if the question starts before offset 256 |
| DnsReply.PromiseKept | app/src/main/jni/hev-socks5-tunnel/src/hev-mapped-dns.c:174-251 | The reply, read back by that decoder, leads from each question to its name: the whole way through cache, reply and lookup |
| DnsReply.AddressesResolve | app/src/main/jni/hev-socks5-tunnel/src/hev-mapped-dns.c:219-227 | If at most max distinct names are asked, each address handed out still looks up to its name after all of them |
| DnsReply.ScanFinds | app/src/main/jni/hev-socks5-tunnel/src/hev-mapped-dns.c:201-230 | The scan that overwrites length bytes with dots finds the questions that the message holds, with dotted names |
| DnsRequest.SkipIs | app/src/main/jni/hev-socks5-tunnel/src/hev-mapped-dns.c:205-213 | On any message, the scan ends a name exactly where labels in full end with the root byte inside the message |
| DnsRequest.ScanIs | app/src/main/jni/hev-socks5-tunnel/src/hev-mapped-dns.c:201-230 | On any message, the scan gets through if and only if the promised number of questions stand in it in full, and it then sees each of them where it is, with the labels joined by dots up to the first NUL, and whether it asks for an address |
| DnsRequest.RepliesWhen | app/src/main/jni/hev-socks5-tunnel/src/hev-mapped-dns.c:174-251 | A request gets a reply if and only if it has at most 32 questions, all in full, and they and the answers fit the buffer |
| DnsReply.AskedInside | app/src/main/jni/hev-socks5-tunnel/src/hev-mapped-dns.c:201-230 | On a request whose questions are all complete the scan never looks behind the message |
| DnsReply.OverreadsWhen | app/src/main/jni/hev-socks5-tunnel/src/hev-mapped-dns.c:201-230 | The scan reads the position behind the message if and only if some of the questions fill the message and they are not all |
| DnsReply.HeaderAlone | app/src/main/jni/hev-socks5-tunnel/src/hev-mapped-dns.c:201-230 | A header of 12 bytes that promises a question is such a request |
| DnsReply.AnswersDecode | app/src/main/jni/hev-socks5-tunnel/src/hev-mapped-dns.c:232-245 | The 16-byte answers, one after the other, read back as address records named by the places they point to |
| DnsReply.Stays | app/src/main/jni/hev-socks5-tunnel/src/hev-mapped-dns.c:98-150 | A name found early in a request keeps its index to the end of the request |
| DnsReply.WriteAnswers | app/src/main/jni/hev-socks5-tunnel/src/hev-mapped-dns.c:232-245 | The answers are appended if they all fit, and what was before them stays |
| DnsMessage.AskedName | app/src/main/jni/hev-socks5-tunnel/src/hev-mapped-dns.c:236-237 | A compression pointer to the start of a question reads the name of that question |
| EventPool.DelCloses | app/src/main/cpp/byedpi/conev.c:76-117 | Deleting a slot closes the descriptors of the live slots on its pair chain, each once and in chain order, and ends |
| EventPool.DelFate | app/src/main/cpp/byedpi/conev.c:76-117 | Every slot on the chain is closed and unpaired, and every other slot keeps descriptor, events, stamp, pointer and its place among the live ones |
| EventPool.ChainReaches | app/src/main/cpp/byedpi/conev.c:108-115 | The chain is the least set of slots that holds the slot and is closed under pair pointers |
| EventPool.ChainShapes | app/src/main/cpp/byedpi/conev.c:108-115 | It is a lone slot, two that point at each other, or the circle of three of a UDP association |
| EventPool.DelKeeps | app/src/main/cpp/byedpi/conev.c:76-117 | The links stay a permutation with the live slots first and correctly indexed, and no live slot points at a closed one |
| EventPool.ListenerStays | app/src/main/cpp/byedpi/conev.c:116 | The assertion at the end of every deletion holds: the listening slot survives every other deletion |
| EventPool.AddKeeps | app/src/main/cpp/byedpi/conev.c:43-73 | A slot is taken exactly when one is free, it is live, unpaired and stamped, and everything else stays |
| EventPool.ConnectKeeps | app/src/main/cpp/byedpi/proxy.c:391-404 | Connecting a lone slot succeeds exactly when a slot is free, pairs the two both ways, and the new slot watches the given descriptor for the given events; every other slot keeps what it watches |
| EventPool.AssociateKeeps | app/src/main/cpp/byedpi/proxy.c:441-493 | With two free slots a UDP association is a circle from the control connection through the client to the relay and back, and the two new slots watch their descriptors for the given events; with none nothing changes |
| EventPool.SecondSlotMissing | app/src/main/cpp/byedpi/proxy.c:484-492 | The second slot is missing, and its null pointer is followed, if and only if exactly one slot is free |
| EventPool.OneFreeSlot | app/src/main/cpp/byedpi/proxy.c:484-492 | A pool of three with a listener and one connection is such a case |
| EventPool.ReconnectKeeps | app/src/main/cpp/byedpi/extend.c:127-143 | Only the old connection is closed; its client is paired with the new one, which watches the new descriptor |
| EventPool.ModKeeps | app/src/main/cpp/byedpi/conev.c:213-218 | Changing the events of a live slot changes what that slot watches and nothing else, in the middle of a batch too |
| EventPool.PolledFinds | app/src/main/cpp/byedpi/conev.c:182-210 | Whenever poll reports something, the walk down the entries finds it |
| EventPool.ServeKeeps | app/src/main/cpp/byedpi/conev.c:198-208 | What the walk returns is live, was ready, and was not returned before; the assertion on the way holds |
| EventPool.NextReturns | app/src/main/cpp/byedpi/conev.c:182-210 | A call returns the next untouched ready slot of the batch, or the first of a new poll when the batch is used up |
| EventPool.StepKeeps | app/src/main/cpp/byedpi/conev.c:43-117 | Whatever handlers do between calls, all invariants of pool and batch stay |
| EventPool.TraceOnce | app/src/main/cpp/byedpi/conev.c:182-210 | Over any run no slot is returned twice for one poll |
| EventPool.RunServes | app/src/main/cpp/byedpi/conev.c:182-210 | Wherever a run leaves a batch used up, every slot that was ready and is untouched has been returned |
| Conev.PoolHd.AddEvent | app/src/main/cpp/byedpi/conev.c:43-73 | On the arrays: the pool as a value changes by exactly the addition |
| Conev.PoolHd.DelEvent | app/src/main/cpp/byedpi/conev.c:76-117 | On the arrays, by recursion: exactly the deletion |
| Conev.PoolHd.NextEvent | app/src/main/cpp/byedpi/conev.c:182-210 | On the arrays, in place: exactly the next step of the batch, with its type and position |
| Conev.PoolHd.CreateConn | app/src/main/cpp/byedpi/proxy.c:391-404 | On the arrays: exactly the connection |
| Conev.PoolHd.UdpAssociate | app/src/main/cpp/byedpi/proxy.c:441-493 | On the arrays: exactly the association, with its three outcomes |
| Conev.PoolHd.Reconnect | app/src/main/cpp/byedpi/extend.c:127-143 | On the arrays: exactly the reconnection |
| YamlGraph.FirstOrderReaches | app/src/main/jni/hev-socks5-tunnel/third-part/yaml/src/dumper.c:206-238 | The first visits of the walk are the nodes reachable from the root, each once and the root first: the least closed set that holds it |
| YamlGraph.WalkFirsts | app/src/main/jni/hev-socks5-tunnel/third-part/yaml/src/dumper.c:206-238 | A walk meets for the first time exactly the nodes it takes off the list, cycles and sharing included |
| YamlSerializer.Emitter.AnchorNode | app/src/main/jni/hev-socks5-tunnel/third-part/yaml/src/dumper.c:206-238 | The first pass counts the references along the walk and numbers each node at its second one, in order |
| YamlSerializer.Emitter.DumpNode | app/src/main/jni/hev-socks5-tunnel/third-part/yaml/src/dumper.c:263-393 | The second pass writes the events of the walk: a node at its first visit and an alias at every other |
| YamlSerializer.Emitter.DumpDocument | app/src/main/jni/hev-socks5-tunnel/third-part/yaml/src/dumper.c:112-160 | Both passes together append exactly the event stream of the document |
| YamlDump.ReferNumbers | app/src/main/jni/hev-socks5-tunnel/third-part/yaml/src/dumper.c:206-238 | The anchors stay numbered from 1 without gaps, and each count is the number of visits |
| YamlDump.AnchorsDiffer | app/src/main/jni/hev-socks5-tunnel/third-part/yaml/src/dumper.c:247-257 | Different numbers have different anchor texts |
| YamlDump.AnchorTextIs | app/src/main/jni/hev-socks5-tunnel/third-part/yaml/src/dumper.c:247-257 | An anchor is "id" and the decimal digits of its number, at least three and more without leading zeros |
| YamlDump.NamesFit | app/src/main/jni/hev-socks5-tunnel/third-part/yaml/src/dumper.c:206-238 | Anchors are distinct, and every node that is visited again has one |
| YamlComposer.Composer.LoadDocument | app/src/main/jni/hev-socks5-tunnel/third-part/yaml/src/loader.c:184-257 | The event loop of the composer, on its stack, node list and alias list, returns exactly what loading the stream gives, errors included; `StreamLoads` says what that is |
| YamlStreams.StreamLoads | app/src/main/jni/hev-socks5-tunnel/third-part/yaml/src/loader.c:184-257 | Any stream of events loads if and only if its collections are balanced, its anchors distinct and its aliases known; the k-th node then has the kind, value and style of the k-th node event, and its tag or, for none and for "!", the default of its kind |
| YamlStreams.AllDescribed | app/src/main/jni/hev-socks5-tunnel/third-part/yaml/src/loader.c:376-544 | The same from any state of the composer on, with the earlier nodes keeping their heads |
| YamlStreams.DefaultTags | app/src/main/jni/hev-socks5-tunnel/third-part/yaml/src/loader.c:384-388 | The three default tags, spelled in characters |
| YamlComposer.Composer.FindAlias | app/src/main/jni/hev-socks5-tunnel/third-part/yaml/src/loader.c:350-368 | The first entry with the anchor, or none |
| YamlComposer.Composer.AddNode | app/src/main/jni/hev-socks5-tunnel/third-part/yaml/src/loader.c:298-344 | The node joins the open sequence, or becomes key or value of the open mapping, and the error is reported exactly when it cannot |
| YamlRoundTrip.LoadWalk | app/src/main/jni/hev-socks5-tunnel/third-part/yaml/src/loader.c:216-544 | Loading the events of any walk makes each newly met node, with its children renumbered, and hands the node walked to to the open collection |
| YamlLoad.FillMapping | app/src/main/jni/hev-socks5-tunnel/third-part/yaml/src/loader.c:322-338 | Filling a mapping pairs each key with the value that follows it |
| YamlDump.LoadDumped | app/src/main/jni/hev-socks5-tunnel/third-part/yaml/src/dumper.c:112-160 | Loading a dumped document gives the reachable part, renumbered in the order of first visits |
| YamlDump.RoundTrip | app/src/main/jni/hev-socks5-tunnel/third-part/yaml/src/loader.c:216-544 | The result is isomorphic to the reachable part, shared and cyclic nodes included, if and only if no reachable node has the tag "!" |
| YamlRedump.RedumpSame | app/src/main/jni/hev-socks5-tunnel/third-part/yaml/src/dumper.c:206-393 | Dumping what was loaded gives the same events if and only if no reachable node has the tag "!" |
| YamlRedump.LoadedTwins | app/src/main/jni/hev-socks5-tunnel/third-part/yaml/src/loader.c:216-544 | Under the renumbering, the loaded nodes have the kinds, values, styles and children of the originals |
| YamlRedump.VisitsSame | app/src/main/jni/hev-socks5-tunnel/third-part/yaml/src/dumper.c:206-393 | The walks over both give event by event the same if and only if no reachable node has the tag "!" |
| YamlEmitQueue.EmitterAccepts | app/src/main/jni/hev-socks5-tunnel/third-part/yaml/src/emitter.c:280-488 | Emitting the events one by one reaches the end state with an empty queue if and only if they form a stream of documents of the node grammar, key and value alternating |
| YamlEmitQueue.Emitter.Emit | app/src/main/jni/hev-socks5-tunnel/third-part/yaml/src/emitter.c:280-297 | One call drains what the lookahead lets through, and fails exactly when the machine does |
| YamlEmitQueue.Emitter.NeedMoreEvents | app/src/main/jni/hev-socks5-tunnel/third-part/yaml/src/emitter.c:308-357 | The counting loop answers as its definition on the queue does: one event ahead for a document, two for a sequence, three for a mapping, or the matching end |
| YamlEmitQueue.NeedMoreIs | app/src/main/jni/hev-socks5-tunnel/third-part/yaml/src/emitter.c:308-357 | In numbers: one event behind the start of a document, two behind that of a sequence, three behind that of a mapping, and fewer only if they finish what was begun |
| YamlEmitQueue.LookAhead | app/src/main/jni/hev-socks5-tunnel/third-part/yaml/src/emitter.c:1118-1140 | Once an event is let through, whether it opens an empty collection shows in the queue, whatever comes later |
| YamlEmitQueue.DrainRuns | app/src/main/jni/hev-socks5-tunnel/third-part/yaml/src/emitter.c:280-297 | The queue does not change what the machine does on the whole stream |
| YamlEmitter.EmitTree | app/src/main/jni/hev-socks5-tunnel/third-part/yaml/src/emitter.c:744-1102 | Every node, in every flow, block and key position, is consumed whole and gives back the state stack, the indents and the flow level as they were |
| YamlEmitter.StreamAccepted | app/src/main/jni/hev-socks5-tunnel/third-part/yaml/src/emitter.c:423-1102 | Every stream of the grammar is accepted and leaves both stacks empty and the flow level 0 |
| YamlEmitter.ParseTree | app/src/main/jni/hev-socks5-tunnel/third-part/yaml/src/emitter.c:744-1102 | Conversely, where a node is expected and the rest is accepted, a whole node comes first |
| YamlEmitter.AcceptsStreams | app/src/main/jni/hev-socks5-tunnel/third-part/yaml/src/emitter.c:423-1102 | The machine accepts exactly the streams of the grammar |
| YamlLayout.LayoutIs | app/src/main/jni/hev-socks5-tunnel/third-part/yaml/src/emitter.c:423-1102 | In every accepted stream, every event is taken in the state and at the indentation that its place in the tree says: flow style inside flow style, in canonical form, on demand and for empty collections; one step further in for each level; keys in one line or not |
| YamlLayout.NodeLaid | app/src/main/jni/hev-socks5-tunnel/third-part/yaml/src/emitter.c:744-1102 | The same for one node wherever one is expected, so that the stacks and the flow level do what inherited style and indentation do |
| YamlAccepted.DumpsAccepted | app/src/main/jni/hev-socks5-tunnel/third-part/yaml/src/dumper.c:112-160 | The emitter takes the stream of any dumped documents to its end and holds nothing back, whatever the styles and keys |
| TlsRecords.PartTls | app/src/main/cpp/byedpi/packets.c:405-421 | In every case of its answer, what is in the buffer: two records with the payload cut at the position, or nothing changed |
| TlsRecords.TlsRec | app/src/main/cpp/byedpi/desync.c:454-479 | After k splits there are k + 1 records of the same type and version whose payloads together are the original one, cut where the parts say up to the first that is refused; n has grown by 5k and stays within the buffer |
| TlsRecords.SplitIs | app/src/main/cpp/byedpi/packets.c:415-420 | The four writes in place make the two headers and move the tail |
| TlsRecords.SplitFrames | app/src/main/cpp/byedpi/packets.c:405-421 | Splitting the last record keeps the others and makes one more |
| TlsRecords.RecordsFrames | app/src/main/cpp/byedpi/packets.c:405-421 | A reader by section 5.1 of RFC 8446 reads complete records back one by one |
| TlsRecords.FramedReads | app/src/main/cpp/byedpi/desync.c:454-479 | That reader finds in the buffer exactly the records of the split |
| Desync.Desync | app/src/main/cpp/byedpi/desync.c:486-574 | However sending goes, the sends are the planned ones in order, all of them unless one is not taken in full; an answer r >= 0 says that exactly the bytes from the offset to r went out in band, and -1 comes of a failed send only |
| Desync.PlanCuts | app/src/main/cpp/byedpi/desync.c:486-574 | Where each planned send ends, in numbers: after the server name, after the host, from the end or from the start, for the traffic it is meant for, with the mode of its own part, and what is left in a last send |
| Desync.PlanOffersAll | app/src/main/cpp/byedpi/desync.c:486-574 | Whatever the parts, repeats and skips, the planned sends divide up what is left: no byte twice and none left out |
| Desync.Resume | app/src/main/cpp/byedpi/desync.c:486-574 | Starting again from each answer repeats nothing and loses nothing |
| Desync.SendPart | app/src/main/cpp/byedpi/desync.c:531-564 | One part either goes out whole and the loop goes on, or the answer is the number of bytes that went out |
| ClientHello.ParseTls | app/src/main/cpp/byedpi/packets.c:166-183 | Length and place of the host name, inside the buffer |
| ClientHello.ScanFinds | app/src/main/cpp/byedpi/packets.c:81-102 | The scan over a prefix of an extension list finds the first extension of the type as soon as its header and one byte more are inside |
| ClientHello.OffsetFinds | app/src/main/cpp/byedpi/packets.c:105-118 | In any prefix of a ClientHello the offset is that of the first such extension, or 0 |
| ClientHello.ParseFindsHost | app/src/main/cpp/byedpi/packets.c:166-183 | Of any prefix of a ClientHello the parsed name is the host of its first server_name extension if the name is complete and more than twelve bytes of the extension are there, and nothing otherwise |
| ClientHello.NoHost | app/src/main/cpp/byedpi/packets.c:166-183 | Nothing is found in what does not start like a ClientHello record, nor in a ClientHello without the extension |
| RingBuffer.RingBuffer.Reading | app/src/main/jni/hev-socks5-tunnel/src/misc/hev-ring-buffer.c:25-45 | The spans hold exactly the bytes not yet read, in order, and there are none exactly when nothing is unread |
| RingBuffer.RingBuffer.ReadFinish | app/src/main/jni/hev-socks5-tunnel/src/misc/hev-ring-buffer.c:47-52 | The first bytes move from unread to in flight and stay where they are |
| RingBuffer.RingBuffer.ReadRelease | app/src/main/jni/hev-socks5-tunnel/src/misc/hev-ring-buffer.c:54-62 | The oldest bytes in flight are given up and nothing else changes |
| RingBuffer.RingBuffer.Writing | app/src/main/jni/hev-socks5-tunnel/src/misc/hev-ring-buffer.c:64-85 | The spans cover all the free room, and there are none exactly when the ring is full |
| RingBuffer.RingBuffer.WriteFinish | app/src/main/jni/hev-socks5-tunnel/src/misc/hev-ring-buffer.c:87-93 | What was stored comes after what was unread; what is in flight stays |
| RingBuffer.WritingIsSafe | app/src/main/jni/hev-socks5-tunnel/src/misc/hev-ring-buffer.c:64-85 | Whatever is stored in the write spans, the bytes in flight and the unread bytes stay as they are |
| RingBuffer.UsedIsNotFree | app/src/main/jni/hev-socks5-tunnel/src/misc/hev-ring-buffer.c:64-85 | No write span holds the place of a byte that is in use |
| RingBuffer.SpansGather | app/src/main/jni/hev-socks5-tunnel/src/misc/hev-ring-buffer.c:25-45 | Two spans around the end of the array read as one stretch of the ring |
| TcpSplice.Session.Splice | app/src/main/jni/hev-socks5-tunnel/src/hev-socks5-session-tcp.c:195-239 | In every run and at every time what was received is what was acknowledged, then what is in flight, then what is unread, and what came from the tunnel is what was sent to the socket and then the queue. Something is broken only if the world recorded a failure; without one, everything that the socket still has to give arrives and is acknowledged, everything from the tunnel is sent, and both sides are told of the end. In a world where nothing fails, only running out of pauses can end it otherwise |
| TcpSplice.Session.SpliceB | app/src/main/jni/hev-socks5-tunnel/src/hev-socks5-session-tcp.c:85-131 | What one turn does with each answer of the socket: data are received and handed over, nothing yet gives 0 and breaks nothing, the end is told once all is handed over, and it breaks exactly for a failed read, a lost connection or a refused write |
| TcpSplice.Session.SpliceF | app/src/main/jni/hev-socks5-tunnel/src/hev-socks5-session-tcp.c:44-83 | One turn from the queue to the socket: with an empty queue the end is told if it came; otherwise exactly what the socket takes of the first 64 packets leaves the queue, nothing taken yet gives 0, and a failed write is an end |
| TcpSplice.AnswerComes | app/src/main/jni/hev-socks5-tunnel/src/hev-socks5-session-tcp.c:85-107 | What the answers of the socket add up to: every byte that it has to give, once and in order |
| TcpSplice.Session.RecvHandler | app/src/main/jni/hev-socks5-tunnel/src/hev-socks5-session-tcp.c:133-152 | The packet joins the queue unless the queue is over its window, and no packet means the end |
| TcpSplice.Session.SentHandler | app/src/main/jni/hev-socks5-tunnel/src/hev-socks5-session-tcp.c:154-163 | Exactly the oldest acknowledged bytes are released |
| TcpSplice.Session.Drain | app/src/main/jni/hev-socks5-tunnel/src/hev-socks5-session-tcp.c:226-238 | The second loop ends with nothing in flight, or because something broke |
| TcpSplice.Session.Hand | app/src/main/jni/hev-socks5-tunnel/src/hev-socks5-session-tcp.c:108-118 | The connection is given exactly what lies in the spans |
| TcpSplice.FreeHeaderIs | app/src/main/jni/hev-socks5-tunnel/src/hev-socks5-session-tcp.c:72 | Freeing n bytes from the front of a packet queue takes exactly the first n bytes away |
| Socks5Addr.EncodeDecodes | app/src/main/jni/hev-socks5-tunnel/src/core/src/hev-socks5-misc.c:117-159 | addr_len finds the end of an address whatever follows it, and decoding gives the address back |
| Socks5Rules.EncodeIs | app/src/main/jni/hev-socks5-tunnel/src/core/src/hev-socks5-misc.c:117-159 | The bytes of an address by section 5 of RFC 1928: 1, 3 or 4, the address, and the port |
| Socks5Addr.DecodeEncodes | app/src/main/jni/hev-socks5-tunnel/src/core/src/hev-socks5-misc.c:117-159 | What was decoded encodes to the bytes it came from |
| Socks5Addr.SockRoundTrip | app/src/main/jni/hev-socks5-tunnel/src/core/src/hev-socks5-misc.c:161-227 | An address comes back from a socket address unchanged if and only if it is not an IPv6 address with the IPv4-mapped prefix, which comes back as IPv4 |
| Socks5Addr.SockBack | app/src/main/jni/hev-socks5-tunnel/src/core/src/hev-socks5-misc.c:161-227 | Every socket address comes back from its SOCKS address unchanged |
| Socks5Client.Client.HandshakeStandard | app/src/main/jni/hev-socks5-tunnel/src/core/src/hev-socks5-client.c:319-356 | For every input from the server, the bytes sent and the verdict are those of the standard client's run, which `ClientSays` and `ClientTakes` give in the terms of the RFCs |
| Socks5Client.Client.HandshakePipeline | app/src/main/jni/hev-socks5-tunnel/src/core/src/hev-socks5-client.c:358-395 | And of the pipelining client's run |
| Socks5Client.Client.ReadResponse | app/src/main/jni/hev-socks5-tunnel/src/core/src/hev-socks5-client.c:208-262 | For every input, failure or the bound address, as the run says |
| Socks5Rules.ClientSays | app/src/main/jni/hev-socks5-tunnel/src/core/src/hev-socks5-client.c:26-153 | All that a client says, in numbers: the method 0 or 2, name and password behind their lengths, and command 1, 3 or 5 with the destination |
| Socks5Rules.ClientTakes | app/src/main/jni/hev-socks5-tunnel/src/core/src/hev-socks5-client.c:155-262 | For any input, either client takes exactly these for a success: method 0, or 2 with a good answer, and a reply of 0 with an address that is not a name, which it returns |
| Socks5Server.Server.Handshake | app/src/main/jni/hev-socks5-tunnel/src/core/src/hev-socks5-server.c:474-528 | For every input, however short or malformed, the bytes sent and the verdict are those of the server's run, which `EndingIs`, `ServerServes` and `HeadRefused` give in the terms of the RFCs |
| Socks5Server.Server.Auth | app/src/main/jni/hev-socks5-tunnel/src/core/src/hev-socks5-server.c:214-239 | The part of the run up to the request |
| Socks5Server.Server.ReadRequest | app/src/main/jni/hev-socks5-tunnel/src/core/src/hev-socks5-server.c:241-323 | Command, reply code and address as the run has them, malformed requests included |
| Socks5Server.DestRuns | app/src/main/jni/hev-socks5-tunnel/src/core/src/hev-socks5-server.c:265-296 | A request whose address is complete is served as that address, and one that is cut short is answered as a bad address |
| Socks5Rules.EndingIs | app/src/main/jni/hev-socks5-tunnel/src/core/src/hev-socks5-server.c:474-528 | What the server answers to a request: 8 without a socket address, 7 for another command, 4 for a connection that fails, 1 for a socket that cannot be had, and 0 with the bound address for what it then serves |
| Socks5Rules.ServerServes | app/src/main/jni/hev-socks5-tunnel/src/core/src/hev-socks5-server.c:474-528 | For any input, the server serves a command and a destination if and only if the input asks for them, with the method that it wants and a known user, and they deserve the reply 0 |
| Socks5Rules.HeadRefused | app/src/main/jni/hev-socks5-tunnel/src/core/src/hev-socks5-server.c:241-323 | A request that cannot be read: no answer when it is cut off, 1 for another version, 8 for an unknown or incomplete address |
| Socks5Rules.DeservesOnce | app/src/main/jni/hev-socks5-tunnel/src/core/src/hev-socks5-server.c:474-528 | There is one reply that a request deserves |
| Socks5Dialog.Commute | app/src/main/jni/hev-socks5-tunnel/src/core/src/hev-socks5-client.c:319-395 | A step of the client and one of the server can be taken in either order |
| Socks5Dialog.EveryRunEnds | app/src/main/jni/hev-socks5-tunnel/src/core/src/hev-socks5-client.c:319-395 | Every run of the two over their channels is finite, and all runs come to rest in the same state |
| Socks5Dialog.Outcome | app/src/main/jni/hev-socks5-tunnel/src/core/src/hev-socks5-server.c:474-528 | For every configuration, in terms of the configuration alone: the server serves exactly the command of the kind of session and the destination, if the client is admitted and the command deserves the reply 0, and refuses otherwise with the reply code of the case; the client knows, has the bound address, and on success sent the bytes of sections 3 and 4 of RFC 1928 and section 2 of RFC 1929 with nothing left unread |
| Socks5Dialog.EveryHandshake | app/src/main/jni/hev-socks5-tunnel/src/core/src/hev-socks5-server.c:474-528 | Every complete run ends on both sides in that way: the client succeeds if and only if the server serves exactly what was asked for and the client accepts the bound address |
| Socks5Dialog.PipeliningMakesNoDifference | app/src/main/jni/hev-socks5-tunnel/src/core/src/hev-socks5-client.c:358-395 | The standard and the pipelining client come to the same verdict in every run, and send the same bytes when it is a success |
| Socks5Udp.SendMmsgTcp | app/src/main/jni/hev-socks5-tunnel/src/core/src/hev-socks5-udp.c:56-100 | The stream gets the frames of all messages, in order, if and only if all their addresses have a known type; -1 otherwise |
| Socks5Udp.RecvMmsgTcp | app/src/main/jni/hev-socks5-tunnel/src/core/src/hev-socks5-udp.c:160-232 | From a stream of frames in whatever chunks, the slots hold the first datagrams with their addresses, in order, and the stream still carries the others; it goes on until the slots are used up or the stream is over, and without waiting exactly up to the first datagram of which nothing has come yet, with -1 if that is the very first |
| Socks5Udp.RebuiltOne | app/src/main/jni/hev-socks5-tunnel/src/core/src/hev-socks5-udp.c:206-226 | The address rebuilt in place, its first two bytes from the head, is the address that was sent, and the data follows it |
| Socks5Udp.FrameParts | app/src/main/jni/hev-socks5-tunnel/src/core/src/hev-socks5-udp.c:56-100 | Where the lengths, the address and the data of a frame are |
| Socks5Udp.ReadBody | app/src/main/jni/hev-socks5-tunnel/src/core/src/hev-socks5-udp.c:189-228 | A head that is refused takes nothing from the stream; a datagram arrives as it was sent if and only if its address has at most 252 bytes |
| Socks5Udp.HeaderWraps | app/src/main/jni/hev-socks5-tunnel/src/core/src/hev-socks5-udp.c:78-79 | The one byte for the header length holds it if and only if the address has at most 252 bytes; up to 257 bytes the head is refused, and beyond that it is taken for an address of 2 or 3 bytes |
| Socks5Udp.LongName | app/src/main/jni/hev-socks5-tunnel/src/core/src/hev-socks5-udp.c:189-192 | A host name of 249 bytes is sent with a head that every receiver refuses |

## Left out

What is not modelled at all:

- Sockets, epoll, TTL tricks, memory maps, socket options, lwIP, the task scheduler, JNI and tun devices: their answers are parameters or schedules.
- The graphical, Kotlin and Python parts, configuration, command lines, logging, and allocation failure.
- The epoll form of the event pool: it has the same bookkeeping with the walk done by the kernel; the poll form is the one with a batch to get wrong.
- `change_tls_sni`, `mod_http`, `parse_http`, `is_http_redirect` and `get_http_code`: byte edits and heuristics without a specification to prove.
- The bookkeeping of the caller of `desync` (extend.c:351-361), which adds the absolute answer to the old offset; the contract of `desync` itself is proved.
- `writer.c` and the scalar text layout of the emitter; the scanner and the parser in front of the composer are not part of this model.
- The UDP-in-UDP forms of hev-socks5-udp.c, which frame nothing.
- hev-mapped-dns.c on a request shorter than the 12-byte header, of which the code reads the rest from behind the message.

What a member does not promise:

- RBTrees.RBTree.Erase: the packed parent-and-colour word is two fields, and the two mirror images of the code are one text with a side.
- RBReplace.Replace: says nothing of the fields of the victim, which the code leaves as they are.
- Conev.PoolHd.NextEvent: assumes that the iteration counter does not wrap around, because the stamps are compared for equality only.
- Conev.PoolHd.DelEvent: requires that some slot outside the chain is live, which the assertion at conev.c:116 demands and `ListenerStays` provides; the receive buffer freed with the slot is left out.
- EventPool.AddKeeps: the pool is created with arbitrary contents in its slots, because `init_pool` clears only the first one (conev.c:9-40).
- KavlTree.Kavl.Insert: requires that the number of nodes stays below 2^32, as the size field does.
- Mpool.Mphdr.Add: requires the same of the pool.
- KavlRemoval.EraseFirst: requires a tree that is not empty, as the code does; so does KavlIter.Itr.First.
- KavlFree.FreeAll: leaves the root pointer dangling, as the code does, and the tree is not usable afterwards.
- Mpool.Mphdr.Destroy: the strings and further fields of the elements are not modelled.
- MappedDns.MappedDNS.Find: requires room for one name at least; with none the code frees the very record that it has just added.
- DnsReply.ReplyDecodes: is about requests whose names hold no NUL byte and whose questions start before offset 256; `DnsReply.PointerReaches` and `DnsRequest.ScanIs` say what happens to the others.
- DnsReply.Handle: requires a request of at least a header, and memory behind the message only for the requests that `OverreadsWhen` describes; the host-order copies of two header fields are not written back and forth, and the reply buffer is unspecified where there is no reply.
- YamlSerializer.Emitter.DumpDocument: opening and closing of the stream, directives, marks and the implicit flags of nodes are left out, and anchors have the form the generator gives them.
- YamlLayout.LayoutIs: the text that goes with a state is not modelled; whether a line was just begun comes with the event.
- YamlEmitQueue.EmitterAccepts: whether a key is simple and how a scalar is styled come with the event, and events that the analysis would reject are assumed away.
- TlsRecords.TlsRec: requires that the record's declared length is at least what is there, so that the early return of `part_tls` for a shorter record (packets.c:412-414) is not taken; the caller would count it as growth. `TlsRecords.PartTls` has that case.
- Desync.Desync: sends with an urgent byte and the last send take everything or nothing; the contents of fake packets are not modelled.
- ClientHello.ParseFindsHost: is about a ClientHello with one compression method, as the code assumes.
- RingBuffer.RingBuffer.constructor: requires a size above 0.
- TcpSplice.Session.Splice: the connection acknowledges only what it was given and sends nothing after its end, packets are not empty, and the two turns take their answers from a schedule each; how long a run lasts is given by a schedule of pauses, so that it ends is not a claim about time.
- Socks5Dialog.EveryHandshake: the channels are reliable and in order, and a send never fails; user, password and host name have at most 255 bytes; resolving, connecting and binding are functions, and the answer of a subclass to the bound address is a flag.
- Socks5Udp.RecvMmsgTcp: every slot has room for an address (the program's have 1500 bytes), because the code subtracts the address length from it without a check, and every datagram of the stream fits its fields and its slot.
