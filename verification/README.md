# A verified model of Dauntless

Dauntless is an MQTT 3.1.1 broker in C. This project models the four parts of it that carry state
and proves what they promise, in Dafny 4.11:

* **The topic trie** (`src/filtering.c`): subscription filters are inserted, searched with the `+`
  and `#` wildcards, deleted and pruned on a tree of nodes changed in place. The model proves that
  the tree is an index of a flat store of (filter, client) pairs: searching it collects what a scan
  of the store collects, and deleting from it has no effect beyond the pair it names. A separate
  definition of section 4.7 of MQTT 3.1.1 says where the scan rule and the standard agree.
* **The containers** (`3rd/uthash`, `3rd/iniparser/dictionary.c`): the hash table with its expansion,
  the merge sort in four variants, KMP search in both directions, the doubly linked list, the ring
  buffer and the dictionary.
* **The broker state** (`src/session.c`, `src/event.c`): packet identifiers over whole runs, the
  agreement between session filter lists and the trie, one packet as one step with everything it
  sends, and who is reached by a PUBLISH after any run.
* **The codec** (`src/mqtt_decode.c`, `src/mqtt_encode.c`): the length codings, the two-pass parsers
  and the round trips of PUBLISH, CONNECT, SUBSCRIBE, UNSUBSCRIBE and the acknowledgements.

`dafny verify dfyconfig.toml` checks everything.

## How the model is laid out

Code that changes things in place is a class or a method over arrays and linked objects, proved
against a function or relation on values; the properties are lemmas about those values.

| files | what they model |
|---|---|
| `Topics`, `Scanning` | the tokeniser, as functions and as the scanning loops |
| `SubscriberLists` | the sorted subscriber arrays: `deduplication`, `delete_client_id` |
| `TopicStore`, `TopicRuns`, `TopicMatching` | the flat store, runs over it, the matching rule of the standard |
| `TrieShape`, `Frontier`, `TopicTrie`, `TrieRuns` | the tree on the heap, the search frontier, the operations, whole runs |
| `UtString` | KMP search |
| `Links`, `MergeSort`, `ListSort`, `DList` | linked items, the sort as a function and in place, the `DL_` macros |
| `Bits`, `Buckets`, `Expansion`, `HashTable`, `HashRuns` | masks and shifts, bucket chains, expansion, the table, runs of changes |
| `Dictionary`, `RingBuffer` | the two array containers |
| `Lengths`, `Decoder`, `Encoder`, `Codec`, `Replies` | length codings, decoder, encoder, round trips, the packets the broker answers with |
| `PacketIds`, `PacketRuns`, `Sessions`, `Delivery`, `BrokerRuns`, `Broker` | identifiers as a state machine and on the table, filter lists, publishing, the broker as a state machine and as an object |

## Where the code departs from the standard or from the obvious intent

The model follows the code. These departures are part of its specification, each with the
condition under which the code does meet the intent.

* `search` departs from section 4.7 of MQTT 3.1.1 in four ways, and `TopicMatching.Departs` says
  exactly when: the `#` list of a final node is read only when that node has no list of its own; a
  leading `+` is followed for `$` topics, a leading `#` is not; and an empty level right after a
  leading `/` is dropped, so that `/+` misses `/` (`TopicMatching.EmptySecondLevelIsLost`) and `+`
  gets it (`TopicMatching.EmptySecondLevelIsExtra`).
* For the same reason `//a` and `/a` share a list (`Topics.DroppedLevelCollides`,
  `Topics.RoundTripIffCanonical`). A client that has subscribed to both and unsubscribes from one
  loses the other too (`BrokerRuns.LeavingOneLosesBoth`); an unsubscription keeps session and trie in
  agreement exactly when it does not clash in this way
  (`BrokerRuns.StepKeepsAgreementUnlessItClashes`).
* `deduplication` completes exactly when there is at most one surplus entry; otherwise it runs off
  the array (`SubscriberLists.Deduplication`).
* `delete_client_id` finds an entry exactly when it is the middle one of its list
  (`SubscriberLists.RemovalIsExact`).
* An unsubscription that meets a node without a list dereferences NULL, as UNSUBSCRIBE `a` does after
  SUBSCRIBE `a/b`; it is safe exactly where the way is `TopicStore.Followable`
  (`TopicRuns.UnsubscribeAboveFaults`).
* A first level `$+` is an ordinary child of `sys`, but the DELETE macro looks for it among the `+`
  children (`TopicRuns.SysPlusIsAnOrdinaryChild`); every other first level it looks for where it is.
* `ML_encode` followed by `string_len` returns the leading base-128 digit, so it is the identity
  exactly below 128 (`Lengths.MLRoundTrip`), and the 128th message in flight breaks the
  acknowledgements (`PacketIds.OneTooMany`).
* `*packet_len` is the packet's length exactly when the remaining length is below 128
  (`Codec.PacketLengthIsRightBelow128`).
* The CONNECT encoder takes flag bit 6 for the user name and bit 7 for the password, the decoder the
  other way round (`Codec.ConnectRoundTrip`).
* The keep-alive time of an encoded CONNECT is right exactly below 128 seconds
  (`Codec.KeepAliveIsRightBelow128`).
* The decoded payload of a PUBLISH above QoS 0 has two zero bytes more (`Codec.PublishedAs`).
* The QoS lowered for one subscriber stays lowered for those after it
  (`Delivery.QosIsStandardUnlessItRises`); that of a will message is not raised again for a
  subscriber who was granted the will's QoS (`Delivery.WillQosIsStandardUnlessItReturns`).
* The QoS of a will loses its high bit, because `&` binds less than `+`, so a will of QoS 2 goes out
  at QoS 0 (`Broker.WillQosLosesItsHighBit`).
* A will message to a subscriber without a session dereferences NULL
  (`Broker.Server.SendWill` completes exactly when all subscribers are connected).
* Without a plugin SUBACK carries the QoS asked for with the first filter for every filter
  (`Broker.CodesAreOwnIfAllEqual`), and 0x80 there keeps all of them out (`Broker.FirstFilterDecides`).
* SUBACK is laid out as the standard says exactly up to 125 filters (`Replies.SubackIsStandardUpTo125`).
* The session-present byte of CONNACK is one exactly if no connect flag above the lowest is set
  (`Replies.SessionPresentNeedsNoFlags`).

## Model

| member | source | states |
|---|---|---|
| `Topics.InsertAndSearchTokensAgree` | src/filtering.c:298-346 | On every name without wildcards, `intercept` walks to the node that `search` reaches with the tokens it cuts from the name. |
| `Topics.RoundTripIffCanonical` | src/filtering.c:170-228 | A filter can be read back from the list it denotes exactly when it is canonical, that is when no empty level after a leading slash was dropped and no wildcard was cut short. |
| `Topics.CanonicalFiltersDoNotCollide` | src/filtering.c:206-228 | Two different canonical filters never denote the same subscriber list. |
| `Topics.DroppedLevelCollides` | src/filtering.c:180-182 | `//a` and `/a` denote one list. |
| `Topics.FilterPathOfFilterOf` | src/filtering.c:170-228 | Every list that some filter denotes is denoted by the filter read back from it. |
| `Topics.UntokensOfTokens` | src/filtering.c:374-427 | A suffix is the join of its tokens unless it starts with a slash followed by a level. |
| `Scanning.NextToken` | src/filtering.c:206-218 | One round of the scanning loop consumes exactly one slash or level and yields exactly the token the token function puts there. |
| `Scanning.FirstLevel` | src/filtering.c:177-204 | The first-level scan of a filter finds the first edge; walking the tokens of the rest from there gives the list the filter denotes. |
| `Scanning.FirstOfName` | src/filtering.c:298-320 | The first-level scan of `search` splits a name into its first token and a rest with the remaining tokens. |
| `Scanning.LevelEnd` | src/filtering.c:198 | The inner scan stops exactly at the end of the level. |
| `Scanning.SysPlusIsSpelledOut` | src/filtering.c:13-25 | The filters whose deletion looks in the wrong table are those that begin with `$+` as a whole level. |
| `SubscriberLists.Deduplication` | src/filtering.c:67-79 | Completes exactly when the array has at most one entry more than distinct clients, and then returns each client once, strictly sorted, without inventing entries. |
| `SubscriberLists.Add` | src/filtering.c:240-245 | Pushing an entry on a strictly sorted list and deduplicating always completes: one entry per client, nobody else's entry changed, the new client present. |
| `SubscriberLists.AddedIsExact` | src/filtering.c:240-245 | Entry by entry: other clients keep exactly theirs, and the client has one, the new one if it had none before. |
| `SubscriberLists.ReversedFind` | src/filtering.c:40-52 | The search with the reversed comparator finds a client exactly if it is in the middle slot. |
| `SubscriberLists.DeleteClientId` | src/filtering.c:362-372 | Removes the client exactly if it is in the middle slot, and otherwise nothing. |
| `SubscriberLists.RemovalIsExact` | src/filtering.c:362-372 | After a removal attempt the list is strictly sorted, nobody else is touched, and the client is gone exactly if it was in the middle. |
| `SubscriberLists.SingletonIsRemoved` | src/filtering.c:362-372 | The only entry of a list is always removed. |
| `TopicStore.VisitIsScan` | src/filtering.c:277-360 | Visiting exactly the selected lists, each once, in any order, collects the same entries as often as scanning all lists. |
| `TopicStore.GatheredMeansSelected` | src/filtering.c:277-360 | An entry is collected exactly when it stands in a list that the name selects. |
| `TopicStore.DeletionIsLocal` | src/filtering.c:374-491 | Deleting one pair, pruning included, changes no other pair, and removes its own exactly if the client is in the middle slot. |
| `TopicStore.DeletionKeepsOtherMatches` | src/filtering.c:374-491 | After a deletion every other non-empty list is as before and is selected by the same names. |
| `TopicStore.PruningKeepsSelection` | src/filtering.c:13-25 | Dropping dead branches changes for no list with subscribers which names select it. |
| `Frontier.CurrentAdvances` | src/filtering.c:248-275 | If the frontier holds exactly the nodes that match a prefix of the name, one token later it holds exactly those that match the longer prefix. |
| `Frontier.PassedAdvances` | src/filtering.c:263-264 | The `#` lists gathered on the way are exactly those the prefix has passed, each once. |
| `Frontier.WalkedAll` | src/filtering.c:328-355 | After the last token, the lists gathered on the way and the final lists are together exactly the selected ones, each once. |
| `TrieShape.EveryNodeIsLive` | src/filtering.c:13-25 | In a valid tree somebody is subscribed at or below every node. |
| `TrieShape.ThinnedIsPruned` | src/filtering.c:374-427 | Cutting nodes bottom-up until none is dead leaves exactly the lists that pruning the flat store leaves. |
| `TopicTrie.Trie.constructor` | src/filtering.c:9-10 | The empty trie indexes the empty store. |
| `TopicTrie.Trie.FindOrInsert` | src/filtering.c:81-156 | Finding or making a child keeps the tree shape and the store. |
| `TopicTrie.Trie.Descend` | src/filtering.c:206-228 | The scanning loop of `intercept` arrives at the node, and at which of its two lists, that the filter denotes. |
| `TopicTrie.Trie.Intercept` | src/filtering.c:158-246 | Subscribing keeps the trie valid and changes the store at the filter's list only, by adding the client there. |
| `TopicTrie.Trie.DeleteNode` | src/filtering.c:374-427 | The recursion on the suffix removes the client from the list the suffix denotes and leaves no dead node below. |
| `TopicTrie.Trie.Prune` | src/filtering.c:13-25 | The DELETE macro removes a child exactly when it is dead and loses no list with subscribers. |
| `TopicTrie.Trie.DeleteTopic` | src/filtering.c:429-491 | Unsubscribing keeps the trie valid and turns the store into the one after removing the pair and pruning. |
| `TopicTrie.Trie.NodesAreWays` | src/filtering.c:13-25 | The nodes are exactly the two roots and the ways to subscribers. |
| `TopicTrie.Trie.ArrayHand` | src/filtering.c:248-275 | Advances the frontier over one token and returns the concatenation of the `#` lists it leaves. |
| `TopicTrie.Trie.Collect` | src/filtering.c:277-355 | For every name, what `search` collects before deduplication is, entry by entry with multiplicity, what any scan of the flat store collects. |
| `TopicTrie.Trie.Search` | src/filtering.c:277-360 | Completes exactly when a scan of the store collects at most one entry more than distinct clients, and then returns each of these clients once. |
| `TrieRuns.SearchAfter` | src/filtering.c:158-491 | After any safe run of `intercept` and `delete_topic` from the empty trie and for every name but `$`, `search` collects exactly what a scan of the stored pairs collects, entry by entry with multiplicity; it completes exactly if that is at most one entry more than distinct clients, and then returns one of the entries for each client. |
| `TrieRuns.Replay` | src/filtering.c:158-491 | Every safe run on the heap is a run of the flat store, step by step, and ends in a valid trie over it. |
| `TopicRuns.RunsStayGood` | src/filtering.c:158-246 | After every run of `intercept` and `delete_topic` from the empty trie all lists are strictly sorted with one entry per client, and no branch is dead. |
| `TopicRuns.StepOnPairs` | src/filtering.c:429-491 | What each step of a run does to every stored pair, exactly. |
| `TopicRuns.SubscriptionGrantsQos` | src/filtering.c:230-245 | A new subscription is stored with the QoS asked for; no entry of another client and no other list changes. |
| `TopicRuns.UnsubscribeAboveFaults` | src/filtering.c:374-382 | After a subscription to `a/b` alone, an unsubscription from `a` meets a node without a list. |
| `TopicRuns.SysPlusIsAnOrdinaryChild` | src/filtering.c:13-25 | The first level of `$+/b` stands under a key that the DELETE macro looks up in the other table. |
| `TopicMatching.SelectionIsLevelMatching` | src/filtering.c:277-360 | The lists selected are those whose kept levels match the name's kept levels by section 4.7.1 of MQTT 3.1.1, save for `#` with `$` names and the final-node exception. |
| `TopicMatching.SelectionIsStandardUnlessDeparts` | src/filtering.c:277-360 | For every non-empty name and every non-empty filter whose leading wildcard stands alone, `search` reads the filter's list exactly when section 4.7 says so, if and only if the pair does not depart: not a hidden `#` list, not a leading `+` on a `$` name, not an empty second level dropped on one side so that the two readings of the rest differ. |
| `TopicMatching.AtMostOneMatches` | src/filtering.c:206-212 | With and without its empty level a name cannot both match one filter without `#`, so where one of the two readings matches, the other is wrong. |
| `TopicMatching.EmptySecondLevelIsExtra` | src/filtering.c:298-320 | A client subscribed to `+` gets `/`, which by the standard it should not. |
| `TopicMatching.EmptySecondLevelIsLost` | src/filtering.c:206-212 | By the standard `/+` matches `/`; here it does not. |
| `UtString.BuildTable` | 3rd/uthash/utstring.h:171-207 | Every entry of the table is the longest border whose next character differs, or -1. |
| `UtString.StrongIsUnique` | 3rd/uthash/utstring.h:171-207 | That description determines the entry. |
| `UtString.Find` | 3rd/uthash/utstring.h:251-280 | With such a table the search returns the first occurrence, or -1 exactly if there is none. |
| `UtString.BuildTableR` | 3rd/uthash/utstring.h:211-247 | The backward table is the mirror image of the forward table of the reversed needle. |
| `UtString.FindR` | 3rd/uthash/utstring.h:284-314 | The backward search returns the last occurrence, or -1 exactly if there is none. |
| `UtString.LastIsFirstReversed` | 3rd/uthash/utstring.h:364-402 | The last occurrence is the reflected first occurrence of the reversed needle in the reversed text. |
| `UtString.UtstringFind` | 3rd/uthash/utstring.h:318-360 | The first occurrence at or after the position, or for a negative one at or after that many characters before the end; -1 exactly if there is none, despite the length test that cuts the search short. |
| `UtString.UtstringFindR` | 3rd/uthash/utstring.h:364-402 | The last occurrence that ends at or before the position, counted from the end if negative, or -1 exactly if there is none. |
| `MergeSort.SortIsStable` | 3rd/uthash/utlist.h:113-171 | For every total preorder the passes yield a sorted permutation in which elements that compare equal keep their order. |
| `MergeSort.SortKeepsTies` | 3rd/uthash/utlist.h:113-171 | Of two different elements that compare equal, the one that stood first stands first. |
| `MergeSort.MergeIsStable` | 3rd/uthash/utlist.h:139-159 | One merge keeps the order of equal elements, those of the first run before those of the second. |
| `MergeSort.PassDoublesRuns` | 3rd/uthash/utlist.h:124-169 | A pass over sorted runs of length k leaves sorted runs of length 2k. |
| `MergeSort.PassesIsPermutation` | 3rd/uthash/utlist.h:113-171 | Whatever the comparison does, no element is lost or repeated. |
| `ListSort.MergeRuns` | 3rd/uthash/utlist.h:139-159 | The innermost loop relinks two runs, in any of the four list kinds, into their merge behind what is built already. |
| `ListSort.PassLoop` | 3rd/uthash/utlist.h:177-236 | One pass relinks the list in the order of the pass function; one merge was enough exactly if the list is no longer than two runs. |
| `ListSort.OnePass` | 3rd/uthash/utlist.h:240-311 | One turn of the outer loop leaves a well-formed list of its kind with the right tail and either finishes or halves what is left to do. |
| `ListSort.Sort` | 3rd/uthash/uthash.h:893-975 | All four macros end and leave the same items, whatever the comparison, as a well-formed list of their kind with the right head and tail; for a total preorder they are sorted and ties keep their order. |
| `DList.Append` | 3rd/uthash/utlist.h:641-653 | The node goes to the end; head's `prev` is the tail, tail's `next` is NULL, both directions agree. |
| `DList.Prepend` | 3rd/uthash/utlist.h:626-636 | The node goes to the front, and the links stay right. |
| `DList.Delete` | 3rd/uthash/utlist.h:708-726 | Exactly the node is gone, at any position, and the links stay right. |
| `DList.Concat` | 3rd/uthash/utlist.h:690-703 | Two lists become their concatenation, also when one is empty. |
| `DList.Replace` | 3rd/uthash/utlist.h:756-780 | The new node stands where the old one stood. |
| `DList.PrependElem` | 3rd/uthash/utlist.h:785-801 | The node goes directly before the element, or to the end. |
| `DList.AppendElem` | 3rd/uthash/utlist.h:806-822 | The node goes directly behind the element, or to the front. |
| `DList.LowerBound` | 3rd/uthash/utlist.h:674-685 | The last of the elements before the first one not below the key. |
| `DList.InsertInOrder` | 3rd/uthash/utlist.h:658-669 | The node goes in front of the first element not below it. |
| `DList.InsertionKeepsOrder` | 3rd/uthash/utlist.h:658-669 | A sorted list stays sorted and the new element stands before all equal to it. |
| `Bits.MaskIsModulo` | 3rd/uthash/uthash.h:433-436 | Masking with one less than a power of two is the remainder. |
| `Bits.CeilByShift` | 3rd/uthash/uthash.h:818-834 | The shift-and-mask form is the ceiling of the quotient. |
| `Bits.DoublingSplits` | 3rd/uthash/uthash.h:807-817 | With twice the buckets an item of bucket b belongs in b or in b plus the old count. |
| `Buckets.FindInBucket` | 3rd/uthash/uthash.h:748-767 | Finds an item with the key and hash value exactly if the chain holds one. |
| `Buckets.PushFront` | 3rd/uthash/uthash.h:770-790 | The item is linked in front of its chain and counted. |
| `Buckets.Unlink` | 3rd/uthash/uthash.h:792-804 | Exactly the item leaves its chain, at any position, and the count follows. |
| `Expansion.Redistribute` | 3rd/uthash/uthash.h:852-873 | Every item ends in the bucket its hash value selects among twice as many, with links, counts, multipliers and the number of non-ideal items right. |
| `Expansion.ExcessOfUpdate` | 3rd/uthash/uthash.h:858-864 | Counting one item changes the sum of the excess lengths by its own bucket's change. |
| `Expansion.ExcessOfOneMore` | 3rd/uthash/uthash.h:858-860 | One more item in a bucket is one more beyond the ideal length exactly if the bucket held that many already. |
| `Expansion.NoExcessMeansIdeal` | 3rd/uthash/uthash.h:858-860 | No item is in excess exactly if no bucket holds more than the ideal length. |
| `Expansion.MultiplierIsCeiling` | 3rd/uthash/uthash.h:858-864 | The step-by-step `expand_mult` is the chain length in units of the ideal length, rounded up, with its three exceptions. |
| `HashTable.CountsAddUp` | 3rd/uthash/uthash.h:519-566 | The bucket counts add up to the number of items. |
| `HashTable.Table.BucketCountsAddUp` | 3rd/uthash/uthash.h:543-546 | In a valid table the count HASH_FSCK takes over the buckets is `num_items`, the length of the list. |
| `HashTable.Table.Find` | 3rd/uthash/uthash.h:156-176 | Returns the item with the key, and NULL exactly if no item has it. |
| `HashTable.Table.Expand` | 3rd/uthash/uthash.h:836-886 | Doubles the buckets, keeps the invariant, sets the ideal length to the ceiling, the non-ideal count to the sum of the excess, and switches expansion off after two bad ones. |
| `HashTable.Table.Add` | 3rd/uthash/uthash.h:399-418 | Appends the item to the insertion order and keeps the whole invariant; a new table has 32 buckets, and otherwise they double exactly when the item's chain reaches ten times its `expand_mult` plus one and expansion is not switched off; only then do the expansion counters change, as for `Expand`. |
| `HashTable.Table.Delete` | 3rd/uthash/uthash.h:453-480 | Removes exactly the item from the insertion order and keeps the whole invariant; the last one frees the table. |
| `HashTable.Table.Iterate` | 3rd/uthash/uthash.h:1063-1065 | Visits the items in insertion order. |
| `HashTable.Table.SortTable` | 3rd/uthash/uthash.h:893-975 | The list holds the same items, sorted, with ties in their order, for every total preorder; the whole invariant is kept. |
| `HashRuns.OrderIsThatOfSurvivors` | 3rd/uthash/uthash.h:399-480 | After every legal run of adds and deletes the order is that of the insertions no later deletion undoes. |
| `HashRuns.Run` | 3rd/uthash/uthash.h:1063-1065 | On a new table every legal run keeps the invariant, and iterating visits the survivors in insertion order. |
| `Dictionary.Dict.constructor` | 3rd/iniparser/dictionary.c:150-165 | A new dictionary is the empty map, with at least 128 slots. |
| `Dictionary.Dict.Grow` | 3rd/iniparser/dictionary.c:68-101 | Twice the slots, the same contents. |
| `Dictionary.Dict.Get` | 3rd/iniparser/dictionary.c:209-227 | The key's value, which may be NULL, or the default exactly if the key is absent. |
| `Dictionary.Dict.Set` | 3rd/iniparser/dictionary.c:255-301 | The map with the key updated; a NULL key is refused; the arrays grow exactly when a new key meets full arrays. |
| `Dictionary.Dict.Unset` | 3rd/iniparser/dictionary.c:314-349 | The map without the key; a NULL key is ignored. |
| `Dictionary.Dict.FreeSlot` | 3rd/iniparser/dictionary.c:289-294 | The wrapping probe from slot n ends on a free slot whenever n is below the size. |
| `Dictionary.AsManyKeys` | 3rd/iniparser/dictionary.c:285-300 | The number of slots in use is the number of keys. |
| `RingBuffer.Ring.PushBack` | 3rd/uthash/utringbuffer.h:84-89 | After any number of pushes the readable contents are the last n pushed values in order. |
| `RingBuffer.Ring.LastPushed` | 3rd/uthash/utringbuffer.h:84-101 | The j-th readable element, counted from the oldest, is the one pushed that many places before the last. |
| `RingBuffer.Ring.Clear` | 3rd/uthash/utringbuffer.h:50-66 | The buffer is empty, as if nothing had been pushed. |
| `RingBuffer.Ring.IndexIsInverse` | 3rd/uthash/utringbuffer.h:95-101 | Element numbers and slots are mutually inverse, and a number leads to its element. |
| `RingBuffer.Ring.EltPtr` | 3rd/uthash/utringbuffer.h:97 | NULL exactly outside the contents, otherwise the slot of that element. |
| `RingBuffer.Ring.NextAndPrev` | 3rd/uthash/utringbuffer.h:104-105 | Stepping forward and back undo each other, also across NULL. |
| `RingBuffer.Ring.Iterate` | 3rd/uthash/utringbuffer.h:103-104 | Front and next visit each element once, the oldest first. |
| `Lengths.MLEncode` | src/mqtt_encode.c:9-25 | The two bytes are the leading base-128 digit and, above it, the second digit with the top bit set. |
| `Lengths.TwoDigits` | src/mqtt_encode.c:9-25 | Up to 16383 the two digits are the whole number. |
| `Lengths.MLRoundTrip` | src/mqtt_decode.c:10-27 | Reading the two bytes back gives the leading digit, hence the number itself exactly below 128. |
| `Lengths.ShortStringLen` | src/mqtt_decode.c:10-27 | What `string_len` makes of any two bytes with at most two digits; two continuation bytes at the start run off the buffer. |
| `Lengths.StringLenIsRightBelow128` | src/mqtt_decode.c:10-27 | On any two length bytes, wherever they stand, `string_len` agrees with section 1.5.3 of MQTT 3.1.1 exactly below 128. |
| `Lengths.LengthIsLimited` | src/mqtt_decode.c:18-23 | No string length exceeds 16384. |
| `Lengths.ReadRemaining` | src/mqtt_decode.c:288-296 | The loop accepts at most three length bytes. |
| `Lengths.RemainingRoundTrip` | src/mqtt_decode.c:288-299 | Every remaining length encoded as in section 2.2.3 is read back, up to 2097151; every larger one is rejected. |
| `Decoder.SubscribeTopicLen` | src/mqtt_decode.c:139-149 | The counting loop, with its faults, over any buffer. |
| `Decoder.FillFilters` | src/mqtt_decode.c:166-175 | The filling loop never writes past the counted array, and on success has filled it completely. |
| `Decoder.FillingMatchesCounting` | src/mqtt_decode.c:139-178 | On every buffer on which filling succeeds, counting gives the number of filters filled. |
| `Decoder.UnsubscribeTopicLen` | src/mqtt_decode.c:219-232 | The counting loop with its length test. |
| `Decoder.FillNames` | src/mqtt_decode.c:247-250 | The filling loop stays within the counted array. |
| `Decoder.PackDecode` | src/mqtt_decode.c:273-345 | Decodes a buffer as the specification of its packet kind says, rejections and faults included. |
| `Codec.DecodedIsOfKind` | src/mqtt_decode.c:309-342 | What is decoded is of the kind that the upper half of the first byte names, one of ten; every other kind is rejected. |
| `Codec.PingAndDisconnectAreDecoded` | src/mqtt_decode.c:332-337 | `C0 00` is a PINGREQ and `E0 00` a DISCONNECT, whatever follows. |
| `Codec.ConnectIsChecked` | src/mqtt_decode.c:52-75 | A CONNECT is accepted only with zero flags in its first byte, the name `MQTT`, version 4 and a client id of fewer than 64 bytes; with another version it is reported as such. |
| `Codec.SubscribeIsChecked` | src/mqtt_decode.c:151-156 | A SUBSCRIBE is accepted only with the first byte 0x82. |
| `Codec.PublishFlagsAreRead` | src/mqtt_decode.c:184-187 | RETAIN, QoS and DUP are bit 0, bits 1 and 2 and bit 3 of the first byte, and there is an identifier exactly above QoS 0. |
| `Encoder.EncodeString` | src/mqtt_encode.c:27-50 | The string with its length bytes; NULL and a string over 16384 bytes come out empty. |
| `Encoder.PublishEncodeQos0` | src/mqtt_encode.c:218-233 | Writes exactly the bytes of the packet and returns their number. |
| `Encoder.PublishEncodeQos12` | src/mqtt_encode.c:236-254 | The same with the packet identifier. |
| `Encoder.ConnectEncode` | src/mqtt_encode.c:128-177 | NULL for odd flags, otherwise exactly the bytes of header and announced strings, NULL ones empty, in a buffer of the size added up before. |
| `Codec.KeepAliveIsRightBelow128` | src/mqtt_encode.c:146-151 | The keep-alive time sent is the one asked for exactly below 128 seconds; from 16384 on it is one minute. |
| `Codec.PublishRoundTrip` | src/mqtt_decode.c:180-205 | For every topic, NUL-free payload and trailing bytes, decoding undoes encoding exactly when the topic is not empty and the remaining length is below 128. |
| `Codec.ConnectRoundTrip` | src/mqtt_decode.c:52-129 | For every request, decoding undoes encoding exactly when the strings sent have 1 to 127 bytes and the client id fewer than 64, the remaining length is below 128, and the user name and password flags are equal. |
| `Codec.SubscribeIsDecoded` | src/mqtt_decode.c:151-178 | A SUBSCRIBE laid out as in section 3.8, with filters of any length, decodes to its filters in order exactly when each has 1 to 127 bytes and the remaining length is at most 2097151; with a larger one it is rejected. |
| `Codec.UnsubscribeIsDecoded` | src/mqtt_decode.c:234-253 | The same for UNSUBSCRIBE and section 3.10. |
| `Codec.PacketLengthIsRightBelow128` | src/mqtt_decode.c:298 | `*packet_len` is the packet's length exactly when the remaining length is below 128. |
| `Replies.AcknowledgementRoundTrip` | src/mqtt_encode.c:256-266 | The four acknowledgements are decoded to their kind and identifier bytes, whatever follows. |
| `Replies.SubackToHex` | src/mqtt_encode.c:317-333 | Writes exactly the bytes of the packet, the length and each code cut down to a byte. |
| `Replies.CodesAreSent` | src/mqtt_encode.c:317-333 | Return codes that are bytes are sent unchanged behind the identifier. |
| `Replies.SubackIsStandardUpTo125` | src/mqtt_encode.c:335-355 | The packet is the one of section 3.9 of MQTT 3.1.1 exactly if it answers at most 125 filters. |
| `Replies.SessionPresentNeedsNoFlags` | src/event.c:66 | The session-present byte is one exactly if no flag above the lowest is set; never for a clean session. |
| `Replies.ConnackIsSpelledOut` | src/event.c:66-124 | The four bytes of both CONNACK packets: return code 0 for an accepted connection, 5 for a refused one. |
| `PacketIds.PacketTable.Add` | src/session.c:426-460 | Stores the message in the least free slot and changes no other; a full table returns the last number and stores nothing. |
| `PacketIds.PacketTable.Delete` | src/session.c:462-475 | Frees exactly the slot. |
| `PacketIds.IdsStayLow` | src/session.c:431-459 | The next identifier exceeds the number of messages in flight by at most one; its slot is taken exactly when the table is full. |
| `PacketIds.RunsStayInStep` | src/event.c:159-229 | In every run with at most 127 messages in flight, identifiers are distinct, each message has its own slot, and each acknowledgement frees exactly its own message's slot. |
| `PacketIds.OneTooMany` | src/mqtt_encode.c:9-25 | With 127 messages in flight the next one gets 128, and its acknowledgement frees the slot of another message. |
| `PacketRuns.Replay` | src/session.c:426-475 | On a new table, with the identifier bytes sent out and read back, every run of sends and acknowledgements goes through the states of the abstract machine; with at most 127 messages in flight each acknowledgement frees its own message's slot. |
| `Sessions.Session.FindTopic` | src/session.c:198 | The binary search finds a filter exactly if it is in the list. |
| `Sessions.Session.SubscribeTopic` | src/session.c:196-204 | The list stays strictly sorted and gains exactly the filter. |
| `Sessions.Session.UnsubscribeTopic` | src/session.c:206-220 | The list stays strictly sorted and loses exactly the filter. |
| `Delivery.CopiesAreInOrder` | src/event.c:145-188 | Each subscriber found gets one copy of the message, in order, at its QoS and on its session's socket. |
| `Delivery.QosIsStandardUnlessItRises` | src/event.c:149-152 | Every subscriber gets the lesser of published and granted QoS exactly when that value never rises along the list. |
| `Delivery.WillQosIsStandardUnlessItReturns` | src/session.c:283-284 | Every subscriber of a will gets the lesser QoS exactly when none who was granted the will's QoS comes after one who was not. |
| `Delivery.MatchingClientsAreServed` | src/event.c:141-187 | Exactly one copy goes to every connected client with a subscription that the name selects, and no copy to a client without one. |
| `Delivery.CopiesAreStored` | src/event.c:159-168 | While the table does not fill up, every copy above QoS 0 is stored in a slot that was free, under the identifier sent with it; no other message is touched and the table grows by exactly these copies. |
| `Delivery.CopiesKeepStep` | src/event.c:145-188 | With at most 127 messages in flight a PUBLISH leaves the table in step: messages in flight keep their identifiers, and every copy above QoS 0 is pending under the identifier whose bytes went out with it. |
| `Delivery.HeldForIsExact` | src/event.c:71-97 | Redelivery picks exactly the identifiers that hold a message for the client. |
| `Delivery.HeldForRises` | src/event.c:71-97 | In increasing order. |
| `BrokerRuns.StepKeepsOrder` | src/event.c:237-295 | Every step keeps the store free of dead branches, the filter lists sorted and the sockets distinct. |
| `BrokerRuns.StepKeepsAgreementUnlessItClashes` | src/event.c:237-295 | A step keeps the agreement, each filter in a live session's list stored in the trie under its client id, exactly unless it is an unsubscription whose list another filter of the client denotes and whose middle entry is the client's. |
| `BrokerRuns.LeavingOneLosesBoth` | src/filtering.c:180-182 | After subscriptions to `/a` and `//a` and an unsubscription from `/a`, the session still lists `//a` but the trie does not hold it. |
| `BrokerRuns.CanonicalIsSeparate` | src/filtering.c:206-228 | Runs with canonical filters never clash. |
| `BrokerRuns.RunsAgree` | src/event.c:35-300 | After every run of connects, subscriptions, unsubscriptions and closes the order holds, and the agreement too if no client leaves one of two filters for one list. |
| `BrokerRuns.SubscribingGrants` | src/event.c:243-258 | The steps of a SUBSCRIBE packet store exactly its filters under its client, add them to its session's list, and leave all other pairs and sessions alone. |
| `BrokerRuns.UnsubscribingDeletes` | src/event.c:271-276 | The steps of an UNSUBSCRIBE packet take its filters from the session's list and delete them one after the other. |
| `BrokerRuns.DeletedAllIsExact` | src/session.c:173-187 | Deleting a session's filters leaves every other pair, and of its own exactly those whose entry was not the middle one at the start. |
| `BrokerRuns.ListedAreFollowable` | src/session.c:173-187 | In a state in agreement `delete_topic` survives every filter a session lists, a first level `$+` aside. |
| `BrokerRuns.CloseIsExact` | src/session.c:309-313 | The same for closing a clean session in any orderly state. |
| `BrokerRuns.ResumableSessionsLeaveAll` | src/session.c:177-190 | Closing a session that is not clean leaves every stored pair and every other session. |
| `BrokerRuns.CloseRemovesUnsharedFilters` | src/session.c:173-194 | A filter nobody else has is gone after the close. |
| `BrokerRuns.StaysFollowable` | src/filtering.c:374-427 | A deletion takes no list from a way that stays, so later deletions remain safe. |
| `TopicStore.EachMatchIsListedOnce` | src/event.c:141-147 | The answer to a search names every client with a selected subscription once, and nobody else. |
| `Broker.RunsServeAll` | src/event.c:141-187 | After any separate run from the empty broker, a PUBLISH that completes sends exactly one copy of its message to the socket of every live session that lists a filter selected by the name, none to a client without such a subscription, and none above the published or the granted QoS. |
| `Broker.RunsServeWills` | src/session.c:267-307 | The same for the will of a session that ends, at no more than the will's QoS. |
| `Broker.PacketsChangeSubscriptions` | src/event.c:35-300 | What each kind of packet does to stored pairs and session lists: SUBSCRIBE and UNSUBSCRIBE as above, the end of a session as for a close, every other packet nothing. |
| `Broker.EffectKeepsStep` | src/event.c:131-298 | Every packet that completes leaves the packet table in step with at most 127 messages in flight, if clients acknowledge only what is pending; each acknowledgement is the step of the identifier machine for its own message. |
| `Broker.AcknowledgementFreesItsOwn` | src/event.c:203-229 | In a table in step the bytes sent with a pending message bring back exactly its own slot. |
| `Broker.NamedSlot` | src/event.c:206-209 | Which slot two identifier bytes name, for all bytes. |
| `Broker.AnswersAreStandard` | src/event.c:191-291 | Byte for byte the acknowledgements of sections 3.4 to 3.7, 3.9, 3.11 and 3.13 of MQTT 3.1.1, with the identifier of the packet answered. |
| `Broker.PluginDecides` | src/event.c:245-248 | With a plugin every filter is answered as the plugin says. |
| `Broker.AdmittedAreThere` | src/event.c:254-260 | The filters subscribed to are exactly those not answered 0x80. |
| `Broker.FlagsAreRead` | src/session.c:163-164 | The clean flag is bit 1; a will keeps its topic, its message and bit 3 for its QoS. |
| `Broker.WillQosLosesItsHighBit` | src/session.c:164 | The stored QoS of a will is its low bit, so it is the one asked for exactly below 2. |
| `Broker.FirstFilterDecides` | src/event.c:243-258 | Without a plugin a SUBSCRIBE packet is admitted as a whole, or with 0x80 for its first filter not at all. |
| `Broker.CodesAreOwnIfAllEqual` | src/event.c:251 | Without a plugin every filter is answered with its own QoS exactly if all ask for the same. |
| `Broker.Server.Connect` | src/event.c:62-97 | Adds a session with this socket, client id, clean flag and will to both tables, keeps the invariant, answers CONNACK, and names the messages to be sent again. |
| `Broker.Server.Subscribe` | src/event.c:237-266 | Keeps the invariant, takes the steps of the filters whose return code is not 0x80, one after the other, and answers with all codes. |
| `Broker.Server.Unsubscribe` | src/event.c:268-279 | Keeps the invariant, takes the steps of its names one after the other, and answers UNSUBACK. |
| `Broker.Server.Publish` | src/event.c:131-189 | Sends the copies and stores the messages that the delivery function says, to the clients `search` found; no output exactly when the search runs off its array. |
| `Broker.Server.Acknowledge` | src/event.c:203-229 | The slot that `string_len` makes of the two identifier bytes is free afterwards, every other one as before. |
| `Broker.Server.SendWill` | src/session.c:279-304 | Completes exactly when all subscribers are connected, and then sends and stores what the delivery function says. |
| `Broker.Server.PublishWill` | src/session.c:267-307 | Nothing without a will; otherwise the copies of the will message to the clients `search` found. |
| `Broker.Server.Delete` | src/session.c:173-194 | Takes the session out of both tables and, if clean, its filters out of the trie, keeping the invariant for all others. |
| `Broker.Server.Close` | src/session.c:309-313 | The will message, then the deletion; if the will does not get through, nothing is deleted. |
| `Broker.Server.Handle` | src/event.c:35-300 | One packet as one step: what each kind of packet does to subscriptions, sessions and packet table, the copies and answers it sends, when the connection is dropped, and that the invariant survives. |

## Left out

- Topics.FilterPath: the key `$` alone is excluded, because the scanner then reads past its terminator.
- TrieRuns.SearchAfter: restricted to runs in which no unsubscription meets a way without a list, for the reason given for DeleteTopic.
- TopicTrie.Trie.DeleteTopic: requires that a way to a node comes with a list, because `delete_client_id` dereferences the list (`TopicRuns.UnsubscribeAboveFaults`), and excludes a first level `$+`, which the DELETE macro looks for in the wrong table (`TopicRuns.SysPlusIsAnOrdinaryChild`).
- TopicTrie.Trie.Collect: the topic nodes' hash tables are maps here; that the real tables behave like maps is what HashTable proves. Their iteration order is not used by the source.
- SubscriberLists.Qsort: which of two equal entries `qsort` puts first is left open, as in C; the search is the one of the GNU C library, which probes `(l + u) / 2`.
- HashTable.Table.Add: the hash function is an arbitrary function of the key, and hash values and counts are unbounded naturals, so 32-bit wrap-around is not modelled; the Bloom filter, key emission and allocation failure are not modelled.
- UtString.Find: positions are unbounded, so `long` overflow is not modelled.
- Lengths.ReadStringLen: the multiplier is unbounded; the C `int` would overflow after four continuation bytes of zero value.
- Lengths.MLEncode: negative arguments are not modelled, as no caller passes one.
- Dictionary.Dict.Set: allocation failure is not modelled.
- RingBuffer.Ring.PushBack: element constructors and destructors are not modelled.
- Broker.Server.Connect: takeover of a live client id and a second CONNECT on one socket are excluded, because `session_add` looks the struct pointer up instead of the string; generated client ids are a parameter.
- Broker.Server.Close: for a clean session the filters listed must be ones that `delete_topic` survives, which holds in every state in agreement (`BrokerRuns.ListedAreFollowable`), a first level `$+` aside.
- Broker.Server.Acknowledge: a slot named by an acknowledgement must be occupied, because freeing an empty slot frees a NULL pointer; that any client may acknowledge any slot is kept.
- Broker.Server.Handle: decoding is done by Decoder and the packets arrive here with their strings as characters; what a plugin says about a connection or a filter is a parameter, and what it is told about a publication, which it cannot influence, is not modelled.
- Sockets, TLS, event loop, logging, configuration, signals and process start: input and output only.
- Memory: sizes of allocations, missing terminators, leaks and frees.
- Framing of several packets in one read buffer: only the last packet length is tracked, so there is no clean claim.
- `mqtt_subscribe_encode`: its length uses the first filter only; the parse theorem uses the standard's layout instead.
- `iniparser.c`, `log.c`, `utarray.h`, `utstack.h`, the singly linked and circular list operations other than sorting, `HASH_SELECT` and in-order hash insertion: easy members, or parsing that depends on `sscanf`.
